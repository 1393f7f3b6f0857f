/**
 * The few operations on Python `str` values that the bot relies on:
 * `strip()`, `lower()` and `startswith()`. Strings are sequences of
 * Unicode scalar values, as Python's are sequences of code points.
 */
module Text {

  /** Characters for which Python's `str.isspace()` holds, the set `str.strip()` removes. */
  predicate IsSpace(c: char) {
    || ('\t' <= c <= '\r')
    || ('\U{1C}' <= c <= '\U{1F}')
    || c == ' '
    || c == '\U{85}'
    || c == '\U{A0}'
    || c == '\U{1680}'
    || ('\U{2000}' <= c <= '\U{200A}')
    || c == '\U{2028}'
    || c == '\U{2029}'
    || c == '\U{202F}'
    || c == '\U{205F}'
    || c == '\U{3000}'
  }

  predicate AllSpace(s: string) {
    forall k :: 0 <= k < |s| ==> IsSpace(s[k])
  }

  /** No whitespace at either end: what `strip()` produces. */
  predicate Stripped(s: string) {
    s == [] || (!IsSpace(s[0]) && !IsSpace(s[|s| - 1]))
  }

  lemma AllSpaceConcat(a: string, b: string)
    requires AllSpace(a) && AllSpace(b)
    ensures AllSpace(a + b)
  {
    forall k | 0 <= k < |a + b| ensures IsSpace((a + b)[k]) {
      if k < |a| { assert (a + b)[k] == a[k]; } else { assert (a + b)[k] == b[k - |a|]; }
    }
  }

  /** `s.lstrip()`: the longest suffix of `s` that does not start with whitespace. */
  function StripLeft(s: string): (r: string)
    ensures |r| <= |s| && r == s[|s| - |r|..]
    ensures AllSpace(s[..|s| - |r|])
    ensures r == [] || !IsSpace(r[0])
  {
    if s != [] && IsSpace(s[0]) then
      var t := s[1..];
      var r := StripLeft(t);
      assert s[..|s| - |r|] == [s[0]] + t[..|t| - |r|];
      AllSpaceConcat([s[0]], t[..|t| - |r|]);
      r
    else s
  }

  /** `s.rstrip()`: the longest prefix of `s` that does not end with whitespace. */
  function StripRight(s: string): (r: string)
    ensures |r| <= |s| && r == s[..|r|]
    ensures AllSpace(s[|r|..])
    ensures r == [] || !IsSpace(r[|r| - 1])
  {
    if s != [] && IsSpace(s[|s| - 1]) then
      var t := s[..|s| - 1];
      var r := StripRight(t);
      assert s[|r|..] == t[|r|..] + [s[|s| - 1]];
      AllSpaceConcat(t[|r|..], [s[|s| - 1]]);
      r
    else s
  }

  /** `s.strip()`. */
  function Strip(s: string): string {
    StripRight(StripLeft(s))
  }

  /** Removing leading whitespace in front of a part that does not start with it. */
  lemma {:induction false} StripLeftOfPadded(a: string, x: string)
    requires AllSpace(a)
    requires x == [] || !IsSpace(x[0])
    ensures StripLeft(a + x) == x
  {
    if a != [] {
      assert (a + x)[1..] == a[1..] + x;
      StripLeftOfPadded(a[1..], x);
    }
  }

  /** Removing trailing whitespace behind a part that does not end with it. */
  lemma {:induction false} StripRightOfPadded(x: string, b: string)
    requires AllSpace(b)
    requires x == [] || !IsSpace(x[|x| - 1])
    ensures StripRight(x + b) == x
  {
    if b != [] {
      assert (x + b)[..|x + b| - 1] == x + b[..|b| - 1];
      StripRightOfPadded(x, b[..|b| - 1]);
    }
  }

  /**
   * `strip()` characterised without reference to how it is computed: if `s` is
   * whitespace, then a core `t` with no whitespace at its ends, then whitespace,
   * `s.strip()` is `t`.
   */
  lemma StripOfPadded(a: string, t: string, b: string)
    requires AllSpace(a) && AllSpace(b) && Stripped(t)
    ensures Strip(a + t + b) == t
  {
    if t == [] {
      assert a + t + b == a + b;
      assert AllSpace(a + b);
    } else {
      assert a + t + b == a + (t + b);
      StripLeftOfPadded(a, t + b);
      StripRightOfPadded(t, b);
    }
  }

  lemma SliceOfSuffix(s: string, i: nat, j: nat)
    requires i <= j <= |s|
    ensures s[i..j] == s[i..][..j - i] && s[j..] == s[i..][j - i..]
  {
  }

  /** Every string splits into leading whitespace, its stripped core and trailing whitespace. */
  lemma StripSplits(s: string) returns (i: nat, j: nat)
    ensures i <= j <= |s| && s[i..j] == Strip(s)
    ensures AllSpace(s[..i]) && AllSpace(s[j..])
    ensures Stripped(Strip(s))
  {
    var l := StripLeft(s);
    i := |s| - |l|;
    var r := StripRight(l);
    j := i + |r|;
    SliceOfSuffix(s, i, j);
  }

  /** `strip()` is idempotent. */
  lemma StripIdempotent(s: string)
    ensures Strip(Strip(s)) == Strip(s)
  {
    var _, _ := StripSplits(s);
    var t := Strip(s);
    assert t == [] + t + [];
    StripOfPadded([], t, []);
  }

  /** Python's `lower()` on one character, for the ASCII capitals. */
  function LowerChar(c: char): (r: char)
    ensures 'A' <= c <= 'Z' ==> 'a' <= r <= 'z' && r as int - 'a' as int == c as int - 'A' as int
    ensures !('A' <= c <= 'Z') ==> r == c
  {
    if 'A' <= c <= 'Z' then (c as int + 32) as char else c
  }

  /** `s.lower()`, restricted to ASCII case mapping. */
  function Lower(s: string): (r: string)
    ensures |r| == |s|
    ensures forall k :: 0 <= k < |s| ==> r[k] == LowerChar(s[k])
  {
    seq(|s|, k requires 0 <= k < |s| => LowerChar(s[k]))
  }

  /** No ASCII capital letters. */
  predicate NoCapitals(w: string) {
    forall k :: 0 <= k < |w| ==> !('A' <= w[k] <= 'Z')
  }

  /** `t` spells `w` with any of its small letters written as capitals. */
  predicate CaseOf(t: string, w: string) {
    && |t| == |w|
    && forall k :: 0 <= k < |t| ==>
         || t[k] == w[k]
         || ('a' <= w[k] <= 'z' && t[k] as int - 'A' as int == w[k] as int - 'a' as int)
  }

  /** Lower-casing any spelling of a word without capitals gives the word. */
  lemma LowerOfCase(t: string, w: string)
    requires NoCapitals(w) && CaseOf(t, w)
    ensures Lower(t) == w
  {
    forall k | 0 <= k < |t| ensures Lower(t)[k] == w[k] {
      if t[k] != w[k] {
        assert 'A' <= t[k] <= 'Z';
      }
    }
  }

  /** `s.startswith(p)`. */
  predicate StartsWith(s: string, p: string) {
    p <= s
  }
}
