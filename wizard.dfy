/**
 * The deterministic parts of the set-up dialogue: the deadline check of
 * `ask_channel`, the channel check of `ask_link`, `normalize_link` used by
 * `confirm`, and the button `make_keyboard` builds.
 */
module Wizard {

  import opened Options
  import opened Text

  /** Outcome of one dialogue answer: go on with the value, or ask the same question again. */
  datatype Step<T> = Advance(value: T) | Retry(reason: Refusal)

  datatype Refusal = BadFormat | InThePast | BadChannel

  /**
   * `ask_channel`: `parsed` is what `parse_deadline` made of the answer (None when
   * it raised), `now` the current instant, both in microseconds. The deadline is
   * kept only when it lies strictly after `now`.
   */
  function AskChannel(parsed: Option<int>, now: int): (r: Step<int>)
    ensures r.Advance? <==> parsed.Some? && parsed.value > now
    ensures r.Advance? ==> r.value == parsed.value
    ensures parsed.None? ==> r == Retry(BadFormat)
    ensures parsed.Some? && parsed.value <= now ==> r == Retry(InThePast)
  {
    if parsed.None? then Retry(BadFormat)
    else if parsed.value <= now then Retry(InThePast)
    else Advance(parsed.value)
  }

  /** The channel test of `ask_link`: a `@username` or a `-100…` numeric identity. */
  predicate ChannelAccepted(ch: string) {
    StartsWith(ch, "@") || StartsWith(ch, "-100")
  }

  /** `ask_link`: the answer is stripped, then kept only when it names a channel. */
  function AskLink(text: string): (r: Step<string>)
    ensures r.Advance? <==> ChannelAccepted(Strip(text))
    ensures r.Advance? ==> r.value == Strip(text)
    ensures r.Retry? ==> r.reason == BadChannel
  {
    var ch := Strip(text);
    if ChannelAccepted(ch) then Advance(ch) else Retry(BadChannel)
  }

  /** The channel test, spelled out character by character. */
  lemma ChannelAcceptedIff(ch: string)
    ensures ChannelAccepted(ch) <==>
              (|ch| >= 1 && ch[0] == '@')
              || (|ch| >= 4 && ch[0] == '-' && ch[1] == '1' && ch[2] == '0' && ch[3] == '0')
  {
    if |ch| >= 4 && ch[0] == '-' && ch[1] == '1' && ch[2] == '0' && ch[3] == '0' {
      assert ch[..4] == "-100";
    }
    if |ch| >= 1 && ch[0] == '@' {
      assert ch[..1] == "@";
    }
  }

  /** Answers that mean "no link", compared after lower-casing. */
  const NoLinkWords: set<string> := {"null", "none", "-", "\U{2014}"}

  /** `normalize_link`. */
  function NormalizeLink(s: Option<string>): Option<string> {
    if s.None? || s.value == [] then None
    else if Lower(Strip(s.value)) in NoLinkWords then None
    else Some(Strip(s.value))
  }

  /** Empty or missing input, and any spelling of a no-link word, give no link. */
  lemma NormalizeLinkNone(s: Option<string>)
    ensures NormalizeLink(s).None? <==>
              s.None? || s.value == [] || Lower(Strip(s.value)) in NoLinkWords
  {
  }

  /**
   * Any other input gives its stripped core with its case kept: the answer is
   * whitespace, then the link, then whitespace.
   */
  lemma NormalizeLinkSome(s: string, a: string, t: string, b: string)
    requires s == a + t + b && AllSpace(a) && AllSpace(b) && Stripped(t)
    requires s != [] && Lower(t) !in NoLinkWords
    ensures NormalizeLink(Some(s)) == Some(t)
  {
    StripOfPadded(a, t, b);
  }

  /** Any case of `NULL`, `None` and so on counts as no link, with surrounding blanks. */
  lemma NormalizeLinkIgnoresCase(a: string, t: string, b: string)
    requires AllSpace(a) && AllSpace(b) && Stripped(t)
    requires Lower(t) in NoLinkWords
    ensures NormalizeLink(Some(a + t + b)) == None
  {
    StripOfPadded(a, t, b);
  }

  /**
   * `NULL`, `None`, `nULl` and every other spelling of a no-link word in its
   * own letters, small or capital, with blanks around it, give no link.
   */
  lemma NoLinkWordInAnyCase(a: string, t: string, b: string, w: string)
    requires AllSpace(a) && AllSpace(b) && w in NoLinkWords && CaseOf(t, w)
    ensures NormalizeLink(Some(a + t + b)) == None
  {
    assert NoCapitals(w) && |w| > 0 && !IsSpace(w[0]) && !IsSpace(w[|w| - 1]);
    assert !IsSpace(t[0]) && !IsSpace(t[|t| - 1]);
    LowerOfCase(t, w);
    StripOfPadded(a, t, b);
  }

  /**
   * A link `normalize_link` keeps is kept unchanged by a second pass, unless
   * it is the empty string a blank-only answer is reduced to.
   */
  lemma NormalizeLinkIdempotent(s: Option<string>)
    requires NormalizeLink(s).Some? && NormalizeLink(s).value != []
    ensures NormalizeLink(NormalizeLink(s)) == NormalizeLink(s)
  {
    StripIdempotent(s.value);
  }

  /** A blank-only answer is not a no-link word: it leaves an empty link. */
  lemma BlankLinkIsEmpty(s: string)
    requires s != [] && AllSpace(s)
    ensures NormalizeLink(Some(s)) == Some([])
  {
    assert s == s + [] + [];
    StripOfPadded(s, [], []);
  }

  /** What pressing the button does: open a URL, or send back callback data. */
  datatype Action = OpenUrl(url: string) | Callback(data: string)

  datatype Button = Button(text: string, action: Action)

  /** An inline keyboard: rows of buttons. */
  datatype Keyboard = Keyboard(rows: seq<seq<Button>>)

  /** The hourglass and space in front of every countdown label. */
  const LabelPrefix: string := "\U{23F3} "

  /**
   * `make_keyboard`: one button showing the countdown `caption`; it opens `url` when
   * that is a non-empty string, and otherwise answers with the `noop` callback.
   */
  function MakeKeyboard(caption: string, url: Option<string>): (k: Keyboard)
    ensures |k.rows| == 1 && |k.rows[0]| == 1
    ensures k.rows[0][0].text == LabelPrefix + caption
    ensures k.rows[0][0].action.OpenUrl? <==> url.Some? && url.value != []
    ensures k.rows[0][0].action.OpenUrl? ==> k.rows[0][0].action.url == url.value
    ensures k.rows[0][0].action.Callback? ==> k.rows[0][0].action.data == "noop"
  {
    var action := if url.Some? && url.value != [] then OpenUrl(url.value) else Callback("noop");
    Keyboard([[Button(LabelPrefix + caption, action)]])
  }

  /** The caption is recovered from the keyboard by dropping the prefix. */
  lemma KeyboardShowsLabel(caption: string, url: Option<string>)
    ensures var text := MakeKeyboard(caption, url).rows[0][0].text;
            StartsWith(text, LabelPrefix) && text[|LabelPrefix|..] == caption
  {
  }

  /**
   * From the link answer of the dialogue to the button: it opens a URL exactly
   * when the stripped answer is non-empty and not a no-link word, and that URL
   * is the stripped answer.
   */
  lemma LinkAnswerToButton(answer: string, caption: string)
    ensures var action := MakeKeyboard(caption, NormalizeLink(Some(answer))).rows[0][0].action;
            && (action.OpenUrl? <==> Strip(answer) != [] && Lower(Strip(answer)) !in NoLinkWords)
            && (action.OpenUrl? ==> action.url == Strip(answer))
            && (action.Callback? ==> action.data == "noop")
  {
    if answer == [] {
      assert Strip(answer) == [];
    }
  }
}
