/**
 * The countdown label `fmt_dd_hh_mm`: a remaining time rendered as
 * `DD kun, HH:MM` ("kun" is Uzbek for "day"), clamped at zero and rounded
 * down to the minute.
 *
 * A Python `timedelta` is an exact whole number of microseconds, so a span is
 * an `int` of microseconds here.
 */
module Duration {

  import opened Options
  import opened Decimal

  const MicrosPerSecond: int := 1_000_000

  /** `int(max(0, delta.total_seconds()))`: whole seconds of a span, zero when it is not positive. */
  function WholeSeconds(delta: int): nat {
    if delta <= 0 then 0 else delta / 1_000_000
  }

  /** The whole seconds are zero for a span that is not positive, and its floor otherwise. */
  lemma WholeSecondsFloor(delta: int)
    ensures delta <= 0 ==> WholeSeconds(delta) == 0
    ensures delta > 0 ==> WholeSeconds(delta) * 1_000_000 <= delta < (WholeSeconds(delta) + 1) * 1_000_000
  {
  }

  /** The number of whole minutes in the clamped span. */
  function WholeMinutes(delta: int): nat {
    WholeSeconds(delta) / 60
  }

  /** The days, hours and minutes a label shows. */
  datatype Parts = Parts(days: nat, hours: nat, minutes: nat)

  /**
   * The arithmetic of `fmt_dd_hh_mm`: the whole seconds less their remainder
   * modulo 60, then `divmod` by 86400 and by 3600, then `// 60`.
   */
  function Split(delta: int): Parts {
    var total := WholeSeconds(delta);
    var floored := total - total % 60;
    var d, r := floored / 86400, floored % 86400;
    var h, r' := r / 3600, r % 3600;
    var m := r' / 60;
    Parts(d, h, m)
  }

  /**
   * Hours lie in [0, 23] and minutes in [0, 59]; the days, hours and minutes
   * add up to the clamped span floored to a multiple of 60 seconds, that is, to
   * its whole minutes.
   */
  lemma SplitBounds(delta: int)
    ensures var p := Split(delta);
            && p.hours <= 23 && p.minutes <= 59
            && var shown := p.days * 86400 + p.hours * 3600 + p.minutes * 60;
               shown % 60 == 0 && shown <= WholeSeconds(delta) < shown + 60
    ensures var p := Split(delta);
            p.days * 1440 + p.hours * 60 + p.minutes == WholeMinutes(delta)
  {
  }

  /** `f"{d:02d} kun, {h:02d}:{m:02d}"`. */
  function Render(p: Parts): string {
    Pad2(p.days) + " kun, " + Pad2(p.hours) + ":" + Pad2(p.minutes)
  }

  /** `fmt_dd_hh_mm(delta)`. */
  function FmtDdHhMm(delta: int): string {
    Render(Split(delta))
  }

  /** Length of the run of digits that starts `s`. */
  function DigitRun(s: string): (k: nat)
    ensures k <= |s| && AllDigits(s[..k])
    ensures k < |s| ==> !IsDigit(s[k])
  {
    if s != [] && IsDigit(s[0]) then 1 + DigitRun(s[1..]) else 0
  }

  /** Reads a label back into the days, hours and minutes it shows. */
  function ParseLabel(s: string): Option<Parts> {
    var k := DigitRun(s);
    ParseAfterDays(Value(s[..k]), s[k..])
  }

  /** Reads the part of a label after its days: ` kun, `, two digits, `:`, two digits. */
  function ParseAfterDays(days: nat, tail: string): Option<Parts> {
    if |tail| == 11 && tail[..6] == " kun, " && AllDigits(tail[6..8]) && tail[8] == ':' && AllDigits(tail[9..])
    then Some(Parts(days, Value(tail[6..8]), Value(tail[9..])))
    else None
  }

  lemma {:induction false} DigitRunOfConcat(x: string, y: string)
    requires AllDigits(x)
    requires y == [] || !IsDigit(y[0])
    ensures DigitRun(x + y) == |x|
  {
    if x != [] {
      assert (x + y)[1..] == x[1..] + y;
      DigitRunOfConcat(x[1..], y);
    }
  }

  /** Reading a label splits it after its leading run of digits. */
  lemma LabelSplitsAtDays(ds: string, tail: string)
    requires AllDigits(ds) && (tail == [] || !IsDigit(tail[0]))
    ensures ParseLabel(ds + tail) == ParseAfterDays(Value(ds), tail)
  {
    DigitRunOfConcat(ds, tail);
    assert (ds + tail)[..|ds|] == ds && (ds + tail)[|ds|..] == tail;
  }

  /** The part after the days, assembled from two digits each for hours and minutes, reads back as their values. */
  lemma ParseTailAssembled(days: nat, hs: string, ms: string)
    requires AllDigits(hs) && AllDigits(ms) && |hs| == 2 && |ms| == 2
    ensures ParseAfterDays(days, " kun, " + hs + ":" + ms) == Some(Parts(days, Value(hs), Value(ms)))
  {
    var tail := " kun, " + hs + ":" + ms;
    assert tail[..6] == " kun, " && tail[6..8] == hs && tail[8] == ':' && tail[9..] == ms;
  }

  /** Rendering then reading back gives the same parts, for two-digit hours and minutes. */
  lemma ParseRender(p: Parts)
    requires p.hours < 100 && p.minutes < 100
    ensures ParseLabel(Render(p)) == Some(p)
  {
    Pad2Reads(p.days);
    Pad2Reads(p.hours);
    Pad2Reads(p.minutes);
    var ds, hs, ms := Pad2(p.days), Pad2(p.hours), Pad2(p.minutes);
    var tail := " kun, " + hs + ":" + ms;
    assert Render(p) == ds + tail;
    LabelSplitsAtDays(ds, tail);
    ParseTailAssembled(Value(ds), hs, ms);
  }

  /** Every label reads back as hours in [0, 23], minutes in [0, 59] and the span's whole minutes. */
  lemma LabelReadsBack(delta: int)
    ensures ParseLabel(FmtDdHhMm(delta)) == Some(Split(delta))
    ensures var p := Split(delta);
            p.hours <= 23 && p.minutes <= 59 && p.days * 1440 + p.hours * 60 + p.minutes == WholeMinutes(delta)
  {
    SplitBounds(delta);
    ParseRender(Split(delta));
  }

  /** A span of zero or less always shows `00 kun, 00:00`. */
  lemma ZeroLabel(delta: int)
    requires delta <= 0
    ensures FmtDdHhMm(delta) == "00 kun, 00:00"
  {
    assert Split(delta) == Parts(0, 0, 0);
    Pad2Reads(0);
  }

  /** Spans that floor to the same whole minute show the same label. */
  lemma SameMinuteSameLabel(a: int, b: int)
    requires WholeMinutes(a) == WholeMinutes(b)
    ensures FmtDdHhMm(a) == FmtDdHhMm(b)
  {
    SplitBounds(a);
    SplitBounds(b);
    var p, q := Split(a), Split(b);
    assert p.days == q.days;
    assert p.hours == q.hours;
  }

  /** Spans with the same label floor to the same whole minute. */
  lemma SameLabelSameMinute(a: int, b: int)
    requires FmtDdHhMm(a) == FmtDdHhMm(b)
    ensures WholeMinutes(a) == WholeMinutes(b)
  {
    LabelReadsBack(a);
    LabelReadsBack(b);
  }

  /** Ninety seconds show as one minute. */
  lemma NinetySeconds()
    ensures FmtDdHhMm(90 * MicrosPerSecond) == "00 kun, 00:01"
  {
    assert Split(90 * MicrosPerSecond) == Parts(0, 0, 1);
  }
}
