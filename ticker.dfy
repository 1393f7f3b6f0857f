/**
 * The background task `ticker`: once a minute it edits the countdown button of
 * one message, and when the deadline has passed it replaces the message text
 * and stops. Clocks and the Telegram calls are inputs: each pass of the loop is
 * fed the instant it reads, the outcome of its edit request and the second of
 * the minute it reads before sleeping. What the task does is recorded as a
 * sequence of effects.
 */
module Ticker {

  import opened Options
  import opened Duration
  import opened Wizard
  import opened Registry

  /** How an edit request ended, as the exception handlers of `ticker` tell them apart. */
  datatype Outcome =
    | Success
    | NotModified              // BadRequest saying the message is not modified
    | RetryAfter(seconds: nat) // flood control: wait this long
    | BadRequestOther          // any other BadRequest
    | Network                  // TimedOut or NetworkError
    | Other                    // any other exception

  /** `datetime.second`. */
  type Second = s: int | 0 <= s <= 59

  /**
   * Input to one pass of the loop: the instant `now` in microseconds, the outcome
   * of the edit the pass makes, and `now2.second`; or a cancellation reaching the
   * task before the pass.
   */
  datatype TickInput = Tick(now: int, outcome: Outcome, second: Second) | Cancel

  /** The requests and waits the task issues. */
  datatype Effect =
    | EditMarkup(keyboard: Keyboard) // edit_message_reply_markup
    | EditText(text: string)         // edit_message_text
    | RetryWait(seconds: nat)        // asyncio.sleep(e.retry_after)
    | MinuteWait(seconds: nat)       // asyncio.sleep(60 - now2.second)

  /** Where the task is when the inputs run out. */
  datatype Exit = Finished | Cancelled | Running

  /** The effects of a run, how it ended, and how many inputs it used. */
  datatype Run = Run(effects: seq<Effect>, exit: Exit, consumed: nat)

  /** The text that replaces the message once the deadline has passed. */
  const FinalText: string := "\U{2705} Aktsiya yakunlandi!"

  /** Whether an input ends the loop: a cancellation, or a pass with no time left. */
  predicate Stops(deadline: int, t: TickInput) {
    t.Cancel? || deadline - t.now <= 0
  }

  predicate NoStop(deadline: int, trace: seq<TickInput>) {
    forall i :: 0 <= i < |trace| ==> !Stops(deadline, trace[i])
  }

  /**
   * The keyboard `ticker` sends with `left` microseconds to go:
   * `make_keyboard(fmt_dd_hh_mm(left), url)`. The run below is stated for any
   * such rendering `markup`, and `RunTicker` uses this one.
   */
  function Markup(url: Option<string>): int -> Keyboard {
    left => MakeKeyboard(FmtDdHhMm(left), url)
  }

  /** Times left in the same whole minute get the same keyboard. */
  lemma MarkupOfSameMinute(url: Option<string>, a: int, b: int)
    requires WholeMinutes(a) == WholeMinutes(b)
    ensures Markup(url)(a) == Markup(url)(b)
  {
    SameMinuteSameLabel(a, b);
  }

  /**
   * One pass with `left` microseconds to go: the button edit, the flood-control
   * wait when the edit was refused with RetryAfter, and the wait to the next
   * minute boundary.
   */
  function TickEffects(left: int, markup: int -> Keyboard, outcome: Outcome, second: Second): seq<Effect> {
    var edit := EditMarkup(markup(left));
    var wait := MinuteWait(60 - second);
    if outcome.RetryAfter? then [edit, RetryWait(outcome.seconds), wait] else [edit, wait]
  }

  /** The loop of `ticker` for a message with `deadline` whose keyboards `markup` renders, over `trace`. */
  function RunTrace(deadline: int, markup: int -> Keyboard, trace: seq<TickInput>): Run
    decreases |trace|
  {
    if trace == [] then Run([], Running, 0)
    else match trace[0]
      case Cancel => Run([], Cancelled, 1)
      case Tick(now, outcome, second) =>
        if deadline - now <= 0 then Run([EditText(FinalText)], Finished, 1)
        else
          var rest := RunTrace(deadline, markup, trace[1..]);
          Run(TickEffects(deadline - now, markup, outcome, second) + rest.effects, rest.exit, rest.consumed + 1)
  }

  /** `r` preceded by `k` inputs that produced `es`. */
  function After(es: seq<Effect>, k: nat, r: Run): Run {
    Run(es + r.effects, r.exit, k + r.consumed)
  }

  /** A countdown pass at input `i` extends the effects by that pass's effects. */
  lemma AfterPass(deadline: int, markup: int -> Keyboard, trace: seq<TickInput>, i: nat,
                  effects: seq<Effect>, tick: seq<Effect>)
    requires i < |trace| && !Stops(deadline, trace[i])
    requires tick == TickEffects(deadline - trace[i].now, markup, trace[i].outcome, trace[i].second)
    requires RunTrace(deadline, markup, trace) == After(effects, i, RunTrace(deadline, markup, trace[i..]))
    ensures RunTrace(deadline, markup, trace) == After(effects + tick, i + 1, RunTrace(deadline, markup, trace[i + 1..]))
  {
    assert trace[i..][0] == trace[i] && trace[i..][1..] == trace[i + 1..];
    var rest := RunTrace(deadline, markup, trace[i + 1..]);
    assert RunTrace(deadline, markup, trace[i..]) == Run(tick + rest.effects, rest.exit, rest.consumed + 1);
    assert effects + (tick + rest.effects) == (effects + tick) + rest.effects;
  }

  /** A stopping input at `i` ends the run there. */
  lemma AfterStop(deadline: int, markup: int -> Keyboard, trace: seq<TickInput>, i: nat,
                  effects: seq<Effect>, last: seq<Effect>)
    requires i < |trace| && Stops(deadline, trace[i])
    requires last == if trace[i].Cancel? then [] else [EditText(FinalText)]
    requires RunTrace(deadline, markup, trace) == After(effects, i, RunTrace(deadline, markup, trace[i..]))
    ensures RunTrace(deadline, markup, trace)
              == Run(effects + last, if trace[i].Cancel? then Cancelled else Finished, i + 1)
  {
    assert trace[i..][0] == trace[i];
  }

  /** The end of the inputs leaves the run as it is. */
  lemma AfterAll(deadline: int, markup: int -> Keyboard, trace: seq<TickInput>, effects: seq<Effect>)
    ensures After(effects, |trace|, RunTrace(deadline, markup, trace[|trace|..])) == Run(effects, Running, |trace|)
  {
    assert trace[|trace|..] == [];
    assert effects + [] == effects;
  }

  /**
   * The `while True` loop of `ticker` with its `finally` clause, for the message
   * `key`, over the inputs `trace`; `markup` renders the keyboard of a pass.
   * On any exit the task removes its own key, and only that.
   */
  method TickerLoop(registry: TaskRegistry, key: Key, deadline: int, markup: int -> Keyboard, trace: seq<TickInput>)
    returns (effects: seq<Effect>, exit: Exit, consumed: nat)
    modifies registry
    ensures Run(effects, exit, consumed) == RunTrace(deadline, markup, trace)
    ensures exit != Running ==> registry.tasks == old(registry.tasks) - {key}
    ensures exit == Running ==> registry.tasks == old(registry.tasks)
  {
    effects, exit := [], Running;
    var i := 0;
    assert trace[0..] == trace && [] + RunTrace(deadline, markup, trace).effects == RunTrace(deadline, markup, trace).effects;
    while i < |trace| && exit == Running
      invariant 0 <= i <= |trace|
      invariant exit == Running ==> RunTrace(deadline, markup, trace) == After(effects, i, RunTrace(deadline, markup, trace[i..]))
      invariant exit != Running ==> RunTrace(deadline, markup, trace) == Run(effects, exit, i)
      invariant registry.tasks == old(registry.tasks)
      decreases |trace| - i
    {
      match trace[i] {
        case Cancel =>
          AfterStop(deadline, markup, trace, i, effects, []);
          assert effects + [] == effects;
          exit := Cancelled;
        case Tick(now, outcome, second) =>
          var left := deadline - now;
          if left <= 0 {
            AfterStop(deadline, markup, trace, i, effects, [EditText(FinalText)]);
            effects := effects + [EditText(FinalText)];
            exit := Finished;
          } else {
            var keyboard := markup(left);
            var tick: seq<Effect>;
            if outcome.RetryAfter? {
              tick := [EditMarkup(keyboard), RetryWait(outcome.seconds), MinuteWait(60 - second)];
            } else {
              tick := [EditMarkup(keyboard), MinuteWait(60 - second)];
            }
            AfterPass(deadline, markup, trace, i, effects, tick);
            effects := effects + tick;
          }
      }
      i := i + 1;
    }
    if exit == Running {
      AfterAll(deadline, markup, trace, effects);
    }
    consumed := i;
    if exit != Running {
      registry.Pop(key);
    }
  }

  /**
   * `ticker(bot, chat_id, message_id, deadline, url)`: the loop for the message
   * `(chat_id, message_id)`, each pass showing `make_keyboard(fmt_dd_hh_mm(left), url)`.
   */
  method RunTicker(registry: TaskRegistry, chatId: int, messageId: int,
                   deadline: int, url: Option<string>, trace: seq<TickInput>)
    returns (effects: seq<Effect>, exit: Exit, consumed: nat)
    modifies registry
    ensures Run(effects, exit, consumed) == RunTrace(deadline, Markup(url), trace)
    ensures exit != Running ==> registry.tasks == old(registry.tasks) - {(chatId, messageId)}
    ensures exit == Running ==> registry.tasks == old(registry.tasks)
  {
    effects, exit, consumed := TickerLoop(registry, (chatId, messageId), deadline, Markup(url), trace);
  }

  // ----- what a run does -----

  /** Inputs that mark the countdown passes of a run: all it used but a final stopping one. */
  function Passes(r: Run): nat {
    if r.exit == Running || r.consumed == 0 then r.consumed else r.consumed - 1
  }

  /** The button keyboards a sequence of effects sends, in order. */
  function Keyboards(es: seq<Effect>): seq<Keyboard> {
    if es == [] then []
    else (if es[0].EditMarkup? then [es[0].keyboard] else []) + Keyboards(es[1..])
  }

  /** The number of text edits among the effects. */
  function TextEdits(es: seq<Effect>): nat {
    if es == [] then 0 else (if es[0].EditText? then 1 else 0) + TextEdits(es[1..])
  }

  /** The waits for flood control a sequence of effects makes, in order. */
  function RetryWaits(es: seq<Effect>): seq<nat> {
    if es == [] then []
    else (if es[0].RetryWait? then [es[0].seconds] else []) + RetryWaits(es[1..])
  }

  /** The waits to the next minute a sequence of effects makes, in order. */
  function MinuteWaits(es: seq<Effect>): seq<nat> {
    if es == [] then []
    else (if es[0].MinuteWait? then [es[0].seconds] else []) + MinuteWaits(es[1..])
  }

  /** The flood-control delays the outcomes of some passes ask for, in order. */
  function RetryDelays(trace: seq<TickInput>): seq<nat> {
    if trace == [] then []
    else (if trace[0].Tick? && trace[0].outcome.RetryAfter? then [trace[0].outcome.seconds] else [])
         + RetryDelays(trace[1..])
  }

  lemma {:induction false} KeyboardsAppend(a: seq<Effect>, b: seq<Effect>)
    ensures Keyboards(a + b) == Keyboards(a) + Keyboards(b)
  {
    if a == [] {
      assert a + b == b;
    } else {
      assert (a + b)[0] == a[0];
      assert (a + b)[1..] == a[1..] + b;
      KeyboardsAppend(a[1..], b);
    }
  }

  lemma {:induction false} TextEditsAppend(a: seq<Effect>, b: seq<Effect>)
    ensures TextEdits(a + b) == TextEdits(a) + TextEdits(b)
  {
    if a == [] {
      assert a + b == b;
    } else {
      assert (a + b)[0] == a[0];
      assert (a + b)[1..] == a[1..] + b;
      TextEditsAppend(a[1..], b);
    }
  }

  lemma {:induction false} RetryWaitsAppend(a: seq<Effect>, b: seq<Effect>)
    ensures RetryWaits(a + b) == RetryWaits(a) + RetryWaits(b)
  {
    if a == [] {
      assert a + b == b;
    } else {
      assert (a + b)[0] == a[0];
      assert (a + b)[1..] == a[1..] + b;
      RetryWaitsAppend(a[1..], b);
    }
  }

  lemma {:induction false} MinuteWaitsAppend(a: seq<Effect>, b: seq<Effect>)
    ensures MinuteWaits(a + b) == MinuteWaits(a) + MinuteWaits(b)
  {
    if a == [] {
      assert a + b == b;
    } else {
      assert (a + b)[0] == a[0];
      assert (a + b)[1..] == a[1..] + b;
      MinuteWaitsAppend(a[1..], b);
    }
  }

  lemma EffectsAppend(a: seq<Effect>, b: seq<Effect>)
    ensures Keyboards(a + b) == Keyboards(a) + Keyboards(b)
    ensures TextEdits(a + b) == TextEdits(a) + TextEdits(b)
    ensures RetryWaits(a + b) == RetryWaits(a) + RetryWaits(b)
    ensures MinuteWaits(a + b) == MinuteWaits(a) + MinuteWaits(b)
  {
    KeyboardsAppend(a, b);
    TextEditsAppend(a, b);
    RetryWaitsAppend(a, b);
    MinuteWaitsAppend(a, b);
  }

  /**
   * A countdown pass sends one button edit, no text edit, waits for flood
   * control when told to, and then waits once, up to the next minute boundary.
   */
  lemma TickEffectsEdits(left: int, markup: int -> Keyboard, outcome: Outcome, second: Second)
    ensures Keyboards(TickEffects(left, markup, outcome, second)) == [markup(left)]
    ensures TextEdits(TickEffects(left, markup, outcome, second)) == 0
    ensures RetryWaits(TickEffects(left, markup, outcome, second))
              == if outcome.RetryAfter? then [outcome.seconds] else []
    ensures MinuteWaits(TickEffects(left, markup, outcome, second)) == [60 - second]
  {
    var te := TickEffects(left, markup, outcome, second);
    var wait := [te[|te| - 1]];
    assert wait[1..] == [];
    assert Keyboards(wait) == [] && TextEdits(wait) == 0 && RetryWaits(wait) == [];
    assert MinuteWaits(wait) == [60 - second];
    if outcome.RetryAfter? {
      assert te[1..][1..] == wait;
      assert Keyboards(te[1..]) == [] && TextEdits(te[1..]) == 0 && RetryWaits(te[1..]) == [outcome.seconds];
      assert MinuteWaits(te[1..]) == [60 - second];
    } else {
      assert te[1..] == wait;
    }
  }

  /** A run whose first input is a countdown pass: that pass's effects, then the rest of the run. */
  lemma PassUnfold(deadline: int, markup: int -> Keyboard, trace: seq<TickInput>)
    requires trace != [] && !Stops(deadline, trace[0])
    ensures var r, rest := RunTrace(deadline, markup, trace), RunTrace(deadline, markup, trace[1..]);
            var t := trace[0];
            && r.effects == TickEffects(deadline - t.now, markup, t.outcome, t.second) + rest.effects
            && r.exit == rest.exit && r.consumed == rest.consumed + 1 && Passes(r) == Passes(rest) + 1
  {
  }

  /** What a run whose first input is a countdown pass adds to the rest of the run. */
  lemma PassStep(deadline: int, markup: int -> Keyboard, trace: seq<TickInput>)
    requires trace != [] && !Stops(deadline, trace[0])
    ensures var r, rest := RunTrace(deadline, markup, trace), RunTrace(deadline, markup, trace[1..]);
            var t := trace[0];
            && r.exit == rest.exit && r.consumed == rest.consumed + 1 && Passes(r) == Passes(rest) + 1
            && Keyboards(r.effects) == [markup(deadline - t.now)] + Keyboards(rest.effects)
            && TextEdits(r.effects) == TextEdits(rest.effects)
            && RetryWaits(r.effects) == RetryDelays([t]) + RetryWaits(rest.effects)
            && MinuteWaits(r.effects) == [60 - t.second] + MinuteWaits(rest.effects)
  {
    var t := trace[0];
    PassUnfold(deadline, markup, trace);
    PassEffects(deadline - t.now, markup, t, RunTrace(deadline, markup, trace[1..]).effects);
  }

  /** The effects of one countdown pass followed by any others. */
  lemma PassEffects(left: int, markup: int -> Keyboard, t: TickInput, rest: seq<Effect>)
    requires t.Tick?
    ensures var es := TickEffects(left, markup, t.outcome, t.second) + rest;
            && Keyboards(es) == [markup(left)] + Keyboards(rest)
            && TextEdits(es) == TextEdits(rest)
            && RetryWaits(es) == RetryDelays([t]) + RetryWaits(rest)
            && MinuteWaits(es) == [60 - t.second] + MinuteWaits(rest)
  {
    EffectsAppend(TickEffects(left, markup, t.outcome, t.second), rest);
    TickEffectsEdits(left, markup, t.outcome, t.second);
    assert [t][1..] == [];
  }

  /** The first effect of a run that starts with a countdown pass is that pass's button edit. */
  lemma FirstEdit(deadline: int, markup: int -> Keyboard, first: TickInput, rest: seq<TickInput>, k: Keyboard)
    requires first.Tick? && deadline - first.now > 0 && markup(deadline - first.now) == k
    ensures var effects := RunTrace(deadline, markup, [first] + rest).effects;
            effects != [] && effects[0] == EditMarkup(k)
  {
    var trace := [first] + rest;
    assert trace[0] == first && trace[1..] == rest;
    PassUnfold(deadline, markup, trace);
  }

  /** A run whose first input stops it: the final text edit, or nothing on cancellation. */
  lemma StopStep(deadline: int, markup: int -> Keyboard, trace: seq<TickInput>)
    requires trace != [] && Stops(deadline, trace[0])
    ensures var r := RunTrace(deadline, markup, trace);
            && r.consumed == 1 && Passes(r) == 0
            && (r.exit == Cancelled <==> trace[0].Cancel?) && r.exit != Running
            && Keyboards(r.effects) == [] && RetryWaits(r.effects) == [] && MinuteWaits(r.effects) == []
            && TextEdits(r.effects) == (if r.exit == Finished then 1 else 0)
            && (r.exit == Finished ==> r.effects == [EditText(FinalText)])
  {
    var r := RunTrace(deadline, markup, trace);
    if trace[0].Tick? {
      assert r.effects[1..] == [];
    }
  }

  /**
   * The loop ends exactly at the first input that stops it: a deadline pass ends
   * it as Finished, a cancellation as Cancelled; with no such input it is still
   * running after using every input.
   */
  lemma {:induction false} RunEndsAtFirstStop(deadline: int, markup: int -> Keyboard, trace: seq<TickInput>)
    ensures var r := RunTrace(deadline, markup, trace);
            && (r.exit == Running <==> NoStop(deadline, trace))
            && (r.exit == Running ==> r.consumed == |trace|)
            && (r.exit != Running ==>
                  && 0 < r.consumed <= |trace|
                  && Stops(deadline, trace[r.consumed - 1])
                  && NoStop(deadline, trace[..r.consumed - 1])
                  && (r.exit == Cancelled <==> trace[r.consumed - 1].Cancel?))
    decreases |trace|
  {
    if trace != [] && !Stops(deadline, trace[0]) {
      var rest := RunTrace(deadline, markup, trace[1..]);
      RunEndsAtFirstStop(deadline, markup, trace[1..]);
      assert NoStop(deadline, trace) <==> NoStop(deadline, trace[1..]) by {
        if NoStop(deadline, trace[1..]) {
          forall i | 0 <= i < |trace| ensures !Stops(deadline, trace[i]) {
            if i > 0 { assert trace[i] == trace[1..][i - 1]; }
          }
        }
      }
      if rest.exit != Running {
        var c := rest.consumed;
        assert trace[c] == trace[1..][c - 1];
        assert trace[..c] == [trace[0]] + trace[1..][..c - 1];
      }
    }
  }

  /** A run sends one button edit for each countdown pass. */
  lemma {:induction false} RunKeyboardCount(deadline: int, markup: int -> Keyboard, trace: seq<TickInput>)
    ensures var r := RunTrace(deadline, markup, trace);
            |Keyboards(r.effects)| == Passes(r) <= |trace|
    decreases |trace|
  {
    if trace == [] {
    } else if Stops(deadline, trace[0]) {
      StopStep(deadline, markup, trace);
    } else {
      PassStep(deadline, markup, trace);
      RunKeyboardCount(deadline, markup, trace[1..]);
    }
  }

  /**
   * The `j`-th button edit of a run belongs to its `j`-th input, a pass with
   * time left, and shows the keyboard for the time left at that pass.
   */
  lemma {:induction false} RunKeyboardAt(deadline: int, markup: int -> Keyboard, trace: seq<TickInput>, j: nat)
    requires j < Passes(RunTrace(deadline, markup, trace))
    ensures j < |trace| && trace[j].Tick? && deadline - trace[j].now > 0
    ensures var ks := Keyboards(RunTrace(deadline, markup, trace).effects);
            j < |ks| && ks[j] == markup(deadline - trace[j].now)
    decreases |trace|
  {
    RunKeyboardCount(deadline, markup, trace);
    if Stops(deadline, trace[0]) {
      StopStep(deadline, markup, trace);
    } else {
      PassStep(deadline, markup, trace);
      if j > 0 {
        RunKeyboardAt(deadline, markup, trace[1..], j - 1);
        assert trace[j] == trace[1..][j - 1];
      }
    }
  }

  /**
   * The final text edit is sent once, as the last effect, exactly when the run
   * finished at the deadline, whatever that edit returned; otherwise never.
   */
  lemma {:induction false} RunFinalEdit(deadline: int, markup: int -> Keyboard, trace: seq<TickInput>)
    ensures var r := RunTrace(deadline, markup, trace);
            && TextEdits(r.effects) == (if r.exit == Finished then 1 else 0)
            && (r.exit == Finished ==> r.effects != [] && r.effects[|r.effects| - 1] == EditText(FinalText))
    decreases |trace|
  {
    if trace == [] {
    } else if Stops(deadline, trace[0]) {
      StopStep(deadline, markup, trace);
    } else {
      PassStep(deadline, markup, trace);
      PassUnfold(deadline, markup, trace);
      RunFinalEdit(deadline, markup, trace[1..]);
    }
  }

  /**
   * The order of the effects: button edits, each followed by at most one
   * flood-control wait and then one wait of 1 to 60 seconds to the next minute,
   * and possibly a single final text edit at the end. No edit is repeated
   * within a pass.
   */
  predicate Shaped(es: seq<Effect>)
    decreases |es|
  {
    || es == []
    || es == [EditText(FinalText)]
    || (&& |es| >= 2 && es[0].EditMarkup?
        && es[1].MinuteWait? && 1 <= es[1].seconds <= 60
        && Shaped(es[2..]))
    || (&& |es| >= 3 && es[0].EditMarkup? && es[1].RetryWait?
        && es[2].MinuteWait? && 1 <= es[2].seconds <= 60
        && Shaped(es[3..]))
  }

  lemma {:induction false} RunShaped(deadline: int, markup: int -> Keyboard, trace: seq<TickInput>)
    ensures Shaped(RunTrace(deadline, markup, trace).effects)
    decreases |trace|
  {
    if trace != [] && !Stops(deadline, trace[0]) {
      var t := trace[0];
      var te := TickEffects(deadline - t.now, markup, t.outcome, t.second);
      var es := RunTrace(deadline, markup, trace).effects;
      var rest := RunTrace(deadline, markup, trace[1..]).effects;
      RunShaped(deadline, markup, trace[1..]);
      assert es == te + rest;
      if t.outcome.RetryAfter? {
        assert es[3..] == rest;
      } else {
        assert es[2..] == rest;
      }
    }
  }

  /**
   * A RetryAfter(n) outcome causes one wait of n seconds, and nothing else does:
   * the waits are exactly the delays asked for by the countdown passes.
   */
  lemma {:induction false} RunRetryWaits(deadline: int, markup: int -> Keyboard, trace: seq<TickInput>)
    ensures var r := RunTrace(deadline, markup, trace);
            Passes(r) <= |trace| && RetryWaits(r.effects) == RetryDelays(trace[..Passes(r)])
    decreases |trace|
  {
    if trace == [] {
    } else if Stops(deadline, trace[0]) {
      StopStep(deadline, markup, trace);
      assert trace[..0] == [];
    } else {
      var r := RunTrace(deadline, markup, trace);
      var rest := RunTrace(deadline, markup, trace[1..]);
      PassStep(deadline, markup, trace);
      RunRetryWaits(deadline, markup, trace[1..]);
      var p := Passes(r);
      var prefix := trace[..p];
      assert prefix[0] == trace[0] && prefix[1..] == trace[1..][..p - 1];
      assert RetryDelays(prefix) == RetryDelays([trace[0]]) + RetryDelays(prefix[1..]) by {
        assert [trace[0]][1..] == [];
      }
    }
  }

  /**
   * The waits to the next minute are one per countdown pass, in order, each
   * `60 - second` for the second read in that pass: the loop sleeps to the
   * next minute boundary rather than for a fixed minute, so it does not drift.
   */
  lemma {:induction false} RunMinuteWaits(deadline: int, markup: int -> Keyboard, trace: seq<TickInput>)
    ensures var r := RunTrace(deadline, markup, trace);
            var waits := MinuteWaits(r.effects);
            && Passes(r) <= |trace| && |waits| == Passes(r)
            && forall j :: 0 <= j < Passes(r) ==> trace[j].Tick? && waits[j] == 60 - trace[j].second
    decreases |trace|
  {
    if trace == [] {
    } else if Stops(deadline, trace[0]) {
      StopStep(deadline, markup, trace);
    } else {
      var r := RunTrace(deadline, markup, trace);
      var rest := RunTrace(deadline, markup, trace[1..]);
      PassStep(deadline, markup, trace);
      RunMinuteWaits(deadline, markup, trace[1..]);
      var waits := MinuteWaits(r.effects);
      forall j | 0 <= j < Passes(r) ensures trace[j].Tick? && waits[j] == 60 - trace[j].second {
        if j > 0 {
          assert trace[j] == trace[1..][j - 1];
          assert waits[j] == MinuteWaits(rest.effects)[j - 1];
        }
      }
    }
  }

  /** Two traces that agree on cancellations and instants and differ at most in outcomes. */
  predicate SameClock(t1: seq<TickInput>, t2: seq<TickInput>) {
    && |t1| == |t2|
    && forall i :: 0 <= i < |t1| ==> t1[i].Cancel? == t2[i].Cancel? && (t1[i].Tick? ==> t1[i].now == t2[i].now)
  }

  /**
   * No outcome of an edit request stops the loop: runs whose inputs differ only
   * in outcomes (and seconds) end the same way after the same number of inputs.
   */
  lemma {:induction false} OutcomesDoNotStop(deadline: int, markup: int -> Keyboard, t1: seq<TickInput>, t2: seq<TickInput>)
    requires SameClock(t1, t2)
    ensures RunTrace(deadline, markup, t1).exit == RunTrace(deadline, markup, t2).exit
    ensures RunTrace(deadline, markup, t1).consumed == RunTrace(deadline, markup, t2).consumed
    decreases |t1|
  {
    if t1 != [] {
      assert SameClock(t1[1..], t2[1..]) by {
        forall i | 0 <= i < |t1| - 1
          ensures t1[1..][i].Cancel? == t2[1..][i].Cancel?
          ensures t1[1..][i].Tick? ==> t1[1..][i].now == t2[1..][i].now
        {
          assert t1[1..][i] == t1[i + 1] && t2[1..][i] == t2[i + 1];
        }
      }
      OutcomesDoNotStop(deadline, markup, t1[1..], t2[1..]);
    }
  }

  /** The three passes of a ninety-second countdown, for any rendering of the time left. */
  lemma NinetySecondRun(start: int, markup: int -> Keyboard)
    ensures var deadline := start + 90 * MicrosPerSecond;
            var trace := [Tick(start, Success, 0), Tick(start + 60 * MicrosPerSecond, NotModified, 0),
                          Tick(start + 120 * MicrosPerSecond, Network, 0)];
            RunTrace(deadline, markup, trace)
              == Run([EditMarkup(markup(90 * MicrosPerSecond)), MinuteWait(60),
                      EditMarkup(markup(30 * MicrosPerSecond)), MinuteWait(60),
                      EditText(FinalText)], Finished, 3)
  {
    var deadline := start + 90 * MicrosPerSecond;
    var t0, t1, t2 := Tick(start, Success, 0), Tick(start + 60 * MicrosPerSecond, NotModified, 0),
                      Tick(start + 120 * MicrosPerSecond, Network, 0);
    var trace := [t0, t1, t2];
    assert trace[1..] == [t1, t2] && [t1, t2][1..] == [t2];
    var r2 := RunTrace(deadline, markup, [t2]);
    assert r2 == Run([EditText(FinalText)], Finished, 1);
    var r1 := RunTrace(deadline, markup, [t1, t2]);
    PassUnfold(deadline, markup, [t1, t2]);
    assert r1.effects == [EditMarkup(markup(30 * MicrosPerSecond)), MinuteWait(60), EditText(FinalText)];
    PassUnfold(deadline, markup, trace);
  }

  /**
   * A countdown started 90 seconds before its deadline at the top of a minute:
   * it shows one minute, then zero minutes with 30 seconds still to go, and the
   * third pass, past the deadline, replaces the message.
   */
  lemma NinetySecondCountdown(start: int, url: Option<string>)
    ensures var deadline := start + 90 * MicrosPerSecond;
            var trace := [Tick(start, Success, 0), Tick(start + 60 * MicrosPerSecond, NotModified, 0),
                          Tick(start + 120 * MicrosPerSecond, Network, 0)];
            RunTrace(deadline, Markup(url), trace)
              == Run([EditMarkup(MakeKeyboard("00 kun, 00:01", url)), MinuteWait(60),
                      EditMarkup(MakeKeyboard("00 kun, 00:00", url)), MinuteWait(60),
                      EditText(FinalText)], Finished, 3)
  {
    NinetySecondRun(start, Markup(url));
    NinetySeconds();
    assert Split(30 * MicrosPerSecond) == Parts(0, 0, 0);
    assert FmtDdHhMm(30 * MicrosPerSecond) == "00 kun, 00:00";
  }
}
