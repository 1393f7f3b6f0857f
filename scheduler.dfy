/**
 * `on_confirm`: the answer to the confirmation buttons. Cancelling ends the
 * dialogue; sending posts the message with its first keyboard and, once the
 * post succeeded and the confirmation message was edited to say so,
 * registers a new countdown task for it.
 */
module Scheduler {

  import opened Options
  import opened Text
  import opened Duration
  import opened Wizard
  import opened Registry
  import opened Ticker

  /** The callback data of the cancel button. */
  const CancelData := "confirm_cancel"

  /** What the confirmation did. */
  datatype Confirmation =
    | Unanswered                                 // `query.answer()` raised
    | Dismissed                                  // the cancel button
    | SendFailed(keyboard: Keyboard)             // `send_message` raised
    | Unacknowledged(key: Key, keyboard: Keyboard) // posted, but the edit saying so raised
    | Started(key: Key, keyboard: Keyboard)      // posted and its countdown registered

  /**
   * The keyboard posted with a countdown that has `left` to go, the one
   * `Markup(url)` renders, has one button, whose text is the prefix and a
   * label that reads back as the days, hours and minutes of `left`.
   */
  lemma PostedKeyboardReadsBack(left: int, url: Option<string>)
    ensures var k := Markup(url)(left);
            && |k.rows| == 1 && |k.rows[0]| == 1
            && var text := k.rows[0][0].text;
               |text| >= |LabelPrefix| && text[..|LabelPrefix|] == LabelPrefix
               && ParseLabel(text[|LabelPrefix|..]) == Some(Split(left))
  {
    var caption := FmtDdHhMm(left);
    LabelReadsBack(left);
    KeyboardReadsBack(caption, url, Split(left));
  }

  /** A keyboard whose caption reads back as some parts shows a button text that does too. */
  lemma KeyboardReadsBack(caption: string, url: Option<string>, p: Parts)
    requires ParseLabel(caption) == Some(p)
    ensures var text := MakeKeyboard(caption, url).rows[0][0].text;
            |text| >= |LabelPrefix| && text[..|LabelPrefix|] == LabelPrefix
            && ParseLabel(text[|LabelPrefix|..]) == Some(p)
  {
    KeyboardShowsLabel(caption, url);
  }

  /**
   * The first pass of the ticker started for a message posted with `posted`
   * to go edits its button to the keyboard already posted whenever it reads a
   * time left in the same whole minute, so that edit changes nothing shown.
   */
  lemma FirstPassRepeatsPostedKeyboard(deadline: int, posted: int, url: Option<string>,
                                       first: TickInput, rest: seq<TickInput>)
    requires first.Tick? && deadline - first.now > 0
    requires WholeMinutes(deadline - first.now) == WholeMinutes(posted)
    ensures var effects := RunTrace(deadline, Markup(url), [first] + rest).effects;
            effects != [] && effects[0] == EditMarkup(Markup(url)(posted))
  {
    var left := deadline - first.now;
    MarkupOfSameMinute(url, left, posted);
    FirstEdit(deadline, Markup(url), first, rest, Markup(url)(posted));
  }

  /**
   * `on_confirm` at instant `now`, for the callback data `data` and the
   * wizard's `deadline` and `url`. The Telegram calls are inputs:
   * - `answered`: whether `query.answer()` returned;
   * - `sent`: the key `(chat id, message id)` of the posted message, or None
   *   when `send_message` raised;
   * - `acknowledged`: whether the edit announcing the post returned.
   * A call that raises ends the handler there. Any data other than the cancel
   * button's goes on to send.
   */
  method OnConfirm(registry: TaskRegistry, answered: bool, data: string, deadline: int, now: int,
                   url: Option<string>, sent: Option<Key>, acknowledged: bool)
    returns (c: Confirmation)
    modifies registry
    ensures !answered ==> c == Unanswered
    ensures answered && data == CancelData ==> c == Dismissed
    ensures answered && data != CancelData && sent.None? ==> c == SendFailed(Markup(url)(deadline - now))
    ensures answered && data != CancelData && sent.Some? && !acknowledged ==>
              c == Unacknowledged(sent.value, Markup(url)(deadline - now))
    ensures answered && data != CancelData && sent.Some? && acknowledged ==>
              && c == Started(sent.value, Markup(url)(deadline - now))
              && registry.tasks == old(registry.tasks)[sent.value := false]
              && sent.value in Live(registry.tasks)
    ensures !c.Started? ==> registry.tasks == old(registry.tasks)
  {
    if !answered {
      return Unanswered;
    }
    if data == CancelData {
      return Dismissed;
    }
    var keyboard := Markup(url)(deadline - now);
    if sent.None? {
      return SendFailed(keyboard);
    }
    var key := sent.value;
    if !acknowledged {
      return Unacknowledged(key, keyboard);
    }
    registry.Insert(key, false);
    c := Started(key, keyboard);
  }
}
