# Countdown bot, modelled in Dafny

The bot posts a message with one inline button to a Telegram channel. The
button shows the time left to a deadline, for example `⏳ 02 kun, 13:07`. A
background task per message (`ticker`) edits that button once a minute. When
the deadline has passed, it replaces the message text with
`✅ Aktsiya yakunlandi!` and stops.

A set-up dialogue collects the text, the deadline, the channel and an optional
link. The `confirm_cancel`/send buttons (`on_confirm`) post the message and
register the task in the registry `TASKS`, keyed by `(chat_id, message_id)`.
`/stop` (`stop_all`) cancels every task and empties the registry.

This project models that core:

| file | module | models |
|---|---|---|
| `text.dfy` | `Text` | `str.strip()` over Python's whitespace set, ASCII `lower()`, `startswith` |
| `decimal.dfy` | `Decimal` | decimal numerals and the `{:02d}` padding, with their values |
| `duration.dfy` | `Duration` | `fmt_dd_hh_mm` and a reader of its labels |
| `wizard.dfy` | `Wizard` | the deadline check of `ask_channel`, the channel check of `ask_link`, `normalize_link`, `make_keyboard` |
| `registry.dfy` | `Registry` | `TASKS` as a class: insert, `pop(key, None)`, and the `stop_all` loop |
| `ticker.dfy` | `Ticker` | the `ticker` loop as a method over a trace of inputs, specified by a function of that trace |
| `scheduler.dfy` | `Scheduler` | `on_confirm`: dismissing, a failed post, and starting and registering a countdown |
| `options.dfy` | `Options` | the `Option` type |

Time is in integer **microseconds**, which is the resolution of Python's
`datetime` and `timedelta`. With it, `left.total_seconds() <= 0` is exactly
`left <= 0`, and `int(max(0, delta.total_seconds()))` is exactly the number
of whole seconds. A whole-second model would treat a deadline half a second
away as already reached. The code does not: it still edits the button,
showing `00 kun, 00:00`.

The ticker's clock readings, the outcome of each edit request, and
cancellation are inputs. A run is a sequence of `TickInput`s:
- `Tick(now, outcome, second)` is one pass of the `while True` loop. `now` is
  the instant read at the top. `outcome` says how `edit_message_reply_markup`
  ended, as the `except` clauses tell it apart. `second` is `now2.second`.
- `Cancel` is a cancellation that reaches the task before a pass.

What the task issues is a sequence of `Effect`s: button edits, the final text
edit, and the two kinds of sleep. `RunTrace` is the reference definition of a
run. `TickerLoop` is the loop itself, with the registry it deregisters from,
proved equal to `RunTrace`.

Behaviour of the code that the model keeps as written:
- On `RetryAfter(n)`, the ticker sleeps `n` seconds and then goes straight on
  to the minute wait. It does not re-attempt the edit within that pass.
- Registering a key that is already present silently replaces its handle.
- A countdown started 90 seconds before its deadline, at second 0 of a
  minute, takes three passes. The first shows `00 kun, 00:01`. The second,
  60 seconds later, still has 30 seconds left and shows `00 kun, 00:00`. Only
  the third makes the final edit (`Ticker.NinetySecondCountdown`).
- A whitespace-only link answer is not empty. `normalize_link` therefore
  returns the empty string rather than `None`, and `make_keyboard` treats
  that like no link (`Wizard.BlankLinkIsEmpty`).
- If `query.answer()` or the edit announcing a successful post raises,
  `on_confirm` ends before the task is created. In the second case the
  message is posted, but no countdown runs for it and nothing is registered
  (`Scheduler.OnConfirm`).

## Model

| member | source | states |
|---|---|---|
| Duration.WholeSeconds | countdown_bot.py:56 | `int(max(0, delta.total_seconds()))` on a span in microseconds; `Duration.WholeSecondsFloor` states what it is |
| Duration.Split | countdown_bot.py:57-60 | the days, hours and minutes of the clamped total floored to the minute; `Duration.SplitBounds` states their bounds and sum |
| Duration.Render | countdown_bot.py:61 | `f"{d:02d} kun, {h:02d}:{m:02d}"`; `Duration.ParseRender` reads it back |
| Duration.FmtDdHhMm | countdown_bot.py:55-61 | `fmt_dd_hh_mm`, rendering the split of a span; `Duration.LabelReadsBack`, `Duration.ZeroLabel`, `Duration.SameMinuteSameLabel` and `Duration.SameLabelSameMinute` state its properties |
| Duration.WholeSecondsFloor | countdown_bot.py:56 | the clamped whole seconds are 0 for a span of zero or less, and otherwise the floor of the span in seconds |
| Duration.SplitBounds | countdown_bot.py:56-60 | hours lie in [0,23] and minutes in [0,59]; days·86400 + hours·3600 + minutes·60 is the clamped total floored to a multiple of 60, within 60 s below it; days·1440 + hours·60 + minutes is the span's whole minutes |
| Duration.ParseRender | countdown_bot.py:61 | a rendered `DD kun, HH:MM` label reads back as the days, hours and minutes it was built from |
| Duration.LabelReadsBack | countdown_bot.py:55-61 | every label of a span reads back uniquely as that span's days, hours in [0,23] and minutes in [0,59], which together make its whole minutes |
| Duration.ZeroLabel | countdown_bot.py:56-61 | a span of zero or less formats to `00 kun, 00:00` |
| Duration.SameMinuteSameLabel | countdown_bot.py:56-57 | spans with the same whole minutes give identical labels |
| Duration.SameLabelSameMinute | countdown_bot.py:56-61 | identical labels imply the same whole minutes: the label determines the minute |
| Duration.NinetySeconds | countdown_bot.py:55-61 | 90 seconds format as `00 kun, 00:01` |
| Decimal.Numeral | countdown_bot.py:61 | `str(n)`: only digits, one below 10, two from 10 to 99, at least two from 10 on, and a leading zero only for 0 |
| Decimal.Pad2 | countdown_bot.py:61 | `f"{n:02d}"`; `Decimal.Pad2Reads` states its form and value |
| Decimal.Pad2Reads | countdown_bot.py:61 | `{:02d}` gives only digits, at least two of them, exactly two below 100, reading back as the number; it starts with `0` iff n < 10, and from 10 on it is `str(n)`, so 100 days show as `100` |
| Decimal.ValueOfNumeral | countdown_bot.py:61 | the decimal numeral of n reads back as n |
| Text.StripLeft | countdown_bot.py:66 | `lstrip`: a suffix of the input, the dropped prefix is all whitespace, and the result does not start with whitespace |
| Text.StripRight | countdown_bot.py:66 | `rstrip`: a prefix of the input, the dropped suffix is all whitespace, and the result does not end with whitespace |
| Text.Strip | countdown_bot.py:66 | `strip()`, as `rstrip` after `lstrip`; `Text.StripOfPadded`, `Text.StripSplits` and `Text.StripIdempotent` state its properties |
| Text.LowerChar | countdown_bot.py:66 | `lower()` on one character: a capital `A`–`Z` becomes its own small letter, every other character is kept (ASCII only, see "Left out") |
| Text.Lower | countdown_bot.py:66 | `lower()` on a string, applying `Text.LowerChar` to each character; `Text.LowerOfCase` states what it gives |
| Text.LowerOfCase | countdown_bot.py:66 | any spelling of a word without capitals, with some of its small letters written as capitals, lower-cases to that word |
| Text.StartsWith | countdown_bot.py:160 | `startswith`: the prefix relation on strings |
| Text.StripOfPadded | countdown_bot.py:66 | whitespace, then a core with no whitespace at its ends, then whitespace, strips to exactly that core |
| Text.StripSplits | countdown_bot.py:66 | every string is whitespace + its stripped form + whitespace, and the stripped form has no whitespace at either end |
| Text.StripIdempotent | countdown_bot.py:66 | stripping twice is stripping once |
| Wizard.AskChannel | countdown_bot.py:145-151 | the deadline is kept iff it parsed and lies strictly after `now`; otherwise the question is asked again, with the reason |
| Wizard.ChannelAccepted | countdown_bot.py:160 | the `@` or `-100` prefix test; `Wizard.ChannelAcceptedIff` spells it out |
| Wizard.AskLink | countdown_bot.py:159-162 | the answer is kept iff its stripped form is an accepted channel, and then as that stripped form; otherwise it is refused as a bad channel |
| Wizard.ChannelAcceptedIff | countdown_bot.py:160 | a channel is accepted iff it starts with `@` or with `-100`, character by character |
| Wizard.NormalizeLink | countdown_bot.py:63-69 | `normalize_link`; `Wizard.NormalizeLinkNone`, `Wizard.NormalizeLinkSome` and the lemmas after them state what it returns |
| Wizard.NormalizeLinkNone | countdown_bot.py:63-68 | no link iff the input is missing or empty, or lower-cases after stripping to `null`, `none`, `-` or `—` |
| Wizard.NormalizeLinkSome | countdown_bot.py:63-69 | any other input gives its stripped core, with its case kept |
| Wizard.NormalizeLinkIgnoresCase | countdown_bot.py:66-68 | any letter case of a no-link word, with blanks around it, gives no link |
| Wizard.NoLinkWordInAnyCase | countdown_bot.py:66-68 | `null`, `none`, `-` or `—` in any mix of small and capital letters (`NULL`, `None`, `nULl`), with blanks around it, gives no link |
| Wizard.NormalizeLinkIdempotent | countdown_bot.py:63-69 | normalising a kept non-empty link again changes nothing |
| Wizard.BlankLinkIsEmpty | countdown_bot.py:64-69 | a whitespace-only answer gives the empty link, not None |
| Wizard.MakeKeyboard | countdown_bot.py:71-76 | one row of one button whose text is `⏳ ` + label; it opens the URL iff the URL is a non-empty string, and otherwise carries the `noop` callback |
| Wizard.KeyboardShowsLabel | countdown_bot.py:73-75 | the label is recovered from the button text by dropping the prefix |
| Wizard.LinkAnswerToButton | countdown_bot.py:63-76 | the button opens a URL iff the stripped link answer is non-empty and not a no-link word, and that URL is the stripped answer |
| Registry.TaskRegistry.constructor | countdown_bot.py:41 | the registry starts empty |
| Registry.TaskRegistry.Insert | countdown_bot.py:227 | `TASKS[key] = task` maps the key to a new handle and changes nothing else |
| Registry.TaskRegistry.Pop | countdown_bot.py:113 | `pop(key, None)` removes that key only, and leaves the registry unchanged when the key is absent |
| Registry.TaskRegistry.StopAll | countdown_bot.py:241-246 | exactly the tasks not done at the snapshot are cancelled, the count is their number, and the registry ends empty |
| Ticker.TickEffects | countdown_bot.py:92-108 | the effects of one pass with time left; `Ticker.TickEffectsEdits` counts them |
| Ticker.RunTrace | countdown_bot.py:82-108 | the reference definition of a run over a trace of inputs; `Ticker.TickerLoop` is proved equal to it and the `Ticker.Run…` lemmas state its properties |
| Ticker.TickerLoop | countdown_bot.py:79-113 | the loop's effects, exit and inputs used equal the reference run; on exit it removes its own key and nothing else; while running the registry is untouched |
| Ticker.RunTicker | countdown_bot.py:79-113 | the same for a message `(chat_id, message_id)` whose passes show `make_keyboard(fmt_dd_hh_mm(left), url)` |
| Ticker.RunEndsAtFirstStop | countdown_bot.py:82-90 | the loop stops exactly at the first input with no time left or a cancellation, and is still running iff there is none; the stop is a cancellation iff it ended Cancelled |
| Ticker.OutcomesDoNotStop | countdown_bot.py:94-104 | runs that differ only in edit outcomes and seconds end the same way after the same number of inputs: no outcome stops the loop |
| Ticker.RunKeyboardCount | countdown_bot.py:92-95 | a run sends exactly one button edit per countdown pass |
| Ticker.RunKeyboardAt | countdown_bot.py:84-95 | the j-th button edit comes from the j-th input, a pass with time left, and shows the keyboard for the time left then |
| Ticker.RunFinalEdit | countdown_bot.py:85-90 | the final text edit is sent once, as the last effect, iff the run finished at the deadline, whatever that edit returned |
| Ticker.RunShaped | countdown_bot.py:92-108 | effects come as: button edit, at most one flood-control wait, then a minute wait of 1 to 60 seconds, per pass; and at most one final edit at the end |
| Ticker.RunRetryWaits | countdown_bot.py:96-97 | the flood-control waits are exactly the RetryAfter delays of the countdown passes, in order |
| Ticker.RunMinuteWaits | countdown_bot.py:106-108 | the minute waits are one per countdown pass, in order, each `60 - second` for the second read in that pass, so the loop keeps to minute boundaries |
| Ticker.TickEffectsEdits | countdown_bot.py:92-108 | one pass sends one button edit, no text edit, one flood-control wait iff the outcome is RetryAfter, and then one wait of `60 - second` |
| Ticker.NinetySecondCountdown | countdown_bot.py:82-108 | a deadline 90 s away shows `00 kun, 00:01`, then `00 kun, 00:00`, then gets the final edit on the third pass |
| Scheduler.PostedKeyboardReadsBack | countdown_bot.py:209-212 | the keyboard posted with a countdown has one button whose text, after `⏳ `, reads back as the days, hours and minutes of the time left |
| Scheduler.FirstPassRepeatsPostedKeyboard | countdown_bot.py:209-212 | the first ticker pass, reading a time left in the same whole minute as the post, edits the button to exactly the keyboard already posted |
| Scheduler.OnConfirm | countdown_bot.py:196-227 | if `query.answer()` raised, nothing happens; the cancel button dismisses; a failed post reports the keyboard it tried; a post whose announcing edit raised starts nothing; only a post announced successfully registers the new message's key, with a live task; in every other case the registry is unchanged |

## Left out

- The Telegram Bot API calls (`send_message`, `edit_message_text`, `edit_message_reply_markup`, `answer`, `set_my_commands`) and handler wiring in `main` are foreign I/O. The results that decide something are inputs to the model: an `Outcome` per button edit of the ticker, the posted message's key (or a failure) per post, and whether `query.answer()` and the edit announcing a post returned. The result of the ticker's final edit, and those of the edits answering the cancel button and a failed post, change nothing the handler does next, so the model does not take them.
- The texts replied to the user in the dialogue (`Отменено.`, the error and confirmation texts, the preview of `confirm`) are not modelled; only the decision each handler takes is.
- `datetime.now`, `ZoneInfo` and `parse_deadline`'s `strptime` are clock, time-zone database and library parsing. The instant and the parsed deadline are parameters in microseconds, and a parse failure is `None`.
- asyncio: task creation, `task.cancel()`, `CancelledError` and real sleeping are concurrency. Cancellation is an input that can reach the ticker between passes. A cancellation that interrupts a sleep or an edit in the middle of a pass is not modelled, and neither are interleavings of several tasks with `stop_all`.
- A task handle is reduced to whether it is done. `Registry.TaskRegistry.StopAll` records the keys whose task is cancelled rather than calling `cancel()`.
- The `"message is not modified"` substring test on exception text is not modelled: it is the distinct outcome `NotModified`, which, like every outcome but `RetryAfter`, only chooses a log line.
- Logging, `.env` loading, the `ALLOWED_IDS` access checks and the dialogue's state plumbing are side effects or trivial set membership.
- Text.Lower: lower-cases ASCII letters only. This is enough for the no-link test: no other character lower-cases to a letter of `null` or `none`, to `-` or to `—`.
- Duration.WholeSecondsFloor: an exact integer floor. It does not model the floating-point rounding of `total_seconds()` for spans of centuries.
- Ticker.RunTrace: stated for any keyboard rendering of the time left; `Ticker.RunTicker` fixes it to `make_keyboard(fmt_dd_hh_mm(left), url)`.
