# Magic Stopwatch — a verified model

Magic Stopwatch is a stopwatch web app used for a magic trick. While it runs it
shows the true elapsed time. Once stopped, it shows a disguised value instead:
- in current-time mode, the clock time hh:mm appears as `00:hh.mm`;
- in fixed-time mode, a time MM:SS entered beforehand on a keypad appears as `00:MM.SS` when MM and SS are both below 60 (larger entries carry: 01:99 appears as `00:02.39`).

This project models the logic behind that in Dafny:

- `Digits` — the JavaScript string operations the formatter relies on, `toString` of a non-negative integer and `padStart` with `'0'`, and the model's own readers that invert them: `ParseDecimal` (which is also `parseInt` on the pad's digit strings) and `IndexOf`, used by `Utils.ParseMinSec` to read "MM:SS" back.
- `Utils` (utils.ts):
  - `formatStopwatch` and `formatTimeValue`;
  - the two digit-position puns `getTrickTimeMs` and `getFixedTimeMs`.
- `Numpad` (components/Numpad.tsx):
  - the four-digit entry buffer as the class `NumpadInput`, with its digit, delete, clear and confirm buttons;
  - the pure display split and the confirm arithmetic as functions.
- `AppState` (App.tsx):
  - every handler of the App component as a transition on a snapshot `Session` of its state and refs;
  - the display rule `getDisplayTimeMs` and the dispatch of the three stopwatch buttons;
  - the lemmas about these transitions.
- `App` (App.tsx): the component as the class `MagicStopwatch`, one field per state item and ref. Each handler is a method proved to perform the matching `AppState` transition in place. `FixedTimeScenario` runs the fixed-time trick end to end.
- `Types` (types.ts) and `Wrappers` hold the enums and an `Option` type.

`requestAnimationFrame(animate)` re-requests itself on every frame. It is modelled as a count `frameLoops` of live chains of frame requests:
- `handleStart` adds one chain.
- `handleStop` cancels the frame last requested, which ends one chain. This is exact for a stop reached through the right button, that is while running, when `requestRef.current` is a pending request. A second stop with no frame in between would cancel an already cancelled id in the code and do nothing, while the model would end a further chain.
- `handleReset` and `handleBack` cancel nothing.

A frame (`Animate`) can only occur while `frameLoops > 0`. The code's gaps are kept as written:
- reset never cancels the loop;
- the guard in `animate` always holds, because `startTimeRef` starts at 0, not `undefined`;
- so Back while running leaves the loop alive. `AppState.BackWhileRunningKeepsTicking` shows that the next frame then writes a non-zero elapsed time into the reset, stopped watch, which then shows the trick value.

`handleTrickTimeSet` (App.tsx:39-42) resets nothing; `AppState.TrickTimeSetSpec` states that only the stored seconds and the stage change.

## Model

| member | source | states |
|---|---|---|
| Digits.PadStart | utils.ts:14-15 | `s.padStart(width, fill)`: the result is max(|s|, width) long, ends with s, and is fill before it |
| Digits.NatToString | utils.ts:14 | `n.toString()` is a non-empty string of digits, with a leading '0' exactly for 0, a single character below 10, and at most two characters exactly when n < 100 |
| Digits.ParseDecimalSpec | components/Numpad.tsx:34 | `ParseDecimal`, the model's `parseInt` on a string of k digits: below 10^k, its last digit is the units and the digits before it are the tens; `ParseOfNatToString` makes it the inverse of `toString` and `ParseAppend` reads a concatenation |
| Digits.ParseAppend | components/Numpad.tsx:34 | reading a concatenation of numerals a + b gives value(a) * 10^|b| + value(b), which is what lets the pad's MM and SS be read from one padded buffer |
| Digits.ParseOfNatToString | utils.ts:14 | the numeral reads back as the number it renders |
| Digits.Pad2Numeral | utils.ts:14-15 | `toString().padStart(2, '0')` is a numeral of at least two digits that reads back as n |
| Digits.Pad2TwoDigits | utils.ts:14-15 | the padded numeral is exactly two characters iff n < 100, and then it is the tens digit followed by the units digit |
| Utils.ClampIsMax | utils.ts:6 | `Math.max(0, ms)`: at least 0 and at least ms, and equal to one of them |
| Utils.FormatStopwatch | utils.ts:4-16 | `formatStopwatch`; its `centis` is always a dot and two characters; the lemmas below state the rest |
| Utils.FormatTimeValue | utils.ts:19-21 | `formatTimeValue`; the text is at least five characters with the colon right after the padded minutes |
| Utils.TrickTimeMs | utils.ts:26-34 | `getTrickTimeMs` at clock time hour:minute; the hour is the result's whole seconds and the minute its remainder in tens of milliseconds |
| Utils.FixedTimeMs | utils.ts:39-46 | `getFixedTimeMs`; the entered minutes (total / 60) are the result's whole seconds and the entered seconds (total % 60) its remainder in tens of milliseconds |
| Utils.FormatStopwatchNegative | utils.ts:4-16 | a negative count renders exactly as 0 does, which is "00:00" and ".00" |
| Utils.FormatStopwatchOfZero | utils.ts:4-16 | 0 ms renders as "00:00" and ".00" |
| Utils.FormatStopwatchCentis | utils.ts:11-15 | the centiseconds `ms % 1000 / 10` are below 100; `centis` is '.' followed by exactly their two digits and reads back as them |
| Utils.FormatStopwatchMain | utils.ts:8-14 | the seconds are below 60 and are the two characters after the colon; before the colon are the unwrapped minutes `ms / 60000`, padded to at least two digits; `main` reads back as (minutes, seconds) |
| Utils.FormatStopwatchRoundTrip | utils.ts:4-16 | reading the face back gives minutes * 60000 + seconds * 1000 + centis * 10 == ms - ms % 10 |
| Utils.FormatTimeValueRoundTrip | utils.ts:19-21 | "MM:SS" is the padded minutes, a colon and the padded seconds; it is at least five characters, exactly five iff both fields are below 100, and reads back as the (minutes, seconds) pair it renders |
| Utils.FormatOfPun | utils.ts:4-16 | a < 60 and b < 100 placed as a * 1000 + b * 10 render as "00:" + pad2(a) and "." + pad2(b) |
| Utils.ClockPun | utils.ts:23-34 | at clock time hh:mm the trick value renders as "00:" + pad2(hh) and "." + pad2(mm) |
| Utils.FixedTimeOfEntry | utils.ts:39-46 | an entry MM:SS confirmed as MM * 60 + SS maps to (MM + SS / 60) * 1000 + (SS % 60) * 10, which is MM * 1000 + SS * 10 when SS < 60 |
| Utils.FixedTimeCarryExample | utils.ts:41-42 | an entry of 01:99 carries into the minutes: 159 seconds become 2 * 1000 + 39 * 10 |
| Utils.FixedTimePunOfTotal | utils.ts:39-46 | a stored total below an hour renders its minutes as seconds and its seconds as centiseconds |
| Utils.FixedTimePun | utils.ts:39-46 | for MM, SS < 60 the trick value of MM * 60 + SS renders as "00:" + pad2(MM) and "." + pad2(SS) |
| Utils.FixedTimeExample | utils.ts:39-46 | 75 seconds (entered 01:15) map to 1150 ms, shown as "00:01" ".15" |
| Utils.FixedTimeExample2 | utils.ts:39-46 | 330 seconds (entered 05:30) map to 5300 ms, shown as "00:05" ".30" |
| Numpad.AppendDigit | components/Numpad.tsx:21-25 | `handleNumClick`; one character longer below four, unchanged at four, and the old buffer is a prefix of the new one |
| Numpad.DeleteLast | components/Numpad.tsx:27-29 | `handleDelete`; one character shorter, or empty when empty, and a prefix of the old buffer |
| Numpad.FormattedDisplay | components/Numpad.tsx:14-19 | `formattedDisplay`; MM and SS are each two characters |
| Numpad.ConfirmSeconds | components/Numpad.tsx:31-38 | `handleConfirm`; the total is never negative, so the callback always receives a value |
| Numpad.AppendDigitSpec | components/Numpad.tsx:21-25 | a press keeps the buffer within four characters and leaves a full buffer unchanged; below four it appends exactly the digit, one character longer, and keeps the earlier characters |
| Numpad.AppendDigitShifts | components/Numpad.tsx:21-25 | an accepted press shifts the entered number one decimal place left and adds the digit |
| Numpad.DeleteLastSpec | components/Numpad.tsx:27-29 | delete leaves an empty buffer empty and otherwise removes exactly the last character |
| Numpad.DeleteUndoesAppend | components/Numpad.tsx:21-29 | delete after an accepted digit press restores the buffer |
| Numpad.FormattedDisplaySpec | components/Numpad.tsx:14-19 | MM followed by SS is the buffer left-padded with '0' to four characters |
| Numpad.DisplayFillsSecondsFirst | components/Numpad.tsx:14-19 | with at most two digits entered, MM is "00" and SS is the padded entry |
| Numpad.DisplayReadsAsNumber | components/Numpad.tsx:14-19 | MM and SS are each below 100 and are the hundreds and the remainder of the entered number |
| Numpad.ConfirmSecondsSpec | components/Numpad.tsx:31-38 | confirm always hands on MM * 60 + SS of the entered number, which is at most 6039 |
| Numpad.NumpadInput.constructor | components/Numpad.tsx:12 | the pad starts empty |
| Numpad.NumpadInput.PressDigit | components/Numpad.tsx:21-25 | the buffer becomes `AppendDigit` of the old buffer and stays within four digits |
| Numpad.NumpadInput.Delete | components/Numpad.tsx:27-29 | the buffer becomes `DeleteLast` of the old buffer |
| Numpad.NumpadInput.Clear | components/Numpad.tsx:71 | the buffer becomes empty from any state |
| Numpad.NumpadInput.Confirm | components/Numpad.tsx:31-41 | confirm yields a value exactly when the buffer is non-empty, and that value is MM * 60 + SS, in 0..6039 |
| AppState.ModeSelect | App.tsx:30-37 | `handleModeSelect`; records the mode, leaves mode selection, and keeps the invariant exactly when it held |
| AppState.TrickTimeSet | App.tsx:39-42 | `handleTrickTimeSet`; stores the seconds, opens the stopwatch, and keeps the invariant exactly when it held |
| AppState.Animate | App.tsx:44-50 | one frame of `animate`, only while a loop is live; elapsed becomes the saved elapsed plus now - startTime, the loop stays live, and the invariant is kept |
| AppState.Start | App.tsx:52-57 | `handleStart`; from any state, a running, started, ticking and valid state whose start time is now |
| AppState.Stop | App.tsx:59-63 | `handleStop`; a stopped, valid state that saved the elapsed time and has no more frame loops than before |
| AppState.Reset | App.tsx:65-71 | `handleReset`; a stopped, valid state with zero elapsed and no laps |
| AppState.Lap | App.tsx:73-75 | `handleLap`; one more lap, the current elapsed time first, and the invariant kept exactly when it held |
| AppState.Back | App.tsx:77-80 | `handleBack`; a stopped, valid state at mode selection with zero elapsed |
| AppState.DisplayTimeMs | App.tsx:85-98 | `getDisplayTimeMs`; the true elapsed time while running, never negative when stopped, and in current-time mode the clock hour as seconds and minute as centiseconds |
| AppState.StartButton | App.tsx:194-208 | the round start button reaches start exactly before the first start, and nothing otherwise |
| AppState.LeftButton | App.tsx:213-226 | the left button does nothing before the first start (its container ignores clicks), never reaches start or stop; it laps only while running and resets only when stopped at non-zero |
| AppState.RightButton | App.tsx:213-241 | the right button does nothing before the first start, never reaches lap or reset; it stops only while running and starts only when stopped |
| AppState.Dispatch | App.tsx:105-241 | no control is drawn outside the stopwatch stage (App.tsx:105-163 return the other views first), so there a click does nothing; a control reaches start only when stopped or before the first start, and stop or lap only while running |
| AppState.InitialIsIdle | App.tsx:10-26 | the first render is at mode selection with zero elapsed, no laps and no live frame loop, and satisfies the invariant |
| AppState.HandlersPreserveValid | App.tsx:30-80 | every handler keeps "running implies started and a frame loop is live" |
| AppState.ModeSelectSpec | App.tsx:30-37 | the mode is recorded; FIXED_TIME leads to the trick-time setup and CURRENT_TIME to the stopwatch; nothing else changes |
| AppState.TrickTimeSetSpec | App.tsx:39-42 | the seconds are stored and the stopwatch opens; nothing else changes |
| AppState.StartSpec | App.tsx:52-57 | start opens exactly one more frame loop, records the start time, sets both flags, and changes nothing else |
| AppState.AnimateSpec | App.tsx:44-50 | a frame changes elapsed and nothing else |
| AppState.RestartAfterBackKeepsTwoLoops | App.tsx:52-80 | back while running, current-time mode and the round start button leave two live loops; the stop button then ends only one, so frames keep coming |
| AppState.ElapsedReadsSpec | App.tsx:44-50 | each frame sets elapsed to previousElapsed + (now - startTime), so with a clock that does not go back the successive readings do not decrease |
| AppState.StopThenStartResumes | App.tsx:52-63 | stop while running clears running, saves elapsed and ends exactly one frame loop (so a single loop stops ticking), and changes nothing else; a later start and frame add only the new run's duration to it |
| AppState.ResetSpec | App.tsx:65-71 | reset zeroes elapsed and the saved elapsed, empties the laps and clears both flags; it is idempotent, and the stage, the mode, the stored seconds, the start time and the frame loops stay as they were |
| AppState.LapSpec | App.tsx:73-75 | lap puts the current elapsed value in front and keeps the earlier laps unchanged and in order |
| AppState.LapOrder | App.tsx:73-75 | laps taken at 100, 250 and 400 are listed as [400, 250, 100] |
| AppState.BackSpec | App.tsx:77-80 | back resets the engine (zero elapsed and saved elapsed, no laps, both flags cleared) and returns to mode selection; the mode, the stored seconds, the start time and the frame loops stay as they were |
| AppState.BackWhileRunningKeepsTicking | App.tsx:44-80 | after back while running a frame still fires; it makes the reset watch's elapsed time non-zero, so the stopped face shows the trick value |
| AppState.DisplayRules | App.tsx:85-98 | the true elapsed time while running; 0 when stopped at zero; otherwise the trick value of the current mode |
| AppState.StoppedFaceShowsTrick | App.tsx:85-101 | a stopped non-zero watch shows "00:hh" ".mm" in current-time mode, and "00:MM" ".SS" for a fixed total below an hour |
| AppState.LeftButtonSpec | App.tsx:213-226 | for every state: the left button does nothing before the first start; after it, it laps exactly when running, resets exactly when stopped at non-zero, and is disabled exactly when stopped at zero |
| AppState.RightButtonSpec | App.tsx:213-241 | for every state: the right button does nothing before the first start; after it, it stops exactly when running and starts otherwise |
| AppState.StartOnlyWhenStopped | App.tsx:194-241 | no control reaches start while running, and stop and lap only while running |
| App.MagicStopwatch.constructor | App.tsx:10-26 | the fields hold the initial state |
| App.MagicStopwatch.ModeSelect | App.tsx:30-37 | performs `AppState.ModeSelect` in place |
| App.MagicStopwatch.TrickTimeSet | App.tsx:39-42 | performs `AppState.TrickTimeSet` in place |
| App.MagicStopwatch.Animate | App.tsx:44-50 | one frame, only while a loop is live, performs `AppState.Animate` in place |
| App.MagicStopwatch.Start | App.tsx:52-57 | performs `AppState.Start` in place, keeping the invariant |
| App.MagicStopwatch.Stop | App.tsx:59-63 | performs `AppState.Stop` in place, keeping the invariant |
| App.MagicStopwatch.Reset | App.tsx:65-71 | performs `AppState.Reset` in place |
| App.MagicStopwatch.Lap | App.tsx:73-75 | performs `AppState.Lap` in place |
| App.MagicStopwatch.Back | App.tsx:77-80 | performs `AppState.Back` in place, by way of `Reset` |
| App.MagicStopwatch.Press | App.tsx:194-241 | a click on a control performs the handler its dispatch selects, or nothing when it is not drawn (outside the stopwatch stage, or hidden before or after the first start) or disabled |
| App.EnterOneFifteen | components/Numpad.tsx:14-38 | typing 1, 1, 5 on a fresh pad confirms 75 seconds |
| App.FixedTimeScenario | App.tsx:30-101 | fixed-time mode, entry 01:15 handed from the pad's confirm to the handler, start, a frame, then stop: the face reads "00:01" ".15" whatever the true elapsed time |

## Left out

- Rendering: the JSX views, the Tailwind classes, the icons, the digit highlighting in the pad, and the lap list with its numbering (App.tsx:253). These only present the state.
- components/Button.tsx is not part of this model. It only maps a variant to CSS classes.
- `Date.now()` and `new Date()` become parameters. `now` is given to `Start`, `Animate` and `Press`; `hour` and `minute` are given to `TrickTimeMs` and `DisplayTimeMs`.
- `requestAnimationFrame` and `cancelAnimationFrame` become the `frameLoops` count. When frames fire is up to the caller, who calls `Animate` explicitly. The frame timestamp that `animate` receives is unused in the code, so it is left out.
- React's batched, asynchronous state updates and stale closures become plain field assignments in handler order. For example, `handleStop` reads `elapsedTime` from its render; the model reads the current field.
- JavaScript numbers become unbounded integers: every value is a whole number of milliseconds or seconds. `parseInt` is applied only to strings of digits here, so its NaN case cannot arise and is not modelled.
- Utils.FixedTimeMs: takes a `nat`. The value always comes from a Numpad confirm, which is never negative, so JavaScript's truncating `%` on negative totals is not modelled.
- Numpad.NumpadInput.PressDigit: takes a `Digit` in 0..9, since the pad only has buttons for those digits.
- Button press animations and the hidden and disabled styling are presentational. Only their effect on which handler a click reaches is modelled, in `AppState.Dispatch`.
