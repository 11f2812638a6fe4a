# wpmx typing-session engine, modelled in Dafny

wpmx is a terminal typing test. The user types a stream of random words against a countdown
of 15, 30 or 60 seconds. The program scores each committed word character by character and
reports words per minute (WPM) and accuracy. It keeps a history of finished sessions, from
which it reads a personal best per duration.

The model covers four parts of the program.

- **The engine** is the `useGame` hook. Its state is one `GameState` record: the words, the
  cursor `currentWordIndex`, the `currentInput`, `timeLeft`, `isRunning`, `isFinished`, a
  pending/correct/incorrect result per word, and the keystrokes typed per word
  (`charInputs`). Its updaters are `handleChar`, `handleBackspace`, `handleSpace`, the
  one-second tick and `startGame`. Each builds a new record from the previous one, so each
  is a pure function here (module `Session`). `getResults` is a method whose nested loops
  are proved against recursive sums (module `Scoring`).
- **The game screen** (module `GameInput`) routes key events to engine events, computes the
  live WPM and picks the words shown on screen.
- **The start menu** (module `Menu`) keeps a mutable selected index, so it is a class.
- **The store** (module `Storage`) handles history and settings. A JSON file is modelled as
  the value it holds.

The session invariant `Session.Valid` says four things:

- The input always equals the joined keystrokes of the current word.
- The words past the cursor hold no keystrokes and are pending.
- Each committed word's result is `Correct` exactly when its keystrokes spell the word.
- The clock stays in `[0, duration]` and reads 0 exactly when the session is finished.

The invariant holds initially, and every event keeps it as long as each character event
carries one character. The key router only produces such events.

`Math.round` is round-half-up, computed exactly on rationals:
`RoundHalfUp(p, q) = floor(p/q + 1/2)`. WPM is `(correct / 5) / (seconds / 60)`, rounded.
Accuracy is kept in tenths of a percent, `RoundHalfUp(1000 * correct, total)`. The program
displays that value divided by ten.

Two properties of the code shape the model:

- The tick subtracts one second from `timeLeft` (src/hooks/useGame.ts:49). The start time
  that the hook records is never read.
- `getResults` rescans every committed word on each call and ignores `wordResults`. As a
  result, a retreated and re-committed word scores only its latest contents.

## Model

| member | source | states |
|---|---|---|
| `Session.WordCount` | src/hooks/useGame.ts:30 | the word count is the larger of 3 × duration and 50 |
| `Session.GenerateWords` | src/hooks/useGame.ts:21-27 | the loop yields exactly `count` words; word i is the corpus entry at the i-th random index |
| `Session.NewGame` | src/hooks/useGame.ts:29-40 | a new game has its drawn words and starts from the initial state for its duration |
| `Session.InitialState` | src/hooks/useGame.ts:31-40 | defined as in the source; properties in `Session.InitialStateValid` |
| `Session.InitialStateValid` | src/hooks/useGame.ts:30-40 | initially: `WordCount(duration)` words, results and keystroke lists; index 0; empty input; `timeLeft = duration`; idle; all results pending; all keystroke lists empty; and the invariant holds |
| `Session.HandleChar` | src/hooks/useGame.ts:68-96 | the updater keeps the cursor, the words and the state's shape |
| `Session.HandleCharValid` | src/hooks/useGame.ts:68-96 | a finished session is left unchanged. Otherwise the updater appends the character to both the input and the current word's keystrokes and sets `isRunning`. Nothing else changes, and the invariant is kept |
| `Session.HandleBackspace` | src/hooks/useGame.ts:98-128 | the updater keeps the words and the state's shape |
| `Session.HandleBackspaceValid` | src/hooks/useGame.ts:98-128 | it does nothing when finished, or when the input is empty at index 0. With non-empty input it removes exactly the last character of the input and the last keystroke of the word, and changes nothing else. With empty input at k > 0 it moves to k−1, reloads that word's joined keystrokes as the input and resets its result to pending, leaving the keystrokes untouched. The invariant is kept |
| `Session.HandleSpace` | src/hooks/useGame.ts:130-146 | the updater keeps the words and the state's shape |
| `Session.HandleSpaceValid` | src/hooks/useGame.ts:130-146 | it does nothing when finished or not running. Otherwise it records `Correct` exactly when the input equals the word, never pending. It advances the index by exactly 1, clears the input and leaves the keystrokes untouched. The invariant is kept |
| `Session.TimerTick` | src/hooks/useGame.ts:45-61 | the tick lowers `timeLeft` by one. It finishes the session, at 0 and no longer running, exactly when the new value would be ≤ 0. Nothing else changes |
| `Session.StartGame` | src/hooks/useGame.ts:63-66 | it sets `isRunning` whatever `isFinished` is, and changes nothing else |
| `Session.Step` | src/hooks/useGame.ts:45-146 | a tick outside a running, unfinished session leaves the state unchanged. Every event keeps the words and the state's shape |
| `Session.Run` | src/hooks/useGame.ts:45-146 | any sequence of events keeps the words and the state's shape |
| `Session.StepValid` | src/hooks/useGame.ts:45-146 | each event, with single-character input, keeps the invariant |
| `Session.RunValid` | src/hooks/useGame.ts:45-146 | any event sequence with single-character input keeps the invariant: input mirrors history, later words untouched, results match keystrokes, clock in range |
| `Session.CharThenBackspace` | src/hooks/useGame.ts:68-126 | typing a character and then deleting it restores the running state exactly |
| `Session.SpaceThenBackspace` | src/hooks/useGame.ts:98-146 | committing a word and then backspacing at the next word restores the state exactly |
| `Session.BackspaceThenSpace` | src/hooks/useGame.ts:98-146 | retreating into the previous word and then committing it again restores the state exactly |
| `Session.FinishedIsAbsorbing` | src/hooks/useGame.ts:46-146 | once finished, the session stays finished under any events and only `isRunning` can change. Without a `startGame`, nothing changes |
| `Session.TicksCountDown` | src/hooks/useGame.ts:45-61 | a running session with n seconds left is still running after fewer than n ticks. It is finished at 0 from the n-th tick on, and the ticks change nothing but the clock fields |
| `Session.FinishesAfterDurationTicks` | src/hooks/useGame.ts:35-61 | a session started with `duration` seconds finishes after exactly `duration` ticks, and not before |
| `Session.FinishesAfterTimeLeftTicks` | src/hooks/useGame.ts:45-146 | with any keystrokes and `startGame` calls between the ticks, a running session with `timeLeft` seconds left finishes exactly when `timeLeft` ticks have arrived. Until then it keeps running and its clock reads `timeLeft` minus the ticks so far; afterwards the clock reads 0 |
| `Session.HandleCharAsWritten` | src/hooks/useGame.ts:68-96 | as written, `handleChar` throws exactly when the session is not finished and the cursor is past the last keystroke list |
| `Session.HandleSpaceAsWritten` | src/hooks/useGame.ts:130-146 | as written, a space on a running session always advances the cursor, even past the last word |
| `Session.SpacesAdvance` | src/hooks/useGame.ts:130-146 | on a running session, n spaces commit n words while words remain |
| `Session.PastingPastWordListCrashes` | src/hooks/useGame.ts:68-146 | pasting one letter and one space per word reaches the last word. Committing it and typing once more then throws as written, while the corrected handlers ignore the extra keystrokes |
| `Scoring.RoundHalfUp` | src/hooks/useGame.ts:166-167 | the result is the integer r with r ≤ p/q + 1/2 < r + 1 |
| `Scoring.Wpm` | src/hooks/useGame.ts:166 | defined as in the source; properties in `Scoring.WpmNonNegative` and `Scoring.GetResults` |
| `Scoring.MatchesUpTo` | src/hooks/useGame.ts:159-161 | position-wise matches within the first n characters of the word number at most n |
| `Scoring.WordTotal` | src/hooks/useGame.ts:155 | defined as in the source; properties in `Scoring.WordCorrectAtMostTotal` and `Scoring.OvertypedWordScore` |
| `Scoring.WordCorrect` | src/hooks/useGame.ts:157-161 | defined as in the source; properties in `Scoring.WordCorrectAtMostTotal`, `Scoring.OvertypedWordScore` and `Scoring.WordScoreExamples` |
| `Scoring.WordCorrectAtMostTotal` | src/hooks/useGame.ts:155-162 | a committed word never scores more correct characters than it counts in total, and it counts at least 1 |
| `Scoring.CorrectUpTo` | src/hooks/useGame.ts:152-163 | the correct characters over the first n words never exceed their total |
| `Scoring.TotalUpTo` | src/hooks/useGame.ts:152-155 | the total over the first n words is at least n, because each counts its separator |
| `Scoring.ScoreBounds` | src/hooks/useGame.ts:148-163 | correct ≤ total. Total ≥ `currentWordIndex`. Total is 0 exactly when no word is committed |
| `Scoring.GetResults` | src/hooks/useGame.ts:148-170 | the nested loops compute the correct and total counts over the committed words. wpm and accuracy are 0 when the total is 0, and are otherwise the rounded ratios over the full duration. wpm ≥ 0, accuracy lies in [0, 100.0] and time equals duration |
| `Scoring.WpmNonNegative` | src/hooks/useGame.ts:166 | the WPM of a non-negative count over a positive time is non-negative |
| `Scoring.AccuracyAtMost1000` | src/hooks/useGame.ts:167 | a ratio of at most 1 rounds to at most 1000 tenths of a percent |
| `Scoring.EditKeepsScore` | src/hooks/useGame.ts:68-126 | typing, or deleting within the current word, leaves both counts unchanged |
| `Scoring.CommitAddsWordScore` | src/hooks/useGame.ts:130-163 | committing a word adds exactly that word's correct and total counts, computed from the input |
| `Scoring.RetreatRemovesWordScore` | src/hooks/useGame.ts:103-163 | retreating into a word takes exactly that word's counts back off, so re-committing it scores only its latest contents |
| `Scoring.OvertypedWordScore` | src/hooks/useGame.ts:155-161 | an overtyped word earns only the matches within the word, with no separator bonus, and counts every typed character plus 1 |
| `Scoring.MatchesPrefix` | src/hooks/useGame.ts:159-160 | matches over the first n positions depend only on the first n typed characters |
| `Scoring.WordScoreExamples` | src/hooks/useGame.ts:155-162 | "the" typed as "the" scores 4 of 4; typed as "teh" it scores 1 of 4 |
| `GameInput.InputEvents` | src/components/Game.tsx:62-68 | a received text yields at most as many events as it has characters. Each event is a space or a one-character `!`..`~` character |
| `GameInput.RouteKey` | src/components/Game.tsx:48-70 | Escape exits and Tab restarts, both without engine events and even when finished. When finished, nothing else is dispatched. Backspace or delete dispatches exactly one backspace. Ctrl or meta input dispatches nothing. Other text is dispatched character by character, in order |
| `GameInput.SpacesInInput` | src/components/Game.tsx:62-68 | every space becomes one `handleSpace`, and only the characters that are neither space nor printable are dropped |
| `GameInput.CountSpaceEventsAppend` | src/components/Game.tsx:62-68 | the space events of two event lists in sequence add up |
| `GameInput.RoutedEventsKeepValid` | src/components/Game.tsx:59-68 | the events a key produces keep the engine invariant |
| `GameInput.Elapsed` | src/components/Game.tsx:74 | the elapsed time is `duration − timeLeft`, or 1 when that is 0, and never 0 |
| `GameInput.LiveWpmOfValid` | src/components/Game.tsx:72-76 | the live figure is 0 when not running or when finished. Otherwise it is the WPM over an elapsed time in [1, duration], and it is non-negative |
| `GameInput.LiveWpmExample` | src/components/Game.tsx:72-76 | 4 correct characters after 3 s give 16 WPM. At 0 s elapsed the time counts as 1 s. Not running gives 0 |
| `GameInput.LiveWpm` | src/components/Game.tsx:72-76 | defined as in the source, with the correct-character count as an input; properties in `GameInput.LiveWpmOfValid` and `GameInput.LiveWpmExample` |
| `GameInput.LiveWpmOf` | src/components/Game.tsx:72-76 | the corrected live figure over `Scoring.CorrectChars`; properties in `GameInput.LiveWpmOfValid` and `GameInput.LiveWpmAsWrittenIsNaN` |
| `GameInput.LiveWpmAsWritten` | src/components/Game.tsx:75 | `liveWpm` as written, reading `correctCharsAcc` from the hook's object; properties in `GameInput.LiveWpmAsWrittenIsNaN` |
| `GameInput.HookReturn` | src/hooks/useGame.ts:172-179 | the object the hook returns carries `currentWordIndex` and `timeLeft` as numbers and has no `correctCharsAcc` field |
| `GameInput.ReadNumber` | src/components/Game.tsx:75 | reading a field gives a number exactly when the field is present and numeric, and `undefined` when the field is absent |
| `GameInput.LiveWpmRead` | src/components/Game.tsx:72-76 | the live figure is 0 when idle or finished. While running it is NaN exactly when the count it reads is `undefined` |
| `GameInput.LiveWpmAsWrittenIsNaN` | src/components/Game.tsx:72-76 | reading `correctCharsAcc` from the hook's object gives NaN exactly while the session is running and not finished. Reading the correct characters scored so far gives the corrected figure `LiveWpmOf`, which is never negative |
| `GameInput.VisibleWords` | src/components/Game.tsx:89 | the rendered words are the prefix `[0, min(|words|, index + 30))`: every word up to the cursor, the current word when it exists, and at most 30 words from the current word on |
| `Menu.IndexOf` | src/components/Menu.tsx:14-16 | the result is the first position of the value, or −1 exactly when the value is absent |
| `Menu.DurationMenu.constructor` | src/components/Menu.tsx:13-16 | the initial selection holds the default duration |
| `Menu.DurationMenu.HandleKey` | src/components/Menu.tsx:18-28 | `q` quits first. Left or `h` decrements the index, staying at 0. Right or `l` increments it, staying at 2. Enter starts a game with the selected duration, always 15, 30 or 60. Other keys change nothing. The index stays in [0, 2] |
| `Storage.ReadJson` | src/lib/storage.ts:15-22 | the parsed contents are returned, or the fallback when the file is missing or does not parse |
| `Storage.GetHistory` | src/lib/storage.ts:35-37 | defined as in the source; properties in `Storage.StoreDefaults` and `Storage.SaveResult` |
| `Storage.LoadSettings` | src/lib/storage.ts:52-54 | defined as in the source; properties in `Storage.StoreDefaults` |
| `Storage.SaveSettings` | src/lib/storage.ts:56-59 | defined as in the source; the read-back is stated in `Storage.StoreDefaults` |
| `Storage.StoreDefaults` | src/lib/storage.ts:35-59 | history defaults to empty and settings default to `lastDuration = 30`. Saved settings are what the next load returns |
| `Storage.SaveResult` | src/lib/storage.ts:39-44 | the written history is the old one with the entry appended: one longer, with earlier entries unchanged |
| `Storage.Matching` | src/lib/storage.ts:47 | the filter keeps exactly the entries of the duration |
| `Storage.MaxWpm` | src/lib/storage.ts:49 | the maximum is ≥ every entry's wpm and equals some entry's wpm |
| `Storage.PersonalBest` | src/lib/storage.ts:46-50 | the result is none exactly when no entry has the duration. Otherwise it is ≥ the wpm of every such entry and equals the wpm of one of them |
| `Storage.MaxIsAnEntry` | src/lib/storage.ts:47-49 | the maximum over the matching entries is the wpm of an entry of that duration |
| `Storage.GetPersonalBest` | src/lib/storage.ts:46-50 | without a readable history file there is no personal best |
| `Storage.MatchingConcat` | src/lib/storage.ts:47 | filtering distributes over concatenation |
| `Storage.OtherDurationsIgnored` | src/lib/storage.ts:47 | an entry of another duration, wherever it stands, never changes the personal best |
| `Storage.PersonalBestAfterSave` | src/lib/storage.ts:39-50 | after an entry is saved, the personal best of its duration is the larger of the old best and its wpm. Other durations' bests are unchanged |

## Findings

| source | as written | input that shows it | evidently intended | confidence | as-written member | corrected member |
|---|---|---|---|---|---|---|
| src/hooks/useGame.ts:130-146 | `handleSpace` advances `currentWordIndex` with no upper bound. After the last word, `handleChar` spreads `charInputs[currentWordIndex]`, which is `undefined`, and throws. Further spaces make `getResults` read `charInputs[i]` past the end | duration 15 (50 words): paste "a" followed by 50 spaces, then type any letter | keystrokes past the end of the word list are ignored, and user input never throws | not executed | `Session.PastingPastWordListCrashes` | `Session.HandleSpace` |
| src/components/Game.tsx:75 | `liveWpm` reads `game.correctCharsAcc`, which `useGame` does not return (src/hooks/useGame.ts:172-179). While running it computes on `undefined` and shows NaN | any running game, e.g. one character typed | the live figure over the correct characters scored so far | not executed | `GameInput.LiveWpmAsWrittenIsNaN` | `GameInput.LiveWpmOf` |

The corrected engine is the one the rest of the model uses. `HandleSpace` and `HandleChar`
ignore keystrokes once the cursor has passed the last word. The cursor therefore never
exceeds the word count (`Session.Shaped`, kept by `Session.Run`). `LiveWpmOf` feeds
`Scoring.CorrectChars` into the live formula.

## Left out

- Rendering is not modelled: Ink/JSX layout, colours, the underlined cursor, `PastWord`/`FutureWord` and the strikethrough of extra characters. None of it feeds state back.
- React plumbing is replaced by explicit steps: `useState`, `useEffect`, `useCallback`, `useRef`, and `setInterval`/`clearInterval`. A tick is an event that acts only while the session is running and not finished.
- `Date.now` and `startTimeRef` are left out because the start time is written but never read.
- The effect that passes `getResults()` to `onFinish` when the session finishes (src/components/Game.tsx:42-46) is plumbing, and is not modelled.
- `Math.random` and the word corpus file are replaced by parameters: the corpus and the drawn indices are inputs of `Session.GenerateWords`.
- File I/O in the store (`existsSync`, `mkdirSync`, `readFileSync`, `Bun.write`, `JSON.parse`, the home-directory path) is replaced by `StoredFile` values. A history file that parses to something other than an array (`{}`, `null`) cannot be represented; in the code `getPersonalBest` then throws at `filter` and `saveResult` throws at `push`.
- Floating point is left out. Divisions and rounding are exact, so a result that lands on a half by floating-point error can differ by one.
- The results screen (src/components/Results.tsx), the app entry (src/app.tsx) and the video configuration (video/src/Root.tsx) are not part of this model.
- Unicode input is not modelled. Strings are sequences of characters, and the router passes on only `!`..`~` and space, one character per event.
- Session.HandleChar: once the cursor has passed the last word it ignores the character, where the code throws. This is the corrected behaviour of the first finding.
- Session.HandleSpace: once the cursor has passed the last word it ignores the space, where the code advances the cursor further. This is the corrected behaviour of the first finding.
- Session.HandleSpaceAsWritten: a result written past the end of `wordResults` leaves the sequence as it is, where JavaScript grows the array. Nothing reads those entries.
- Session.Valid: requires a duration of at least 1 second. The menu offers only 15, 30 and 60.
- Scoring.GetResults: requires a duration of at least 1 second, because the source divides by it. Every caller passes 15, 30 or 60.
- Menu.DurationMenu.constructor: requires the default duration to be 15, 30 or 60, as the `Duration` type declares. A settings file holding another number is not modelled.
- `saveSettings` is modelled as `Storage.SaveSettings` only so that settings can be read back. `ensureDir` is file I/O and is left out.
