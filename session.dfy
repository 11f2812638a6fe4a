/** The typing-session engine of the `useGame` hook: one record of state and the prev -> next
    updaters that the key router and the one-second interval apply to it. Every updater in
    the hook builds a fresh record from a spread copy of the previous one, so each is a pure
    function here. */
module Session {

  import opened Optional

  /** What a word has scored: pending until it is committed with a space. */
  datatype WordResult = Pending | Correct | Incorrect

  /** `GameState` as the hook declares it. `charInputs[i]` holds the keystrokes typed for
      word `i`, one string per keystroke. */
  datatype GameState = GameState(
    words: seq<string>,
    currentWordIndex: nat,
    currentInput: string,
    timeLeft: int,
    isRunning: bool,
    isFinished: bool,
    wordResults: seq<WordResult>,
    charInputs: seq<seq<string>>)

  /** Engine events: the three key handlers, the interval's tick and `startGame`. */
  datatype Event = Char(c: string) | Backspace | Space | Tick | Start

  /** `pieces.join("")` */
  function Concat(pieces: seq<string>): string
  {
    if pieces == [] then "" else Concat(pieces[..|pieces| - 1]) + pieces[|pieces| - 1]
  }

  /** `xs.slice(0, -1)`: all but the last element; an empty sequence stays empty. */
  function DropLast<T>(xs: seq<T>): (r: seq<T>)
    ensures |xs| > 0 ==> xs == r + [xs[|xs| - 1]]
    ensures |xs| == 0 ==> r == []
  {
    if |xs| == 0 then [] else xs[..|xs| - 1]
  }

  /** Every keystroke recorded for a word is exactly one character. */
  predicate SingleChars(pieces: seq<string>)
  {
    forall j :: 0 <= j < |pieces| ==> |pieces[j]| == 1
  }

  /** The result a commit records for `word` when the input reads `typed`. */
  function Outcome(word: string, typed: string): WordResult
  {
    if typed == word then Correct else Incorrect
  }

  /** `Math.max(duration * 3, 50)` */
  function WordCount(duration: int): (n: nat)
    ensures n >= 50 && n >= duration * 3
    ensures n == 50 || n == duration * 3
  {
    if duration * 3 > 50 then duration * 3 else 50
  }

  /** `generateWords`: `draws[i]` is the index `Math.floor(Math.random() * words.length)`
      drawn for the i-th word. */
  method GenerateWords(corpus: seq<string>, draws: seq<nat>, count: nat) returns (result: seq<string>)
    requires |draws| == count
    requires forall i :: 0 <= i < count ==> draws[i] < |corpus|
    ensures |result| == count
    ensures forall i :: 0 <= i < count ==> result[i] == corpus[draws[i]] && result[i] in corpus
  {
    result := [];
    for i := 0 to count
      invariant |result| == i
      invariant forall j :: 0 <= j < i ==> result[j] == corpus[draws[j]]
    {
      result := result + [corpus[draws[i]]];
    }
  }

  /** The state `useGame(duration)` starts from, once its words are drawn. */
  function InitialState(duration: int, words: seq<string>): GameState
    requires |words| == WordCount(duration)
  {
    var n := WordCount(duration);
    GameState(words, 0, "", duration, false, false, seq(n, _ => Pending), seq(n, _ => []))
  }

  /** The hook's initialisation: draw the words, then build the initial state. */
  method NewGame(duration: int, corpus: seq<string>, draws: seq<nat>) returns (s: GameState)
    requires |draws| == WordCount(duration)
    requires forall i :: 0 <= i < |draws| ==> draws[i] < |corpus|
    ensures |s.words| == WordCount(duration) && s == InitialState(duration, s.words)
    ensures forall i :: 0 <= i < |s.words| ==> s.words[i] == corpus[draws[i]]
  {
    var words := GenerateWords(corpus, draws, WordCount(duration));
    s := InitialState(duration, words);
  }

  /** The shape every state has: one result and one keystroke list per word, a cursor that
      is at most one past the last word, and nothing being typed once it is past it. */
  predicate Shaped(s: GameState)
  {
    && |s.wordResults| == |s.words|
    && |s.charInputs| == |s.words|
    && s.currentWordIndex <= |s.words|
    && (s.currentWordIndex == |s.words| ==> s.currentInput == "")
  }

  /** The session invariant: the input mirrors the keystroke history, words past the cursor
      are untouched, every committed word's result matches what was typed for it, and the
      clock lies in [0, duration] and reads 0 exactly when the session is finished. */
  predicate Valid(s: GameState, duration: int)
  {
    && duration >= 1
    && Shaped(s)
    && (forall i :: 0 <= i < |s.charInputs| ==> SingleChars(s.charInputs[i]))
    && (s.currentWordIndex < |s.words| ==> s.currentInput == Concat(s.charInputs[s.currentWordIndex]))
    && (forall i :: s.currentWordIndex < i < |s.charInputs| ==> s.charInputs[i] == [])
    && (forall i :: s.currentWordIndex <= i < |s.wordResults| ==> s.wordResults[i] == Pending)
    && (forall i :: 0 <= i < s.currentWordIndex ==>
          s.wordResults[i] == Outcome(s.words[i], Concat(s.charInputs[i])))
    && 0 <= s.timeLeft <= duration
    && (s.isFinished <==> s.timeLeft == 0)
    && (!s.isRunning && !s.isFinished ==> s.timeLeft == duration)
  }

  /** `handleChar`: the first character also starts the session. Once the cursor has moved
      past the last word the character is ignored (see `HandleCharAsWritten`). */
  function HandleChar(s: GameState, c: string): (t: GameState)
    requires Shaped(s)
    ensures Shaped(t) && t.words == s.words && t.currentWordIndex == s.currentWordIndex
  {
    if s.isFinished || s.currentWordIndex == |s.words| then s
    else
      var k := s.currentWordIndex;
      s.(isRunning := true,
         currentInput := s.currentInput + c,
         charInputs := s.charInputs[k := s.charInputs[k] + [c]])
  }

  /** `handleBackspace`: delete within the current word, or retreat into the previous word
      when the input is empty. */
  function HandleBackspace(s: GameState): (t: GameState)
    requires Shaped(s)
    ensures Shaped(t) && t.words == s.words
  {
    if s.isFinished then s
    else if |s.currentInput| == 0 then
      if s.currentWordIndex == 0 then s
      else
        var p := s.currentWordIndex - 1;
        s.(currentWordIndex := p,
           currentInput := Concat(s.charInputs[p]),
           wordResults := s.wordResults[p := Pending])
    else
      var k := s.currentWordIndex;
      s.(currentInput := DropLast(s.currentInput),
         charInputs := s.charInputs[k := DropLast(s.charInputs[k])])
  }

  /** `handleSpace`: commit the current word and advance. Past the last word there is no
      word to commit, and the space is ignored (see `HandleSpaceAsWritten`). */
  function HandleSpace(s: GameState): (t: GameState)
    requires Shaped(s)
    ensures Shaped(t) && t.words == s.words
  {
    if s.isFinished || !s.isRunning || s.currentWordIndex == |s.words| then s
    else
      var k := s.currentWordIndex;
      s.(currentWordIndex := k + 1,
         currentInput := "",
         wordResults := s.wordResults[k := Outcome(s.words[k], s.currentInput)])
  }

  /** The updater the one-second interval applies; the interval exists only while the
      session is running and not finished. */
  function TimerTick(s: GameState): (t: GameState)
    requires s.isRunning && !s.isFinished
    ensures t.isFinished <==> t.timeLeft == 0
    ensures t.isFinished <==> s.timeLeft <= 1
    ensures t.isFinished ==> !t.isRunning
    ensures t.isFinished || (t.isRunning && t.timeLeft == s.timeLeft - 1)
    ensures t.(timeLeft := s.timeLeft, isRunning := s.isRunning, isFinished := s.isFinished) == s
  {
    var newTimeLeft := s.timeLeft - 1;
    if newTimeLeft <= 0 then s.(timeLeft := 0, isRunning := false, isFinished := true)
    else s.(timeLeft := newTimeLeft)
  }

  /** `startGame`: sets `isRunning` without looking at `isFinished`. */
  function StartGame(s: GameState): (t: GameState)
    ensures t.isRunning && t.(isRunning := s.isRunning) == s
  {
    s.(isRunning := true)
  }

  /** One event applied to the state. A tick arriving while no interval is scheduled leaves
      the state alone. */
  function Step(s: GameState, e: Event): (t: GameState)
    requires Shaped(s)
    ensures Shaped(t) && t.words == s.words
    ensures e.Tick? && !(s.isRunning && !s.isFinished) ==> t == s
  {
    match e
    case Char(c) => HandleChar(s, c)
    case Backspace => HandleBackspace(s)
    case Space => HandleSpace(s)
    case Tick => if s.isRunning && !s.isFinished then TimerTick(s) else s
    case Start => StartGame(s)
  }

  /** The events applied in order, as React applies queued updaters. */
  function Run(s: GameState, events: seq<Event>): (t: GameState)
    requires Shaped(s)
    ensures Shaped(t) && t.words == s.words
    decreases |events|
  {
    if events == [] then s else Run(Step(s, events[0]), events[1..])
  }

  /** Every character event carries exactly one character. */
  predicate SingleCharEvents(events: seq<Event>)
  {
    forall i :: 0 <= i < |events| ==> (events[i].Char? ==> |events[i].c| == 1)
  }

  /** The number of ticks among the events. */
  function CountTicks(events: seq<Event>): nat
    decreases |events|
  {
    if events == [] then 0 else (if events[0] == Tick then 1 else 0) + CountTicks(events[1..])
  }

  function Spaces(n: nat): (r: seq<Event>)
    ensures |r| == n && forall i :: 0 <= i < n ==> r[i] == Space
  {
    seq(n, _ => Space)
  }

  function Ticks(n: nat): (r: seq<Event>)
    ensures |r| == n && forall i :: 0 <= i < n ==> r[i] == Tick
  {
    seq(n, _ => Tick)
  }

  // ---------------------------------------------------------------------------------------
  // Keystroke lists and the input string

  lemma ConcatAppend(pieces: seq<string>, x: string)
    ensures Concat(pieces + [x]) == Concat(pieces) + x
  {
    assert (pieces + [x])[..|pieces|] == pieces;
  }

  lemma {:induction false} ConcatLength(pieces: seq<string>)
    requires SingleChars(pieces)
    ensures |Concat(pieces)| == |pieces|
  {
    if pieces != [] {
      ConcatLength(pieces[..|pieces| - 1]);
    }
  }

  /** Removing the last keystroke removes the last character of the joined input. */
  lemma ConcatDropLast(pieces: seq<string>)
    requires SingleChars(pieces) && pieces != []
    ensures Concat(DropLast(pieces)) == DropLast(Concat(pieces))
  {
    ConcatLength(DropLast(pieces));
  }

  // ---------------------------------------------------------------------------------------
  // The invariant holds initially and every event keeps it

  lemma InitialStateValid(duration: int, words: seq<string>)
    requires duration >= 1 && |words| == WordCount(duration)
    ensures var s := InitialState(duration, words);
      && Valid(s, duration)
      && |s.words| == |s.wordResults| == |s.charInputs| == WordCount(duration)
      && s.currentWordIndex == 0 && s.currentInput == "" && s.timeLeft == duration
      && !s.isRunning && !s.isFinished
      && (forall i :: 0 <= i < |s.words| ==> s.wordResults[i] == Pending && s.charInputs[i] == [])
  {
  }

  /** `handleChar` appends the character to the input and to the current word's keystrokes,
      and changes nothing else but `isRunning`. */
  lemma HandleCharValid(s: GameState, c: string, duration: int)
    requires Valid(s, duration) && |c| == 1
    ensures var t := HandleChar(s, c);
      && Valid(t, duration)
      && (s.isFinished ==> t == s)
      && (!s.isFinished && s.currentWordIndex < |s.words| ==>
            && t.isRunning
            && t.currentInput == s.currentInput + c
            && t.charInputs[s.currentWordIndex] == s.charInputs[s.currentWordIndex] + [c]
            && t.(isRunning := s.isRunning, currentInput := s.currentInput) == s.(charInputs := t.charInputs)
            && (forall i :: 0 <= i < |s.words| && i != s.currentWordIndex ==> t.charInputs[i] == s.charInputs[i]))
  {
    var t := HandleChar(s, c);
    if !s.isFinished && s.currentWordIndex < |s.words| {
      var k := s.currentWordIndex;
      ConcatAppend(s.charInputs[k], c);
      assert forall i :: 0 <= i < |t.charInputs| ==> SingleChars(t.charInputs[i]);
      assert forall i :: 0 <= i < k ==> t.charInputs[i] == s.charInputs[i];
    }
  }

  /** `handleBackspace` with non-empty input drops exactly the last character of the input
      and the last keystroke of the current word; with empty input it retreats one word,
      reloads that word's keystrokes as the input and reopens its result. */
  lemma HandleBackspaceValid(s: GameState, duration: int)
    requires Valid(s, duration)
    ensures var t := HandleBackspace(s);
      && Valid(t, duration)
      && (s.isFinished || (s.currentInput == "" && s.currentWordIndex == 0) ==> t == s)
      && (!s.isFinished && s.currentInput != "" ==>
            && s.currentWordIndex < |s.words|
            && s.currentInput == t.currentInput + [s.currentInput[|s.currentInput| - 1]]
            && s.charInputs[s.currentWordIndex] ==
                 t.charInputs[s.currentWordIndex] + [s.charInputs[s.currentWordIndex][|s.charInputs[s.currentWordIndex]| - 1]]
            && t == s.(currentInput := t.currentInput, charInputs := t.charInputs)
            && (forall i :: 0 <= i < |s.words| && i != s.currentWordIndex ==> t.charInputs[i] == s.charInputs[i]))
      && (!s.isFinished && s.currentInput == "" && s.currentWordIndex > 0 ==>
            && t.currentWordIndex == s.currentWordIndex - 1
            && t.currentInput == Concat(s.charInputs[t.currentWordIndex])
            && t.wordResults == s.wordResults[t.currentWordIndex := Pending]
            && t.charInputs == s.charInputs
            && t == s.(currentWordIndex := t.currentWordIndex, currentInput := t.currentInput,
                       wordResults := t.wordResults))
  {
    var t := HandleBackspace(s);
    var k := s.currentWordIndex;
    if s.isFinished {
    } else if s.currentInput == "" {
      if k > 0 && k < |s.words| {
        ConcatLength(s.charInputs[k]);
      }
    } else {
      ConcatLength(s.charInputs[k]);
      ConcatDropLast(s.charInputs[k]);
      assert forall i :: 0 <= i < |t.charInputs| ==> SingleChars(t.charInputs[i]);
      assert forall i :: 0 <= i < k ==> t.charInputs[i] == s.charInputs[i];
    }
  }

  /** `handleSpace` records whether the input equals the current word, moves the cursor on
      by exactly one and clears the input, leaving the keystrokes untouched. */
  lemma HandleSpaceValid(s: GameState, duration: int)
    requires Valid(s, duration)
    ensures var t := HandleSpace(s);
      && Valid(t, duration)
      && (s.isFinished || !s.isRunning ==> t == s)
      && (!s.isFinished && s.isRunning && s.currentWordIndex < |s.words| ==>
            && t.currentWordIndex == s.currentWordIndex + 1
            && (t.wordResults[s.currentWordIndex] == Correct <==> s.currentInput == s.words[s.currentWordIndex])
            && t.wordResults[s.currentWordIndex] != Pending
            && t.currentInput == ""
            && t.charInputs == s.charInputs
            && t == s.(currentWordIndex := t.currentWordIndex, currentInput := "", wordResults := t.wordResults))
  {
    var t := HandleSpace(s);
    var k := s.currentWordIndex;
    if !s.isFinished && s.isRunning && k < |s.words| {
      if k + 1 < |s.words| {
        assert s.charInputs[k + 1] == [];
      }
      assert forall i :: 0 <= i < k ==> t.wordResults[i] == s.wordResults[i];
    }
  }

  lemma StepValid(s: GameState, e: Event, duration: int)
    requires Valid(s, duration)
    requires e.Char? ==> |e.c| == 1
    ensures Valid(Step(s, e), duration)
  {
    match e
    case Char(c) => HandleCharValid(s, c, duration);
    case Backspace => HandleBackspaceValid(s, duration);
    case Space => HandleSpaceValid(s, duration);
    case Tick =>
    case Start =>
  }

  /** Given single-character keystrokes, any sequence of events keeps the invariant. */
  lemma {:induction false} RunValid(s: GameState, events: seq<Event>, duration: int)
    requires Valid(s, duration) && SingleCharEvents(events)
    ensures Valid(Run(s, events), duration)
    decreases |events|
  {
    if events != [] {
      StepValid(s, events[0], duration);
      assert SingleCharEvents(events[1..]) by {
        forall i | 0 <= i < |events| - 1
          ensures events[1..][i].Char? ==> |events[1..][i].c| == 1
        {
          assert events[1..][i] == events[i + 1];
        }
      }
      RunValid(Step(s, events[0]), events[1..], duration);
    }
  }

  // ---------------------------------------------------------------------------------------
  // Undoing: each edit and its inverse

  /** Typing a character and deleting it gives back the same running state. */
  lemma CharThenBackspace(s: GameState, c: string, duration: int)
    requires Valid(s, duration) && |c| == 1
    requires s.isRunning && !s.isFinished && s.currentWordIndex < |s.words|
    ensures HandleBackspace(HandleChar(s, c)) == s
  {
    var k := s.currentWordIndex;
    var t := HandleChar(s, c);
    assert DropLast(s.currentInput + c) == s.currentInput;
    assert DropLast(s.charInputs[k] + [c]) == s.charInputs[k];
    assert t.charInputs[k := DropLast(t.charInputs[k])] == s.charInputs;
  }

  /** Committing a word and backspacing at the start of the next restores the state. */
  lemma SpaceThenBackspace(s: GameState, duration: int)
    requires Valid(s, duration)
    requires s.isRunning && !s.isFinished && s.currentWordIndex < |s.words|
    ensures HandleBackspace(HandleSpace(s)) == s
  {
    var k := s.currentWordIndex;
    assert s.wordResults[k := Outcome(s.words[k], s.currentInput)][k := Pending] == s.wordResults;
  }

  /** Retreating into the previous word and committing it again restores the state. */
  lemma BackspaceThenSpace(s: GameState, duration: int)
    requires Valid(s, duration)
    requires s.isRunning && !s.isFinished && s.currentInput == "" && s.currentWordIndex > 0
    ensures HandleSpace(HandleBackspace(s)) == s
  {
    var p := s.currentWordIndex - 1;
    assert s.wordResults[p := Pending][p := Outcome(s.words[p], Concat(s.charInputs[p]))] == s.wordResults;
  }

  // ---------------------------------------------------------------------------------------
  // The finished state and the clock

  /** Once finished, no event changes anything but `isRunning` (which `startGame` may set). */
  lemma {:induction false} FinishedIsAbsorbing(s: GameState, events: seq<Event>)
    requires Shaped(s) && s.isFinished
    ensures var t := Run(s, events);
      && t.isFinished && t.(isRunning := s.isRunning) == s
      && ((forall i :: 0 <= i < |events| ==> events[i] != Start) ==> t == s)
    decreases |events|
  {
    if events != [] {
      FinishedIsAbsorbing(Step(s, events[0]), events[1..]);
    }
  }

  /** A running session with `n` seconds left is still running after fewer than `n` ticks and
      finishes at exactly the `n`-th; later ticks change nothing. */
  lemma {:induction false} TicksCountDown(s: GameState, n: nat, duration: int)
    requires Valid(s, duration) && s.isRunning && !s.isFinished
    ensures var t := Run(s, Ticks(n));
      && (n < s.timeLeft ==> t.isRunning && !t.isFinished && t.timeLeft == s.timeLeft - n)
      && (n >= s.timeLeft ==> t.isFinished && t.timeLeft == 0 && !t.isRunning)
      && t.(timeLeft := s.timeLeft, isRunning := s.isRunning, isFinished := s.isFinished) == s
    decreases n
  {
    if n > 0 {
      var u := Step(s, Tick);
      assert Ticks(n)[0] == Tick && Ticks(n)[1..] == Ticks(n - 1);
      if u.isFinished {
        FinishedIsAbsorbing(u, Ticks(n - 1));
      } else {
        TicksCountDown(u, n - 1, duration);
      }
    }
  }

  /** A session started with `duration` seconds finishes after exactly `duration` ticks. */
  lemma FinishesAfterDurationTicks(s: GameState, duration: int)
    requires Valid(s, duration) && s.isRunning && !s.isFinished && s.timeLeft == duration
    ensures !Run(s, Ticks(duration - 1)).isFinished
    ensures Run(s, Ticks(duration)).isFinished && Run(s, Ticks(duration)).timeLeft == 0
  {
    TicksCountDown(s, duration - 1, duration);
    TicksCountDown(s, duration, duration);
  }

  /** Keystrokes and `startGame` calls between the ticks do not move the clock: a running
      session with `timeLeft` seconds left finishes exactly once `timeLeft` ticks have
      arrived, whatever else happens in between, and keeps running until then. */
  lemma {:induction false} FinishesAfterTimeLeftTicks(s: GameState, events: seq<Event>)
    requires Shaped(s) && s.isRunning && !s.isFinished && s.timeLeft >= 1
    ensures var t := Run(s, events);
      && (t.isFinished <==> CountTicks(events) >= s.timeLeft)
      && t.timeLeft == (if CountTicks(events) >= s.timeLeft then 0 else s.timeLeft - CountTicks(events))
      && (!t.isFinished ==> t.isRunning)
    decreases |events|
  {
    if events != [] {
      var u := Step(s, events[0]);
      if u.isFinished {
        FinishedIsAbsorbing(u, events[1..]);
      } else {
        FinishesAfterTimeLeftTicks(u, events[1..]);
      }
    }
  }

  // ---------------------------------------------------------------------------------------
  // Finding: the cursor can run past the last word

  /** `handleChar` exactly as written: it spreads `charInputs[currentWordIndex]` without a
      bound check, which throws a TypeError (here: `None`) once the cursor is past the
      last word. */
  function HandleCharAsWritten(s: GameState, c: string): (r: Option<GameState>)
    ensures r.None? <==> !s.isFinished && s.currentWordIndex >= |s.charInputs|
  {
    if s.isFinished then Some(s)
    else if s.currentWordIndex >= |s.charInputs| then None
    else
      var k := s.currentWordIndex;
      Some(s.(isRunning := true,
              currentInput := s.currentInput + c,
              charInputs := s.charInputs[k := s.charInputs[k] + [c]]))
  }

  /** `handleSpace` exactly as written: no bound check on `currentWordIndex`, so the cursor
      keeps advancing past the last word (the result written past the end only grows an
      array nothing reads). */
  function HandleSpaceAsWritten(s: GameState): (t: GameState)
    ensures !s.isFinished && s.isRunning ==> t.currentWordIndex == s.currentWordIndex + 1
    ensures s.isFinished || !s.isRunning ==> t == s
  {
    if s.isFinished || !s.isRunning then s
    else
      var k := s.currentWordIndex;
      s.(currentWordIndex := k + 1,
         currentInput := "",
         wordResults :=
           if k >= |s.wordResults| then s.wordResults
           else if k < |s.words| then s.wordResults[k := Outcome(s.words[k], s.currentInput)]
           else s.wordResults[k := Incorrect])
  }

  /** Spaces on a running session each commit one word until the list runs out. */
  lemma {:induction false} SpacesAdvance(s: GameState, n: nat, duration: int)
    requires Valid(s, duration) && s.isRunning && !s.isFinished
    requires s.currentWordIndex + n <= |s.words|
    ensures var t := Run(s, Spaces(n));
      t.currentWordIndex == s.currentWordIndex + n && t.isRunning && !t.isFinished
      && (n > 0 ==> t.currentInput == "")
    decreases n
  {
    if n > 0 {
      HandleSpaceValid(s, duration);
      assert Spaces(n)[0] == Space && Spaces(n)[1..] == Spaces(n - 1);
      SpacesAdvance(HandleSpace(s), n - 1, duration);
    }
  }

  /** Pasting one letter and one space per word into a fresh session brings the cursor to
      the last word; as written, committing it and typing one more character throws, while
      the corrected handlers ignore the extra keystrokes. */
  lemma PastingPastWordListCrashes(duration: int, words: seq<string>)
    requires duration >= 1 && |words| == WordCount(duration)
    ensures var s := Run(InitialState(duration, words), [Char("a")] + Spaces(|words| - 1));
      && s.currentWordIndex == |words| - 1 && s.isRunning && !s.isFinished
      && HandleSpaceAsWritten(s).currentWordIndex == |words|
      && HandleCharAsWritten(HandleSpaceAsWritten(s), "a") == None
      && HandleChar(HandleSpace(s), "a") == HandleSpace(s)
      && HandleSpace(HandleSpace(s)) == HandleSpace(s)
  {
    var s0 := InitialState(duration, words);
    InitialStateValid(duration, words);
    var s1 := HandleChar(s0, "a");
    HandleCharValid(s0, "a", duration);
    var evs := [Char("a")] + Spaces(|words| - 1);
    assert evs[0] == Char("a") && evs[1..] == Spaces(|words| - 1);
    assert Run(s0, evs) == Run(s1, Spaces(|words| - 1));
    SpacesAdvance(s1, |words| - 1, duration);
  }
}
