/** The `Game` screen's logic: the terminal key handler that turns key events into engine
    events, the live words-per-minute figure and the window of words on screen. */
module GameInput {

  import opened Optional
  import opened Session
  import Scoring

  /** The parts of an Ink key event the handler reads: the text received and the flags. */
  datatype Key = Key(input: string, escape: bool, tab: bool, backspace: bool, delete: bool,
                     ctrl: bool, meta: bool)

  /** What one key event does: leave the game, restart it, or call the engine's handlers
      with these events, in order. */
  datatype KeyOutcome = Exit | Restart | Dispatch(events: seq<Event>)

  /** The characters the handler passes to `handleChar`: `"!"` through `"~"`. */
  predicate Printable(ch: char)
  {
    '!' <= ch <= '~'
  }

  /** The engine event one received character becomes, if any. */
  function CharEvent(ch: char): seq<Event>
  {
    if ch == ' ' then [Space] else if Printable(ch) then [Char([ch])] else []
  }

  /** The events a received text becomes, character by character in order. */
  function InputEvents(input: string): (events: seq<Event>)
    ensures |events| <= |input|
    ensures forall i :: 0 <= i < |events| ==>
      events[i] == Space || (events[i].Char? && |events[i].c| == 1 && Printable(events[i].c[0]))
  {
    if input == [] then [] else InputEvents(input[..|input| - 1]) + CharEvent(input[|input| - 1])
  }

  /** The `useInput` callback. Escape and Tab reach their callbacks even once the game is
      finished; after that nothing else is passed on. Backspace and delete become one
      backspace; text with ctrl or meta held is dropped; other text is split into spaces and
      printable characters. */
  method RouteKey(key: Key, isFinished: bool) returns (outcome: KeyOutcome)
    ensures key.escape ==> outcome == Exit
    ensures !key.escape && key.tab ==> outcome == Restart
    ensures !key.escape && !key.tab && isFinished ==> outcome == Dispatch([])
    ensures !key.escape && !key.tab && !isFinished && (key.backspace || key.delete) ==>
      outcome == Dispatch([Backspace])
    ensures !key.escape && !key.tab && !isFinished && !(key.backspace || key.delete) && (key.ctrl || key.meta) ==>
      outcome == Dispatch([])
    ensures !key.escape && !key.tab && !isFinished && !(key.backspace || key.delete) && !key.ctrl && !key.meta ==>
      outcome == Dispatch(InputEvents(key.input))
  {
    if key.escape {
      return Exit;
    }
    if key.tab {
      return Restart;
    }
    if isFinished {
      return Dispatch([]);
    }
    var events: seq<Event> := [];
    if key.backspace || key.delete {
      events := [Backspace];
    } else if key.input != "" && !key.ctrl && !key.meta {
      for i := 0 to |key.input|
        invariant events == InputEvents(key.input[..i])
      {
        var ch := key.input[i];
        assert key.input[..i + 1][..i] == key.input[..i];
        if ch == ' ' {
          events := events + [Space];
        } else if '!' <= ch <= '~' {
          events := events + [Char([ch])];
        }
      }
      assert key.input[..|key.input|] == key.input;
    }
    outcome := Dispatch(events);
  }

  /** Spaces in the received text become exactly as many `handleSpace` calls. */
  lemma {:induction false} SpacesInInput(input: string)
    ensures |InputEvents(input)| == |input| - NotPassedOn(input)
    ensures CountSpaceEvents(InputEvents(input)) == CountSpaces(input)
  {
    if input != [] {
      SpacesInInput(input[..|input| - 1]);
      CountSpaceEventsAppend(InputEvents(input[..|input| - 1]), CharEvent(input[|input| - 1]));
    }
  }

  function CountSpaces(input: string): nat
  {
    if input == [] then 0 else CountSpaces(input[..|input| - 1]) + (if input[|input| - 1] == ' ' then 1 else 0)
  }

  /** Received characters that are neither a space nor printable. */
  function NotPassedOn(input: string): nat
  {
    if input == [] then 0
    else NotPassedOn(input[..|input| - 1]) + (if input[|input| - 1] == ' ' || Printable(input[|input| - 1]) then 0 else 1)
  }

  function CountSpaceEvents(events: seq<Event>): nat
  {
    if events == [] then 0 else CountSpaceEvents(events[..|events| - 1]) + (if events[|events| - 1] == Space then 1 else 0)
  }

  lemma {:induction false} CountSpaceEventsAppend(a: seq<Event>, b: seq<Event>)
    ensures CountSpaceEvents(a + b) == CountSpaceEvents(a) + CountSpaceEvents(b)
    decreases |b|
  {
    if b != [] {
      assert (a + b)[..|a + b| - 1] == a + b[..|b| - 1];
      assert (a + b)[|a + b| - 1] == b[|b| - 1];
      CountSpaceEventsAppend(a, b[..|b| - 1]);
    } else {
      assert a + b == a;
    }
  }

  /** The events a key produces never break the engine's invariant. */
  lemma RoutedEventsKeepValid(s: GameState, key: Key, duration: int)
    requires Valid(s, duration)
    ensures !key.escape && !key.tab && !s.isFinished && !(key.backspace || key.delete) && !key.ctrl && !key.meta ==>
      Valid(Run(s, InputEvents(key.input)), duration)
    ensures Valid(Run(s, [Backspace]), duration)
  {
    RunValid(s, InputEvents(key.input), duration);
    RunValid(s, [Backspace], duration);
  }

  // ---------------------------------------------------------------------------------------
  // Live words per minute

  /** `(duration - timeLeft) || 1`: the elapsed seconds, read as 1 when none have passed. */
  function Elapsed(duration: int, timeLeft: int): (e: int)
    ensures e != 0
    ensures e == duration - timeLeft || (duration == timeLeft && e == 1)
  {
    if duration - timeLeft == 0 then 1 else duration - timeLeft
  }

  /** `liveWpm`, with the correct-character count it is meant to read passed in. */
  function LiveWpm(isRunning: bool, isFinished: bool, duration: int, timeLeft: int, correctChars: int): int
  {
    if !isRunning || isFinished then 0 else Scoring.Wpm(correctChars, Elapsed(duration, timeLeft))
  }

  /** The live figure for a session, over the characters scored so far. */
  function LiveWpmOf(s: GameState, duration: int): int
    requires Shaped(s)
  {
    LiveWpm(s.isRunning, s.isFinished, duration, s.timeLeft, Scoring.CorrectChars(s))
  }

  /** On a valid session the live figure is 0 unless running, and otherwise the correct
      characters per five over the elapsed minutes, rounded, with at least one second
      elapsed and never more than the duration. */
  lemma LiveWpmOfValid(s: GameState, duration: int)
    requires Valid(s, duration)
    ensures !s.isRunning || s.isFinished ==> LiveWpmOf(s, duration) == 0
    ensures s.isRunning && !s.isFinished ==>
      var e := Elapsed(duration, s.timeLeft);
      && 1 <= e <= duration
      && LiveWpmOf(s, duration) == Scoring.Wpm(Scoring.CorrectChars(s), e)
      && LiveWpmOf(s, duration) >= 0
  {
    if s.isRunning && !s.isFinished {
      Scoring.WpmNonNegative(Scoring.CorrectChars(s), Elapsed(duration, s.timeLeft));
    }
  }

  /** Four correct characters three seconds in give 16 words per minute. */
  lemma LiveWpmExample()
    ensures LiveWpm(true, false, 15, 12, 4) == 16
    ensures LiveWpm(true, false, 15, 15, 4) == 48
    ensures LiveWpm(false, false, 15, 12, 4) == 0
  {
  }

  /** A field of the object `useGame` returns: a number, or some other value (a list, a
      string, a flag or a handler), which `liveWpm` never reads. */
  datatype HookValue = Number(n: int) | Other

  /** The object `useGame` returns: the state's fields spread in, then `startGame` and the
      handlers. */
  function HookReturn(s: GameState): (fields: map<string, HookValue>)
    ensures "currentWordIndex" in fields && fields["currentWordIndex"] == Number(s.currentWordIndex)
    ensures "timeLeft" in fields && fields["timeLeft"] == Number(s.timeLeft)
    ensures "correctCharsAcc" !in fields
  {
    map["words" := Other, "currentWordIndex" := Number(s.currentWordIndex),
        "currentInput" := Other, "timeLeft" := Number(s.timeLeft),
        "isRunning" := Other, "isFinished" := Other,
        "wordResults" := Other, "charInputs" := Other,
        "startGame" := Other, "handleChar" := Other,
        "handleBackspace" := Other, "handleSpace" := Other,
        "getResults" := Other]
  }

  /** `game[name]` used as a number: `undefined`, here `None`, when the field is absent. */
  function ReadNumber(fields: map<string, HookValue>, name: string): (r: Option<int>)
    ensures r.Some? <==> name in fields && fields[name].Number?
    ensures r.Some? ==> fields[name] == Number(r.value)
  {
    if name in fields && fields[name].Number? then Some(fields[name].n) else None
  }

  /** `liveWpm` over whatever `correctCharsAcc` reads as: 0 when idle or finished; otherwise
      the rounded WPM, or NaN (here `None`) when the count is `undefined`, since NaN passes
      through the divisions and `Math.round`. */
  function LiveWpmRead(isRunning: bool, isFinished: bool, duration: int, timeLeft: int,
                       correctCharsAcc: Option<int>): (r: Option<int>)
    ensures !isRunning || isFinished ==> r == Some(0)
    ensures isRunning && !isFinished ==> (r.None? <==> correctCharsAcc.None?)
  {
    if !isRunning || isFinished then Some(0)
    else
      match correctCharsAcc
      case None => None
      case Some(c) => Some(LiveWpm(isRunning, isFinished, duration, timeLeft, c))
  }

  /** `liveWpm` as written: it reads `correctCharsAcc` from the hook's returned object. */
  function LiveWpmAsWritten(s: GameState, duration: int): Option<int>
  {
    LiveWpmRead(s.isRunning, s.isFinished, duration, s.timeLeft,
                ReadNumber(HookReturn(s), "correctCharsAcc"))
  }

  /** As written the live figure is NaN exactly while the session runs, because the hook
      returns no `correctCharsAcc`; reading the correct characters scored so far instead
      gives the corrected figure `LiveWpmOf`, a number that is never negative. */
  lemma LiveWpmAsWrittenIsNaN(s: GameState, duration: int)
    requires Valid(s, duration)
    ensures LiveWpmAsWritten(s, duration).None? <==> s.isRunning && !s.isFinished
    ensures LiveWpmRead(s.isRunning, s.isFinished, duration, s.timeLeft, Some(Scoring.CorrectChars(s)))
              == Some(LiveWpmOf(s, duration))
    ensures LiveWpmOf(s, duration) >= 0
  {
    LiveWpmOfValid(s, duration);
  }

  // ---------------------------------------------------------------------------------------
  // The words on screen

  /** `words.slice(0, Math.min(words.length, currentWordIndex + 30))`: a prefix of the list
      that shows the current word and at most 30 words from it on. */
  function VisibleWords(words: seq<string>, currentWordIndex: nat): (r: seq<string>)
    ensures r <= words
    ensures |r| <= currentWordIndex + 30
    ensures currentWordIndex < |words| ==> currentWordIndex < |r|
    ensures |r| == |words| || |r| == currentWordIndex + 30
  {
    words[..if |words| <= currentWordIndex + 30 then |words| else currentWordIndex + 30]
  }
}
