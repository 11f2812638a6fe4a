/** `getResults` of the `useGame` hook: the committed words are rescanned on every call, and
    the correct and total character counts give the words per minute and the accuracy.
    Numbers are exact rationals here, and `Math.round` is round-half-up. */
module Scoring {

  import opened Session

  /** `GameResults`, with the accuracy kept in tenths of a percent: the source's
      `Math.round(ratio * 1000) / 10` is this value divided by ten. */
  datatype GameResults = GameResults(wpm: int, accuracyTenths: int, time: int)

  /** `Math.round(p / q)`: the integer nearest to `p / q`, halves rounded up. */
  function RoundHalfUp(p: int, q: int): (r: int)
    requires q != 0
    ensures q > 0 ==> 2 * q * r <= 2 * p + q < 2 * q * (r + 1)
    ensures q < 0 ==> -2 * q * r <= -2 * p - q < -2 * q * (r + 1)
  {
    var (a, b) := if q > 0 then (p, q) else (-p, -q);
    var d := 2 * b;
    var r := (2 * a + b) / d;
    assert d * r + (2 * a + b) % d == 2 * a + b;
    r
  }

  /** `(correctChars / 5) / (seconds / 60)` rounded: five characters make a word. */
  function Wpm(correctChars: int, seconds: int): int
    requires seconds != 0
  {
    RoundHalfUp(60 * correctChars, 5 * seconds)
  }

  /** Positions `j < n` of `word` where `typed` has the same character; a position past the
      end of `typed` (JavaScript's `undefined`) never matches. */
  function MatchesUpTo(word: string, typed: string, n: nat): (m: nat)
    requires n <= |word|
    ensures m <= n
  {
    if n == 0 then 0
    else MatchesUpTo(word, typed, n - 1) + (if n - 1 < |typed| && typed[n - 1] == word[n - 1] then 1 else 0)
  }

  /** The characters a committed word counts in the total: the longer of word and input,
      plus its separator. */
  function WordTotal(word: string, typed: string): nat
  {
    (if |word| >= |typed| then |word| else |typed|) + 1
  }

  /** The characters a committed word counts as correct: the whole word and its separator
      on an exact match, otherwise the matching positions within the word. */
  function WordCorrect(word: string, typed: string): nat
  {
    if typed == word then |word| + 1 else MatchesUpTo(word, typed, |word|)
  }

  /** A word never scores more correct characters than it counts in total. */
  lemma WordCorrectAtMostTotal(word: string, typed: string)
    ensures WordCorrect(word, typed) <= WordTotal(word, typed)
    ensures WordTotal(word, typed) >= 1
  {
  }

  /** Sums of the two counts over the first `n` words. */
  function CorrectUpTo(words: seq<string>, inputs: seq<seq<string>>, n: nat): (c: nat)
    requires n <= |words| && n <= |inputs|
    ensures c <= TotalUpTo(words, inputs, n)
  {
    if n == 0 then 0
    else
      WordCorrectAtMostTotal(words[n - 1], Concat(inputs[n - 1]));
      CorrectUpTo(words, inputs, n - 1) + WordCorrect(words[n - 1], Concat(inputs[n - 1]))
  }

  function TotalUpTo(words: seq<string>, inputs: seq<seq<string>>, n: nat): (t: nat)
    requires n <= |words| && n <= |inputs|
    ensures t >= n
  {
    if n == 0 then 0 else TotalUpTo(words, inputs, n - 1) + WordTotal(words[n - 1], Concat(inputs[n - 1]))
  }

  /** The correct and total characters over the committed words, i.e. those before the
      cursor; the word results are not consulted. */
  function CorrectChars(s: GameState): nat
    requires Shaped(s)
  {
    CorrectUpTo(s.words, s.charInputs, s.currentWordIndex)
  }

  function TotalChars(s: GameState): nat
    requires Shaped(s)
  {
    TotalUpTo(s.words, s.charInputs, s.currentWordIndex)
  }

  /** Correct never exceeds total, and every committed word counts at least its separator. */
  lemma ScoreBounds(s: GameState)
    requires Shaped(s)
    ensures CorrectChars(s) <= TotalChars(s)
    ensures TotalChars(s) >= s.currentWordIndex
    ensures TotalChars(s) == 0 <==> s.currentWordIndex == 0
  {
  }

  /** `getResults`: the loops accumulate the two counts over the committed words; WPM and
      accuracy are 0 when nothing was counted, and the time base is the full duration. */
  method GetResults(s: GameState, duration: int) returns (r: GameResults)
    requires Shaped(s) && duration >= 1
    ensures r.time == duration
    ensures TotalChars(s) == 0 ==> r.wpm == 0 && r.accuracyTenths == 0
    ensures TotalChars(s) > 0 ==>
      r.wpm == Wpm(CorrectChars(s), duration) &&
      r.accuracyTenths == RoundHalfUp(1000 * CorrectChars(s), TotalChars(s))
    ensures r.wpm >= 0
    ensures 0 <= r.accuracyTenths <= 1000
  {
    var correctChars := 0;
    var totalChars := 0;
    for i := 0 to s.currentWordIndex
      invariant correctChars == CorrectUpTo(s.words, s.charInputs, i)
      invariant totalChars == TotalUpTo(s.words, s.charInputs, i)
    {
      var word := s.words[i];
      var input := Concat(s.charInputs[i]);
      totalChars := totalChars + (if |word| >= |input| then |word| else |input|) + 1;
      if input == word {
        correctChars := correctChars + |word| + 1;
      } else {
        var matches := 0;
        for j := 0 to |word|
          invariant matches == MatchesUpTo(word, input, j)
        {
          if j < |input| && input[j] == word[j] {
            matches := matches + 1;
          }
        }
        correctChars := correctChars + matches;
      }
    }
    var wpm := if totalChars > 0 then Wpm(correctChars, duration) else 0;
    var accuracy := if totalChars > 0 then RoundHalfUp(1000 * correctChars, totalChars) else 0;
    if totalChars > 0 {
      WpmNonNegative(correctChars, duration);
      AccuracyAtMost1000(correctChars, totalChars);
    }
    r := GameResults(wpm, accuracy, duration);
  }

  lemma WpmNonNegative(correctChars: nat, seconds: int)
    requires seconds > 0
    ensures Wpm(correctChars, seconds) >= 0
  {
    var q, r := 5 * seconds, Wpm(correctChars, seconds);
    assert q * (2 * r + 2) > 0 by {
      assert 2 * q * (r + 1) > 2 * (60 * correctChars) + q;
    }
    PositiveFactor(q, 2 * r + 2);
  }

  lemma PositiveFactor(a: int, b: int)
    requires a > 0 && a * b > 0
    ensures b > 0
  {
  }

  /** A ratio of at most one rounds to at most 1000 tenths of a percent. */
  lemma AccuracyAtMost1000(correctChars: nat, totalChars: nat)
    requires 0 < totalChars && correctChars <= totalChars
    ensures 0 <= RoundHalfUp(1000 * correctChars, totalChars) <= 1000
  {
    var t, r := totalChars, RoundHalfUp(1000 * correctChars, totalChars);
    assert t * (2 * r - 2001) <= 0 by {
      assert 2 * t * r <= 2000 * correctChars + t <= 2001 * t;
    }
    if r > 1000 {
      PositiveProduct(t, 2 * r - 2001);
    }
  }

  lemma PositiveProduct(a: int, b: int)
    requires a > 0 && b > 0
    ensures a * b > 0
  {
  }

  // ---------------------------------------------------------------------------------------
  // How the engine's events move the score

  lemma {:induction false} UpToFrame(words: seq<string>, inputs: seq<seq<string>>, inputs': seq<seq<string>>, n: nat)
    requires n <= |words| && n <= |inputs| && n <= |inputs'|
    requires forall i :: 0 <= i < n ==> inputs[i] == inputs'[i]
    ensures CorrectUpTo(words, inputs, n) == CorrectUpTo(words, inputs', n)
    ensures TotalUpTo(words, inputs, n) == TotalUpTo(words, inputs', n)
  {
    if n > 0 {
      UpToFrame(words, inputs, inputs', n - 1);
    }
  }

  /** Typing and deleting within the current word leave the score alone. */
  lemma EditKeepsScore(s: GameState, e: Event)
    requires Shaped(s) && (e.Char? || (e.Backspace? && s.currentInput != ""))
    ensures CorrectChars(Step(s, e)) == CorrectChars(s) && TotalChars(Step(s, e)) == TotalChars(s)
  {
    var t := Step(s, e);
    if t != s {
      UpToFrame(s.words, s.charInputs, t.charInputs, s.currentWordIndex);
    }
  }

  /** Committing a word adds exactly that word's counts, computed from what was typed. */
  lemma CommitAddsWordScore(s: GameState, duration: int)
    requires Valid(s, duration) && s.isRunning && !s.isFinished && s.currentWordIndex < |s.words|
    ensures var k := s.currentWordIndex;
      && CorrectChars(HandleSpace(s)) == CorrectChars(s) + WordCorrect(s.words[k], s.currentInput)
      && TotalChars(HandleSpace(s)) == TotalChars(s) + WordTotal(s.words[k], s.currentInput)
  {
  }

  /** Retreating into a committed word takes exactly its counts back off, so committing it
      again after editing scores only its latest contents. */
  lemma RetreatRemovesWordScore(s: GameState)
    requires Shaped(s) && !s.isFinished && s.currentInput == "" && s.currentWordIndex > 0
    ensures var p := s.currentWordIndex - 1;
      && CorrectChars(HandleBackspace(s)) + WordCorrect(s.words[p], Concat(s.charInputs[p])) == CorrectChars(s)
      && TotalChars(HandleBackspace(s)) + WordTotal(s.words[p], Concat(s.charInputs[p])) == TotalChars(s)
  {
  }

  /** Characters typed past the end of a word earn no credit: an overtyped word scores only
      the matches within the word, and counts every typed character plus the separator. */
  lemma OvertypedWordScore(word: string, typed: string)
    requires |typed| > |word|
    ensures WordCorrect(word, typed) == MatchesUpTo(word, typed[..|word|], |word|) <= |word|
    ensures WordTotal(word, typed) == |typed| + 1
  {
    MatchesPrefix(word, typed, |word|);
  }

  lemma {:induction false} MatchesPrefix(word: string, typed: string, n: nat)
    requires n <= |word| && n <= |typed|
    ensures MatchesUpTo(word, typed, n) == MatchesUpTo(word, typed[..n], n)
  {
    if n > 0 {
      MatchesPrefix(word, typed, n - 1);
      MatchesOnlyBelow(word, typed[..n], typed[..n - 1], n - 1);
    }
  }

  lemma {:induction false} MatchesOnlyBelow(word: string, a: string, b: string, n: nat)
    requires n <= |word| && n <= |a| && n <= |b| && a[..n] == b[..n]
    ensures MatchesUpTo(word, a, n) == MatchesUpTo(word, b, n)
  {
    if n > 0 {
      assert a[n - 1] == a[..n][n - 1] && b[n - 1] == b[..n][n - 1];
      assert a[..n - 1] == a[..n][..n - 1] && b[..n - 1] == b[..n][..n - 1];
      MatchesOnlyBelow(word, a, b, n - 1);
    }
  }

  /** The two worked examples: "the" typed as "the" scores 4 of 4, typed as "teh" 1 of 4. */
  lemma WordScoreExamples()
    ensures WordCorrect("the", "the") == 4 && WordTotal("the", "the") == 4
    ensures WordCorrect("the", "teh") == 1 && WordTotal("the", "teh") == 4
  {
    assert "teh" != "the" by { assert "teh"[1] != "the"[1]; }
    assert MatchesUpTo("the", "teh", 1) == 1;
    assert MatchesUpTo("the", "teh", 2) == 1;
  }
}
