/** `playCmd` of cmds.js: one round of questions drawn at random, without
    replacement, from every quiz in the store, stopping at the first wrong
    answer or when none are left.  The random draws and the lines the user
    types are parameters: `draws[k]` is the index `Math.floor(Math.random() *
    restantes)` picked for the k-th question, and `answers[k]` the line typed
    in reply to it. */
module Play {
  import opened Wrappers
  import opened Answers
  import opened QuizStore

  /** A line `play` writes. */
  datatype Line =
    | Correct(score: nat)   // "CORRECTO - Lleva <score> aciertos"
    | Incorrect             // "INCORRECTO"
    | NothingLeft           // "No hay nada más que preguntar"
    | Final(score: nat)     // "Fin del examen. Aciertos: <score>"

  datatype Ending = Exhausted | WrongAnswer

  /** What a round did: the quizzes asked, in order, the lines written, the
      final score and why it stopped. */
  datatype Round = Round(asked: seq<Quiz>, lines: seq<Line>, score: nat, ending: Ending)

  /** The draws are usable for a round over `n` quizzes: the k-th draw is an
      index into the `n - k` quizzes still left at that point. */
  predicate DrawsFit(draws: seq<int>, n: nat)
  {
    |draws| >= n && forall k :: 0 <= k < n ==> 0 <= draws[k] < n - k
  }

  /** `quizzes.splice(i, 1)`: the sequence without its element at `i`. */
  function Splice(quizzes: seq<Quiz>, i: nat): (r: seq<Quiz>)
    requires i < |quizzes|
    ensures |r| == |quizzes| - 1
    ensures multiset(r) + multiset{quizzes[i]} == multiset(quizzes)
  {
    assert quizzes == quizzes[..i] + [quizzes[i]] + quizzes[i + 1..];
    quizzes[..i] + quizzes[i + 1..]
  }

  lemma DrawsFitRest(draws: seq<int>, n: nat)
    requires n > 0 && DrawsFit(draws, n)
    ensures DrawsFit(draws[1..], n - 1)
  {
    assert forall k :: 0 <= k < n - 1 ==> draws[1..][k] == draws[k + 1];
  }

  /** The recursion through `playOne`: the rest of a round that starts with
      `remaining` left to ask and `score` correct answers so far. */
  function PlayFrom(remaining: seq<Quiz>, draws: seq<int>, answers: seq<string>, score: nat): (r: Round)
    requires DrawsFit(draws, |remaining|) && |answers| >= |remaining|
    ensures |r.asked| <= |remaining|
    ensures r.ending == WrongAnswer ==> |r.asked| >= 1
    ensures r.score >= score
    decreases |remaining|
  {
    if |remaining| == 0 then Round([], [NothingLeft, Final(score)], score, Exhausted)
    else
      var quiz := remaining[draws[0]];
      if IsCorrect(answers[0], quiz.answer) then
        DrawsFitRest(draws, |remaining|);
        var r := PlayFrom(Splice(remaining, draws[0]), draws[1..], answers[1..], score + 1);
        r.(asked := [quiz] + r.asked, lines := [Correct(score + 1)] + r.lines)
      else Round([quiz], [Incorrect, Final(score)], score, WrongAnswer)
  }

  /** A round `rest` continued after the quizzes `asked` and the `lines`
      already written. */
  function After(asked: seq<Quiz>, lines: seq<Line>, rest: Round): Round
  {
    rest.(asked := asked + rest.asked, lines := lines + rest.lines)
  }

  lemma AfterNothing(rest: Round)
    ensures After([], [], rest) == rest
  {
    assert [] + rest.asked == rest.asked && [] + rest.lines == rest.lines;
  }

  lemma AfterStep(asked: seq<Quiz>, lines: seq<Line>, quiz: Quiz, line: Line, rest: Round)
    ensures After(asked, lines, rest.(asked := [quiz] + rest.asked, lines := [line] + rest.lines))
      == After(asked + [quiz], lines + [line], rest)
  {
    assert asked + ([quiz] + rest.asked) == asked + [quiz] + rest.asked;
    assert lines + ([line] + rest.lines) == lines + [line] + rest.lines;
  }

  /** The state of `playOne` between two questions, kept as a loop: the
      quizzes not yet asked (`quizzes` as `splice` leaves it), their count
      `restantes`, and the score. */
  method PlayRound(quizzes: seq<Quiz>, restantes: nat, draws: seq<int>, answers: seq<string>)
    returns (r: Round)
    requires restantes == |quizzes|
    requires DrawsFit(draws, |quizzes|) && |answers| >= |quizzes|
    ensures r == PlayFrom(quizzes, draws, answers, 0)
  {
    var remaining, left, score := quizzes, restantes, 0;
    var asked: seq<Quiz> := [];
    var lines: seq<Line> := [];
    var pending, typed := draws, answers;
    ghost var whole := PlayFrom(quizzes, draws, answers, 0);
    AfterNothing(whole);
    while true
      invariant left == |remaining|
      invariant DrawsFit(pending, left) && |typed| >= left
      invariant whole == After(asked, lines, PlayFrom(remaining, pending, typed, score))
      decreases left
    {
      if left == 0 {
        lines := lines + [NothingLeft, Final(score)];
        return Round(asked, lines, score, Exhausted);
      }
      var i := pending[0];
      var quiz := remaining[i];
      if IsCorrect(typed[0], quiz.answer) {
        DrawsFitRest(pending, left);
        ghost var rest := PlayFrom(Splice(remaining, i), pending[1..], typed[1..], score + 1);
        AfterStep(asked, lines, quiz, Correct(score + 1), rest);
        remaining := Splice(remaining, i);
        left := left - 1;
        asked := asked + [quiz];
        score := score + 1;
        lines := lines + [Correct(score)];
        pending, typed := pending[1..], typed[1..];
      } else {
        asked := asked + [quiz];
        lines := lines + [Incorrect, Final(score)];
        return Round(asked, lines, score, WrongAnswer);
      }
    }
  }

  lemma ConsIndex<T>(x: T, xs: seq<T>)
    ensures forall j :: 1 <= j < |[x] + xs| ==> ([x] + xs)[j] == xs[j - 1]
  {
  }

  /** `playCmd`: counts the quizzes, fetches them all and plays a round over
      them, then hands the prompt back.  Neither store call has a catch
      handler, so if the store rejects, nothing is written and the prompt is
      never given back. */
  method PlayCmd(s: Store, draws: seq<int>, answers: seq<string>) returns (round: Option<Round>, prompts: nat)
    requires DrawsFit(draws, |s.rows|) && |answers| >= |s.rows|
    ensures !s.up ==> round == None && prompts == 0
    ensures s.up ==> prompts == 1 && round == Some(PlayFrom(FindAll(s).value, draws, answers, 0))
  {
    var counted := Count(s);
    if counted.Failure? {
      return None, 0;
    }
    var restantes := counted.value;
    var quizzes := FindAll(s);
    CountMatchesFindAll(s);
    var r := PlayRound(quizzes.value, restantes, draws, answers);
    return Some(r), 1;
  }

  /** `playCmd` with a catch handler on the store calls and the prompt on the
      outer chain, as in the other handlers: a store failure is reported and,
      like every other path, ends with exactly one prompt. */
  method PlayCmdFixed(s: Store, draws: seq<int>, answers: seq<string>)
    returns (round: Option<Round>, failure: Option<StoreError>, prompts: nat)
    requires DrawsFit(draws, |s.rows|) && |answers| >= |s.rows|
    ensures prompts == 1
    ensures !s.up ==> round == None && failure == Some(Unavailable)
    ensures s.up ==> failure == None && round == Some(PlayFrom(FindAll(s).value, draws, answers, 0))
  {
    var counted := Count(s);
    if counted.Failure? {
      return None, Some(counted.error), 1;
    }
    var restantes := counted.value;
    var quizzes := FindAll(s);
    CountMatchesFindAll(s);
    var r := PlayRound(quizzes.value, restantes, draws, answers);
    return Some(r), None, 1;
  }

  /** Only quizzes still left are asked, and none twice: the quizzes asked
      form a sub-multiset of those left, and all of them when the round runs
      out of quizzes. */
  lemma {:induction false} PlayAsksEachAtMostOnce(remaining: seq<Quiz>, draws: seq<int>, answers: seq<string>, score: nat)
    requires DrawsFit(draws, |remaining|) && |answers| >= |remaining|
    ensures var r := PlayFrom(remaining, draws, answers, score);
      multiset(r.asked) <= multiset(remaining)
      && (r.ending == Exhausted ==> multiset(r.asked) == multiset(remaining))
    decreases |remaining|
  {
    if |remaining| > 0 {
      var quiz := remaining[draws[0]];
      if IsCorrect(answers[0], quiz.answer) {
        DrawsFitRest(draws, |remaining|);
        var rest := Splice(remaining, draws[0]);
        PlayAsksEachAtMostOnce(rest, draws[1..], answers[1..], score + 1);
        var r := PlayFrom(rest, draws[1..], answers[1..], score + 1);
        assert multiset([quiz] + r.asked) == multiset{quiz} + multiset(r.asked);
      } else {
        assert multiset([quiz]) == multiset{quiz};
      }
    }
  }

  /** The score goes up by exactly one per correct answer: a round that runs
      out of quizzes scores one per quiz asked, which is every quiz left; a
      round cut short by a wrong answer scores one less than it asked. */
  lemma {:induction false} PlayScoreCounts(remaining: seq<Quiz>, draws: seq<int>, answers: seq<string>, score: nat)
    requires DrawsFit(draws, |remaining|) && |answers| >= |remaining|
    ensures var r := PlayFrom(remaining, draws, answers, score);
      (r.ending == Exhausted ==> |r.asked| == |remaining| && r.score == score + |remaining|)
      && (r.ending == WrongAnswer ==> |r.asked| >= 1 && r.score == score + |r.asked| - 1)
    decreases |remaining|
  {
    if |remaining| > 0 && IsCorrect(answers[0], remaining[draws[0]].answer) {
      DrawsFitRest(draws, |remaining|);
      PlayScoreCounts(Splice(remaining, draws[0]), draws[1..], answers[1..], score + 1);
    }
  }

  /** Under the comparison rule `accepts`, every question of `r` before the
      last one asked was answered correctly, and the last one was too exactly
      when the quizzes ran out. */
  ghost predicate StopsAtFirstWrong(r: Round, answers: seq<string>, accepts: (string, string) -> bool)
  {
    |r.asked| <= |answers|
    && (r.ending == WrongAnswer ==> |r.asked| >= 1)
    && forall j :: 0 <= j < |r.asked| ==>
         (accepts(answers[j], r.asked[j].answer) <==> j < |r.asked| - 1 || r.ending == Exhausted)
  }

  lemma StopsAtFirstWrongStep(r: Round, quiz: Quiz, answers: seq<string>, accepts: (string, string) -> bool)
    requires |answers| >= 1 && accepts(answers[0], quiz.answer)
    requires StopsAtFirstWrong(r, answers[1..], accepts)
    ensures StopsAtFirstWrong(r.(asked := [quiz] + r.asked), answers, accepts)
  {
    var asked := [quiz] + r.asked;
    forall j | 0 <= j < |asked|
      ensures accepts(answers[j], asked[j].answer) <==> j < |asked| - 1 || r.ending == Exhausted
    {
      if j > 0 {
        assert asked[j] == r.asked[j - 1];
        assert answers[j] == answers[1..][j - 1];
      }
    }
  }

  lemma AllAcceptedMeansExhausted(r: Round, answers: seq<string>, accepts: (string, string) -> bool)
    requires StopsAtFirstWrong(r, answers, accepts)
    requires forall j :: 0 <= j < |r.asked| ==> accepts(answers[j], r.asked[j].answer)
    ensures r.ending == Exhausted
  {
    if |r.asked| > 0 {
      var last := |r.asked| - 1;
      assert accepts(answers[last], r.asked[last].answer);
    }
  }

  /** A round stops at the first wrong answer, and only there. */
  lemma {:induction false} PlayStopsAtFirstWrong(remaining: seq<Quiz>, draws: seq<int>, answers: seq<string>, score: nat)
    requires DrawsFit(draws, |remaining|) && |answers| >= |remaining|
    ensures StopsAtFirstWrong(PlayFrom(remaining, draws, answers, score), answers, IsCorrect)
    decreases |remaining|
  {
    if |remaining| > 0 && IsCorrect(answers[0], remaining[draws[0]].answer) {
      DrawsFitRest(draws, |remaining|);
      var rest := Splice(remaining, draws[0]);
      PlayStopsAtFirstWrong(rest, draws[1..], answers[1..], score + 1);
      StopsAtFirstWrongStep(PlayFrom(rest, draws[1..], answers[1..], score + 1), remaining[draws[0]], answers, IsCorrect);
    }
  }

  /** The lines of a round that started at `score`: "CORRECTO" with the
      running score after each correct answer, then "No hay nada más que
      preguntar" if the quizzes ran out or "INCORRECTO" if not, then the final
      score. */
  ghost predicate LinesShape(r: Round, score: nat)
  {
    var correct := r.score - score;
    r.score >= score
    && |r.lines| == correct + 2
    && (forall i :: 0 <= i < correct ==> r.lines[i] == Correct(score + i + 1))
    && r.lines[correct] == (if r.ending == Exhausted then NothingLeft else Incorrect)
    && r.lines[correct + 1] == Final(r.score)
  }

  lemma LinesShapeStep(r: Round, quiz: Quiz, score: nat)
    requires LinesShape(r, score + 1)
    ensures LinesShape(r.(asked := [quiz] + r.asked, lines := [Correct(score + 1)] + r.lines), score)
  {
    ConsIndex(Correct(score + 1), r.lines);
  }

  /** "No hay nada más que preguntar" is written exactly when the quizzes
      ran out. */
  lemma NothingLeftOnlyWhenExhausted(r: Round, score: nat)
    requires LinesShape(r, score)
    ensures NothingLeft in r.lines <==> r.ending == Exhausted
  {
    var correct := r.score - score;
    if NothingLeft in r.lines {
      var i :| 0 <= i < |r.lines| && r.lines[i] == NothingLeft;
      assert i == correct;
    }
  }

  /** The lines of every round have that shape, so "nothing left" is written
      exactly when the round ran out of quizzes, including a round over none. */
  lemma {:induction false} PlayLines(remaining: seq<Quiz>, draws: seq<int>, answers: seq<string>, score: nat)
    requires DrawsFit(draws, |remaining|) && |answers| >= |remaining|
    ensures LinesShape(PlayFrom(remaining, draws, answers, score), score)
    ensures NothingLeft in PlayFrom(remaining, draws, answers, score).lines
      <==> PlayFrom(remaining, draws, answers, score).ending == Exhausted
    decreases |remaining|
  {
    if |remaining| > 0 && IsCorrect(answers[0], remaining[draws[0]].answer) {
      DrawsFitRest(draws, |remaining|);
      var rest := Splice(remaining, draws[0]);
      PlayLines(rest, draws[1..], answers[1..], score + 1);
      LinesShapeStep(PlayFrom(rest, draws[1..], answers[1..], score + 1), remaining[draws[0]], score);
    }
    NothingLeftOnlyWhenExhausted(PlayFrom(remaining, draws, answers, score), score);
  }

  /** A round in which every question asked is answered correctly runs out
      of quizzes: it asks every quiz exactly once and scores one per quiz. */
  lemma PlayAllCorrect(quizzes: seq<Quiz>, draws: seq<int>, answers: seq<string>)
    requires DrawsFit(draws, |quizzes|) && |answers| >= |quizzes|
    requires var r := PlayFrom(quizzes, draws, answers, 0);
      forall j :: 0 <= j < |r.asked| ==> IsCorrect(answers[j], r.asked[j].answer)
    ensures var r := PlayFrom(quizzes, draws, answers, 0);
      r.ending == Exhausted && r.score == |quizzes| && multiset(r.asked) == multiset(quizzes)
  {
    var r := PlayFrom(quizzes, draws, answers, 0);
    PlayStopsAtFirstWrong(quizzes, draws, answers, 0);
    AllAcceptedMeansExhausted(r, answers, IsCorrect);
    PlayScoreCounts(quizzes, draws, answers, 0);
    PlayAsksEachAtMostOnce(quizzes, draws, answers, 0);
  }

  /** With no quizzes at all, `play` writes "nothing left" and a score of 0. */
  lemma PlayNothing(draws: seq<int>, answers: seq<string>)
    ensures PlayFrom([], draws, answers, 0) == Round([], [NothingLeft, Final(0)], 0, Exhausted)
  {
  }
}
