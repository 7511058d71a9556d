/**
 The quiz page as a state machine: a fixed list of fetched questions, the
 index of the current one, the running score and the shuffled options.
 Every answer awards 10 points when it equals the correct answer; then the
 page either moves to the next question or completes and hands a score to
 the result page. That score is the one read when the last answer is
 clicked, so it does not include the last answer's award.
 */
module Quiz {
  import opened Wrappers
  import Shuffle

  /** Points for one correct answer. */
  const Award: nat := 10

  datatype Question = Question(text: string, correct: string, incorrect: seq<string>)

  /** The answers offered for `q`, before shuffling. */
  function Candidates(q: Question): seq<string> {
    q.incorrect + [q.correct]
  }

  /** The shuffled options for `q`; `picks` stands for the random source. */
  function ShuffleOptions(q: Question, picks: seq<nat>): (r: seq<string>)
    ensures multiset(r) == multiset(q.incorrect) + multiset{q.correct}
    ensures |r| == |q.incorrect| + 1
    ensures q.correct in r
    ensures forall a :: a in q.incorrect ==> a in r
    ensures q.correct !in q.incorrect ==> multiset(r)[q.correct] == 1
  {
    var r := Shuffle.Shuffle(Candidates(q), picks);
    assert multiset(Candidates(q)) == multiset(q.incorrect) + multiset{q.correct};
    assert forall a :: a in q.incorrect ==> a in multiset(r);
    assert q.correct in multiset(r);
    r
  }

  /** Every ordering of the candidates is a possible option list. */
  lemma AnyOrderIsPossible(q: Question, r: seq<string>)
    requires multiset(r) == multiset(q.incorrect) + multiset{q.correct}
    ensures ShuffleOptions(q, Shuffle.PicksFor(Candidates(q), r)) == r
  {
    assert multiset(Candidates(q)) == multiset(q.incorrect) + multiset{q.correct};
    Shuffle.EveryPermutationReachable(Candidates(q), r);
  }

  datatype Session = Session(questions: seq<Question>, current: nat, score: nat, options: seq<string>)

  /** The current question exists and the options are a permutation of its candidates. */
  predicate Valid(s: Session) {
    && s.current < |s.questions|
    && multiset(s.options) == multiset(Candidates(s.questions[s.current]))
  }

  /** What the page shows: still loading, a question, or done with a hand-off score. */
  datatype Screen = Loading | Playing(session: Session) | Finished(handoff: nat)

  /** Every session a screen holds satisfies `Valid`. */
  predicate WellFormed(screen: Screen) {
    screen.Playing? ==> Valid(screen.session)
  }

  /**
   The screen after the question fetch settles. A failed fetch is never
   caught, and an empty list makes the option shuffle of the first question
   throw before loading is switched off: both leave the page loading.
   */
  function Begin(fetched: Option<seq<Question>>, picks: seq<nat>): (r: Screen)
    ensures r.Playing? <==> fetched.Some? && |fetched.value| > 0
    ensures !r.Playing? ==> r == Loading
    ensures r.Playing? ==> && Valid(r.session)
                           && r.session.questions == fetched.value
                           && r.session.current == 0
                           && r.session.score == 0
                           && multiset(r.session.options) == multiset(Candidates(fetched.value[0]))
  {
    match fetched
    case None => Loading
    case Some(qs) =>
      if |qs| == 0 then Loading
      else Playing(Session(qs, 0, 0, ShuffleOptions(qs[0], picks)))
  }

  /** The score after answering `selected` to a question whose answer is `correct`. */
  function Awarded(score: nat, selected: string, correct: string): (r: nat)
    ensures selected == correct ==> r == score + Award
    ensures selected != correct ==> r == score
  {
    if selected == correct then score + Award else score
  }

  /**
   One click on an option. The hand-off on completion is the score held
   before this click, not the awarded one.
   */
  function Answer(s: Session, selected: string, picks: seq<nat>): (r: Screen)
    requires Valid(s)
    ensures r.Finished? <==> s.current + 1 == |s.questions|
    ensures r.Finished? ==> r.handoff == s.score
    ensures r.Playing? ==> && Valid(r.session)
                           && r.session.questions == s.questions
                           && r.session.current == s.current + 1
                           && s.score <= r.session.score <= s.score + Award
                           && (r.session.score == s.score + Award <==> selected == s.questions[s.current].correct)
                           && (selected != s.questions[s.current].correct ==> r.session.score == s.score)
                           && multiset(r.session.options) == multiset(Candidates(s.questions[s.current + 1]))
    ensures r != Loading
  {
    var score := Awarded(s.score, selected, s.questions[s.current].correct);
    var next := s.current + 1;
    if next < |s.questions| then
      Playing(Session(s.questions, next, score, ShuffleOptions(s.questions[next], picks)))
    else
      Finished(s.score)
  }

  /** A click on the screen: only a question screen reacts. */
  function Submit(screen: Screen, selected: string, picks: seq<nat>): (r: Screen)
    requires WellFormed(screen)
    ensures WellFormed(r)
    ensures !screen.Playing? ==> r == screen
  {
    match screen
    case Playing(s) => Answer(s, selected, picks)
    case _ => screen
  }

  /** Clicks `answers` in order, drawing one shuffle per click. */
  function Run(screen: Screen, answers: seq<string>, shuffles: seq<seq<nat>>): (r: Screen)
    requires WellFormed(screen)
    ensures WellFormed(r)
    decreases |answers|
  {
    if |answers| == 0 then screen
    else Run(Submit(screen, answers[0], Shuffle.FirstOr(shuffles, [])), answers[1..], Shuffle.Rest(shuffles))
  }

  /**
   The points earned by `answers` against the questions at the same
   positions: 10 for each answer equal to its question's correct answer.
   */
  function Earned(qs: seq<Question>, answers: seq<string>): nat {
    if |qs| == 0 || |answers| == 0 then 0
    else Awarded(0, answers[0], qs[0].correct) + Earned(qs[1..], answers[1..])
  }

  /** At most 10 points per answer, and per question. */
  lemma {:induction false} EarnedBound(qs: seq<Question>, answers: seq<string>)
    ensures Earned(qs, answers) <= Award * |answers|
    ensures Earned(qs, answers) <= Award * |qs|
  {
    if |qs| > 0 && |answers| > 0 {
      EarnedBound(qs[1..], answers[1..]);
    }
  }

  /** A screen that is not showing a question ignores any further clicks. */
  lemma {:induction false} RunIdle(screen: Screen, answers: seq<string>, shuffles: seq<seq<nat>>)
    requires !screen.Playing?
    ensures Run(screen, answers, shuffles) == screen
    decreases |answers|
  {
    if |answers| > 0 {
      RunIdle(screen, answers[1..], Shuffle.Rest(shuffles));
    }
  }

  /** Answering the current question of `s` and then `answers[1..]`. */
  lemma RunUnfold(s: Session, answers: seq<string>, shuffles: seq<seq<nat>>)
    requires Valid(s) && |answers| > 0
    ensures Run(Playing(s), answers, shuffles)
         == Run(Answer(s, answers[0], Shuffle.FirstOr(shuffles, [])), answers[1..], Shuffle.Rest(shuffles))
  {
  }

  /** How `Earned` over the questions still to come splits off the current one. */
  lemma EarnedUnfold(s: Session, answers: seq<string>)
    requires Valid(s) && |answers| > 0
    ensures Earned(s.questions[s.current..], answers)
         == Awarded(0, answers[0], s.questions[s.current].correct)
          + Earned(s.questions[s.current + 1..], answers[1..])
  {
    assert s.questions[s.current..][1..] == s.questions[s.current + 1..];
  }

  /**
   From a session with more than |answers| questions to go, the page stays
   on a question: the index advances by the number of clicks and the score
   by 10 per correct click.
   */
  lemma {:induction false} RunInProgress(s: Session, answers: seq<string>, shuffles: seq<seq<nat>>)
    requires Valid(s) && |answers| < |s.questions| - s.current
    ensures var r := Run(Playing(s), answers, shuffles);
            && r.Playing?
            && r.session.questions == s.questions
            && r.session.current == s.current + |answers|
            && r.session.score == s.score + Earned(s.questions[s.current..], answers)
    decreases |answers|
  {
    if |answers| > 0 {
      RunUnfold(s, answers, shuffles);
      EarnedUnfold(s, answers);
      var next := Answer(s, answers[0], Shuffle.FirstOr(shuffles, []));
      RunInProgress(next.session, answers[1..], Shuffle.Rest(shuffles));
    }
  }

  /**
   From a session with `left` questions to go, `left` or more clicks
   complete the quiz; the hand-off counts the points of the first
   `left - 1` clicks, leaving out the last question's.
   */
  lemma {:induction false} RunToCompletion(s: Session, answers: seq<string>, shuffles: seq<seq<nat>>)
    requires Valid(s) && |answers| >= |s.questions| - s.current
    ensures var left := |s.questions| - s.current;
            Run(Playing(s), answers, shuffles)
            == Finished(s.score + Earned(s.questions[s.current..], answers[..left - 1]))
    decreases |answers|
  {
    var left := |s.questions| - s.current;
    RunUnfold(s, answers, shuffles);
    var next := Answer(s, answers[0], Shuffle.FirstOr(shuffles, []));
    if left == 1 {
      assert next == Finished(s.score);
      RunIdle(next, answers[1..], Shuffle.Rest(shuffles));
      assert Earned(s.questions[s.current..], answers[..left - 1]) == 0;
    } else {
      var s' := next.session;
      RunToCompletion(s', answers[1..], Shuffle.Rest(shuffles));
      EarnedUnfold(s, answers[..left - 1]);
      assert answers[..left - 1][1..] == answers[1..][..left - 2];
      assert s'.questions[s'.current..] == s.questions[s.current + 1..];
      assert s'.score == s.score + Awarded(0, answers[0], s.questions[s.current].correct);
    }
  }

  /** The points of all answers are those of all but the last, plus the last one's. */
  lemma {:induction false} EarnedLast(qs: seq<Question>, answers: seq<string>)
    requires 0 < |answers| == |qs|
    ensures Earned(qs, answers)
         == Earned(qs, answers[..|qs| - 1]) + Awarded(0, answers[|qs| - 1], qs[|qs| - 1].correct)
    decreases |qs|
  {
    if |qs| > 1 {
      EarnedLast(qs[1..], answers[1..]);
      assert answers[..|qs| - 1][1..] == answers[1..][..|qs| - 2];
    }
  }

  /**
   A quiz over a non-empty fetched list, before its last click: the page
   shows the question whose index is the number of clicks so far, and the
   score is the points those clicks earned, so at most 10 per click.
   */
  lemma QuizInProgress(qs: seq<Question>, picks: seq<nat>, answers: seq<string>, shuffles: seq<seq<nat>>)
    requires |answers| < |qs|
    ensures var r := Run(Begin(Some(qs), picks), answers, shuffles);
            && r.Playing?
            && r.session.current == |answers|
            && r.session.score == Earned(qs, answers)
            && r.session.score <= Award * |answers|
  {
    var s0 := Session(qs, 0, 0, ShuffleOptions(qs[0], picks));
    assert Begin(Some(qs), picks) == Playing(s0);
    assert s0.questions[s0.current..] == qs;
    RunInProgress(s0, answers, shuffles);
    EarnedBound(qs, answers);
  }

  /** A quiz over a non-empty fetched list completes on its |qs|-th click. */
  lemma QuizCompletes(qs: seq<Question>, picks: seq<nat>, answers: seq<string>, shuffles: seq<seq<nat>>)
    requires 0 < |qs| <= |answers|
    ensures Run(Begin(Some(qs), picks), answers, shuffles)
            == Finished(Earned(qs, answers[..|qs| - 1]))
  {
    var s0 := Session(qs, 0, 0, ShuffleOptions(qs[0], picks));
    assert Begin(Some(qs), picks) == Playing(s0);
    assert s0.questions[s0.current..] == qs;
    RunToCompletion(s0, answers, shuffles);
  }

  /** Clicks after the quiz has completed change nothing: completion happens once. */
  lemma CompletesOnce(qs: seq<Question>, picks: seq<nat>, answers: seq<string>, shuffles: seq<seq<nat>>)
    requires 0 < |qs| <= |answers|
    ensures Run(Begin(Some(qs), picks), answers, shuffles)
            == Run(Begin(Some(qs), picks), answers[..|qs|], shuffles)
  {
    var prefix := answers[..|qs|];
    assert prefix[..|qs| - 1] == answers[..|qs| - 1];
    QuizCompletes(qs, picks, answers, shuffles);
    QuizCompletes(qs, picks, prefix, shuffles);
  }

  /**
   The score handed to the result page falls short of the points earned by
   exactly the last answer's award.
   */
  lemma HandoffOmitsLastAward(qs: seq<Question>, picks: seq<nat>, answers: seq<string>, shuffles: seq<seq<nat>>)
    requires 0 < |answers| == |qs|
    ensures var r := Run(Begin(Some(qs), picks), answers, shuffles);
            && r.Finished?
            && r.handoff + Awarded(0, answers[|qs| - 1], qs[|qs| - 1].correct) == Earned(qs, answers)
  {
    QuizCompletes(qs, picks, answers, shuffles);
    EarnedLast(qs, answers);
  }

  /**
   Three questions answered "Paris" (right), "7" (wrong), "Blue" (right):
   20 points are earned but 10 are handed to the result page.
   */
  lemma ParisExample(picks: seq<nat>, shuffles: seq<seq<nat>>)
    ensures var qs := [Question("capital", "Paris", ["Rome", "Oslo", "Bern"]),
                       Question("answer", "42", ["7", "12", "0"]),
                       Question("colour", "Blue", ["Red", "Green", "Pink"])];
            var answers := ["Paris", "7", "Blue"];
            && Earned(qs, answers) == 20
            && Run(Begin(Some(qs), picks), answers, shuffles) == Finished(10)
  {
    var qs := [Question("capital", "Paris", ["Rome", "Oslo", "Bern"]),
               Question("answer", "42", ["7", "12", "0"]),
               Question("colour", "Blue", ["Red", "Green", "Pink"])];
    var answers := ["Paris", "7", "Blue"];
    assert Earned(qs[2..], answers[2..]) == 10;
    assert Earned(qs[1..], answers[1..]) == 10;
    assert Earned(qs, answers) == 20;
    assert answers[..2] == ["Paris", "7"];
    assert Earned(qs[1..], answers[..2][1..]) == 0;
    assert Earned(qs, answers[..2]) == 10;
    QuizCompletes(qs, picks, answers, shuffles);
  }
}
