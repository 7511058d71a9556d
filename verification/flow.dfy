/**
 The quiz page handing its score to the result page, and the result page
 saving it: what reaches the store after a whole quiz.
 */
module Flow {
  import opened Wrappers
  import Quiz
  import ResultPage

  /** The score the result page shows after the quiz screen `finished`. */
  function ShownScore(finished: Quiz.Screen): (score: int)
    requires finished.Finished?
    ensures score == finished.handoff
  {
    ResultPage.FinalScore(Some(finished.handoff))
  }

  /**
   After answering all |qs| questions and saving under a non-empty name, the
   row inserted carries the points of every answer but the last.
   */
  lemma SavedScoreAfterQuiz(qs: seq<Quiz.Question>, picks: seq<nat>, answers: seq<string>,
                            shuffles: seq<seq<nat>>, name: string, reply: ResultPage.StoreReply)
    requires 0 < |answers| == |qs| && name != ""
    ensures var finished := Quiz.Run(Quiz.Begin(Some(qs), picks), answers, shuffles);
            && finished.Finished?
            && ResultPage.SaveScore(name, ShownScore(finished), reply).inserted
               == Some(ResultPage.NewRecord(name, Quiz.Earned(qs, answers[..|qs| - 1])))
  {
    Quiz.QuizCompletes(qs, picks, answers, shuffles);
  }
}
