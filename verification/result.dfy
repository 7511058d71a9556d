/**
 The result page: the score it shows and saves, and what one click on
 "Save to Leaderboard" does given the store's reply.
 */
module ResultPage {
  import opened Wrappers

  /**
   The score to show and save: the hand-off from the quiz page when there
   is one, else 0. A hand-off of 0 is falsy and falls back to the same 0.
   */
  function FinalScore(handoff: Option<int>): (score: int)
    ensures handoff.Some? ==> score == handoff.value
    ensures handoff.None? ==> score == 0
  {
    if handoff.Some? && handoff.value != 0 then handoff.value else 0
  }

  /** The row sent to the store's insert: only a name and a score. */
  datatype NewRecord = NewRecord(name: string, score: int)

  datatype Route = ToLeaderboard

  /** The store's answer to the insert. */
  datatype StoreReply = Stored | StoreError(message: string)

  /** What one click did: the row inserted, if any, and where the page went, if anywhere. */
  datatype SaveEffect = SaveEffect(inserted: Option<NewRecord>, navigateTo: Option<Route>)

  /**
   One click on save. An empty name writes nothing and stays; otherwise
   `{name, score}` is inserted, and only a successful insert moves on to
   the leaderboard (a failure is logged and the page stays).
   */
  function SaveScore(name: string, finalScore: int, reply: StoreReply): (effect: SaveEffect)
    ensures name == "" ==> effect == SaveEffect(None, None)
    ensures name != "" ==> effect.inserted == Some(NewRecord(name, finalScore))
    ensures effect.navigateTo == Some(ToLeaderboard) <==> name != "" && reply == Stored
    ensures effect.navigateTo.Some? ==> effect.inserted.Some?
  {
    if name == "" then SaveEffect(None, None)
    else
      var inserted := Some(NewRecord(name, finalScore));
      match reply
      case Stored => SaveEffect(inserted, Some(ToLeaderboard))
      case StoreError(_) => SaveEffect(inserted, None)
  }
}
