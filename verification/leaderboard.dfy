/**
 The leaderboard page's view logic: ranks over the fetched, score-descending
 list, the current-user flag, the case-insensitive name search applied after
 ranking, the "your rank" banner, the expand/collapse toggle, the medal
 styles, and the time-window predicate the store applies.
 */
module Leaderboard {
  import opened Wrappers
  import Text

  /** A row of the `leaderboard` table; `createdAt` is a timestamp in milliseconds. */
  datatype ScoreRecord = ScoreRecord(id: string, name: string, score: int, createdAt: int)

  /** A fetched row with its 1-based rank and whether it belongs to the viewer. */
  datatype Entry = Entry(record: ScoreRecord, rank: int, isCurrentUser: bool)

  /** The row belongs to the signed-in viewer; with no viewer nothing matches. */
  predicate IsCurrentUser(r: ScoreRecord, currentUserId: Option<string>) {
    currentUserId == Some(r.id)
  }

  /** Ranks `records` in the order fetched, the first one getting rank `first`. */
  function RankFrom(records: seq<ScoreRecord>, currentUserId: Option<string>, first: int): (ranked: seq<Entry>)
    ensures |ranked| == |records|
    ensures forall i :: 0 <= i < |ranked| ==>
              && ranked[i].record == records[i]
              && ranked[i].rank == first + i
              && (ranked[i].isCurrentUser <==> IsCurrentUser(records[i], currentUserId))
  {
    if |records| == 0 then []
    else [Entry(records[0], first, IsCurrentUser(records[0], currentUserId))]
         + RankFrom(records[1..], currentUserId, first + 1)
  }

  /**
   Ranks the fetched rows: the row at position i gets rank i + 1, keeps all
   its fields, and is flagged exactly when its id is the viewer's.
   */
  function Rank(records: seq<ScoreRecord>, currentUserId: Option<string>): (ranked: seq<Entry>)
    ensures |ranked| == |records|
    ensures forall i :: 0 <= i < |ranked| ==>
              && ranked[i].record == records[i]
              && ranked[i].rank == i + 1
              && (ranked[i].isCurrentUser <==> IsCurrentUser(records[i], currentUserId))
  {
    RankFrom(records, currentUserId, 1)
  }

  /** The ranks of a ranking are 1..n, strictly increasing; with no viewer nothing is flagged. */
  lemma RanksAreOneToN(records: seq<ScoreRecord>, currentUserId: Option<string>)
    ensures var ranked := Rank(records, currentUserId);
            && (|ranked| > 0 ==> ranked[0].rank == 1 && ranked[|ranked| - 1].rank == |records|)
            && (forall i :: 0 < i < |ranked| ==> ranked[i].rank == ranked[i - 1].rank + 1)
            && (forall i, j :: 0 <= i < j < |ranked| ==> ranked[i].rank < ranked[j].rank)
            && (currentUserId.None? ==> forall i :: 0 <= i < |ranked| ==> !ranked[i].isCurrentUser)
  {
  }

  /** Whether a row passes the search: lower-cased name contains lower-cased term. */
  function Matches(e: Entry, term: string): (m: bool)
    ensures m <==> exists i: nat :: Text.OccursAt(Text.Lower(e.record.name), Text.Lower(term), i)
    ensures term == "" ==> m
  {
    Text.IncludesEmpty(Text.Lower(e.record.name));
    Text.Includes(Text.Lower(e.record.name), Text.Lower(term))
  }

  /** `a` is `b` with some elements dropped, order kept. */
  ghost predicate IsSubsequence(a: seq<Entry>, b: seq<Entry>)
    decreases |b|
  {
    if |a| == 0 then true
    else if |b| == 0 then false
    else (a[0] == b[0] && IsSubsequence(a[1..], b[1..])) || IsSubsequence(a, b[1..])
  }

  /** The rows shown for a search term, taken from the already ranked list. */
  function Search(ranked: seq<Entry>, term: string): (kept: seq<Entry>)
    ensures forall e :: e in kept <==> e in ranked && Matches(e, term)
    ensures IsSubsequence(kept, ranked)
    ensures |kept| <= |ranked|
    ensures forall e :: multiset(kept)[e] == if Matches(e, term) then multiset(ranked)[e] else 0
  {
    if |ranked| == 0 then []
    else
      var rest := Search(ranked[1..], term);
      assert ranked == [ranked[0]] + ranked[1..];
      assert forall e :: e in ranked <==> e == ranked[0] || e in ranked[1..];
      if Matches(ranked[0], term) then
        assert ([ranked[0]] + rest)[1..] == rest;
        [ranked[0]] + rest
      else rest
  }

  /** A subsequence of a list with strictly increasing ranks has strictly increasing ranks. */
  lemma {:induction false} SubsequenceKeepsRankOrder(a: seq<Entry>, b: seq<Entry>)
    requires IsSubsequence(a, b)
    requires forall i, j :: 0 <= i < j < |b| ==> b[i].rank < b[j].rank
    ensures forall i, j :: 0 <= i < j < |a| ==> a[i].rank < a[j].rank
    ensures forall x :: x in a ==> x in b
    decreases |b|
  {
    if |a| > 0 && |b| > 0 {
      if a[0] == b[0] && IsSubsequence(a[1..], b[1..]) {
        SubsequenceKeepsRankOrder(a[1..], b[1..]);
        forall j | 0 < j < |a|
          ensures a[0].rank < a[j].rank
        {
          assert a[j] == a[1..][j - 1];
          assert a[j] in a[1..];
          assert a[j] in b[1..];
          var k :| 0 <= k < |b[1..]| && b[1..][k] == a[j];
          assert b[k + 1] == a[j];
        }
        forall x | x in a
          ensures x in b
        {
          if x != a[0] {
            assert x in a[1..];
          }
        }
      } else {
        SubsequenceKeepsRankOrder(a, b[1..]);
      }
    }
  }

  /**
   Searching after ranking: every shown row keeps the rank it had in the
   full list, which is its position there, and the shown rows are still in
   rank order.
   */
  lemma SearchKeepsRanks(records: seq<ScoreRecord>, currentUserId: Option<string>, term: string)
    ensures var kept := Search(Rank(records, currentUserId), term);
            && (forall e :: e in kept ==> 1 <= e.rank <= |records| && e.record == records[e.rank - 1])
            && (forall i, j :: 0 <= i < j < |kept| ==> kept[i].rank < kept[j].rank)
  {
    var ranked := Rank(records, currentUserId);
    RanksAreOneToN(records, currentUserId);
    SubsequenceKeepsRankOrder(Search(ranked, term), ranked);
  }

  /** An empty search term shows every row. */
  lemma {:induction false} EmptySearchKeepsAll(ranked: seq<Entry>)
    ensures Search(ranked, "") == ranked
  {
    if |ranked| > 0 {
      Text.IncludesEmpty(Text.Lower(ranked[0].record.name));
      assert Text.Lower("") == "";
      EmptySearchKeepsAll(ranked[1..]);
    }
  }

  /**
   The search ignores the case of the term: searching a term and its
   lower-cased form show the same rows.
   */
  lemma {:induction false} SearchIgnoresTermCase(ranked: seq<Entry>, term: string)
    ensures Search(ranked, Text.Lower(term)) == Search(ranked, term)
  {
    Text.LowerIdempotent(term);
    if |ranked| > 0 {
      SearchIgnoresTermCase(ranked[1..], term);
    }
  }

  /** The first row flagged as the viewer's, as `find` returns it. */
  function FindCurrent(entries: seq<Entry>): (found: Option<Entry>)
    ensures found.None? <==> forall i :: 0 <= i < |entries| ==> !entries[i].isCurrentUser
    ensures found.Some? ==> exists i :: && 0 <= i < |entries|
                                        && entries[i] == found.value
                                        && entries[i].isCurrentUser
                                        && forall j :: 0 <= j < i ==> !entries[j].isCurrentUser
  {
    if |entries| == 0 then None
    else if entries[0].isCurrentUser then Some(entries[0])
    else
      var found := FindCurrent(entries[1..]);
      assert forall i :: 0 < i < |entries| ==> entries[i] == entries[1..][i - 1];
      found
  }

  /** Row `i` is flagged as the viewer's and no earlier row is. */
  ghost predicate FirstFlaggedAt(entries: seq<Entry>, i: int) {
    && 0 <= i < |entries|
    && entries[i].isCurrentUser
    && forall j :: 0 <= j < i ==> !entries[j].isCurrentUser
  }

  /** What the banner prints for the viewer's rank: a number, or "--". */
  datatype RankLabel = RankOf(n: int) | NoRank

  /** The viewer's rank in the full (unsearched) list; a falsy rank prints "--". */
  function YourRank(ranked: seq<Entry>): (shown: RankLabel)
    ensures shown.RankOf? <==> exists i :: FirstFlaggedAt(ranked, i) && ranked[i].rank != 0
    ensures forall i :: FirstFlaggedAt(ranked, i) && ranked[i].rank != 0 ==> shown == RankOf(ranked[i].rank)
  {
    match FindCurrent(ranked)
    case Some(e) => if e.rank != 0 then RankOf(e.rank) else NoRank
    case None => NoRank
  }

  /**
   Over a ranking, "your rank" is k exactly when the viewer's first row is
   at position k - 1, and "--" exactly when none of the rows is theirs.
   */
  lemma YourRankIsFirstMatch(records: seq<ScoreRecord>, currentUserId: Option<string>)
    ensures var shown := YourRank(Rank(records, currentUserId));
            && (shown == NoRank <==> forall i :: 0 <= i < |records| ==> !IsCurrentUser(records[i], currentUserId))
            && (shown.RankOf? ==> && 1 <= shown.n <= |records|
                                  && IsCurrentUser(records[shown.n - 1], currentUserId)
                                  && forall j :: 0 <= j < shown.n - 1 ==> !IsCurrentUser(records[j], currentUserId))
  {
    var ranked := Rank(records, currentUserId);
    assert |ranked| == |records|;
    assert forall i :: 0 <= i < |ranked| ==> ranked[i].isCurrentUser == IsCurrentUser(records[i], currentUserId);
    var found := FindCurrent(ranked);
    if found.Some? {
      var i :| && 0 <= i < |ranked|
               && ranked[i] == found.value
               && ranked[i].isCurrentUser
               && forall j :: 0 <= j < i ==> !ranked[j].isCurrentUser;
      assert FirstFlaggedAt(ranked, i) && ranked[i].rank == i + 1;
      assert YourRank(ranked) == RankOf(i + 1);
    } else {
      assert YourRank(ranked) == NoRank;
    }
  }

  /** The banner appears only for a signed-in viewer (a non-empty id). */
  function RankBanner(currentUserId: Option<string>, ranked: seq<Entry>): (banner: Option<RankLabel>)
    ensures banner.Some? <==> currentUserId.Some? && currentUserId.value != ""
    ensures banner.Some? ==> banner.value == YourRank(ranked)
  {
    if currentUserId.Some? && currentUserId.value != "" then Some(YourRank(ranked)) else None
  }

  /** Clicking a row expands it, or collapses it when it is the expanded one. */
  function Toggle(expanded: Option<string>, id: string): (next: Option<string>)
    ensures next == Some(id) <==> expanded != Some(id)
    ensures next == None <==> expanded == Some(id)
  {
    if expanded == Some(id) then None else Some(id)
  }

  /**
   Clicking the same row twice restores the state when nothing or that row
   was expanded; when another row was expanded, it ends collapsed.
   */
  lemma ToggleTwice(expanded: Option<string>, id: string)
    ensures expanded == None || expanded == Some(id) ==> Toggle(Toggle(expanded, id), id) == expanded
    ensures expanded != None && expanded != Some(id) ==> Toggle(Toggle(expanded, id), id) == None
  {
  }

  const GoldStyle: string := "bg-gradient-to-r from-yellow-500 to-yellow-300"
  const SilverStyle: string := "bg-gradient-to-r from-gray-400 to-gray-300"
  const BronzeStyle: string := "bg-gradient-to-r from-amber-700 to-amber-500"
  const DefaultStyle: string := "bg-gradient-to-r from-indigo-600 to-indigo-400"

  /** The badge style of a rank: three medal styles and one shared style for the rest. */
  function RankColor(rank: int): (style: string)
    ensures style == GoldStyle <==> rank == 1
    ensures style == SilverStyle <==> rank == 2
    ensures style == BronzeStyle <==> rank == 3
    ensures style == DefaultStyle <==> rank != 1 && rank != 2 && rank != 3
  {
    // All four share the 22-character prefix "bg-gradient-to-r from-", so the colour's first letter tells them apart.
    assert GoldStyle[22] != SilverStyle[22] && GoldStyle[22] != BronzeStyle[22] && GoldStyle[22] != DefaultStyle[22];
    assert SilverStyle[22] != BronzeStyle[22] && SilverStyle[22] != DefaultStyle[22];
    assert BronzeStyle[22] != DefaultStyle[22];
    if rank == 1 then GoldStyle
    else if rank == 2 then SilverStyle
    else if rank == 3 then BronzeStyle
    else DefaultStyle
  }

  /** The crown drawn next to ranks up to 3, coloured gold, silver or bronze. */
  function CrownColor(rank: int): (colour: Option<string>)
    ensures colour.Some? <==> rank <= 3
    ensures rank == 1 ==> colour == Some("gold")
    ensures rank == 2 ==> colour == Some("silver")
    ensures rank <= 3 && rank != 1 && rank != 2 ==> colour == Some("#b45309")
  {
    if rank <= 3 then
      Some(if rank == 1 then "gold" else if rank == 2 then "silver" else "#b45309")
    else None
  }

  /** The page's time windows. */
  datatype TimeFilter = AllTime | Weekly | Daily

  /** The select value read as a window; any other value applies no window. */
  function ParseTimeFilter(value: string): (f: TimeFilter)
    ensures f == Weekly <==> value == "weekly"
    ensures f == Daily <==> value == "daily"
    ensures f == AllTime <==> value != "weekly" && value != "daily"
  {
    if value == "weekly" then Weekly
    else if value == "daily" then Daily
    else AllTime
  }

  /**
   The earliest creation time a window admits: seven days back for the week,
   local midnight for the day; both instants are computed by the caller.
   */
  function Cutoff(f: TimeFilter, weekAgo: int, midnight: int): (c: Option<int>)
    ensures c.None? <==> f == AllTime
  {
    match f
    case AllTime => None
    case Weekly => Some(weekAgo)
    case Daily => Some(midnight)
  }

  /**
   Whether a row created at `createdAt` is fetched under window `f`: the
   all-time view keeps every row, and the other windows keep a row created
   at or after their cutoff, the cutoff itself included.
   */
  function Keeps(f: TimeFilter, createdAt: int, weekAgo: int, midnight: int): (k: bool)
    ensures f == AllTime ==> k
    ensures f == Weekly ==> (k <==> createdAt >= weekAgo)
    ensures f == Daily ==> (k <==> createdAt >= midnight)
  {
    match Cutoff(f, weekAgo, midnight)
    case None => true
    case Some(c) => createdAt >= c
  }

  /** A window that keeps a row keeps every row created later. */
  lemma KeepsIsMonotone(f: TimeFilter, t: int, later: int, weekAgo: int, midnight: int)
    requires Keeps(f, t, weekAgo, midnight) && t <= later
    ensures Keeps(f, later, weekAgo, midnight)
  {
  }

  /**
   The page's fetched state: the rows last loaded and the error last
   recorded. An `error` of "" stands for "no error" (null or an empty
   message), both falsy when the page decides what to draw.
   */
  datatype Board = Board(rows: seq<Entry>, error: string)

  /** Before any fetch settles: no rows and no error. */
  const Initial: Board := Board([], "")

  /**
   What the page draws once loading is over: the error text alone, or the
   table of rows matching the search term together with the rank banner.
   */
  datatype View = ErrorView(message: string) | TableView(rows: seq<Entry>, banner: Option<RankLabel>)

  /**
   A non-empty error hides everything else. Otherwise the table lists the
   loaded rows that match the search term, and the banner, shown to a
   signed-in viewer, reads the rank from all loaded rows.
   */
  function Display(b: Board, term: string, currentUserId: Option<string>): (v: View)
    ensures v.ErrorView? <==> b.error != ""
    ensures v.ErrorView? ==> v.message == b.error
    ensures v.TableView? ==> && v.rows == Search(b.rows, term)
                             && v.banner == RankBanner(currentUserId, b.rows)
  {
    if b.error != "" then ErrorView(b.error)
    else TableView(Search(b.rows, term), RankBanner(currentUserId, b.rows))
  }

  /**
   The banner does not depend on the search: after a successful fetch, a
   signed-in viewer's banner shows "your rank" as the first position of
   their row in the whole fetched list (or "--"), whatever is typed.
   */
  lemma BannerIgnoresSearch(prev: Board, records: seq<ScoreRecord>, currentUserId: Option<string>, term: string)
    requires prev.error == "" && currentUserId.Some? && currentUserId.value != ""
    ensures var v := Display(Load(prev, Success(records), currentUserId), term, currentUserId);
            && v.TableView? && v.banner.Some?
            && (v.banner.value == NoRank <==> forall i :: 0 <= i < |records| ==> records[i].id != currentUserId.value)
            && (v.banner.value.RankOf? ==> && 1 <= v.banner.value.n <= |records|
                                           && records[v.banner.value.n - 1].id == currentUserId.value
                                           && forall j :: 0 <= j < v.banner.value.n - 1 ==> records[j].id != currentUserId.value)
  {
    YourRankIsFirstMatch(records, currentUserId);
  }

  /**
   A fetch settling on board `prev`. A successful reply replaces the rows
   with the ranked records and leaves the error alone (nothing clears it);
   a store error records its message and leaves the rows alone.
   */
  function Load(prev: Board, reply: Result<seq<ScoreRecord>, string>, currentUserId: Option<string>): (next: Board)
    ensures reply.Failure? ==> next.rows == prev.rows && next.error == reply.error
    ensures reply.Success? ==> && next.error == prev.error
                               && |next.rows| == |reply.value|
                               && forall i :: 0 <= i < |next.rows| ==>
                                    && next.rows[i].record == reply.value[i]
                                    && next.rows[i].rank == i + 1
                                    && (next.rows[i].isCurrentUser <==> IsCurrentUser(reply.value[i], currentUserId))
  {
    match reply
    case Success(records) => Board(Rank(records, currentUserId), prev.error)
    case Failure(message) => Board(prev.rows, message)
  }

  /**
   The first fetch, before a search term can be typed: a success draws the
   whole ranked table; an error with a message draws that message; an
   error with an empty message draws the empty table.
   */
  lemma FirstLoad(reply: Result<seq<ScoreRecord>, string>, currentUserId: Option<string>)
    ensures var v := Display(Load(Initial, reply, currentUserId), "", currentUserId);
            && (reply.Success? ==> v.TableView? && v.rows == Rank(reply.value, currentUserId))
            && (reply.Failure? && reply.error != "" ==> v == ErrorView(reply.error))
            && (reply.Failure? && reply.error == "" ==> v.TableView? && v.rows == [])
  {
    if reply.Success? {
      EmptySearchKeepsAll(Rank(reply.value, currentUserId));
    }
  }

  /**
   Once an error with a message is recorded, a later successful fetch still
   draws the error, whatever the search term, since nothing resets it.
   */
  lemma ErrorSticks(prev: Board, records: seq<ScoreRecord>, currentUserId: Option<string>)
    requires prev.error != ""
    ensures forall term :: Display(Load(prev, Success(records), currentUserId), term, currentUserId) == ErrorView(prev.error)
  {
  }
}
