# Trivia quiz: session, leaderboard view and score save

A Dafny model of the logic inside the three pages of a browser trivia game.

- **Quiz page.** Five questions are fetched. They are shown one at a time, with the answers shuffled. Every correct click adds 10 points. After the last question the page hands a score to the result page.
- **Leaderboard page.** It ranks the fetched score-descending rows and flags the viewer's own row. It filters by a case-insensitive name search, shows "your rank", expands one row at a time, styles ranks 1 to 3 as medals, and asks the store for a daily, weekly or all-time window.
- **Result page.** It decides the score to save, refuses an empty name, inserts `{name, score}`, and moves on to the leaderboard only when the insert succeeds.

The modules follow the pages:

- `Quiz` (quiz.dfy) models the session as a `Screen` (`Loading`, `Playing(session)`, `Finished(handoff)`), with `Begin`, `Answer`, `Submit` and `Run` as pure transitions.
- `Shuffle` (shuffle.dfy) models the option shuffle. The random comparator becomes an explicit sequence of `picks`. Every choice of picks yields a permutation, and every permutation comes from some picks, so the model covers "any permutation" and nothing else.
- `Leaderboard` (leaderboard.dfy) holds ranking, search, "your rank", the expand toggle, the rank styles, the time-window predicate and the fetch outcome.
- `Text` (text.dfy) models `toLowerCase` and `includes`.
- `ResultPage` (result.dfy) models the final-score fallback and the save click.
- `Flow` (flow.dfy) connects the quiz hand-off to the row that gets saved.
- `Wrappers` (wrappers.dfy) defines `Option` and `Result`.

Some of the code's behaviour is easy to misread; the model follows the code:

- **The hand-off score leaves out the last answer.** The click handler schedules the score update as a functional update, then reads the render-time `score` when it navigates. So the score handed over leaves out the last answer's 10 points. Three questions answered right, wrong, right earn 20 points but hand over 10 (`Quiz.ParisExample`); in general the gap is exactly the last award (`Quiz.HandoffOmitsLastAward`). One might expect the hand-off to be 20; the code hands over 10. This is stated as a property and not corrected.
- **An empty question list leaves the page loading.** Building the options for `data[0]` throws before loading is switched off, so the page stays on "Loading" for good. A failed fetch, which nothing catches, does the same. There is no separate error state (`Quiz.Begin`).
- **A failed save does not navigate.** Only a successful insert moves on to the leaderboard; a failed insert is logged and the page stays.
- **Leaderboard errors are falsy when empty and never cleared.** An error whose message is empty draws the table instead (the empty one on the first fetch), and once a non-empty error is recorded, later successful fetches still draw it (`Leaderboard.FirstLoad`, `Leaderboard.ErrorSticks`).
- **Options are a list, not a set.** They are built as a list, so a correct answer that also appears among the incorrect ones is offered twice.

## Model

| member | source | states |
|---|---|---|
| Shuffle.Shuffle | src/pages/Quiz.jsx:23-26 | whatever the random picks, the result has the input's length and exactly its elements with their multiplicities |
| Shuffle.EveryPermutationReachable | src/pages/Quiz.jsx:25 | every reordering of the answers is produced by some picks, so the shuffle ranges over all permutations |
| Quiz.ShuffleOptions | src/pages/Quiz.jsx:23-26 | options are a permutation of incorrect answers plus the correct one: length is one more than the incorrect answers, every answer is present, and the correct one occurs exactly once when it is not also an incorrect answer |
| Quiz.AnyOrderIsPossible | src/pages/Quiz.jsx:23-26 | any ordering of a question's candidate answers is a possible option list |
| Quiz.Begin | src/pages/Quiz.jsx:15-21 | a non-empty fetched list starts on question 0 with score 0 and options shuffled from question 0; an empty or failed fetch leaves the page loading |
| Quiz.Awarded | src/pages/Quiz.jsx:29-32 | the score grows by exactly 10 when the selected text equals the correct answer and is unchanged otherwise |
| Quiz.Answer | src/pages/Quiz.jsx:28-40 | one click: if another question follows, the index grows by exactly one, the score grows by 10 iff the answer is right and is unchanged when it is wrong, and the options are a permutation of the next question's answers; else the quiz completes with the score from before the click |
| Quiz.Submit | src/pages/Quiz.jsx:42-62 | only a question screen reacts to a click; loading and finished screens are unchanged; the current index stays inside the question list |
| Quiz.Run | src/pages/Quiz.jsx:28-40 | any sequence of clicks keeps every session valid: the index stays inside the question list and the options stay a permutation of the current question's answers |
| Quiz.RunIdle | src/pages/Quiz.jsx:37-38 | once finished (or still loading), further clicks change nothing |
| Quiz.EarnedBound | src/pages/Quiz.jsx:29-32 | the points earned never exceed 10 per answer submitted |
| Quiz.RunInProgress | src/pages/Quiz.jsx:33-36 | with more questions left than clicks, the page stays on a question, the index advances by the number of clicks and the score by the points they earned |
| Quiz.RunToCompletion | src/pages/Quiz.jsx:31-38 | with at least as many clicks as questions left, the quiz finishes, handing over the points of all clicks but the last |
| Quiz.QuizInProgress | src/pages/Quiz.jsx:15-36 | from the start, fewer than N clicks leave the page on question number "clicks", with score equal to the points earned and at most 10 per click |
| Quiz.QuizCompletes | src/pages/Quiz.jsx:33-38 | from the start, exactly N clicks complete the quiz, and the hand-off is the points of the first N - 1 answers |
| Quiz.CompletesOnce | src/pages/Quiz.jsx:33-38 | clicks beyond the N-th have no effect: completion happens once |
| Quiz.HandoffOmitsLastAward | src/pages/Quiz.jsx:31-38 | the handed-off score plus the last answer's award equals the points actually earned |
| Quiz.ParisExample | src/pages/Quiz.jsx:28-38 | answering Paris / 7 / Blue earns 20 points but hands 10 to the result page |
| Text.LowerChar | src/pages/Leaderboard.jsx:76 | each upper-case ASCII letter maps to the same letter in lower case (code point + 32); every other character is unchanged |
| Text.Lower | src/pages/Leaderboard.jsx:76 | lower-casing keeps the length and lower-cases each character in place |
| Text.LowerIdempotent | src/pages/Leaderboard.jsx:76 | lower-casing a lower-cased string changes nothing |
| Text.Includes | src/pages/Leaderboard.jsx:76 | the left-to-right scan says yes iff the term occurs at some position of the string |
| Text.IncludesEmpty | src/pages/Leaderboard.jsx:76 | every name contains the empty term |
| Leaderboard.RankFrom | src/pages/Leaderboard.jsx:46-50 | ranking from a starting rank keeps length and rows, numbers them consecutively and flags exactly the viewer's rows |
| Leaderboard.Rank | src/pages/Leaderboard.jsx:46-50 | the row at position i keeps all its fields, gets rank i + 1, and is flagged iff its id equals the viewer's id |
| Leaderboard.RanksAreOneToN | src/pages/Leaderboard.jsx:46-50 | ranks run 1, 2, ..., n in fetched order, strictly increasing; with no viewer no row is flagged |
| Leaderboard.Matches | src/pages/Leaderboard.jsx:75-77 | a row passes the search iff the lower-cased term occurs at some position of the lower-cased name; the empty term passes every row |
| Leaderboard.Search | src/pages/Leaderboard.jsx:75-77 | the shown rows are an order-preserving subsequence of the ranked list holding exactly the rows whose lower-cased name contains the lower-cased term, each matching row as many times as in the ranked list |
| Leaderboard.SubsequenceKeepsRankOrder | src/pages/Leaderboard.jsx:75-77 | dropping rows from a list in rank order leaves a list in rank order whose rows all come from the original |
| Leaderboard.SearchKeepsRanks | src/pages/Leaderboard.jsx:46-77 | after a search every shown row keeps the rank of its position in the full fetched list, and the shown ranks stay increasing |
| Leaderboard.EmptySearchKeepsAll | src/pages/Leaderboard.jsx:75-77 | an empty search term shows every ranked row, unchanged |
| Leaderboard.SearchIgnoresTermCase | src/pages/Leaderboard.jsx:75-77 | searching a term or its lower-cased form shows the same rows |
| Leaderboard.FindCurrent | src/pages/Leaderboard.jsx:247 | finds nothing iff no row is flagged; otherwise returns the first flagged row |
| Leaderboard.YourRank | src/pages/Leaderboard.jsx:247 | a number is shown iff the first row flagged as the viewer's has a non-zero (truthy) rank, and then it is that rank; otherwise "--" |
| Leaderboard.YourRankIsFirstMatch | src/pages/Leaderboard.jsx:247 | over the unfiltered ranking, "your rank" is k iff the viewer's first row is at position k - 1, and "--" iff no row is the viewer's, whatever the search term |
| Leaderboard.RankBanner | src/pages/Leaderboard.jsx:243-247 | the rank banner appears iff a non-empty viewer id is known, and then shows the rank from the unfiltered list |
| Leaderboard.Toggle | src/pages/Leaderboard.jsx:64-66 | clicking a row expands it unless it is the expanded one, in which case nothing stays expanded |
| Leaderboard.ToggleTwice | src/pages/Leaderboard.jsx:64-66 | two clicks on one row restore the state when nothing or that row was expanded, and collapse everything when another row was |
| Leaderboard.RankColor | src/pages/Leaderboard.jsx:68-73 | ranks 1, 2 and 3 get three distinct medal styles and every other rank one shared default style |
| Leaderboard.CrownColor | src/pages/Leaderboard.jsx:160-177 | a crown is drawn iff the rank is at most 3: gold for 1, silver for 2, bronze otherwise |
| Leaderboard.ParseTimeFilter | src/pages/Leaderboard.jsx:31-39 | "weekly" and "daily" select their windows and any other value applies no window |
| Leaderboard.Cutoff | src/pages/Leaderboard.jsx:30-39 | there is no cutoff exactly for the all-time view |
| Leaderboard.Keeps | src/pages/Leaderboard.jsx:30-39 | weekly and daily keep a row iff created at or after their cutoff, a row created exactly at the cutoff included; all-time keeps every row |
| Leaderboard.KeepsIsMonotone | src/pages/Leaderboard.jsx:30-39 | a window that keeps a row keeps every row created later |
| Leaderboard.Load | src/pages/Leaderboard.jsx:41-58 | a settled fetch: a successful reply replaces the rows with the records ranked 1..n in fetched order, each flagged iff its id is the viewer's, and leaves the error as it was; a store error records its message and keeps the earlier rows |
| Leaderboard.Display | src/pages/Leaderboard.jsx:75-95 | the error text alone is drawn iff the recorded error is non-empty; otherwise the table lists the loaded rows matching the search term, next to the rank banner computed from all loaded rows |
| Leaderboard.BannerIgnoresSearch | src/pages/Leaderboard.jsx:243-247 | after a successful fetch, a signed-in viewer's banner shows k iff their first row is the k-th fetched row, and "--" iff no row is theirs, whatever the search term |
| Leaderboard.FirstLoad | src/pages/Leaderboard.jsx:41-58 | on the first fetch, before anything is typed, a success draws the whole ranked table, an error with a message draws the message, and an error with an empty message draws the empty table |
| Leaderboard.ErrorSticks | src/pages/Leaderboard.jsx:52-55 | once a non-empty error is recorded, a later successful fetch still draws that error, whatever the search term |
| ResultPage.FinalScore | src/pages/Result.jsx:8 | the score is the handed-off value when present and 0 when the hand-off is missing |
| ResultPage.SaveScore | src/pages/Result.jsx:11-25 | an empty name inserts nothing and stays; otherwise exactly {name, score} is inserted, and the page goes to /leaderboard iff the store reports success |
| Flow.ShownScore | src/pages/Result.jsx:6-8 | the result page shows exactly the score the quiz page handed over |
| Flow.SavedScoreAfterQuiz | src/pages/Quiz.jsx:38 | after a whole quiz, saving under a non-empty name inserts the points of every answer but the last |

## Left out

- Fetching questions (src/utils/api.js) is left out. It is a single HTTP call. The fetched list, or its failure, is an input to `Quiz.Begin`.
- The Supabase calls are left out: `auth.getUser`, the ordered select, the insert, and the server-side `gte`. The fetched rows, the viewer id and the store replies are inputs. Only the time-window predicate is modelled.
- The start page (src/pages/Home.jsx) and the route table (src/main.jsx) are left out. They hold only a delay, navigation and mounting.
- `Math.random` in the shuffle is left out. The random comparator's distribution is not modelled, only which orders are possible.
- `decodeURIComponent` on the question and option texts is left out. Answers are compared raw, as the click handler does.
- The date arithmetic (`setDate`, `setHours`, `toISOString`) is left out. The weekly and daily cutoffs are inputs, and timestamps are integers.
- React state batching, effect ordering and re-rendering are left out, apart from the stale score read at completion. The possibly stale viewer id when ranks are computed is also not modelled; `Leaderboard.Rank` takes whatever id it is given.
- JSX rendering, styling classes other than the rank badge, locale formatting, the empty-result message, avatars and the share button are left out. The share button has no handler.
- Text.LowerChar: lower-cases ASCII letters only. The full Unicode case mapping of `toLowerCase` is not modelled.
- ResultPage.FinalScore: the hand-off is taken to be a number or absent. A `NaN`, string or other non-number hand-off is not modelled.
