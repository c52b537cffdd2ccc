# Boerenbridge scorekeeper: a verified model

This project models the scoring core of the Boerenbridge scorekeeper, a
single-page React component (`src/App.js`). The component keeps a roster of
players. It opens a round in which each player's bid and tricks taken are set
with plus and minus buttons that never go below zero, and then finishes the
round. Finishing scores every player: 10 + 3 × bid for an exact bid, and
−3 per trick of deviation otherwise. The component also derives standings
from the round history:

- each player's total of bids;
- a points leaderboard and a bids leaderboard;
- the "Biedpan", the player with the fewest bids, with ties broken by lower
  score and then by name;
- the "Puntenpan", the player with the fewest points, with ties broken by
  fewer bids and then by name.

The Dafny modules follow the parts of the component:

- `Wrappers`: the `Option` type, standing in for JavaScript's
  `undefined`/`null`.
- `Text`: `String.prototype.trim` over ECMAScript white space, and the
  string comparison used as the last tie-break.
- `Scoring`: the records, the points rule, the clamp of the plus and minus
  buttons, the entries `finishRound` builds, the score update, the roster
  filter and the total of the open bids.
- `Sorting`: `Array.prototype.sort` with a comparator. ECMAScript requires
  this sort to be stable, so it is modelled as a stable insertion sort.
- `Standings`: the totals of bids and points over the history, the
  invariant linking history and roster, the two leaderboards, and the Biedpan
  and Puntenpan.
- `Scorekeeper`: class `Game`, whose fields are the component's state
  variables and whose methods are its event handlers. Each handler is one
  atomic update of the fields. `Game.Valid()` is the invariant every handler
  keeps. It is `Consistent` applied to the fields, so the preservation
  lemmas can be stated on values:
  - ids are distinct;
  - names are not empty and carry no white space at either end, the form
    `trim` leaves them in;
  - at least two players once the game runs;
  - rounds are numbered 1, 2, …, and the open round is the next number;
  - while a round is open, its bids are keyed by exactly the roster's ids;
  - each finished round has one well-formed entry per player, in roster
    order;
  - no bid or trick count is negative;
  - every score is that player's sum of points over the history.

## Model

| member | source | states |
|---|---|---|
| Scoring.Points | src/App.js:68-72 | for a non-negative bid, at least 10 points exactly when the bid is met; a missed bid costs at least 3 points, in a multiple of 3 |
| Scoring.PointsRule | src/App.js:70-72 | the points are 10 + 3·bid for an exact bid, and −3 per trick of deviation over or under |
| Scoring.PointsSymmetricMiss | src/App.js:71-72 | taking d tricks too many or d too few costs the same 3·d points |
| Scoring.PointsMonotoneInExactBid | src/App.js:72 | a larger exact bid is worth strictly more |
| Scoring.Clamp | src/App.js:49 | the value left by a plus or minus button is never negative; it is the sum when that is non-negative and 0 otherwise |
| Scoring.EntryOf | src/App.js:67-81 | an entry records the player's id, name, bid and tricks (0 when unset); it is well-formed (flag and points agree with bid and tricks) when they are non-negative |
| Scoring.RoundData | src/App.js:65-83 | a finished round holds exactly one entry per player, in roster order |
| Scoring.FindEntry | src/App.js:88 | `find` gives nothing exactly when no entry has the id; otherwise it gives the first entry with that id |
| Scoring.FindEntryAt | src/App.js:88 | with distinct ids, `find` gives the entry at that player's position |
| Scoring.OwnEntry | src/App.js:88 | in entries aligned with a roster of distinct ids, `find` gives the player's own entry |
| Scoring.ScoredPlayers | src/App.js:87-90 | the updated roster keeps every player's id and name, in the same order |
| Scoring.ScoredRound | src/App.js:64-91 | the round's entries are aligned with the roster and have distinct ids, and each player's new score is the old score plus `Points(bid, tricks)` for their own bid and tricks, with nothing else changed |
| Scoring.ZeroScores | src/App.js:105 | the reset roster keeps ids, names and order, with every score 0 |
| Scoring.Without | src/App.js:22 | the filtered roster holds exactly the players whose id differs from the removed one |
| Scoring.WithoutAbsent | src/App.js:22 | removing an id no player has leaves the roster as it was |
| Scoring.WithoutPresent | src/App.js:22 | with distinct ids, removing the id of player k cuts out exactly position k |
| Scoring.WithoutUnique | src/App.js:22 | filtering keeps the ids distinct |
| Scoring.RemoveFromRoster | src/App.js:20-24 | removal keeps ids distinct, cuts out exactly the player with that id, and changes nothing for an unknown id |
| Scoring.AppendFresh | src/App.js:15 | appending a player with a fresh id keeps ids distinct and adds exactly that id |
| Scoring.IdSetMember | src/App.js:22 | an id is among the roster's ids exactly when some player carries it |
| Scoring.CleanNameIsTrimmed | src/App.js:14-15 | a stored name is clean exactly when it is non-empty and `trim` leaves it unchanged |
| Scoring.TrimmedNameIsClean | src/App.js:14-15 | a name that trims to something non-empty trims to a clean name |
| Scoring.RosterAppend | src/App.js:13-18 | appending a player with a fresh id and a clean name keeps the roster well-formed and adds exactly that id |
| Scoring.RosterWithout | src/App.js:20-24 | filtering by an id keeps the roster well-formed |
| Scoring.RosterKept | src/App.js:87-90 | a roster with the same ids and names in the same order, whatever the scores, stays well-formed |
| Scoring.SumValues | src/App.js:109-111 | the total of the open bids is non-negative when every bid is, and 0 when every bid is 0 |
| Scoring.SumValuesPick | src/App.js:110 | the total does not depend on the order the bids are added in |
| Scoring.RosterBidsIgnores | src/App.js:110 | a bid stored under an id off the roster does not change the roster's total |
| Scoring.SumValuesByRoster | src/App.js:109-111 | while a round is open the total of the bids is the sum of every player's bid in roster order |
| Scoring.FirstRoundScenario | src/App.js:64-91 | Alice bids 2 and takes 2 (16 points); Bob bids 3 and takes 1 (−6 points) |
| Scoring.SecondRoundScenario | src/App.js:64-91 | from 16 and −6, Alice bids 1 and takes 0 (13 in total); Bob bids 0 and takes 0 (4 in total) |
| Text.TrimStart | src/App.js:14-15 | what is left is a suffix of the name; everything dropped is white space; it does not start with white space |
| Text.TrimEnd | src/App.js:14-15 | what is left is a prefix; everything dropped is white space; it does not end with white space |
| Text.TrimIsSlice | src/App.js:14-15 | the trimmed name is the slice between leading and trailing white space, and neither starts nor ends with white space |
| Text.TrimEmptyIff | src/App.js:14 | a name is rejected exactly when it is white space only |
| Text.TrimIdempotent | src/App.js:15 | trimming an already trimmed name changes nothing |
| Text.TrimClean | src/App.js:15 | a name with no white space at either end is stored as typed |
| Text.StrCmp | src/App.js:262 | the comparison is −1, 0 or 1, and 0 exactly for equal names |
| Text.StrCmpIsLexLess | src/App.js:262 | the comparison is negative exactly when the first name is a proper prefix, or has the smaller character at the first difference |
| Text.StrCmpAntisymmetric | src/App.js:262 | swapping the names flips the sign |
| Text.StrCmpTransitive | src/App.js:285 | the comparison is transitive |
| Sorting.InsertPermutes | src/App.js:259-263 | inserting adds exactly one element |
| Sorting.SortPermutes | src/App.js:259-263 | the sort neither loses nor adds elements |
| Sorting.InsertSorted | src/App.js:259-263 | inserting into a sorted sequence keeps it sorted |
| Sorting.SortSorted | src/App.js:259-263 | under a total preorder comparator the result is sorted |
| Sorting.InsertStable | src/App.js:259-263 | insertion keeps tied elements in their order |
| Sorting.SortStable | src/App.js:259-263 | elements that tie keep the order they had in the input |
| Sorting.SortHeadIsLeast | src/App.js:265 | the first element of the sorted result is from the input and may precede every element of it |
| Standings.TotalBids | src/App.js:253-256 | the total of bids over the rounds is non-negative when every round's bid is |
| Standings.TotalBidsConcat | src/App.js:253-256 | the total over two histories one after the other is the sum of their totals |
| Standings.TotalBidsAfterRound | src/App.js:518-521 | finishing a round adds the player's own bid in it to their total |
| Standings.TotalPointsAfterRound | src/App.js:85-90 | finishing a round adds the points of the player's own entry to their total |
| Standings.EmptyHistory | src/App.js:15 | before the first round, the history fits a roster exactly when every score is 0 |
| Standings.EmptyHistoryAppend | src/App.js:13-18 | adding a player with score 0 before the game keeps the empty history fitting |
| Standings.EmptyHistoryWithout | src/App.js:20-24 | removing a player before the game keeps the empty history fitting |
| Standings.EntriesAfterRound | src/App.js:64-85 | appending a round numbered next and aligned with the roster keeps the history numbered, aligned and well-formed |
| Standings.ScoresAfterRound | src/App.js:85-91 | adding each player's points of the new round keeps every score the history's total |
| Standings.HistoryAfterRound | src/App.js:64-96 | `finishRound` keeps the history fitting the updated roster: numbered 1..n+1, aligned, well-formed, scores equal to totals |
| Standings.HistoryBidsNonNegative | src/App.js:518-521 | over a fitting history no player's total of bids is negative |
| Standings.WithTotals | src/App.js:250-257 | one standing per player, in roster order, with its id, name, score and total of bids |
| Standings.FewestBidsFirstMeaning | src/App.js:259-263 | the Biedpan comparator puts a first exactly when (totalBids, score, name) of a is lexicographically no larger |
| Standings.FewestPointsFirstMeaning | src/App.js:282-286 | the Puntenpan comparator puts a first exactly when (score, totalBids, name) of a is lexicographically no larger |
| Standings.ScoreDescPreorder | src/App.js:516 | the points comparator is a total preorder |
| Standings.BidsDescPreorder | src/App.js:564 | the bids comparator is a total preorder |
| Standings.FewestBidsFirstPreorder | src/App.js:259-263 | the Biedpan comparator is a total preorder |
| Standings.FewestPointsFirstPreorder | src/App.js:282-286 | the Puntenpan comparator is a total preorder |
| Standings.ScoreRanking | src/App.js:516 | the points leaderboard is a permutation of the roster, with scores non-increasing |
| Standings.ScoreRankingStable | src/App.js:516 | players with equal scores keep roster order |
| Standings.BidRanking | src/App.js:557-564 | the bids leaderboard is a permutation of the players with totals, with totals non-increasing |
| Standings.BidRankingStable | src/App.js:564 | players with equal totals keep roster order |
| Standings.SortedFirstHasFewestBids | src/App.js:259-265 | the head of the Biedpan sort is a player minimal by (totalBids, score, name) |
| Standings.SortedFirstHasFewestPoints | src/App.js:282-288 | the head of the Puntenpan sort is a player minimal by (score, totalBids, name) |
| Standings.Biedpan | src/App.js:249-266 | the name shown is that of a player minimal by (totalBids, score, name) |
| Standings.Puntenpan | src/App.js:272-289 | the name shown is that of a player minimal by (score, totalBids, name) |
| Standings.BiedpanDetermined | src/App.js:249-266 | every player minimal by (totalBids, score, name) has the name shown as Biedpan |
| Standings.PuntenpanDetermined | src/App.js:272-289 | every player minimal by (score, totalBids, name) has the name shown as Puntenpan |
| Scorekeeper.JoinKeeps | src/App.js:13-18 | before the game, adding a player with a fresh id, a clean name and score 0 keeps the invariant |
| Scorekeeper.LeaveKeeps | src/App.js:20-24 | before the game, filtering any id out of the roster keeps the invariant |
| Scorekeeper.OpenKeeps | src/App.js:33-44 | once started, opening round `rounds + 1` with bid 0 and "0 tricks, met" for exactly the roster's ids keeps the invariant |
| Scorekeeper.FinishKeeps | src/App.js:64-96 | the open round is numbered `rounds + 1`, every player has an entry in it, and appending it with the scored roster and nothing open keeps the invariant |
| Scorekeeper.ResetKeeps | src/App.js:98-107 | every score 0, no history and no open round is consistent, whatever the state before |
| Scorekeeper.InitialRound | src/App.js:36-41 | the new bids and results have exactly the roster's ids as keys, with bid 0 and "0 tricks, met" for each |
| Scorekeeper.Game.constructor | src/App.js:5-11 | a fresh component: no players, empty name field, not started, no rounds, no open round, empty bids and results |
| Scorekeeper.Game.SetNewPlayerName | src/App.js:138 | typing replaces the name field and nothing else |
| Scorekeeper.Game.AddPlayer | src/App.js:13-18 | with a non-blank name before the game, appends the trimmed name with score 0 and clears the field, touching nothing else; otherwise nothing changes; the invariant is kept |
| Scorekeeper.Game.RemovePlayer | src/App.js:20-24 | before the game, the roster becomes its filter by the id; once started nothing changes; the invariant is kept |
| Scorekeeper.Game.StartGame | src/App.js:26-31 | with fewer than two players nothing changes; otherwise the game is started and round `rounds + 1` opened with every bid 0 and every result "0 tricks, met", roster and history untouched |
| Scorekeeper.Game.StartNewRound | src/App.js:33-44 | the open round is `rounds + 1`; bids and results are keyed by exactly the roster's ids, all 0 and "0 tricks, met", so the open bids total 0; roster and history untouched |
| Scorekeeper.Game.ChangeBid | src/App.js:46-52 | only that player's bid changes, to `max(0, bid + delta)` with an unset bid read as 0; the invariant is kept |
| Scorekeeper.Game.ChangeActual | src/App.js:54-62 | only that player's result changes, to `max(0, tricks + delta)` tricks with the flag saying whether that equals the current bid |
| Scorekeeper.Game.FinishRound | src/App.js:64-96 | appends exactly one round, numbered one past the last, with the entries built from the open bids and tricks; the roster becomes each player's score plus their own entry's points; the round is closed and bids and results cleared; the invariant is kept |
| Scorekeeper.Game.ResetGame | src/App.js:98-107 | when confirmed: not started, no rounds, no open round, empty bids and results, every score 0, name field kept; when not confirmed nothing changes |
| Scorekeeper.Game.TotalActiveBids | src/App.js:109-111 | the total of the open bids shown during a round is never negative, and equals every roster player's bid added up in roster order |

## Left out

- Rendering: the JSX markup, styles, icons, medals and the per-player "met" marker of the bidding view (src/App.js:113-594 apart from the standings computations) are not modelled.
- `src/main.jsx` (mounting the component) and `postcss.config.js` (build configuration) are not part of this model.
- Player ids: the source takes `Date.now()`. `Game.AddPlayer` takes the id as a parameter and requires it not to be on the roster already. The model does not capture two additions within one millisecond getting the same id.
- Confirmation dialog: `window.confirm` becomes the boolean parameter `confirmed` of `Game.ResetGame`.
- React state: each handler is one atomic update of the fields. Batching of `setState` calls and the stale closures React can produce are not modelled. In the source, `startGame` calls `startNewRound` from the same render, which reads the same `players` and `rounds`, so the two agree here.
- Game.StartNewRound: requires a started game, because the only ways to call it are `startGame` after starting and the "next round" button of the started view (src/App.js:427-435).
- Game.ChangeBid: requires the id to be on the roster, because its buttons are drawn once per roster player inside `players.map` (src/App.js:315, 332, 345). A bid stored under an unknown id is what the source would do otherwise; the model does not capture it.
- Game.FinishRound: requires an open round, because its button only exists inside the `currentRound &&` block (src/App.js:297-412). Without an open round the source would record a round numbered `null`.
- Standings.Biedpan, Standings.Puntenpan: require a non-empty roster. The source reads element 0 of the sorted list, and shows these only when `rounds.length > 0`, which the invariant ties to a started game with at least two players.
- Text.StrCmp: `localeCompare` is locale-dependent collation. It is modelled as plain code-point lexicographic order, so the last tie-break of Biedpan and Puntenpan may order names differently from a browser's locale.
- Numbers: the JavaScript `Number` values for scores, bids and tricks are modelled as unbounded integers. This is exact up to 2^53, far beyond any real score.
- Scorekeeper.Game.FinishRound: the per-player formula (old score plus `Points(bid, tricks)`) is stated through `Scoring.ScoredRound` about `ScoredPlayers`, not repeated in the method's own postcondition.
- Scorekeeper.Game.RemovePlayer: "exactly the player at position k is cut out" and "an unknown id changes nothing" are stated by `Scoring.RemoveFromRoster` about `Without`, not repeated in the method's own postcondition.
- Text.TrimIsSlice: `trim` is modelled over ECMAScript's WhiteSpace and LineTerminator characters as listed for `IsSpace`. This includes U+FEFF and the Unicode space separators U+1680, U+2000–U+200A, U+202F, U+205F and U+3000. No other character is treated as white space.
