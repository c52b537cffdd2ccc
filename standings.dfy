/**
 * The standings, derived on every render from the roster and the round
 * history: each player's total of bids over the finished rounds, the two
 * leaderboards, and the holders of the "Biedpan" (fewest tricks bid) and the
 * "Puntenpan" (fewest points).
 */
module Standings {
  import opened Wrappers
  import opened Text
  import opened Scoring
  import opened Sorting

  /** A player's bid in a finished round: that of the first entry with their id, 0 when there is none. */
  function RoundBid(r: Round, id: Id): int {
    match FindEntry(r.data, id)
    case Some(e) => e.bid
    case None => 0
  }

  /** A player's total of bids over the finished rounds, added up oldest first. */
  function TotalBids(rounds: seq<Round>, id: Id): (t: int)
    ensures (forall i :: 0 <= i < |rounds| ==> RoundBid(rounds[i], id) >= 0) ==> t >= 0
  {
    if rounds == [] then 0
    else TotalBids(rounds[..|rounds| - 1], id) + RoundBid(rounds[|rounds| - 1], id)
  }

  /** A later history adds its own bids to the total of an earlier one. */
  lemma {:induction false} TotalBidsConcat(a: seq<Round>, b: seq<Round>, id: Id)
    ensures TotalBids(a + b, id) == TotalBids(a, id) + TotalBids(b, id)
  {
    if b == [] {
      assert a + b == a;
    } else {
      var b' := b[..|b| - 1];
      assert (a + b)[..|a + b| - 1] == a + b';
      assert (a + b)[|a + b| - 1] == b[|b| - 1];
      TotalBidsConcat(a, b', id);
    }
  }

  /** Finishing a round adds the player's own bid in it to their total. */
  lemma TotalBidsAfterRound(rounds: seq<Round>, r: Round, players: seq<Player>, j: int)
    requires Aligned(r.data, players) && UniqueIds(players)
    requires 0 <= j < |players|
    ensures TotalBids(rounds + [r], players[j].id) == TotalBids(rounds, players[j].id) + r.data[j].bid
  {
    assert (rounds + [r])[..|rounds|] == rounds;
    OwnEntry(r.data, players, j);
  }

  /** The points a player scored in a round, 0 when the round has no entry for them. */
  function RoundPoints(r: Round, id: Id): int {
    match FindEntry(r.data, id)
    case Some(e) => e.points
    case None => 0
  }

  /** The sum of a player's points over the history: what their score must be. */
  ghost function TotalPoints(rounds: seq<Round>, id: Id): int {
    if rounds == [] then 0
    else TotalPoints(rounds[..|rounds| - 1], id) + RoundPoints(rounds[|rounds| - 1], id)
  }

  /** Finishing a round adds the points of the player's own entry in it to their total. */
  lemma TotalPointsAfterRound(rounds: seq<Round>, r: Round, players: seq<Player>, j: int)
    requires Aligned(r.data, players) && UniqueIds(players)
    requires 0 <= j < |players|
    ensures TotalPoints(rounds + [r], players[j].id) == TotalPoints(rounds, players[j].id) + r.data[j].points
  {
    assert (rounds + [r])[..|rounds|] == rounds;
    OwnEntry(r.data, players, j);
  }

  /**
   * A history that fits a roster: rounds numbered 1, 2, ..., each holding one
   * well-formed entry per player in roster order, and every score the sum of
   * that player's points over the rounds.
   */
  ghost predicate History(rounds: seq<Round>, players: seq<Player>) {
    && (forall i :: 0 <= i < |rounds| ==> rounds[i].number == i + 1)
    && (forall i :: 0 <= i < |rounds| ==> Aligned(rounds[i].data, players))
    && (forall i, j :: 0 <= i < |rounds| && 0 <= j < |rounds[i].data| ==> WellFormedEntry(rounds[i].data[j]))
    && (forall j :: 0 <= j < |players| ==> players[j].score == TotalPoints(rounds, players[j].id))
  }

  /** Before the first round the history fits a roster exactly when every score is 0. */
  lemma EmptyHistory(players: seq<Player>)
    ensures History([], players) <==> forall j :: 0 <= j < |players| ==> players[j].score == 0
  {
  }

  /** Adding a player with score 0 before the first round keeps the empty history fitting the roster. */
  lemma EmptyHistoryAppend(players: seq<Player>, p: Player)
    requires History([], players) && p.score == 0
    ensures History([], players + [p])
  {
    EmptyHistory(players);
    EmptyHistory(players + [p]);
  }

  /** Removing a player before the first round keeps the empty history fitting the roster. */
  lemma EmptyHistoryWithout(players: seq<Player>, id: Id)
    requires History([], players)
    ensures History([], Without(players, id))
  {
    var after := Without(players, id);
    forall j | 0 <= j < |after| ensures after[j].score == 0 {
      assert after[j] in players;
    }
    EmptyHistory(after);
  }

  /** Appending a round aligned with the roster to a fitting history keeps it aligned and well-formed. */
  lemma EntriesAfterRound(rounds: seq<Round>, r: Round, players: seq<Player>, scored: seq<Player>)
    requires History(rounds, players) && r.number == |rounds| + 1
    requires Aligned(r.data, players)
    requires forall j :: 0 <= j < |r.data| ==> WellFormedEntry(r.data[j])
    requires |scored| == |players|
    requires forall j :: 0 <= j < |players| ==> scored[j].id == players[j].id && scored[j].name == players[j].name
    ensures forall i :: 0 <= i < |rounds + [r]| ==> (rounds + [r])[i].number == i + 1
    ensures forall i :: 0 <= i < |rounds + [r]| ==> Aligned((rounds + [r])[i].data, scored)
    ensures forall i, j :: 0 <= i < |rounds + [r]| && 0 <= j < |(rounds + [r])[i].data| ==>
              WellFormedEntry((rounds + [r])[i].data[j])
  {
    var after := rounds + [r];
    forall i | 0 <= i < |after| ensures after[i].number == i + 1 && Aligned(after[i].data, scored) {
      if i < |rounds| {
        assert after[i] == rounds[i] && Aligned(rounds[i].data, players);
      }
    }
    forall i, j | 0 <= i < |after| && 0 <= j < |after[i].data| ensures WellFormedEntry(after[i].data[j]) {
      if i < |rounds| {
        assert after[i] == rounds[i];
      }
    }
  }

  /** Adding each player's points of a new round to their score keeps every score the history's total. */
  lemma ScoresAfterRound(rounds: seq<Round>, r: Round, players: seq<Player>, scored: seq<Player>)
    requires Aligned(r.data, players) && UniqueIds(players)
    requires forall j :: 0 <= j < |players| ==> players[j].score == TotalPoints(rounds, players[j].id)
    requires |scored| == |players|
    requires forall j :: 0 <= j < |players| ==>
               scored[j].id == players[j].id && scored[j].score == players[j].score + r.data[j].points
    ensures forall j :: 0 <= j < |scored| ==> scored[j].score == TotalPoints(rounds + [r], scored[j].id)
  {
    forall j | 0 <= j < |scored| ensures scored[j].score == TotalPoints(rounds + [r], scored[j].id) {
      TotalPointsAfterRound(rounds, r, players, j);
    }
  }

  /**
   * `finishRound` keeps the history fitting the roster: appending the round
   * scored from non-negative bids and tricks, with the next number, and adding
   * its points to the scores.
   */
  lemma HistoryAfterRound(rounds: seq<Round>, players: seq<Player>, bids: map<Id, int>, results: map<Id, Tricks>)
    requires Roster(players) && History(rounds, players)
    requires forall id :: id in bids ==> bids[id] >= 0
    requires forall id :: id in results ==> results[id].actualTricks >= 0
    ensures var data := RoundData(players, bids, results);
            && (forall j :: 0 <= j < |players| ==> FindEntry(data, players[j].id).Some?)
            && Roster(ScoredPlayers(players, data))
            && History(rounds + [Round(|rounds| + 1, data)], ScoredPlayers(players, data))
  {
    var data := RoundData(players, bids, results);
    ScoredRound(players, bids, results);
    var r := Round(|rounds| + 1, data);
    var scored := ScoredPlayers(players, data);
    forall j | 0 <= j < |data| ensures WellFormedEntry(data[j]) {
      assert data[j] == EntryOf(players[j], bids, results);
    }
    forall j | 0 <= j < |players|
      ensures scored[j].id == players[j].id && scored[j].score == players[j].score + data[j].points
    {
      assert data[j] == EntryOf(players[j], bids, results);
    }
    RosterKept(players, scored);
    EntriesAfterRound(rounds, r, players, scored);
    ScoresAfterRound(rounds, r, players, scored);
  }

  /** Over a history that fits the roster, no player's total of bids is negative. */
  lemma HistoryBidsNonNegative(rounds: seq<Round>, players: seq<Player>, j: int)
    requires UniqueIds(players) && History(rounds, players)
    requires 0 <= j < |players|
    ensures TotalBids(rounds, players[j].id) >= 0
  {
    forall i | 0 <= i < |rounds| ensures RoundBid(rounds[i], players[j].id) >= 0 {
      OwnEntry(rounds[i].data, players, j);
    }
  }

  /** A player together with their total of bids. */
  datatype Standing = Standing(id: Id, name: string, score: int, totalBids: int)

  /** Each player with their total of bids, in roster order. */
  function WithTotals(players: seq<Player>, rounds: seq<Round>): (w: seq<Standing>)
    ensures |w| == |players|
    ensures forall j :: 0 <= j < |players| ==>
              w[j] == Standing(players[j].id, players[j].name, players[j].score,
                               TotalBids(rounds, players[j].id))
  {
    seq(|players|, j requires 0 <= j < |players| =>
      Standing(players[j].id, players[j].name, players[j].score, TotalBids(rounds, players[j].id)))
  }

  /** The comparator of the points leaderboard: `(a, b) => b.score - a.score`. */
  function ScoreDesc(a: Player, b: Player): int {
    b.score - a.score
  }

  /** The comparator of the bids leaderboard: `(a, b) => b.totalBids - a.totalBids`. */
  function BidsDesc(a: Standing, b: Standing): int {
    b.totalBids - a.totalBids
  }

  /** The Biedpan comparator: fewer bids, then lower score, then name. */
  function FewestBidsFirst(a: Standing, b: Standing): int {
    if a.totalBids != b.totalBids then a.totalBids - b.totalBids
    else if a.score != b.score then a.score - b.score
    else StrCmp(a.name, b.name)
  }

  /** The Puntenpan comparator: lower score, then fewer bids, then name. */
  function FewestPointsFirst(a: Standing, b: Standing): int {
    if a.score != b.score then a.score - b.score
    else if a.totalBids != b.totalBids then a.totalBids - b.totalBids
    else StrCmp(a.name, b.name)
  }

  ghost predicate NameLeq(a: string, b: string) {
    a == b || LexLess(a, b)
  }

  /** The lexicographic order on (first key, second key, name), written out. */
  ghost predicate LexLeq(x1: int, x2: int, xn: string, y1: int, y2: int, yn: string) {
    x1 < y1 || (x1 == y1 && (x2 < y2 || (x2 == y2 && NameLeq(xn, yn))))
  }

  lemma StrCmpLeq(a: string, b: string)
    ensures StrCmp(a, b) <= 0 <==> NameLeq(a, b)
  {
    StrCmpIsLexLess(a, b);
  }

  /** The Biedpan comparator puts `a` first exactly when (totalBids, score, name) of `a` is the smaller. */
  lemma FewestBidsFirstMeaning(a: Standing, b: Standing)
    ensures FewestBidsFirst(a, b) <= 0 <==> LexLeq(a.totalBids, a.score, a.name, b.totalBids, b.score, b.name)
  {
    StrCmpLeq(a.name, b.name);
  }

  /** The Puntenpan comparator puts `a` first exactly when (score, totalBids, name) of `a` is the smaller. */
  lemma FewestPointsFirstMeaning(a: Standing, b: Standing)
    ensures FewestPointsFirst(a, b) <= 0 <==> LexLeq(a.score, a.totalBids, a.name, b.score, b.totalBids, b.name)
  {
    StrCmpLeq(a.name, b.name);
  }

  lemma ScoreDescPreorder()
    ensures TotalPreorder(ScoreDesc)
  {
  }

  lemma BidsDescPreorder()
    ensures TotalPreorder(BidsDesc)
  {
  }

  lemma FewestBidsFirstPreorder()
    ensures TotalPreorder(FewestBidsFirst)
  {
    forall a: Standing, b: Standing
      ensures FewestBidsFirst(a, b) <= 0 || FewestBidsFirst(b, a) <= 0
    {
      StrCmpAntisymmetric(a.name, b.name);
    }
    forall a: Standing, b: Standing, c: Standing
      | FewestBidsFirst(a, b) <= 0 && FewestBidsFirst(b, c) <= 0
      ensures FewestBidsFirst(a, c) <= 0
    {
      if a.totalBids == b.totalBids == c.totalBids && a.score == b.score == c.score {
        StrCmpTransitive(a.name, b.name, c.name);
      }
    }
  }

  lemma FewestPointsFirstPreorder()
    ensures TotalPreorder(FewestPointsFirst)
  {
    forall a: Standing, b: Standing
      ensures FewestPointsFirst(a, b) <= 0 || FewestPointsFirst(b, a) <= 0
    {
      StrCmpAntisymmetric(a.name, b.name);
    }
    forall a: Standing, b: Standing, c: Standing
      | FewestPointsFirst(a, b) <= 0 && FewestPointsFirst(b, c) <= 0
      ensures FewestPointsFirst(a, c) <= 0
    {
      if a.totalBids == b.totalBids == c.totalBids && a.score == b.score == c.score {
        StrCmpTransitive(a.name, b.name, c.name);
      }
    }
  }

  /** The points leaderboard: the roster sorted by score, highest first. */
  function ScoreRanking(players: seq<Player>): (r: seq<Player>)
    ensures multiset(r) == multiset(players)
    ensures forall i, j :: 0 <= i < j < |r| ==> r[i].score >= r[j].score
  {
    SortPermutes(ScoreDesc, players);
    ScoreDescPreorder();
    SortSorted(ScoreDesc, players);
    Sort(ScoreDesc, players)
  }

  /** Players with the same score stay in roster order on the points leaderboard. */
  lemma ScoreRankingStable(players: seq<Player>, k: Player)
    ensures TiedWith(ScoreDesc, ScoreRanking(players), k) == TiedWith(ScoreDesc, players, k)
  {
    ScoreDescPreorder();
    SortStable(ScoreDesc, players, k);
  }

  /** The bids leaderboard: the players with their totals, most bids first. */
  function BidRanking(players: seq<Player>, rounds: seq<Round>): (r: seq<Standing>)
    ensures multiset(r) == multiset(WithTotals(players, rounds))
    ensures forall i, j :: 0 <= i < j < |r| ==> r[i].totalBids >= r[j].totalBids
  {
    var w := WithTotals(players, rounds);
    SortPermutes(BidsDesc, w);
    BidsDescPreorder();
    SortSorted(BidsDesc, w);
    Sort(BidsDesc, w)
  }

  /** Players with the same total stay in roster order on the bids leaderboard. */
  lemma BidRankingStable(players: seq<Player>, rounds: seq<Round>, k: Standing)
    ensures TiedWith(BidsDesc, BidRanking(players, rounds), k) == TiedWith(BidsDesc, WithTotals(players, rounds), k)
  {
    BidsDescPreorder();
    SortStable(BidsDesc, WithTotals(players, rounds), k);
  }

  /** Player i of `w` has the fewest bids, ties going to the lower score and then the earlier name. */
  ghost predicate FewestBids(w: seq<Standing>, i: int)
    requires 0 <= i < |w|
  {
    forall j :: 0 <= j < |w| ==>
      LexLeq(w[i].totalBids, w[i].score, w[i].name, w[j].totalBids, w[j].score, w[j].name)
  }

  /** Player i of `w` has the fewest points, ties going to fewer bids and then the earlier name. */
  ghost predicate FewestPoints(w: seq<Standing>, i: int)
    requires 0 <= i < |w|
  {
    forall j :: 0 <= j < |w| ==>
      LexLeq(w[i].score, w[i].totalBids, w[i].name, w[j].score, w[j].totalBids, w[j].name)
  }

  lemma SortedFirstHasFewestBids(w: seq<Standing>)
    requires w != []
    ensures exists i :: 0 <= i < |w| && w[i] == Sort(FewestBidsFirst, w)[0] && FewestBids(w, i)
  {
    FewestBidsFirstPreorder();
    SortHeadIsLeast(FewestBidsFirst, w);
    var h := Sort(FewestBidsFirst, w)[0];
    var i :| 0 <= i < |w| && w[i] == h;
    forall j | 0 <= j < |w|
      ensures LexLeq(h.totalBids, h.score, h.name, w[j].totalBids, w[j].score, w[j].name)
    {
      FewestBidsFirstMeaning(h, w[j]);
    }
  }

  lemma SortedFirstHasFewestPoints(w: seq<Standing>)
    requires w != []
    ensures exists i :: 0 <= i < |w| && w[i] == Sort(FewestPointsFirst, w)[0] && FewestPoints(w, i)
  {
    FewestPointsFirstPreorder();
    SortHeadIsLeast(FewestPointsFirst, w);
    var h := Sort(FewestPointsFirst, w)[0];
    var i :| 0 <= i < |w| && w[i] == h;
    forall j | 0 <= j < |w|
      ensures LexLeq(h.score, h.totalBids, h.name, w[j].score, w[j].totalBids, w[j].name)
    {
      FewestPointsFirstMeaning(h, w[j]);
    }
  }

  /** The name shown under "Biedpan": first of the players sorted by the Biedpan comparator. */
  function Biedpan(players: seq<Player>, rounds: seq<Round>): (name: string)
    requires players != []
    ensures var w := WithTotals(players, rounds);
            exists i :: 0 <= i < |w| && w[i].name == name && FewestBids(w, i)
  {
    var w := WithTotals(players, rounds);
    SortedFirstHasFewestBids(w);
    Sort(FewestBidsFirst, w)[0].name
  }

  /** The name shown under "Puntenpan": first of the players sorted by the Puntenpan comparator. */
  function Puntenpan(players: seq<Player>, rounds: seq<Round>): (name: string)
    requires players != []
    ensures var w := WithTotals(players, rounds);
            exists i :: 0 <= i < |w| && w[i].name == name && FewestPoints(w, i)
  {
    var w := WithTotals(players, rounds);
    SortedFirstHasFewestPoints(w);
    Sort(FewestPointsFirst, w)[0].name
  }

  /** Two names each no later than the other are the same name. */
  lemma NameLeqAntisymmetric(a: string, b: string)
    requires NameLeq(a, b) && NameLeq(b, a)
    ensures a == b
  {
    StrCmpLeq(a, b);
    StrCmpLeq(b, a);
    StrCmpAntisymmetric(a, b);
  }

  /** The Biedpan holder is determined: every player with the fewest bids has the name shown. */
  lemma BiedpanDetermined(players: seq<Player>, rounds: seq<Round>, i: int)
    requires 0 <= i < |players|
    requires FewestBids(WithTotals(players, rounds), i)
    ensures Biedpan(players, rounds) == players[i].name
  {
    var w := WithTotals(players, rounds);
    var k :| 0 <= k < |w| && w[k].name == Biedpan(players, rounds) && FewestBids(w, k);
    assert |w| == |players|;
    assert FewestBids(w, k);
    assert LexLeq(w[i].totalBids, w[i].score, w[i].name, w[k].totalBids, w[k].score, w[k].name);
    assert LexLeq(w[k].totalBids, w[k].score, w[k].name, w[i].totalBids, w[i].score, w[i].name);
    NameLeqAntisymmetric(w[i].name, w[k].name);
  }

  /** The Puntenpan holder is determined: every player with the fewest points has the name shown. */
  lemma PuntenpanDetermined(players: seq<Player>, rounds: seq<Round>, i: int)
    requires 0 <= i < |players|
    requires FewestPoints(WithTotals(players, rounds), i)
    ensures Puntenpan(players, rounds) == players[i].name
  {
    var w := WithTotals(players, rounds);
    var k :| 0 <= k < |w| && w[k].name == Puntenpan(players, rounds) && FewestPoints(w, k);
    assert |w| == |players|;
    assert FewestPoints(w, k);
    assert LexLeq(w[i].score, w[i].totalBids, w[i].name, w[k].score, w[k].totalBids, w[k].name);
    assert LexLeq(w[k].score, w[k].totalBids, w[k].name, w[i].score, w[i].totalBids, w[i].name);
    NameLeqAntisymmetric(w[i].name, w[k].name);
  }
}
