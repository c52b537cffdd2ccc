/**
 * The records of the scorekeeper and the arithmetic of one round: the points
 * rule, the entry built for each player when a round is finished, and the
 * score update that follows.
 */
module Scoring {
  import opened Wrappers
  import opened Text

  /** Player ids are the numbers handed out when a player is added. */
  type Id = int

  datatype Player = Player(id: Id, name: string, score: int)

  /** What `results` holds per player during a round. */
  datatype Tricks = Tricks(achieved: bool, actualTricks: int)

  /** One player's line in a finished round. */
  datatype Entry = Entry(playerId: Id, playerName: string, bid: int,
                         actualTricks: int, achieved: bool, points: int)

  datatype Round = Round(number: nat, data: seq<Entry>)

  function Abs(x: int): (r: nat)
    ensures r == x || r == -x
  {
    if x < 0 then -x else x
  }

  /** The points for a bid and the tricks actually taken. */
  function Points(bid: int, actualTricks: int): (r: int)
    ensures bid >= 0 ==> (r >= 10 <==> bid == actualTricks)
    ensures bid != actualTricks ==> r <= -3 && r % 3 == 0
  {
    if bid == actualTricks then 10 + 3 * bid else -(3 * Abs(bid - actualTricks))
  }

  /** The scoring rule in its two cases, with the deviation taken in either direction. */
  lemma PointsRule(bid: int, actualTricks: int)
    ensures bid == actualTricks ==> Points(bid, actualTricks) == 10 + 3 * bid
    ensures bid < actualTricks ==> Points(bid, actualTricks) == 3 * (bid - actualTricks)
    ensures bid > actualTricks ==> Points(bid, actualTricks) == 3 * (actualTricks - bid)
  {
  }

  /** Missing by the same number of tricks over or under costs the same. */
  lemma PointsSymmetricMiss(bid: int, d: int)
    requires d > 0
    ensures Points(bid, bid + d) == Points(bid, bid - d) == -3 * d
  {
  }

  /** A larger exact bid is worth more. */
  lemma PointsMonotoneInExactBid(b1: int, b2: int)
    requires b1 < b2
    ensures Points(b1, b1) < Points(b2, b2)
  {
  }

  /** The bid stored for a player, read as 0 when none is stored (`bids[id] || 0`). */
  function BidOf(bids: map<Id, int>, id: Id): int {
    if id in bids then bids[id] else 0
  }

  /** The tricks stored for a player, read as 0 when none are stored. */
  function ActualOf(results: map<Id, Tricks>, id: Id): int {
    if id in results then results[id].actualTricks else 0
  }

  /** The value a plus or minus button leaves: the sum, but never below 0 (`Math.max`). */
  function Clamp(current: int, delta: int): (r: int)
    ensures r >= 0
    ensures r == current + delta || (r == 0 && current + delta < 0)
  {
    if current + delta < 0 then 0 else current + delta
  }

  /** An entry whose flag and points were computed from its bid and tricks. */
  predicate WellFormedEntry(e: Entry) {
    && e.bid >= 0 && e.actualTricks >= 0
    && e.achieved == (e.bid == e.actualTricks)
    && e.points == Points(e.bid, e.actualTricks)
  }

  /** The entry `finishRound` builds for player `p`. */
  function EntryOf(p: Player, bids: map<Id, int>, results: map<Id, Tricks>): (e: Entry)
    ensures e.playerId == p.id && e.playerName == p.name
    ensures e.bid == BidOf(bids, p.id) && e.actualTricks == ActualOf(results, p.id)
    ensures BidOf(bids, p.id) >= 0 && ActualOf(results, p.id) >= 0 ==> WellFormedEntry(e)
  {
    var bid := BidOf(bids, p.id);
    var actualTricks := ActualOf(results, p.id);
    Entry(p.id, p.name, bid, actualTricks, bid == actualTricks, Points(bid, actualTricks))
  }

  /** The entries of a finished round: one per player, in roster order. */
  function RoundData(players: seq<Player>, bids: map<Id, int>, results: map<Id, Tricks>): (data: seq<Entry>)
    ensures |data| == |players|
    ensures forall j :: 0 <= j < |players| ==> data[j] == EntryOf(players[j], bids, results)
  {
    seq(|players|, j requires 0 <= j < |players| => EntryOf(players[j], bids, results))
  }

  /** No two players share an id. */
  predicate UniqueIds(players: seq<Player>) {
    forall i, j :: 0 <= i < j < |players| ==> players[i].id != players[j].id
  }

  /** No two entries belong to the same player id. */
  predicate UniqueEntryIds(data: seq<Entry>) {
    forall i, j :: 0 <= i < j < |data| ==> data[i].playerId != data[j].playerId
  }

  /** The entries are the roster's, one per player, in roster order. */
  predicate Aligned(data: seq<Entry>, players: seq<Player>) {
    && |data| == |players|
    && forall j :: 0 <= j < |data| ==>
         data[j].playerId == players[j].id && data[j].playerName == players[j].name
  }

  /** The first entry that belongs to the player with that id, if any (`Array.prototype.find`). */
  function FindEntry(data: seq<Entry>, id: Id): (r: Option<Entry>)
    ensures r.None? <==> forall j :: 0 <= j < |data| ==> data[j].playerId != id
    ensures r.Some? ==> exists j :: 0 <= j < |data| && data[j] == r.value && data[j].playerId == id
                                    && forall i :: 0 <= i < j ==> data[i].playerId != id
  {
    if data == [] then None
    else if data[0].playerId == id then Some(data[0])
    else
      var r := FindEntry(data[1..], id);
      assert forall j :: 1 <= j < |data| ==> data[j] == data[1..][j - 1];
      r
  }

  /** With distinct ids, the first entry of a player is the one at that player's place. */
  lemma {:induction false} FindEntryAt(data: seq<Entry>, j: int)
    requires UniqueEntryIds(data)
    requires 0 <= j < |data|
    ensures FindEntry(data, data[j].playerId) == Some(data[j])
  {
    if j > 0 {
      assert data[0].playerId != data[j].playerId;
      assert data[1..][j - 1] == data[j];
      FindEntryAt(data[1..], j - 1);
    }
  }

  /** In entries aligned with a roster of distinct ids, `find` returns the player's own entry. */
  lemma OwnEntry(data: seq<Entry>, players: seq<Player>, j: int)
    requires Aligned(data, players) && UniqueIds(players)
    requires 0 <= j < |players|
    ensures FindEntry(data, players[j].id) == Some(data[j])
  {
    assert UniqueEntryIds(data) by {
      forall a, b | 0 <= a < b < |data| ensures data[a].playerId != data[b].playerId {
        assert players[a].id != players[b].id;
      }
    }
    FindEntryAt(data, j);
  }

  /**
   * The player list after `finishRound`: each player's score plus the points
   * of the entry `find` gives for that player.
   */
  function ScoredPlayers(players: seq<Player>, data: seq<Entry>): (r: seq<Player>)
    requires forall j :: 0 <= j < |players| ==> FindEntry(data, players[j].id).Some?
    ensures |r| == |players|
    ensures forall j :: 0 <= j < |players| ==>
              r[j].id == players[j].id && r[j].name == players[j].name
  {
    seq(|players|, j requires 0 <= j < |players| =>
      players[j].(score := players[j].score + FindEntry(data, players[j].id).value.points))
  }

  /**
   * Scoring a round: with distinct ids every player gains exactly the points
   * of their own bid and tricks, and nothing else about the roster changes.
   */
  lemma ScoredRound(players: seq<Player>, bids: map<Id, int>, results: map<Id, Tricks>)
    requires UniqueIds(players)
    ensures var data := RoundData(players, bids, results);
            && UniqueEntryIds(data) && Aligned(data, players)
            && (forall j :: 0 <= j < |players| ==> FindEntry(data, players[j].id) == Some(data[j]))
            && var r := ScoredPlayers(players, data);
            && |r| == |players|
            && forall j :: 0 <= j < |players| ==>
                 r[j] == Player(players[j].id, players[j].name,
                                players[j].score + Points(BidOf(bids, players[j].id), ActualOf(results, players[j].id)))
  {
    var data := RoundData(players, bids, results);
    forall j | 0 <= j < |players| ensures FindEntry(data, players[j].id) == Some(data[j]) {
      FindEntryAt(data, j);
    }
  }

  /** The roster as the reset leaves it: the same players in the same order, every score 0. */
  function ZeroScores(players: seq<Player>): (r: seq<Player>)
    ensures |r| == |players|
    ensures forall j :: 0 <= j < |players| ==>
              r[j].id == players[j].id && r[j].name == players[j].name && r[j].score == 0
  {
    seq(|players|, j requires 0 <= j < |players| => players[j].(score := 0))
  }

  /** The roster without the players that have that id, the others kept in order. */
  function Without(players: seq<Player>, id: Id): (r: seq<Player>)
    ensures |r| <= |players|
    ensures forall p :: p in r <==> p in players && p.id != id
  {
    if players == [] then []
    else if players[0].id == id then Without(players[1..], id)
    else [players[0]] + Without(players[1..], id)
  }

  /** Removing an id no player has leaves the roster as it was. */
  lemma {:induction false} WithoutAbsent(players: seq<Player>, id: Id)
    requires forall j :: 0 <= j < |players| ==> players[j].id != id
    ensures Without(players, id) == players
  {
    if players != [] {
      WithoutAbsent(players[1..], id);
    }
  }

  /** Removing the id of the player at place k removes that player and no other, keeping the order. */
  lemma {:induction false} WithoutPresent(players: seq<Player>, k: int)
    requires UniqueIds(players)
    requires 0 <= k < |players|
    ensures Without(players, players[k].id) == players[..k] + players[k + 1..]
  {
    var id := players[k].id;
    var tail := players[1..];
    if k == 0 {
      forall j | 0 <= j < |tail| ensures tail[j].id != id {
        assert tail[j] == players[j + 1];
      }
      WithoutAbsent(tail, id);
    } else {
      assert tail[k - 1] == players[k];
      WithoutPresent(tail, k - 1);
      assert players[0].id != id;
      assert tail[..k - 1] == players[1..k];
      assert tail[k..] == players[k + 1..];
      assert players[..k] == [players[0]] + players[1..k];
    }
  }

  /** Filtering keeps the ids distinct. */
  lemma {:induction false} WithoutUnique(players: seq<Player>, id: Id)
    requires UniqueIds(players)
    ensures UniqueIds(Without(players, id))
  {
    if players != [] {
      var tail := players[1..];
      WithoutUnique(tail, id);
      UniqueTail(players);
      var rest := Without(tail, id);
      if players[0].id != id {
        var r := [players[0]] + rest;
        forall i, j | 0 <= i < j < |r| ensures r[i].id != r[j].id {
          if i == 0 {
            assert r[j] in rest && r[j] in tail;
          } else {
            assert r[i] == rest[i - 1] && r[j] == rest[j - 1];
          }
        }
      }
    }
  }

  /**
   * `removePlayer` on a roster with distinct ids: the ids stay distinct, the
   * player with that id is cut out, and an unknown id changes nothing.
   */
  lemma RemoveFromRoster(players: seq<Player>, id: Id)
    requires UniqueIds(players)
    ensures UniqueIds(Without(players, id))
    ensures forall k :: 0 <= k < |players| && players[k].id == id ==>
              Without(players, id) == players[..k] + players[k + 1..]
    ensures id !in IdSet(players) ==> Without(players, id) == players
  {
    WithoutUnique(players, id);
    forall k | 0 <= k < |players| && players[k].id == id
      ensures Without(players, id) == players[..k] + players[k + 1..]
    {
      WithoutPresent(players, k);
    }
    if id !in IdSet(players) {
      IdSetMember(players, id);
      WithoutAbsent(players, id);
    }
  }

  /** A name as the roster stores it: not empty, with no white space at either end. */
  predicate CleanName(name: string) {
    name != [] && !IsSpace(name[0]) && !IsSpace(name[|name| - 1])
  }

  /** Clean names are exactly the non-empty names that trimming leaves as they are. */
  lemma CleanNameIsTrimmed(name: string)
    ensures CleanName(name) <==> name != [] && Trim(name) == name
  {
    if CleanName(name) {
      TrimClean(name);
    }
    TrimIsSlice(name);
  }

  predicate CleanNames(players: seq<Player>) {
    forall j :: 0 <= j < |players| ==> CleanName(players[j].name)
  }

  /** The name `addPlayer` stores, the trimmed text when that is not empty, is clean. */
  lemma TrimmedNameIsClean(s: string)
    requires Trim(s) != []
    ensures CleanName(Trim(s))
  {
    TrimIsSlice(s);
  }

  lemma CleanNamesAppend(players: seq<Player>, p: Player)
    requires CleanNames(players) && CleanName(p.name)
    ensures CleanNames(players + [p])
  {
    var after := players + [p];
    forall j | 0 <= j < |after| ensures CleanName(after[j].name) {
      if j < |players| { assert after[j] == players[j]; }
    }
  }

  /** Removing a player leaves only names that were on the roster. */
  lemma CleanNamesWithout(players: seq<Player>, id: Id)
    requires CleanNames(players)
    ensures CleanNames(Without(players, id))
  {
    var after := Without(players, id);
    forall j | 0 <= j < |after| ensures CleanName(after[j].name) {
      assert after[j] in players;
      var m :| 0 <= m < |players| && players[m] == after[j];
    }
  }

  /** What the roster keeps: distinct ids and clean names. */
  predicate Roster(players: seq<Player>) {
    UniqueIds(players) && CleanNames(players)
  }

  /** Adding a player with a fresh id and a clean name keeps the roster a roster. */
  lemma RosterAppend(players: seq<Player>, p: Player)
    requires Roster(players) && p.id !in IdSet(players) && CleanName(p.name)
    ensures Roster(players + [p])
    ensures IdSet(players + [p]) == IdSet(players) + {p.id}
  {
    AppendFresh(players, p);
    CleanNamesAppend(players, p);
  }

  /** Removing a player keeps the roster a roster. */
  lemma RosterWithout(players: seq<Player>, id: Id)
    requires Roster(players)
    ensures Roster(Without(players, id))
  {
    WithoutUnique(players, id);
    CleanNamesWithout(players, id);
  }

  /** A roster with the same ids and names, position by position, is a roster too. */
  lemma RosterKept(players: seq<Player>, after: seq<Player>)
    requires Roster(players) && |after| == |players|
    requires forall j :: 0 <= j < |players| ==> after[j].id == players[j].id && after[j].name == players[j].name
    ensures Roster(after)
  {
  }

  /** The ids on the roster, as a set. */
  function IdSet(players: seq<Player>): set<Id> {
    if players == [] then {} else {players[0].id} + IdSet(players[1..])
  }

  /** An id is in the set exactly when some player on the roster carries it. */
  lemma {:induction false} IdSetMember(players: seq<Player>, id: Id)
    ensures id in IdSet(players) <==> exists j :: 0 <= j < |players| && players[j].id == id
  {
    if players != [] {
      var tail := players[1..];
      IdSetMember(tail, id);
      if id in IdSet(tail) {
        var j :| 0 <= j < |tail| && tail[j].id == id;
        assert players[j + 1].id == id;
      }
      if exists j :: 0 <= j < |players| && players[j].id == id {
        var j :| 0 <= j < |players| && players[j].id == id;
        if j > 0 { assert tail[j - 1].id == id; }
      }
    }
  }

  /** Appending a player adds exactly their id. */
  lemma {:induction false} IdSetAppend(players: seq<Player>, p: Player)
    ensures IdSet(players + [p]) == IdSet(players) + {p.id}
    decreases |players|
  {
    if players != [] {
      assert (players + [p])[1..] == players[1..] + [p];
      IdSetAppend(players[1..], p);
    }
  }

  /** Appending a player with a fresh id keeps the ids distinct and adds exactly that id. */
  lemma {:induction false} AppendFresh(players: seq<Player>, p: Player)
    requires UniqueIds(players) && p.id !in IdSet(players)
    ensures UniqueIds(players + [p])
    ensures IdSet(players + [p]) == IdSet(players) + {p.id}
  {
    var after := players + [p];
    IdSetMember(players, p.id);
    forall i, j | 0 <= i < j < |after| ensures after[i].id != after[j].id {
      assert after[i] == players[i];
      if j < |players| { assert after[j] == players[j]; }
    }
    IdSetAppend(players, p);
  }

  /** The total of all bids stored in the map, in no particular order (`getTotalBids`). */
  ghost function SumValues(m: map<Id, int>): (r: int)
    ensures (forall k :: k in m ==> m[k] >= 0) ==> r >= 0
    ensures (forall k :: k in m ==> m[k] == 0) ==> r == 0
    decreases |m|
  {
    if forall k :: k !in m then 0
    else
      var k :| k in m;
      assert (m - {k}).Keys == m.Keys - {k};
      m[k] + SumValues(m - {k})
  }

  /** The total does not depend on the order the bids are added in. */
  lemma {:induction false} SumValuesPick(m: map<Id, int>, k: Id)
    requires k in m
    ensures SumValues(m) == m[k] + SumValues(m - {k})
    decreases |m|
  {
    var k' :| k' in m && SumValues(m) == m[k'] + SumValues(m - {k'});
    if k' != k {
      assert (m - {k'}).Keys == m.Keys - {k'};
      assert (m - {k}).Keys == m.Keys - {k};
      SumValuesPick(m - {k'}, k);
      SumValuesPick(m - {k}, k');
      assert m - {k'} - {k} == m - {k} - {k'};
    }
  }

  /** Each player's bid, added up in roster order. */
  function RosterBids(players: seq<Player>, bids: map<Id, int>): int {
    if players == [] then 0 else BidOf(bids, players[0].id) + RosterBids(players[1..], bids)
  }

  lemma {:induction false} RosterBidsIgnores(players: seq<Player>, bids: map<Id, int>, id: Id)
    requires id !in IdSet(players)
    ensures RosterBids(players, bids - {id}) == RosterBids(players, bids)
  {
    if players != [] {
      RosterBidsIgnores(players[1..], bids, id);
    }
  }

  /**
   * While a round is open the bids are keyed by the roster's ids, so their
   * total is the sum of every player's bid.
   */
  lemma {:induction false} SumValuesByRoster(players: seq<Player>, bids: map<Id, int>)
    requires UniqueIds(players)
    requires bids.Keys == IdSet(players)
    ensures SumValues(bids) == RosterBids(players, bids)
    decreases |players|
  {
    if players == [] {
      assert bids == map[];
    } else {
      var id := players[0].id;
      var tail := players[1..];
      UniqueTail(players);
      SumValuesPick(bids, id);
      assert (bids - {id}).Keys == bids.Keys - {id};
      SumValuesByRoster(tail, bids - {id});
      RosterBidsIgnores(tail, bids, id);
    }
  }

  lemma UniqueTail(players: seq<Player>)
    requires UniqueIds(players) && players != []
    ensures UniqueIds(players[1..])
    ensures players[0].id !in IdSet(players[1..])
  {
    var tail := players[1..];
    IdSetMember(tail, players[0].id);
    forall m | 0 <= m < |tail| ensures tail[m].id != players[0].id {
      assert tail[m] == players[m + 1];
    }
    forall i, j | 0 <= i < j < |tail| ensures tail[i].id != tail[j].id {
      assert tail[i] == players[i + 1] && tail[j] == players[j + 1];
    }
  }

  /** Round 1 for Alice and Bob: 2 bid and 2 taken gives 16, 3 bid and 1 taken gives -6. */
  lemma FirstRoundScenario()
    ensures var start := [Player(1, "Alice", 0), Player(2, "Bob", 0)];
            ScoredPlayers(start, RoundData(start, map[1 := 2, 2 := 3],
                                           map[1 := Tricks(true, 2), 2 := Tricks(false, 1)]))
            == [Player(1, "Alice", 16), Player(2, "Bob", -6)]
  {
    var start := [Player(1, "Alice", 0), Player(2, "Bob", 0)];
    var bids: map<Id, int> := map[1 := 2, 2 := 3];
    var results := map[1 := Tricks(true, 2), 2 := Tricks(false, 1)];
    ScoredRound(start, bids, results);
  }

  /** Round 2: 1 bid and 0 taken costs Alice 3, 0 bid and 0 taken gives Bob 10. */
  lemma SecondRoundScenario()
    ensures var after1 := [Player(1, "Alice", 16), Player(2, "Bob", -6)];
            ScoredPlayers(after1, RoundData(after1, map[1 := 1, 2 := 0],
                                            map[1 := Tricks(false, 0), 2 := Tricks(true, 0)]))
            == [Player(1, "Alice", 13), Player(2, "Bob", 4)]
  {
    var after1 := [Player(1, "Alice", 16), Player(2, "Bob", -6)];
    var bids: map<Id, int> := map[1 := 1, 2 := 0];
    var results := map[1 := Tricks(false, 0), 2 := Tricks(true, 0)];
    ScoredRound(after1, bids, results);
  }
}
