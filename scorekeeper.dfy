/**
 * The state of the scorekeeper component and its event handlers. Every handler
 * is one atomic step on the fields; the standings are read off `players` and
 * `rounds` through the functions of module Standings.
 */
module Scorekeeper {
  import opened Wrappers
  import opened Text
  import opened Scoring
  import opened Standings

  /**
   * The `forEach` of `startNewRound`: bid 0 and no tricks yet, marked as met,
   * for every player on the roster and nobody else.
   */
  method InitialRound(players: seq<Player>) returns (initialBids: map<Id, int>, initialResults: map<Id, Tricks>)
    ensures initialBids.Keys == IdSet(players) && forall id :: id in initialBids ==> initialBids[id] == 0
    ensures initialResults.Keys == IdSet(players)
    ensures forall id :: id in initialResults ==> initialResults[id] == Tricks(true, 0)
  {
    initialBids := map[];
    initialResults := map[];
    var i := 0;
    while i < |players|
      invariant 0 <= i <= |players|
      invariant initialBids.Keys == IdSet(players[..i])
      invariant forall id :: id in initialBids ==> initialBids[id] == 0
      invariant initialResults.Keys == IdSet(players[..i])
      invariant forall id :: id in initialResults ==> initialResults[id] == Tricks(true, 0)
    {
      assert players[..i + 1] == players[..i] + [players[i]];
      IdSetAppend(players[..i], players[i]);
      initialBids := initialBids[players[i].id := 0];
      initialResults := initialResults[players[i].id := Tricks(true, 0)];
      i := i + 1;
    }
    assert players[..i] == players;
  }

  /**
   * The round being played, if any, is numbered right after the history and
   * has one bid per roster player and no others; no bid or trick count is
   * negative.
   */
  ghost predicate OpenRound(currentRound: Option<nat>, finished: nat, players: seq<Player>,
                            bids: map<Id, int>, results: map<Id, Tricks>) {
    && (currentRound.Some? ==> currentRound.value == finished + 1 && bids.Keys == IdSet(players))
    && (forall id :: id in bids ==> bids[id] >= 0)
    && (forall id :: id in results ==> results[id].actualTricks >= 0)
  }

  /**
   * What every handler keeps, on the component's fields as values: distinct
   * ids; names not empty and trimmed; at least two players once the game
   * runs; rounds numbered 1, 2, ... with the open round next; the open
   * round's bids keyed by exactly the roster's ids; every finished round
   * holding one well-formed entry per player in roster order; no negative
   * bid or trick count; and every score equal to the player's points summed
   * over the history.
   */
  ghost predicate Consistent(players: seq<Player>, gameStarted: bool, rounds: seq<Round>,
                             currentRound: Option<nat>, bids: map<Id, int>, results: map<Id, Tricks>) {
    && Roster(players)
    && (gameStarted ==> |players| >= 2)
    && (!gameStarted ==> rounds == [] && currentRound == None)
    && OpenRound(currentRound, |rounds|, players, bids, results)
    && History(rounds, players)
  }

  /** Before the game starts, a player with a fresh id and a clean name may join. */
  lemma JoinKeeps(players: seq<Player>, p: Player, rounds: seq<Round>, currentRound: Option<nat>,
                  bids: map<Id, int>, results: map<Id, Tricks>)
    requires Consistent(players, false, rounds, currentRound, bids, results)
    requires p.id !in IdSet(players) && CleanName(p.name) && p.score == 0
    ensures Consistent(players + [p], false, rounds, currentRound, bids, results)
  {
    RosterAppend(players, p);
    EmptyHistoryAppend(players, p);
  }

  /** Before the game starts, any id may leave the roster. */
  lemma LeaveKeeps(players: seq<Player>, id: Id, rounds: seq<Round>, currentRound: Option<nat>,
                   bids: map<Id, int>, results: map<Id, Tricks>)
    requires Consistent(players, false, rounds, currentRound, bids, results)
    ensures Consistent(Without(players, id), false, rounds, currentRound, bids, results)
  {
    RosterWithout(players, id);
    EmptyHistoryWithout(players, id);
  }

  /** Opening the next round with a fresh bid and trick count for every roster player. */
  lemma OpenKeeps(players: seq<Player>, gameStarted: bool, rounds: seq<Round>, currentRound: Option<nat>,
                  bids: map<Id, int>, results: map<Id, Tricks>, bids': map<Id, int>, results': map<Id, Tricks>)
    requires Consistent(players, gameStarted, rounds, currentRound, bids, results) && gameStarted
    requires bids'.Keys == IdSet(players) && forall id :: id in bids' ==> bids'[id] == 0
    requires forall id :: id in results' ==> results'[id] == Tricks(true, 0)
    ensures Consistent(players, gameStarted, rounds, Some(|rounds| + 1), bids', results')
  {
  }

  /**
   * Closing the open round: the history grows by the round's scored entries,
   * the roster takes the new scores, and nothing stays open.
   */
  lemma FinishKeeps(players: seq<Player>, gameStarted: bool, rounds: seq<Round>, currentRound: Option<nat>,
                    bids: map<Id, int>, results: map<Id, Tricks>)
    requires Consistent(players, gameStarted, rounds, currentRound, bids, results) && currentRound.Some?
    ensures currentRound.value == |rounds| + 1
    ensures var data := RoundData(players, bids, results);
            forall j :: 0 <= j < |players| ==> FindEntry(data, players[j].id).Some?
    ensures var data := RoundData(players, bids, results);
            Consistent(ScoredPlayers(players, data), gameStarted, rounds + [Round(currentRound.value, data)], None, map[], map[])
  {
    HistoryAfterRound(rounds, players, bids, results);
  }

  /** The reset: every score back to 0, no history and no open round. */
  lemma ResetKeeps(players: seq<Player>, gameStarted: bool, rounds: seq<Round>, currentRound: Option<nat>,
                   bids: map<Id, int>, results: map<Id, Tricks>)
    requires Consistent(players, gameStarted, rounds, currentRound, bids, results)
    ensures Consistent(ZeroScores(players), false, [], None, map[], map[])
  {
    RosterKept(players, ZeroScores(players));
  }

  class Game {
    var players: seq<Player>
    /** The text in the name field, which `AddPlayer` reads. */
    var newPlayerName: string
    var gameStarted: bool
    /** The finished rounds, oldest first. */
    var rounds: seq<Round>
    /** The number of the round being played, `null` between rounds. */
    var currentRound: Option<nat>
    var bids: map<Id, int>
    var results: map<Id, Tricks>

    /** The invariant of every handler: `Consistent` on the current fields. */
    ghost predicate Valid()
      reads this
    {
      Consistent(players, gameStarted, rounds, currentRound, bids, results)
    }

    /** The state of a fresh component: no players, no rounds, not started. */
    constructor ()
      ensures Valid()
      ensures players == [] && newPlayerName == [] && !gameStarted
      ensures rounds == [] && currentRound == None && bids == map[] && results == map[]
    {
      players := [];
      newPlayerName := [];
      gameStarted := false;
      rounds := [];
      currentRound := None;
      bids := map[];
      results := map[];
    }

    /** Typing in the name field. */
    method SetNewPlayerName(name: string)
      requires Valid()
      modifies this`newPlayerName
      ensures Valid()
      ensures newPlayerName == name
    {
      newPlayerName := name;
    }

    /**
     * Adds a player named by the trimmed text of the name field, with score 0,
     * and clears the field; does nothing once the game runs or when the
     * trimmed name is empty. `id` stands for the clock reading the source uses.
     */
    method AddPlayer(id: Id)
      requires Valid()
      requires id !in IdSet(players)
      modifies this
      ensures Valid()
      ensures var name := Trim(old(newPlayerName));
              if name != [] && !old(gameStarted) then
                && players == old(players) + [Player(id, name, 0)]
                && newPlayerName == []
                && gameStarted == old(gameStarted) && rounds == old(rounds)
                && currentRound == old(currentRound) && bids == old(bids) && results == old(results)
              else unchanged(this)
    {
      var name := Trim(newPlayerName);
      if name != [] && !gameStarted {
        var p := Player(id, name, 0);
        TrimmedNameIsClean(newPlayerName);
        JoinKeeps(players, p, rounds, currentRound, bids, results);
        players := players + [p];
        newPlayerName := [];
      }
    }

    /** Removes every player with id `id`; does nothing once the game runs. */
    method RemovePlayer(id: Id)
      requires Valid()
      modifies this`players
      ensures Valid()
      ensures old(gameStarted) ==> players == old(players)
      ensures !old(gameStarted) ==> players == Without(old(players), id)
    {
      if !gameStarted {
        LeaveKeeps(players, id, rounds, currentRound, bids, results);
        players := Without(players, id);
      }
    }

    /** Starts the game and its first round, when there are at least two players. */
    method StartGame()
      requires Valid()
      modifies this
      ensures Valid()
      ensures |old(players)| < 2 ==> unchanged(this)
      ensures |old(players)| >= 2 ==>
                && gameStarted && currentRound == Some(|old(rounds)| + 1)
                && players == old(players) && rounds == old(rounds) && newPlayerName == old(newPlayerName)
                && bids.Keys == IdSet(players) && (forall id :: id in bids ==> bids[id] == 0)
                && results.Keys == IdSet(players)
                && (forall id :: id in results ==> results[id] == Tricks(true, 0))
    {
      if |players| >= 2 {
        gameStarted := true;
        StartNewRound();
      }
    }

    /**
     * Opens round `|rounds| + 1` with bid 0 and 0 tricks for every player on
     * the roster, whatever the previous round left.
     */
    method StartNewRound()
      requires Valid() && gameStarted
      modifies this`currentRound, this`bids, this`results
      ensures Valid()
      ensures currentRound == Some(|rounds| + 1)
      ensures players == old(players) && rounds == old(rounds)
      ensures gameStarted == old(gameStarted) && newPlayerName == old(newPlayerName)
      ensures bids.Keys == IdSet(players) && forall id :: id in bids ==> bids[id] == 0
      ensures results.Keys == IdSet(players) && forall id :: id in results ==> results[id] == Tricks(true, 0)
      ensures SumValues(bids) == 0
    {
      var initialBids, initialResults := InitialRound(players);
      OpenKeeps(players, gameStarted, rounds, currentRound, bids, results, initialBids, initialResults);
      currentRound := Some(|rounds| + 1);
      bids, results := initialBids, initialResults;
    }

    /**
     * The minus and plus buttons of a bid: `max(0, bid + delta)` for that
     * player only. The buttons exist only for players on the roster.
     */
    method ChangeBid(playerId: Id, delta: int)
      requires Valid()
      requires playerId in IdSet(players)
      modifies this`bids
      ensures Valid()
      ensures bids == old(bids)[playerId := Clamp(BidOf(old(bids), playerId), delta)]
    {
      var current := BidOf(bids, playerId);
      bids := bids[playerId := Clamp(current, delta)];
    }

    /**
     * The minus and plus buttons of the tricks taken: `max(0, tricks + delta)`
     * for that player only, with the flag saying whether the bid is now met.
     */
    method ChangeActual(playerId: Id, delta: int)
      requires Valid()
      modifies this`results
      ensures Valid()
      ensures var t := Clamp(ActualOf(old(results), playerId), delta);
              results == old(results)[playerId := Tricks(t == BidOf(bids, playerId), t)]
    {
      var current := ActualOf(results, playerId);
      var newValue := Clamp(current, delta);
      var bid := BidOf(bids, playerId);
      results := results[playerId := Tricks(newValue == bid, newValue)];
    }

    /**
     * Closes the open round: appends it to the history with one scored entry
     * per player in roster order, adds each player's points to their score,
     * and clears the round.
     */
    method FinishRound()
      requires Valid() && currentRound.Some?
      modifies this`rounds, this`players, this`currentRound, this`bids, this`results
      ensures Valid()
      ensures rounds == old(rounds) + [Round(|old(rounds)| + 1, RoundData(old(players), old(bids), old(results)))]
      ensures players == ScoredPlayers(old(players), RoundData(old(players), old(bids), old(results)))
      ensures currentRound == None && bids == map[] && results == map[]
    {
      var data := RoundData(players, bids, results);
      FinishKeeps(players, gameStarted, rounds, currentRound, bids, results);
      rounds := rounds + [Round(currentRound.value, data)];
      players := ScoredPlayers(players, data);
      currentRound := None;
      bids := map[];
      results := map[];
    }

    /**
     * The reset button, `confirmed` being the answer to the confirmation
     * dialog: back to the roster screen with no history and every score 0.
     */
    method ResetGame(confirmed: bool)
      requires Valid()
      modifies this
      ensures Valid()
      ensures !confirmed ==> unchanged(this)
      ensures confirmed ==>
                && !gameStarted && rounds == [] && currentRound == None
                && bids == map[] && results == map[]
                && players == ZeroScores(old(players)) && newPlayerName == old(newPlayerName)
    {
      if confirmed {
        ResetKeeps(players, gameStarted, rounds, currentRound, bids, results);
        gameStarted := false;
        rounds := [];
        currentRound := None;
        bids := map[];
        results := map[];
        players := ZeroScores(players);
      }
    }

    /**
     * `getTotalBids()`: the total of the bids of the open round, which is
     * every roster player's bid added up.
     */
    ghost function TotalActiveBids(): (t: int)
      reads this
      requires Valid()
      ensures t >= 0
      ensures currentRound.Some? ==> t == RosterBids(players, bids)
    {
      if currentRound.Some? then
        SumValuesByRoster(players, bids);
        SumValues(bids)
      else SumValues(bids)
    }
  }
}
