/**
 * The on-chain memory-game engine, as its test suite (test/MemoryGame.js)
 * pins it down: one game per id, a per-player index of ids in creation order,
 * an append-only move log per game, counters that stay consistent, and the
 * Active -> Completed / Abandoned state machine.
 *
 * Block timestamps are a parameter `now` of each mutating call; events are
 * appended to an abstract log.
 */
module MemoryGame {
  import opened Wrappers

  /** Account addresses and game ids are opaque numbers; ids are handed out from 1. */
  type Address = int
  type GameId = int

  /** Difficulty codes accepted by `startGame`: 1 Easy, 2 Normal, 3 Hard. */
  predicate ValidDifficulty(difficulty: int) {
    1 <= difficulty <= 3
  }

  /** Side of the square card grid for a difficulty: 4, 6 or 8. */
  function GridSize(difficulty: int): (g: nat)
    requires ValidDifficulty(difficulty)
    ensures g == 2 * difficulty + 2
  {
    if difficulty == 1 then 4 else if difficulty == 2 then 6 else 8
  }

  /** Number of pairs on the grid: 8, 18 or 32. */
  function TotalPairs(difficulty: int): nat
    requires ValidDifficulty(difficulty)
  {
    if difficulty == 1 then 8 else if difficulty == 2 then 18 else 32
  }

  /**
   * The difficulty table: Easy 4x4 with 8 pairs, Normal 6x6 with 18, Hard 8x8
   * with 32; every card belongs to exactly one pair.
   */
  lemma DifficultyTable(difficulty: int)
    requires ValidDifficulty(difficulty)
    ensures TotalPairs(difficulty) == GridSize(difficulty) * GridSize(difficulty) / 2
    ensures difficulty == 1 ==> GridSize(difficulty) == 4 && TotalPairs(difficulty) == 8
    ensures difficulty == 2 ==> GridSize(difficulty) == 6 && TotalPairs(difficulty) == 18
    ensures difficulty == 3 ==> GridSize(difficulty) == 8 && TotalPairs(difficulty) == 32
  {
  }

  /** Number of card positions, the bound for a card index. */
  function CardCount(g: Game): nat {
    g.gridSize * g.gridSize
  }

  datatype Game = Game(
    gameId: GameId,
    player: Address,
    difficulty: int,
    gridSize: nat,
    totalPairs: nat,
    foundPairs: nat,
    attempts: nat,
    wrongAttempts: nat,
    startTime: nat,
    endTime: nat,
    isActive: bool,
    isCompleted: bool)

  datatype Move = Move(cardIndex1: nat, cardIndex2: nat, isMatch: bool, timestamp: nat)

  datatype Event =
    | GameStarted(gameId: GameId, player: Address, difficulty: int)
    | MoveValidated(gameId: GameId, player: Address, cardIndex1: nat, cardIndex2: nat, isMatch: bool)
    | GameCompleted(gameId: GameId, player: Address)
    | GameAbandoned(gameId: GameId, player: Address)

  /** The revert reasons of the engine. */
  datatype GameError =
    | InvalidDifficulty      // "Invalid difficulty"
    | GameDoesNotExist       // "Game does not exist"
    | GameNotActive          // "Game is not active"
    | NotGamePlayer          // "Not the game player"
    | SameCard               // "Cannot select the same card twice"
    | Card1OutOfBounds       // "Card1 index out of bounds"
    | Card2OutOfBounds       // "Card2 index out of bounds"

  /** The game record `startGame` creates. */
  function NewGame(id: GameId, player: Address, difficulty: int, now: nat): (g: Game)
    requires ValidDifficulty(difficulty)
  {
    Game(id, player, difficulty, GridSize(difficulty), TotalPairs(difficulty),
         0, 0, 0, now, 0, true, false)
  }

  /** Number of matched moves in a move log. */
  function MatchCount(log: seq<Move>): (n: nat)
    ensures n <= |log|
  {
    if log == [] then 0 else (if log[0].isMatch then 1 else 0) + MatchCount(log[1..])
  }

  lemma {:induction false} MatchCountAppend(log: seq<Move>, m: Move)
    ensures MatchCount(log + [m]) == MatchCount(log) + (if m.isMatch then 1 else 0)
  {
    if log != [] {
      assert (log + [m])[1..] == log[1..] + [m];
      MatchCountAppend(log[1..], m);
    }
  }

  /** A move the engine accepts for game `g`: two distinct on-grid positions. */
  predicate LegalMove(g: Game, m: Move) {
    LegalOn(CardCount(g), m)
  }

  /** Two distinct positions below `cards`. */
  predicate LegalOn(cards: nat, m: Move) {
    m.cardIndex1 != m.cardIndex2 && m.cardIndex1 < cards && m.cardIndex2 < cards
  }

  /** Every move of the log is legal on a board of `cards` cards. */
  predicate AllLegal(cards: nat, log: seq<Move>) {
    log == [] || (AllLegal(cards, log[..|log| - 1]) && LegalOn(cards, log[|log| - 1]))
  }

  lemma {:induction false} AllLegalSpec(cards: nat, log: seq<Move>)
    ensures AllLegal(cards, log) <==> forall k :: 0 <= k < |log| ==> LegalOn(cards, log[k])
  {
    if log != [] {
      var init := log[..|log| - 1];
      AllLegalSpec(cards, init);
      assert forall k :: 0 <= k < |init| ==> init[k] == log[k];
    }
  }

  /**
   * What holds of every game the engine has created, together with its move log:
   * the grid follows the difficulty table, attempts = foundPairs + wrongAttempts,
   * the log has one legal entry per attempt and its matched entries are the found
   * pairs, completion is exactly "all pairs found", and a game has an end time
   * exactly when it is no longer active.
   */
  ghost predicate GameInvariant(g: Game, log: seq<Move>) {
    && ValidDifficulty(g.difficulty)
    && g.gridSize == GridSize(g.difficulty)
    && g.totalPairs == TotalPairs(g.difficulty)
    && g.attempts == g.foundPairs + g.wrongAttempts
    && g.foundPairs <= g.totalPairs
    && |log| == g.attempts
    && MatchCount(log) == g.foundPairs
    && AllLegal(CardCount(g), log)
    && (g.isCompleted <==> g.foundPairs == g.totalPairs)
    && (g.isCompleted ==> !g.isActive)
    && 0 < g.startTime
    && (g.isActive <==> g.endTime == 0)
    && (!g.isActive ==> g.startTime <= g.endTime)
  }

  /** The game after an accepted move with outcome `isMatch` at time `now`. */
  function AfterMove(g: Game, isMatch: bool, now: nat): (g': Game)
    requires g.isActive && !g.isCompleted && g.foundPairs < g.totalPairs
    ensures g'.attempts == g.attempts + 1
    ensures g'.foundPairs == g.foundPairs + (if isMatch then 1 else 0)
    ensures g'.wrongAttempts == g.wrongAttempts + (if isMatch then 0 else 1)
    ensures g'.isCompleted <==> g'.foundPairs == g'.totalPairs
    ensures g'.isActive <==> !g'.isCompleted
    ensures g'.isCompleted ==> g'.endTime == now
    ensures g'.gameId == g.gameId && g'.player == g.player && g'.difficulty == g.difficulty
    ensures g'.gridSize == g.gridSize && g'.totalPairs == g.totalPairs && g'.startTime == g.startTime
  {
    var g1 := if isMatch then g.(attempts := g.attempts + 1, foundPairs := g.foundPairs + 1)
              else g.(attempts := g.attempts + 1, wrongAttempts := g.wrongAttempts + 1);
    if g1.foundPairs == g1.totalPairs then g1.(isCompleted := true, isActive := false, endTime := now)
    else g1
  }

  /** The game after its player abandons it at time `now`. */
  function AfterAbandon(g: Game, now: nat): (g': Game) {
    g.(isActive := false, endTime := now)
  }

  /**
   * The revert reason of `validateMove(gameId, i, j, _)` sent by `caller`, if any;
   * `g` is the stored game, None for an unknown id. The checks run in this order:
   * existence, activity, ownership, distinct cards, card 1 bound, card 2 bound.
   */
  function MoveError(g: Option<Game>, caller: Address, i: nat, j: nat): (r: Option<GameError>)
    ensures r == None <==>
      g.Some? && g.value.isActive && g.value.player == caller && LegalMove(g.value, Move(i, j, false, 0))
    ensures r == Some(GameDoesNotExist) <==> g.None?
    ensures r == Some(GameNotActive) ==> !g.value.isActive
    ensures r == Some(NotGamePlayer) ==> g.value.player != caller
    ensures r == Some(SameCard) ==> i == j
    ensures r == Some(Card1OutOfBounds) ==> i >= CardCount(g.value)
    ensures r == Some(Card2OutOfBounds) ==> j >= CardCount(g.value)
    ensures r != Some(InvalidDifficulty)
    // When several checks fail, the first one in the order above names the reason.
    ensures g.Some? && !g.value.isActive ==> r == Some(GameNotActive)
    ensures g.Some? && g.value.isActive && g.value.player != caller ==> r == Some(NotGamePlayer)
    ensures g.Some? && g.value.isActive && g.value.player == caller && i == j ==> r == Some(SameCard)
    ensures (g.Some? && g.value.isActive && g.value.player == caller && i != j
             && i >= CardCount(g.value)) ==> r == Some(Card1OutOfBounds)
    ensures (g.Some? && g.value.isActive && g.value.player == caller && i != j
             && i < CardCount(g.value) && j >= CardCount(g.value)) ==> r == Some(Card2OutOfBounds)
  {
    if g.None? then Some(GameDoesNotExist)
    else if !g.value.isActive then Some(GameNotActive)
    else if g.value.player != caller then Some(NotGamePlayer)
    else if i == j then Some(SameCard)
    else if i >= CardCount(g.value) then Some(Card1OutOfBounds)
    else if j >= CardCount(g.value) then Some(Card2OutOfBounds)
    else None
  }

  /**
   * The revert reason of `abandonGame(gameId)` sent by `caller`, if any. Abandoning a
   * game that is already over is rejected (the tests leave this case open).
   */
  function AbandonError(g: Option<Game>, caller: Address): (r: Option<GameError>)
    ensures r == None <==> g.Some? && g.value.player == caller && g.value.isActive
    ensures r == Some(GameDoesNotExist) <==> g.None?
    ensures r == Some(NotGamePlayer) <==> g.Some? && g.value.player != caller
  {
    if g.None? then Some(GameDoesNotExist)
    else if g.value.player != caller then Some(NotGamePlayer)
    else if !g.value.isActive then Some(GameNotActive)
    else None
  }

  /** A terminal game accepts no move, whatever the caller and the indices. */
  lemma TerminalGameRejectsMoves(g: Game, caller: Address, i: nat, j: nat)
    requires !g.isActive
    ensures MoveError(Some(g), caller, i, j) == Some(GameNotActive)
  {
  }

  /** Equal indices are refused on every active game of the caller. */
  lemma SameCardRejected(g: Game, caller: Address, i: nat)
    requires g.isActive && g.player == caller
    ensures MoveError(Some(g), caller, i, i) == Some(SameCard)
  {
  }

  /** Another player's move on an active game is refused, whatever the indices. */
  lemma OtherPlayerRejected(g: Game, caller: Address, i: nat, j: nat)
    requires g.isActive && g.player != caller
    ensures MoveError(Some(g), caller, i, j) == Some(NotGamePlayer)
  {
  }

  /**
   * On a fresh Easy game of the caller the card bounds are 16: (0, 16) fails the
   * card 2 bound, (16, 0) the card 1 bound, and (0, 1) is accepted.
   */
  lemma EasyCardBounds(id: GameId, caller: Address, now: nat)
    ensures MoveError(Some(NewGame(id, caller, 1, now)), caller, 0, 16) == Some(Card2OutOfBounds)
    ensures MoveError(Some(NewGame(id, caller, 1, now)), caller, 16, 0) == Some(Card1OutOfBounds)
    ensures MoveError(Some(NewGame(id, caller, 1, now)), caller, 0, 1) == None
  {
  }

  /** An accepted move keeps the game invariant, with the move appended to the log. */
  lemma AfterMoveKeepsInvariant(g: Game, log: seq<Move>, m: Move)
    requires GameInvariant(g, log) && g.isActive && LegalMove(g, m) && g.startTime <= m.timestamp
    ensures GameInvariant(AfterMove(g, m.isMatch, m.timestamp), log + [m])
  {
    MatchCountAppend(log, m);
    assert (log + [m])[..|log|] == log;
  }

  /** Abandoning an active game at a time not before its start keeps the game invariant. */
  lemma AbandonKeepsInvariant(g: Game, log: seq<Move>, now: nat)
    requires GameInvariant(g, log) && g.isActive && g.startTime <= now && 0 < now
    ensures GameInvariant(AfterAbandon(g, now), log)
  {
  }

  /** Ids 1..n, the ids handed out by the first n calls of `startGame`. */
  function IdRange(n: nat): (ids: set<GameId>)
    ensures forall id :: id in ids <==> 1 <= id <= n
    ensures |ids| == n
  {
    if n == 0 then {} else IdRange(n - 1) + {n}
  }

  /** A map whose keys are exactly 1..n has n entries. */
  lemma CountIds<V>(m: map<GameId, V>, n: nat)
    requires forall id :: id in m <==> 1 <= id <= n
    ensures |m| == n
  {
    assert m.Keys == IdRange(n);
  }

  predicate StrictlyIncreasing(ids: seq<GameId>) {
    forall a, b :: 0 <= a < b < |ids| ==> ids[a] < ids[b]
  }

  /**
   * The registry holds the games 1..counter, each with its log, keeping the game
   * invariant and no timestamp later than the latest block seen.
   */
  ghost predicate RegistryValid(games: map<GameId, Game>, moves: map<GameId, seq<Move>>, counter: nat, ts: nat) {
    && (forall id :: id in games <==> 1 <= id <= counter)
    && (forall id :: id in moves <==> id in games)
    && (forall id :: id in games ==> EntryValid(games, moves, ts, id))
  }

  /** The ids among 1..n of the games owned by `p`, in increasing (creation) order. */
  function OwnedIds(games: map<GameId, Game>, p: Address, n: nat): seq<GameId> {
    if n == 0 then []
    else OwnedIds(games, p, n - 1) + (if n in games && games[n].player == p then [n] else [])
  }

  /**
   * The per-player index lists, for each player, exactly the ids of the games that
   * player owns, in creation order.
   */
  ghost predicate IndexValid(games: map<GameId, Game>, playerGames: map<Address, seq<GameId>>, counter: nat) {
    forall p :: PlayerIds(playerGames, p) == OwnedIds(games, p, counter)
  }

  function PlayerIds(playerGames: map<Address, seq<GameId>>, p: Address): seq<GameId> {
    if p in playerGames then playerGames[p] else []
  }

  /** A new game, with its empty log, satisfies the game invariant. */
  lemma NewGameInvariant(id: GameId, player: Address, difficulty: int, now: nat)
    requires ValidDifficulty(difficulty) && 0 < now
    ensures GameInvariant(NewGame(id, player, difficulty, now), [])
  {
    DifficultyTable(difficulty);
  }

  /** What `RegistryValid` demands of the entry of game `id`. */
  ghost predicate EntryValid(games: map<GameId, Game>, moves: map<GameId, seq<Move>>, ts: nat, id: GameId)
    requires id in games && id in moves
  {
    && games[id].gameId == id
    && GameInvariant(games[id], moves[id])
    && games[id].startTime <= ts
    && games[id].endTime <= ts
  }

  /** `startGame` adds game `counter + 1` to a valid registry and keeps it valid. */
  lemma StartKeepsRegistry(games: map<GameId, Game>, moves: map<GameId, seq<Move>>, counter: nat, ts: nat,
                           caller: Address, difficulty: int, now: nat)
    requires RegistryValid(games, moves, counter, ts)
    requires ValidDifficulty(difficulty) && 0 < now && ts <= now
    ensures var id := counter + 1;
      RegistryValid(games[id := NewGame(id, caller, difficulty, now)], moves[id := []], id, now)
  {
    var id := counter + 1;
    var games' := games[id := NewGame(id, caller, difficulty, now)];
    var moves' := moves[id := []];
    forall i | i in games'
      ensures EntryValid(games', moves', now, i)
    {
      StartKeepsEntry(games, moves, counter, ts, caller, difficulty, now, i);
    }
  }

  lemma StartKeepsEntry(games: map<GameId, Game>, moves: map<GameId, seq<Move>>, counter: nat, ts: nat,
                        caller: Address, difficulty: int, now: nat, i: GameId)
    requires RegistryValid(games, moves, counter, ts)
    requires ValidDifficulty(difficulty) && 0 < now && ts <= now
    requires i in games || i == counter + 1
    ensures var id := counter + 1;
      EntryValid(games[id := NewGame(id, caller, difficulty, now)], moves[id := []], now, i)
  {
    if i == counter + 1 {
      NewGameInvariant(i, caller, difficulty, now);
    } else {
      assert EntryValid(games, moves, ts, i);
    }
  }

  /** `OwnedIds` lists, in strictly increasing order, exactly the ids in 1..n that `p` owns. */
  lemma {:induction false} OwnedIdsSpec(games: map<GameId, Game>, p: Address, n: nat)
    ensures StrictlyIncreasing(OwnedIds(games, p, n))
    ensures forall id :: id in OwnedIds(games, p, n) <==> 1 <= id <= n && id in games && games[id].player == p
  {
    if n > 0 {
      OwnedIdsSpec(games, p, n - 1);
      var prev := OwnedIds(games, p, n - 1);
      assert forall k :: 0 <= k < |prev| ==> prev[k] in prev;
    }
  }

  /** Changing the games above n leaves the owned ids among 1..n alone. */
  lemma {:induction false} OwnedIdsFrame(games: map<GameId, Game>, games': map<GameId, Game>, p: Address, n: nat)
    requires forall id :: 1 <= id <= n ==> (id in games <==> id in games')
    requires forall id :: 1 <= id <= n && id in games ==> games'[id].player == games[id].player
    ensures OwnedIds(games', p, n) == OwnedIds(games, p, n)
  {
    if n > 0 {
      OwnedIdsFrame(games, games', p, n - 1);
    }
  }

  /** `startGame` appends the new id to its creator's list and keeps the index valid. */
  lemma StartKeepsIndex(games: map<GameId, Game>, playerGames: map<Address, seq<GameId>>, counter: nat, g: Game)
    requires IndexValid(games, playerGames, counter)
    ensures var id := counter + 1;
      IndexValid(games[id := g], playerGames[g.player := PlayerIds(playerGames, g.player) + [id]], id)
  {
    var id := counter + 1;
    var games' := games[id := g];
    var pg' := playerGames[g.player := PlayerIds(playerGames, g.player) + [id]];
    forall p
      ensures PlayerIds(pg', p) == OwnedIds(games', p, id)
    {
      OwnedIdsFrame(games, games', p, counter);
    }
  }

  /** Replacing a game by one with the same owner keeps the index valid. */
  lemma SameOwnerKeepsIndex(games: map<GameId, Game>, playerGames: map<Address, seq<GameId>>, counter: nat,
                            id: GameId, g': Game)
    requires IndexValid(games, playerGames, counter) && id in games && g'.player == games[id].player
    ensures IndexValid(games[id := g'], playerGames, counter)
  {
    forall p
      ensures PlayerIds(playerGames, p) == OwnedIds(games[id := g'], p, counter)
    {
      OwnedIdsFrame(games, games[id := g'], p, counter);
    }
  }

  /** An accepted move keeps the registry valid. */
  lemma MoveKeepsRegistry(games: map<GameId, Game>, moves: map<GameId, seq<Move>>, counter: nat, ts: nat,
                          id: GameId, m: Move)
    requires RegistryValid(games, moves, counter, ts) && id in games
    requires games[id].isActive && LegalMove(games[id], m) && ts <= m.timestamp
    ensures RegistryValid(games[id := AfterMove(games[id], m.isMatch, m.timestamp)],
                          moves[id := moves[id] + [m]], counter, m.timestamp)
  {
    AfterMoveKeepsInvariant(games[id], moves[id], m);
  }

  /** Abandoning an active game keeps the registry valid. */
  lemma AbandonKeepsRegistry(games: map<GameId, Game>, moves: map<GameId, seq<Move>>, counter: nat, ts: nat,
                             id: GameId, now: nat)
    requires RegistryValid(games, moves, counter, ts) && id in games && games[id].isActive
    requires 0 < now && ts <= now
    ensures RegistryValid(games[id := AfterAbandon(games[id], now)], moves, counter, now)
  {
    var games' := games[id := AfterAbandon(games[id], now)];
    forall i | i in games'
      ensures games'[i].gameId == i && GameInvariant(games'[i], moves[i])
      ensures games'[i].startTime <= now && games'[i].endTime <= now
    {
      if i == id {
        AbandonKeepsInvariant(games[id], moves[id], now);
      } else {
        assert games'[i] == games[i];
      }
    }
  }

  /**
   * The engine's state: the contract's storage (games by id, move logs by id,
   * game ids by player, the id counter), its event log, and the latest block time.
   */
  datatype Registry = Registry(
    games: map<GameId, Game>,
    moves: map<GameId, seq<Move>>,
    playerGames: map<Address, seq<GameId>>,
    gameCounter: nat,
    events: seq<Event>,
    lastTimestamp: nat)
  {
    ghost predicate Valid() {
      RegistryValid(games, moves, gameCounter, lastTimestamp) && IndexValid(games, playerGames, gameCounter)
    }

    function Lookup(gameId: GameId): Option<Game> {
      if gameId in games then Some(games[gameId]) else None
    }

    /** `getGame`: the stored record, reverting for an id never handed out. */
    function GetGame(gameId: GameId): (r: Result<Game, GameError>)
      requires Valid()
      ensures r.Success? <==> 1 <= gameId <= gameCounter
      ensures r.Failure? ==> r.error == GameDoesNotExist
      ensures r.Success? ==> r.value == games[gameId] && r.value.gameId == gameId
      ensures r.Success? ==> r.value.attempts == r.value.foundPairs + r.value.wrongAttempts
      ensures r.Success? ==> r.value.foundPairs <= r.value.totalPairs
      ensures r.Success? ==> (r.value.isCompleted <==> r.value.foundPairs == r.value.totalPairs)
      ensures r.Success? ==> (r.value.isCompleted ==> !r.value.isActive)
    {
      if gameId in games then Success(games[gameId]) else Failure(GameDoesNotExist)
    }

    /** `getGameMoves`: the game's move log in call order, one legal entry per attempt. */
    function GetGameMoves(gameId: GameId): (r: Result<seq<Move>, GameError>)
      requires Valid()
      ensures r.Success? <==> 1 <= gameId <= gameCounter
      ensures r.Failure? ==> r.error == GameDoesNotExist
      ensures r.Success? ==> r.value == moves[gameId]
      ensures r.Success? ==> |r.value| == games[gameId].attempts
      ensures r.Success? ==> MatchCount(r.value) == games[gameId].foundPairs
      ensures r.Success? ==> forall k :: 0 <= k < |r.value| ==> LegalMove(games[gameId], r.value[k])
    {
      if gameId in games then
        AllLegalSpec(CardCount(games[gameId]), moves[gameId]);
        Success(moves[gameId])
      else Failure(GameDoesNotExist)
    }

    /** `getPlayerGames`: the ids the player created, in creation order; empty if none. */
    function GetPlayerGames(player: Address): (ids: seq<GameId>)
      requires Valid()
      ensures StrictlyIncreasing(ids)
      ensures forall id :: id in ids <==> 1 <= id <= gameCounter && games[id].player == player
    {
      OwnedIdsSpec(games, player, gameCounter);
      PlayerIds(playerGames, player)
    }

    /** `getTotalGames`: the number of games ever created. */
    function GetTotalGames(): (n: nat)
      requires Valid()
      ensures n == |games|
    {
      CountIds(games, gameCounter);
      gameCounter
    }

    /** `isGameActive`: false for finished games and for unknown ids alike. */
    function IsGameActive(gameId: GameId): (b: bool)
      requires Valid()
      ensures b <==> 1 <= gameId <= gameCounter && games[gameId].isActive
      ensures b ==> games[gameId].endTime == 0 && !games[gameId].isCompleted
    {
      gameId in games && games[gameId].isActive
    }

    /**
     * `getGameDuration` at block time `now`: elapsed time for an active game,
     * end minus start for a finished one.
     */
    function GetGameDuration(gameId: GameId, now: nat): (r: Result<nat, GameError>)
      requires Valid() && lastTimestamp <= now
      ensures r.Success? <==> 1 <= gameId <= gameCounter
      ensures r.Failure? ==> r.error == GameDoesNotExist
      ensures r.Success? && games[gameId].isActive ==> games[gameId].startTime + r.value == now
      ensures r.Success? && !games[gameId].isActive ==> games[gameId].startTime + r.value == games[gameId].endTime
    {
      if gameId !in games then Failure(GameDoesNotExist)
      else
        var g := games[gameId];
        if g.isActive then Success(now - g.startTime) else Success(g.endTime - g.startTime)
    }

    /** `startGame(difficulty)` sent by `caller` at block time `now`: the new state and the result. */
    function StartGame(caller: Address, difficulty: int, now: nat): (out: (Registry, Result<GameId, GameError>))
      ensures out.1.Failure? <==> !ValidDifficulty(difficulty)
      ensures out.1.Failure? ==> out.1.error == InvalidDifficulty && out.0 == this
      ensures out.1.Success? ==> out.1.value == gameCounter + 1 == out.0.gameCounter
    {
      if !ValidDifficulty(difficulty) then (this, Failure(InvalidDifficulty))
      else
        var id := gameCounter + 1;
        var g := NewGame(id, caller, difficulty, now);
        var pg := playerGames[caller := PlayerIds(playerGames, caller) + [id]];
        (Registry(games[id := g], moves[id := []], pg, id, events + [GameStarted(id, caller, difficulty)], now),
         Success(id))
    }

    /**
     * `validateMove(gameId, cardIndex1, cardIndex2, isMatch)` sent by `caller` at
     * block time `now`: the new state and the result. The checks are those of
     * `MoveError`; a rejected call changes nothing.
     */
    function ValidateMove(caller: Address, gameId: GameId, cardIndex1: nat, cardIndex2: nat, isMatch: bool, now: nat)
      : (out: (Registry, Result<Move, GameError>))
      requires Valid()
      ensures out.1.Failure? <==> MoveError(Lookup(gameId), caller, cardIndex1, cardIndex2).Some?
      ensures out.1.Failure? ==>
        out.1.error == MoveError(Lookup(gameId), caller, cardIndex1, cardIndex2).value && out.0 == this
      ensures out.1.Success? ==> out.1.value == Move(cardIndex1, cardIndex2, isMatch, now)
    {
      var err := MoveError(Lookup(gameId), caller, cardIndex1, cardIndex2);
      if err.Some? then (this, Failure(err.value))
      else
        var m := Move(cardIndex1, cardIndex2, isMatch, now);
        var g' := AfterMove(games[gameId], isMatch, now);
        var completed := if g'.isCompleted then [GameCompleted(gameId, caller)] else [];
        (Registry(games[gameId := g'], moves[gameId := moves[gameId] + [m]], playerGames, gameCounter,
                  events + [MoveValidated(gameId, caller, cardIndex1, cardIndex2, isMatch)] + completed, now),
         Success(m))
    }

    /**
     * `abandonGame(gameId)` sent by `caller` at block time `now`: the new state and
     * the result. The checks are those of `AbandonError`; a rejected call changes nothing.
     */
    function AbandonGame(caller: Address, gameId: GameId, now: nat): (out: (Registry, Result<(), GameError>))
      ensures out.1.Failure? <==> AbandonError(Lookup(gameId), caller).Some?
      ensures out.1.Failure? ==> out.1.error == AbandonError(Lookup(gameId), caller).value && out.0 == this
    {
      var err := AbandonError(Lookup(gameId), caller);
      if err.Some? then (this, Failure(err.value))
      else
        var g' := AfterAbandon(games[gameId], now);
        (Registry(games[gameId := g'], moves, playerGames, gameCounter, events + [GameAbandoned(gameId, caller)], now),
         Success(()))
    }
  }

  /** `startGame` keeps the registry valid. */
  lemma StartGameKeepsValid(s: Registry, caller: Address, difficulty: int, now: nat)
    requires s.Valid() && 0 < now && s.lastTimestamp <= now
    ensures s.StartGame(caller, difficulty, now).0.Valid()
  {
    if ValidDifficulty(difficulty) {
      var id := s.gameCounter + 1;
      var g := NewGame(id, caller, difficulty, now);
      var s' := s.StartGame(caller, difficulty, now).0;
      assert s'.games == s.games[id := g] && s'.moves == s.moves[id := []] && s'.gameCounter == id;
      assert s'.playerGames == s.playerGames[caller := PlayerIds(s.playerGames, caller) + [id]];
      assert s'.lastTimestamp == now;
      StartKeepsRegistry(s.games, s.moves, s.gameCounter, s.lastTimestamp, caller, difficulty, now);
      assert RegistryValid(s'.games, s'.moves, s'.gameCounter, s'.lastTimestamp);
      assert g.player == caller;
      StartKeepsIndex(s.games, s.playerGames, s.gameCounter, g);
      assert IndexValid(s'.games, s'.playerGames, s'.gameCounter);
    }
  }

  /**
   * A successful `startGame` creates game `gameCounter + 1`, owned by the caller, at
   * the difficulty's grid size, with no pairs found and no attempts, active since
   * `now`, with an empty move log; it logs `GameStarted`. Games created before are untouched.
   */
  lemma StartGameEffect(s: Registry, caller: Address, difficulty: int, now: nat)
    requires s.Valid() && ValidDifficulty(difficulty)
    ensures var (s', r) := s.StartGame(caller, difficulty, now);
      var id := r.value;
      var g := s'.games[id];
      && id !in s.games && (forall i :: i in s'.games <==> i in s.games || i == id)
      && g.gameId == id && g.player == caller && g.difficulty == difficulty
      && g.gridSize == GridSize(difficulty) && g.totalPairs == TotalPairs(difficulty)
      && g.foundPairs == 0 && g.attempts == 0 && g.wrongAttempts == 0
      && g.isActive && !g.isCompleted && g.startTime == now && g.endTime == 0
      && s'.moves[id] == []
      && (forall i :: i in s.games ==> s'.games[i] == s.games[i] && s'.moves[i] == s.moves[i])
      && s'.events == s.events + [GameStarted(id, caller, difficulty)]
      && s'.lastTimestamp == now
  {
  }

  /** After a successful `startGame` the total number of games has grown by one. */
  lemma StartGameTotal(s: Registry, caller: Address, difficulty: int, now: nat)
    requires s.Valid() && ValidDifficulty(difficulty) && 0 < now && s.lastTimestamp <= now
    ensures var s' := s.StartGame(caller, difficulty, now).0;
      s'.Valid() && s'.GetTotalGames() == s.GetTotalGames() + 1 && |s'.games| == |s.games| + 1
  {
    StartGameKeepsValid(s, caller, difficulty, now);
  }

  /**
   * After a successful `startGame`, `getPlayerGames` of the caller gains the new id
   * at its end, and every other player's list is unchanged.
   */
  lemma StartGameIndex(s: Registry, caller: Address, difficulty: int, now: nat)
    requires s.Valid() && ValidDifficulty(difficulty) && 0 < now && s.lastTimestamp <= now
    ensures var (s', r) := s.StartGame(caller, difficulty, now);
      && s'.Valid()
      && s'.GetPlayerGames(caller) == s.GetPlayerGames(caller) + [r.value]
      && (forall p :: p != caller ==> s'.GetPlayerGames(p) == s.GetPlayerGames(p))
  {
    StartGameKeepsValid(s, caller, difficulty, now);
  }

  /** An accepted move keeps the registry valid. */
  lemma ValidateMoveKeepsValid(s: Registry, caller: Address, gameId: GameId, i: nat, j: nat, isMatch: bool, now: nat)
    requires s.Valid() && 0 < now && s.lastTimestamp <= now
    ensures s.ValidateMove(caller, gameId, i, j, isMatch, now).0.Valid()
  {
    if MoveError(s.Lookup(gameId), caller, i, j).None? {
      var m := Move(i, j, isMatch, now);
      MoveKeepsRegistry(s.games, s.moves, s.gameCounter, s.lastTimestamp, gameId, m);
      SameOwnerKeepsIndex(s.games, s.playerGames, s.gameCounter, gameId, AfterMove(s.games[gameId], isMatch, now));
    }
  }

  /**
   * An accepted move counts one more attempt, found or wrong as `isMatch` says,
   * appends itself to the game's log, and completes the game (ending it at `now`,
   * with a `GameCompleted` event after `MoveValidated`) exactly when it finds the
   * last pair; a game not completed stays active.
   */
  lemma ValidateMoveEffect(s: Registry, caller: Address, gameId: GameId, i: nat, j: nat, isMatch: bool, now: nat)
    requires s.Valid() && MoveError(s.Lookup(gameId), caller, i, j).None?
    ensures var (s', r) := s.ValidateMove(caller, gameId, i, j, isMatch, now);
      var g := s.games[gameId];
      var g' := s'.games[gameId];
      && (forall i :: i in s'.games <==> i in s.games)
      && s'.moves[gameId] == s.moves[gameId] + [r.value]
      && g'.attempts == g.attempts + 1
      && g'.foundPairs == g.foundPairs + (if isMatch then 1 else 0)
      && g'.wrongAttempts == g.wrongAttempts + (if isMatch then 0 else 1)
      && (g'.isCompleted <==> g'.foundPairs == g.totalPairs)
      && (g'.isCompleted ==> !g'.isActive && g'.endTime == now)
      && (!g'.isCompleted ==> g'.isActive && g'.endTime == 0)
      && g'.player == g.player && g'.totalPairs == g.totalPairs && g'.gridSize == g.gridSize
      && g'.startTime == g.startTime
      && s'.events == s.events + [MoveValidated(gameId, caller, i, j, isMatch)]
                      + (if g'.isCompleted then [GameCompleted(gameId, caller)] else [])
      && s'.lastTimestamp == now
  {
  }

  /**
   * `getGameMoves` after an accepted move is the log before it with exactly
   * that move (its two indices, its outcome and the block time) at the end, so
   * the log lists the moves in the order they were made.
   */
  lemma ValidateMoveLogsMove(s: Registry, caller: Address, gameId: GameId, i: nat, j: nat, isMatch: bool, now: nat)
    requires s.Valid() && 0 < now && s.lastTimestamp <= now
    requires MoveError(s.Lookup(gameId), caller, i, j).None?
    ensures var s' := s.ValidateMove(caller, gameId, i, j, isMatch, now).0;
      && s'.Valid() && s.GetGameMoves(gameId).Success?
      && s'.GetGameMoves(gameId) == Success(s.GetGameMoves(gameId).value + [Move(i, j, isMatch, now)])
  {
    ValidateMoveKeepsValid(s, caller, gameId, i, j, isMatch, now);
    ValidateMoveEffect(s, caller, gameId, i, j, isMatch, now);
  }

  /** An accepted move touches only its own game: other games, their logs and the index are unchanged. */
  lemma ValidateMoveFrame(s: Registry, caller: Address, gameId: GameId, i: nat, j: nat, isMatch: bool, now: nat)
    requires s.Valid()
    ensures var s' := s.ValidateMove(caller, gameId, i, j, isMatch, now).0;
      && s'.playerGames == s.playerGames && s'.gameCounter == s.gameCounter
      && (forall id :: id in s.games && id != gameId ==> id in s'.games && s'.games[id] == s.games[id] && s'.moves[id] == s.moves[id])
  {
  }

  /** A successful abandon keeps the registry valid. */
  lemma AbandonGameKeepsValid(s: Registry, caller: Address, gameId: GameId, now: nat)
    requires s.Valid() && 0 < now && s.lastTimestamp <= now
    ensures s.AbandonGame(caller, gameId, now).0.Valid()
  {
    if AbandonError(s.Lookup(gameId), caller).None? {
      AbandonKeepsRegistry(s.games, s.moves, s.gameCounter, s.lastTimestamp, gameId, now);
      SameOwnerKeepsIndex(s.games, s.playerGames, s.gameCounter, gameId, AfterAbandon(s.games[gameId], now));
    }
  }

  /**
   * A successful abandon ends the game at `now` without completing it, keeps its
   * counters, and logs `GameAbandoned`.
   */
  lemma AbandonGameEffect(s: Registry, caller: Address, gameId: GameId, now: nat)
    requires s.Valid() && AbandonError(s.Lookup(gameId), caller).None?
    ensures var s' := s.AbandonGame(caller, gameId, now).0;
      var g := s.games[gameId];
      var g' := s'.games[gameId];
      && (forall i :: i in s'.games <==> i in s.games)
      && !g'.isActive && !g'.isCompleted && g'.endTime == now
      && g'.foundPairs == g.foundPairs && g'.attempts == g.attempts && g'.player == g.player
      && s'.events == s.events + [GameAbandoned(gameId, caller)]
      && s'.lastTimestamp == now
  {
  }

  /** Abandoning touches only its own game: other games, the logs and the index are unchanged. */
  lemma AbandonGameFrame(s: Registry, caller: Address, gameId: GameId, now: nat)
    requires s.Valid()
    ensures var s' := s.AbandonGame(caller, gameId, now).0;
      && (forall id :: id in s.games && id != gameId ==> id in s'.games && s'.games[id] == s.games[id])
      && s'.moves == s.moves && s'.playerGames == s.playerGames && s'.gameCounter == s.gameCounter
  {
  }

  /** The state of a freshly deployed engine. */
  const Deployed := Registry(map[], map[], map[], 0, [], 0)

  lemma DeployedValid()
    ensures Deployed.Valid()
  {
  }

  /**
   * The duration of a game never decreases as block time advances while it is
   * active, and is fixed once the game is over.
   */
  lemma DurationMonotone(s: Registry, gameId: GameId, t1: nat, t2: nat)
    requires s.Valid() && s.lastTimestamp <= t1 <= t2 && gameId in s.games
    ensures s.GetGameDuration(gameId, t1).value <= s.GetGameDuration(gameId, t2).value
    ensures !s.games[gameId].isActive ==> s.GetGameDuration(gameId, t1) == s.GetGameDuration(gameId, t2)
    ensures s.games[gameId].isActive && t1 < t2 ==>
      s.GetGameDuration(gameId, t1).value < s.GetGameDuration(gameId, t2).value
  {
  }

  /**
   * The contract object: its storage fields, updated in place by the three
   * transactions, each of which behaves as the matching `Registry` transition.
   */
  class Engine {
    var games: map<GameId, Game>
    var moves: map<GameId, seq<Move>>
    var playerGames: map<Address, seq<GameId>>
    var gameCounter: nat
    var events: seq<Event>
    /** The latest block timestamp the engine has seen. */
    var lastTimestamp: nat

    function State(): Registry
      reads this
    {
      Registry(games, moves, playerGames, gameCounter, events, lastTimestamp)
    }

    ghost predicate Valid()
      reads this
    {
      State().Valid()
    }

    constructor ()
      ensures Valid() && State() == Deployed
    {
      games, moves, playerGames := map[], map[], map[];
      gameCounter, events, lastTimestamp := 0, [], 0;
      DeployedValid();
    }

    method Assign(s: Registry)
      modifies this
      ensures State() == s
    {
      games, moves, playerGames := s.games, s.moves, s.playerGames;
      gameCounter, events, lastTimestamp := s.gameCounter, s.events, s.lastTimestamp;
    }

    method StartGame(caller: Address, difficulty: int, now: nat) returns (r: Result<GameId, GameError>)
      requires Valid() && 0 < now && lastTimestamp <= now
      modifies this
      ensures Valid()
      ensures (State(), r) == old(State()).StartGame(caller, difficulty, now)
    {
      var out := State().StartGame(caller, difficulty, now);
      StartGameKeepsValid(State(), caller, difficulty, now);
      Assign(out.0);
      r := out.1;
    }

    method ValidateMove(caller: Address, gameId: GameId, cardIndex1: nat, cardIndex2: nat, isMatch: bool, now: nat)
      returns (r: Result<Move, GameError>)
      requires Valid() && 0 < now && lastTimestamp <= now
      modifies this
      ensures Valid()
      ensures (State(), r) == old(State()).ValidateMove(caller, gameId, cardIndex1, cardIndex2, isMatch, now)
    {
      var out := State().ValidateMove(caller, gameId, cardIndex1, cardIndex2, isMatch, now);
      ValidateMoveKeepsValid(State(), caller, gameId, cardIndex1, cardIndex2, isMatch, now);
      Assign(out.0);
      r := out.1;
    }

    method AbandonGame(caller: Address, gameId: GameId, now: nat) returns (r: Result<(), GameError>)
      requires Valid() && 0 < now && lastTimestamp <= now
      modifies this
      ensures Valid()
      ensures (State(), r) == old(State()).AbandonGame(caller, gameId, now)
    {
      var out := State().AbandonGame(caller, gameId, now);
      AbandonGameKeepsValid(State(), caller, gameId, now);
      Assign(out.0);
      r := out.1;
    }
  }

  /**
   * Progress of the completion scenario of the test suite after `k` of the eight
   * matched moves (2n, 2n+1) on `player`'s Easy game `id`.
   */
  ghost predicate EasyProgress(s: Registry, player: Address, id: GameId, k: nat, now: nat) {
    EasyGame(s, player, id, k, now) && EasyLog(s, player, id, k, now)
  }

  /** The registry is valid and game `id` is `player`'s Easy game with `k` pairs found. */
  ghost predicate EasyGame(s: Registry, player: Address, id: GameId, k: nat, now: nat) {
    && s.Valid() && 0 < now && s.lastTimestamp <= now && k <= 8
    && id in s.games
    && s.games[id].player == player && s.games[id].gridSize == 4 && s.games[id].totalPairs == 8
    && s.games[id].foundPairs == k
    && (s.games[id].isActive <==> k < 8)
    && (k == 8 ==> s.games[id].isCompleted && s.games[id].endTime == now)
  }

  /** Game `id`'s log holds the moves (2n, 2n+1) for n < k, and completion was announced at k = 8. */
  ghost predicate EasyLog(s: Registry, player: Address, id: GameId, k: nat, now: nat) {
    && id in s.moves
    && |s.moves[id]| == k
    && (forall n :: 0 <= n < k ==> s.moves[id][n] == Move(2 * n, 2 * n + 1, true, now))
    && (k == 8 ==> GameCompleted(id, player) in s.events)
  }

  /** Starting an Easy game begins the scenario. */
  lemma EasyStart(s: Registry, player: Address, now: nat)
    requires s.Valid() && 0 < now && s.lastTimestamp <= now
    ensures var (s', r) := s.StartGame(player, 1, now);
      r.Success? && EasyProgress(s', player, r.value, 0, now)
  {
    StartGameKeepsValid(s, player, 1, now);
    StartGameEffect(s, player, 1, now);
  }

  /** The move (i, j) = (2k, 2k+1) reported as a match is accepted by game `id`. */
  lemma EasyMoveAccepted(s: Registry, player: Address, id: GameId, k: nat, i: nat, j: nat, now: nat)
    requires EasyGame(s, player, id, k, now) && k < 8 && i == 2 * k && j == i + 1
    ensures MoveError(s.Lookup(id), player, i, j).None?
  {
  }

  /** That move advances the scenario. */
  lemma EasyStep(s: Registry, player: Address, id: GameId, k: nat, i: nat, j: nat, now: nat)
    requires EasyProgress(s, player, id, k, now) && k < 8 && i == 2 * k && j == i + 1
    ensures var (s', r) := s.ValidateMove(player, id, i, j, true, now);
      r.Success? && EasyProgress(s', player, id, k + 1, now)
  {
    EasyMoveAccepted(s, player, id, k, i, j, now);
    EasyStepGame(s, player, id, k, i, j, now);
    EasyStepLog(s, player, id, k, i, j, now);
  }

  lemma EasyStepGame(s: Registry, player: Address, id: GameId, k: nat, i: nat, j: nat, now: nat)
    requires EasyGame(s, player, id, k, now) && k < 8
    requires MoveError(s.Lookup(id), player, i, j).None?
    ensures EasyGame(s.ValidateMove(player, id, i, j, true, now).0, player, id, k + 1, now)
  {
    ValidateMoveKeepsValid(s, player, id, i, j, true, now);
    ValidateMoveEffect(s, player, id, i, j, true, now);
  }

  lemma EasyStepLog(s: Registry, player: Address, id: GameId, k: nat, i: nat, j: nat, now: nat)
    requires EasyProgress(s, player, id, k, now) && k < 8 && i == 2 * k && j == i + 1
    requires MoveError(s.Lookup(id), player, i, j).None?
    ensures EasyLog(s.ValidateMove(player, id, i, j, true, now).0, player, id, k + 1, now)
  {
    ValidateMoveEffect(s, player, id, i, j, true, now);
    var s' := s.ValidateMove(player, id, i, j, true, now).0;
    var log' := s'.moves[id];
    assert log' == s.moves[id] + [Move(i, j, true, now)];
    forall n | 0 <= n < k + 1
      ensures log'[n] == Move(2 * n, 2 * n + 1, true, now)
    {
      if n < k {
        assert log'[n] == s.moves[id][n];
      }
    }
  }

  /**
   * The completion scenario of the test suite: a player starts an Easy game and
   * reports the eight pairs (2k, 2k+1) as matches; the game is then completed,
   * inactive, has all 8 pairs and a positive end time, its log holds the eight
   * moves in order, and a completion event was emitted.
   */
  method PlayEasyGameToCompletion(e: Engine, player: Address, now: nat) returns (id: GameId)
    requires e.Valid() && 0 < now && e.lastTimestamp <= now
    modifies e
    ensures e.Valid()
    ensures id == old(e.gameCounter) + 1 && id in e.games
    ensures e.games[id].isCompleted && !e.games[id].isActive
    ensures e.games[id].foundPairs == 8 && e.games[id].endTime > 0
    ensures |e.moves[id]| == 8
    ensures forall k :: 0 <= k < 8 ==> e.moves[id][k] == Move(2 * k, 2 * k + 1, true, now)
    ensures GameCompleted(id, player) in e.events
  {
    EasyStart(e.State(), player, now);
    var started := e.StartGame(player, 1, now);
    id := started.value;
    var k := 0;
    while k < 8
      invariant 0 <= k <= 8
      invariant EasyProgress(e.State(), player, id, k, now)
    {
      var i := 2 * k;
      var j := i + 1;
      EasyStep(e.State(), player, id, k, i, j, now);
      var moved := e.ValidateMove(player, id, i, j, true, now);
      k := k + 1;
    }
  }
}
