# Memory card game (web3): a verified model

This project models the logic of the memory-card game: a browser game in which a
player flips cards to find pairs. Games are recorded on a smart contract, and
summaries are saved to a small backend. Six parts are modelled:

- **The game engine** (`memory_game.dfy`). It is specified by its test suite:
  `startGame`, `validateMove` and `abandonGame`, plus the query functions.
  - The contract storage is a `Registry` value with pure transitions.
  - The class `Engine` holds the same storage as fields. Each of its three
    transactions updates them in place and is proved equal to its transition.
  - The proved invariant says:
    - the ids are exactly `1..gameCounter`;
    - every game keeps `attempts = foundPairs + wrongAttempts`, with one legal
      log entry per attempt;
    - a game is completed exactly when all its pairs are found;
    - the per-player lists hold the ids each player owns, in creation order.
  - The eight-move completion scenario of the tests is a method with a loop.
- **The animation helpers** (`performance_optimizer.dfy`). These are three classes:
  - the card-state cache, whose `Map` entries are kept in insertion order, with
    age-based eviction;
  - the requestAnimationFrame-driven FIFO scheduler;
  - the animation counters.
- **The game-history statistics** (`game_history.dfy`): the difficulty filter,
  the completed rule, the success rate, the average time and the `m:ss` format.
- **The backend summary endpoints** (`memory_controller.dfy`):
  - validation of a save request;
  - the store of saved records;
  - the newest-first, capped history queries.
- **The wallet panel's text helpers** (`wallet_connection.dfy`): the shortened
  address and the network name.
- **The card component's derived attributes** (`optimized_card.dfy`): the size
  and spring tables, the aria label, tab order, opacity and the click guard.

The shared modules are `wrappers.dfy`, which holds `Option` and `Result`, and
`decimal.dfy`, which prints integers of magnitude below 10^21 as JavaScript does
(larger ones JavaScript prints in exponent form) and parses them back.

Time enters every operation as a parameter `now`: block time for the engine and
`performance.now()` for the frontend, both in whole units. JavaScript values are
modelled as follows:

- `%` is written out as a truncating remainder;
- `Math.floor` is Dafny's division by a positive divisor;
- `Math.round` of a quotient is exact rational rounding, with halves rounded up;
- falsy request fields follow JavaScript's rules (`undefined`, `null`, `""`, `0`).

## Model

| member | source | states |
|---|---|---|
| MemoryGame.DifficultyTable | test/MemoryGame.js:56-74 | Difficulties 1, 2 and 3 give grids of 4, 6 and 8 with 8, 18 and 32 pairs, and totalPairs = gridSize²/2. |
| MemoryGame.Registry.StartGame | test/MemoryGame.js:46-54 | `startGame` reverts exactly for a difficulty outside 1..3. It reverts with "Invalid difficulty" and changes nothing. Otherwise the new id is the previous total + 1. |
| MemoryGame.StartGameEffect | test/MemoryGame.js:21-44 | The new game has the next id and is owned by the caller. Its grid follows the difficulty table. Its counters are 0, it is active and not completed, and its log is empty. `GameStarted` is logged and older games are untouched. |
| MemoryGame.StartGameKeepsValid | test/MemoryGame.js:21-44 | `startGame` preserves the registry invariant: the ids, the per-game invariant and the per-player index. |
| MemoryGame.StartGameTotal | test/MemoryGame.js:214-217 | Each successful `startGame` adds one to `getTotalGames`. |
| MemoryGame.StartGameIndex | test/MemoryGame.js:219-228 | The creator's `getPlayerGames` list gains the new id at its end. Every other player's list is unchanged. |
| MemoryGame.Registry.GetPlayerGames | test/MemoryGame.js:219-228 | A player's list holds exactly the ids of the games that player created, in increasing (creation) order. |
| MemoryGame.Registry.GetTotalGames | test/MemoryGame.js:214-217 | The total equals the number of stored games. |
| MemoryGame.Registry.GetGame | test/MemoryGame.js:252-255 | `getGame` succeeds exactly for ids 1..total and otherwise reverts with "Game does not exist". On success it returns the stored record, which has its own id and attempts = found + wrong, and is completed iff all pairs are found. |
| MemoryGame.AfterMove | test/MemoryGame.js:85-106 | A matched move adds one to attempts and foundPairs. A missed move adds one to attempts and wrongAttempts. The game completes exactly when the last pair is found, and then ends at `now`. |
| MemoryGame.AfterMoveKeepsInvariant | test/MemoryGame.js:85-106 | An accepted move appended to the log preserves the game invariant. |
| MemoryGame.MoveError | test/MemoryGame.js:108-124 | A move is accepted iff the game exists, is active and is the caller's, and both indices are distinct and below gridSize². Each revert reason names a check that failed, and never "Invalid difficulty". When several checks fail, the first in the order existence, activity, ownership, distinct cards, card 1 bound, card 2 bound gives the reason. |
| MemoryGame.Registry.ValidateMove | test/MemoryGame.js:252-269 | `validateMove` reverts exactly when `MoveError` reports a reason, with that reason and no state change. Otherwise it records the move with the given indices and outcome. |
| MemoryGame.ValidateMoveEffect | test/MemoryGame.js:126-140 | An accepted move is appended to the game's log and updates the counters. It completes the game (inactive, endTime = now, `GameCompleted` after `MoveValidated`) exactly when it finds the last pair. |
| MemoryGame.ValidateMoveKeepsValid | test/MemoryGame.js:85-106 | `validateMove` preserves the registry invariant. |
| MemoryGame.ValidateMoveFrame | test/MemoryGame.js:126-140 | A move changes only its own game and log; the index and counter are unchanged. |
| MemoryGame.Registry.GetGameMoves | test/MemoryGame.js:126-140 | `getGameMoves` returns the stored log of the game. The log has one legal entry per attempt, and its matched entries number the found pairs. |
| MemoryGame.ValidateMoveLogsMove | test/MemoryGame.js:126-140 | After an accepted move, `getGameMoves` is the previous log with exactly that move (indices, outcome, block time) at its end, so moves are listed in the order made. |
| MemoryGame.TerminalGameRejectsMoves | test/MemoryGame.js:262-269 | A completed or abandoned game rejects every move with "Game is not active". |
| MemoryGame.SameCardRejected | test/MemoryGame.js:108-112 | Equal indices are rejected with "Cannot select the same card twice". |
| MemoryGame.OtherPlayerRejected | test/MemoryGame.js:120-124 | Another player's move on an active game is rejected with "Not the game player", whatever the indices. |
| MemoryGame.EasyCardBounds | test/MemoryGame.js:114-118 | On a fresh Easy game of the caller, (0, 16) is rejected with "Card2 index out of bounds", (16, 0) with "Card1 index out of bounds", and (0, 1) is accepted. |
| MemoryGame.AbandonError | test/MemoryGame.js:187-204 | Abandoning is accepted iff the game exists, is the caller's and is active. "Game does not exist" means exactly an unknown id, and "Not the game player" means exactly someone else's game. |
| MemoryGame.Registry.AbandonGame | test/MemoryGame.js:200-204 | `abandonGame` reverts exactly when `AbandonError` reports a reason, and then changes nothing. |
| MemoryGame.AbandonGameEffect | test/MemoryGame.js:187-198 | An abandoned game becomes inactive and not completed, with endTime = now. Its counters are kept, and `GameAbandoned` is logged. |
| MemoryGame.AbandonGameKeepsValid | test/MemoryGame.js:187-198 | `abandonGame` preserves the registry invariant. |
| MemoryGame.AbandonGameFrame | test/MemoryGame.js:187-198 | Abandoning changes only its own game. |
| MemoryGame.Registry.IsGameActive | test/MemoryGame.js:230-237 | `isGameActive` is true exactly for a stored active game; it is false for unknown ids. An active game has no end time and is not completed. |
| MemoryGame.Registry.GetGameDuration | test/MemoryGame.js:239-248 | An active game's duration is now − start. A finished game's is end − start. Unknown ids revert. |
| MemoryGame.DurationMonotone | test/MemoryGame.js:239-248 | The duration strictly grows with time while the game is active, and is fixed once it is over. |
| MemoryGame.DeployedValid | test/MemoryGame.js:14-17 | A freshly deployed engine satisfies the invariant. |
| MemoryGame.Engine.StartGame | test/MemoryGame.js:23 | The transaction updates the contract's fields in place as `Registry.StartGame` does, and keeps them valid. |
| MemoryGame.Engine.ValidateMove | test/MemoryGame.js:86 | The transaction updates the fields as `Registry.ValidateMove` does, and keeps them valid. |
| MemoryGame.Engine.AbandonGame | test/MemoryGame.js:188 | The transaction updates the fields as `Registry.AbandonGame` does, and keeps them valid. |
| MemoryGame.EasyStep | test/MemoryGame.js:153-155 | The move (2k, 2k+1) reported as a match is accepted and advances the completion scenario by one pair. |
| MemoryGame.PlayEasyGameToCompletion | test/MemoryGame.js:151-176 | After eight matched moves on a new Easy game, the game is completed and inactive, with 8 pairs and endTime > 0. Its log holds the eight moves in order, and `GameCompleted` was emitted. |
| PerformanceOptimizer.CardStateManager.SetCardState | frontend/src/utils/PerformanceOptimizer.js:147-149 | The card afterwards maps to its state with `lastUpdate = now`, replacing any earlier entry. Every other card keeps its entry. |
| PerformanceOptimizer.StoredFindSame | frontend/src/utils/PerformanceOptimizer.js:148 | After `Map.set(id, v)` the id maps to `v`. |
| PerformanceOptimizer.StoredFindOther | frontend/src/utils/PerformanceOptimizer.js:148 | `Map.set(id, v)` leaves every other id's value unchanged. |
| PerformanceOptimizer.StoredDistinct | frontend/src/utils/PerformanceOptimizer.js:148 | `Map.set` keeps keys unique: it replaces in place or appends. |
| PerformanceOptimizer.CardStateManager.GetCardState | frontend/src/utils/PerformanceOptimizer.js:151-153 | The result is null exactly when no entry has that id; otherwise it is that entry's value. |
| PerformanceOptimizer.FindSpec | frontend/src/utils/PerformanceOptimizer.js:152 | `Map.get` misses exactly for absent keys and otherwise returns the key's value. |
| PerformanceOptimizer.CardStateManager.IsCardAnimating | frontend/src/utils/PerformanceOptimizer.js:155-158 | The result is true iff an entry exists and its `isAnimating` is set. |
| PerformanceOptimizer.CardStateManager.ClearOldStates | frontend/src/utils/PerformanceOptimizer.js:160-167 | Walking the entries in order deletes in place exactly those with now − lastUpdate > maxAge. Every other card keeps its entry. |
| PerformanceOptimizer.CardStateManager.ClearOldStatesByDefault | frontend/src/utils/PerformanceOptimizer.js:160 | `clearOldStates()` with no argument evicts with the default age of 5000 ms. |
| PerformanceOptimizer.FindEvicted | frontend/src/utils/PerformanceOptimizer.js:160-167 | After eviction an id maps to its old value if that value is recent, and to nothing otherwise. Keys stay unique. |
| PerformanceOptimizer.SetStateExpires | frontend/src/utils/PerformanceOptimizer.js:147-167 | A state set at time t survives an eviction at `now` iff now − t ≤ maxAge; a later eviction removes it. |
| PerformanceOptimizer.EvictedIdempotent | frontend/src/utils/PerformanceOptimizer.js:160-167 | A second eviction at the same time and age removes nothing. |
| PerformanceOptimizer.CardStateManager.Clear | frontend/src/utils/PerformanceOptimizer.js:169-171 | Every card is absent afterwards. |
| PerformanceOptimizer.AnimationScheduler.constructor | frontend/src/utils/PerformanceOptimizer.js:208-211 | A new scheduler is idle, with an empty queue. |
| PerformanceOptimizer.AnimationScheduler.Schedule | frontend/src/utils/PerformanceOptimizer.js:213-218 | The callback joins the end of the history (FIFO). A running scheduler just queues it. An idle one starts and runs it at once, with one frame requested. Either way the scheduler invariant holds. |
| PerformanceOptimizer.AnimationScheduler.Start | frontend/src/utils/PerformanceOptimizer.js:220-223 | `start` marks the scheduler running and ticks once. |
| PerformanceOptimizer.AnimationScheduler.Tick | frontend/src/utils/PerformanceOptimizer.js:225-233 | A tick runs the head of the queue and requests another frame, or stops the scheduler when the queue is empty. The history is unchanged. |
| PerformanceOptimizer.AnimationScheduler.AnimationFrame | frontend/src/utils/PerformanceOptimizer.js:229 | Serving a requested frame ticks once and keeps the invariant: a running scheduler always has a frame pending. |
| PerformanceOptimizer.AnimationScheduler.Clear | frontend/src/utils/PerformanceOptimizer.js:235-238 | `clear` empties the queue and marks the scheduler idle. |
| PerformanceOptimizer.ScheduleTwoFromIdle | frontend/src/utils/PerformanceOptimizer.js:213-233 | On an idle scheduler, the first of two callbacks runs at once and the second runs at the next frame, in order. |
| PerformanceOptimizer.AnimationPerformanceMonitor.constructor | frontend/src/utils/PerformanceOptimizer.js:90-94 | A new monitor starts with zero counts at `now`. |
| PerformanceOptimizer.AnimationPerformanceMonitor.TrackAnimation | frontend/src/utils/PerformanceOptimizer.js:96-98 | Adds one animation and changes nothing else. |
| PerformanceOptimizer.AnimationPerformanceMonitor.TrackFrame | frontend/src/utils/PerformanceOptimizer.js:100-102 | Adds one frame and changes nothing else. |
| PerformanceOptimizer.MeasureSession | frontend/src/utils/PerformanceOptimizer.js:89-121 | After `reset` at t0, a calls of `trackAnimation` and f calls of `trackFrame`, `getMetrics` at t reports exactly a animations, f frames and duration t − t0. |
| PerformanceOptimizer.AnimationPerformanceMonitor.Reset | frontend/src/utils/PerformanceOptimizer.js:117-121 | `reset` zeroes both counters and restarts the clock, so the metrics read zero. |
| GameHistory.FilteredHistorySpec | frontend/src/GameHistory/GameHistory.jsx:36-38 | Filter "all" keeps every record. Any other filter keeps exactly the records of that difficulty, with their multiplicities, in their original order. |
| GameHistory.WhereAppend | frontend/src/GameHistory/GameHistory.jsx:36-38 | Filtering distributes over concatenation, so order is preserved. |
| GameHistory.WhereContents | frontend/src/GameHistory/GameHistory.jsx:68 | Filtering keeps exactly the accepted records, each as often as it occurs. |
| GameHistory.DifficultyColor | frontend/src/GameHistory/GameHistory.jsx:40-47 | Easy, Normal and Hard each get their own class string (green, yellow, red); any other value gets gray. |
| GameHistory.FormatTimeReadsBack | frontend/src/GameHistory/GameHistory.jsx:49-53 | For s ≥ 0 the text is digits, ':' and two digits. The minutes read back with seconds < 60, and minutes·60 + seconds = s. |
| GameHistory.PadStart2 | frontend/src/GameHistory/GameHistory.jsx:52 | `padStart(2, '0')` puts zeros in front until the length is at least 2 and keeps the string as its suffix. |
| GameHistory.JsRem | frontend/src/GameHistory/GameHistory.jsx:51 | JavaScript `%` is the remainder of division rounded toward zero: a = b·trunc(a/b) + r. It equals the mathematical remainder for a ≥ 0 and lies in (−b, 0] for a < 0. |
| GameHistory.RoundDiv | frontend/src/GameHistory/GameHistory.jsx:69 | `Math.round(n/d)` is the integer q with \|n/d − q\| ≤ ½, halves rounded up. |
| GameHistory.RoundDivBounds | frontend/src/GameHistory/GameHistory.jsx:76 | Rounding a quotient that lies in lo..hi stays in lo..hi. |
| GameHistory.SuccessRate | frontend/src/GameHistory/GameHistory.jsx:66-70 | The rate is 0 for an empty list. Otherwise it is the completed percentage, rounded, and it always lies in 0..100. |
| GameHistory.SuccessRateExtremes | frontend/src/GameHistory/GameHistory.jsx:66-70 | All records completed gives 100; none completed gives 0. |
| GameHistory.AverageTime | frontend/src/GameHistory/GameHistory.jsx:72-77 | The average is 0 with no completed record. Otherwise it is the rounded mean `timeTaken` of the completed records. |
| GameHistory.AverageTimeBounds | frontend/src/GameHistory/GameHistory.jsx:72-77 | The average lies between the smallest and largest completed time. |
| GameHistory.TotalTimeBounds | frontend/src/GameHistory/GameHistory.jsx:75 | The summed time lies between n·min and n·max. |
| GameHistory.StatusLabel | frontend/src/GameHistory/GameHistory.jsx:216-229 | The label is "Completed" iff completed > 0. |
| GameHistory.CompletedRuleShared | frontend/src/GameHistory/GameHistory.jsx:141 | A record is labelled "Completed" exactly when it is among the completed records that the statistics and the counter count. |
| MemoryController.RecordOf | backend/controllers/memoryController.js:10-21 | The body is rejected iff userID or gameDate is falsy, or difficulty, completed or timeTaken is undefined. An accepted body yields a record carrying exactly its six fields. |
| MemoryController.RecordOfBodyOf | backend/controllers/memoryController.js:14-21 | A record whose required fields are set is rebuilt exactly from its own body. |
| MemoryController.SaveGuardCases | backend/controllers/memoryController.js:10 | Zero pairs and zero seconds are accepted, and `failed` is optional. An empty userID or zero gameDate is rejected. |
| MemoryController.GameStore.SaveGameData | backend/controllers/memoryController.js:3-29 | The response is 400 iff a required field is missing. It is 201 iff the body is valid and the write succeeds, and then exactly that record is appended. Otherwise it is 500 and nothing is saved. |
| MemoryController.OfUserContents | backend/controllers/memoryController.js:40 | A player's records are exactly the stored records with that userID, with their multiplicities. |
| MemoryController.SaveExtendsOwnHistory | backend/controllers/memoryController.js:23 | A saved record joins only its own player's records. |
| MemoryController.SortSpec | backend/controllers/memoryController.js:42 | The sort is newest first and a permutation. |
| MemoryController.InsertOrder | backend/controllers/memoryController.js:42 | Insertion keeps a newest-first sequence newest first. |
| MemoryController.InsertContents | backend/controllers/memoryController.js:42 | Insertion adds exactly the inserted record. |
| MemoryController.Limit | backend/controllers/memoryController.js:43 | `limit(n)` is the first min(n, length) records. |
| MemoryController.NewestSelection | backend/controllers/memoryController.js:40-43 | Sort-then-limit is newest first and drawn from the input, with length min(n, length). No record left out is newer than a kept one. |
| MemoryController.PrefixSelection | backend/controllers/memoryController.js:43 | A prefix of a newest-first sequence keeps the newest records. |
| MemoryController.GameStore.GetGameHistory | backend/controllers/memoryController.js:32-54 | The reply is 400 iff userID is falsy, 500 iff userID is set but the query fails, and 200 otherwise. A 200 reply holds only that player's records, at most 50, and count = length. |
| MemoryController.SelectionOfUser | backend/controllers/memoryController.js:40 | Every record in a player's selection belongs to that player. |
| MemoryController.UserHistorySelects | backend/controllers/memoryController.js:40-48 | A player's history is their newest records, newest first, capped at 50. |
| MemoryController.GameStore.GetAllGameHistory | backend/controllers/memoryController.js:57-73 | The reply is 500 iff the query fails, otherwise 200. A 200 reply holds at most 100 records, and count = length. |
| MemoryController.GlobalHistorySelects | backend/controllers/memoryController.js:59-67 | The global history is the newest records overall, newest first, capped at 100. |
| WalletConnection.FormatAddress | frontend/src/components/WalletConnection.jsx:42-45 | A missing or empty address gives "". Otherwise the result is the first min(6, n) characters, "..." and the last min(4, n). |
| WalletConnection.FormatLongAddress | frontend/src/components/WalletConnection.jsx:44 | An address of 10 or more characters becomes 13 characters: its first six, "...", its last four. |
| WalletConnection.ShortAddressChanged | frontend/src/components/WalletConnection.jsx:44 | A non-empty address shorter than 10 characters comes back longer, never unchanged. |
| WalletConnection.NetworkName | frontend/src/components/WalletConnection.jsx:57-68 | The seven known chain ids get their fixed names. Exactly the other ids get "Chain ID: " followed by the id. |
| WalletConnection.FallbackReadsBack | frontend/src/components/WalletConnection.jsx:67 | The id after "Chain ID: " is canonical (an optional minus sign, no leading zero) and reads back as the chain id. |
| WalletConnection.NetworkNameInjective | frontend/src/components/WalletConnection.jsx:58-67 | Different chain ids get different names. |
| OptimizedCard.SizeFor | frontend/src/components/OptimizedCard.jsx:82-90 | Every preset is square. An unknown size falls back to medium. |
| OptimizedCard.SizesOrdered | frontend/src/components/OptimizedCard.jsx:84-87 | Small, medium, large and xlarge are 90, 120, 190 and 220 px wide, in strictly increasing order, and their padding never shrinks. |
| OptimizedCard.SpringFor | frontend/src/components/OptimizedCard.jsx:93-100 | "slow" gets tension 200 and friction 35, "fast" the library's stiff preset, and everything else the card-flip spring. |
| OptimizedCard.AriaLabelReadsBack | frontend/src/components/OptimizedCard.jsx:184 | The label reads back as the card id, face up iff flipped or matched, and matched iff matched. |
| OptimizedCard.StateDrivesAttributes | frontend/src/components/OptimizedCard.jsx:170-185 | The memoised card state is what is rendered: aria-pressed and the label's face-up part are `isFlipped`, the label's matched part is `isMatched`, and the card leaves the tab order iff `isDisabled`. |
| OptimizedCard.AttributesOf | frontend/src/components/OptimizedCard.jsx:161-185 | aria-pressed is flipped ∨ matched. A disabled card has opacity 0.6, pointer events "none" and tabIndex −1. An enabled one has opacity 1, pointer events "auto" and tabIndex 0. The label reads back, and the size is the preset. |
| OptimizedCard.ClickReachesHandler | frontend/src/components/OptimizedCard.jsx:125-131 | A click (once the debounce has let it through) reaches `handleClick` iff a handler exists and the card is rendered interactive (tabIndex 0, pointer events "auto"), and it then passes this card. |
| OptimizedCard.KeyActsAsClick | frontend/src/components/OptimizedCard.jsx:139-144 | Enter and Space produce exactly the outcome of a click; every other key does nothing. |
| OptimizedCard.DisabledCardInert | frontend/src/components/OptimizedCard.jsx:161-182 | A disabled card is out of the tab order and ignores the pointer, and no click or key reaches the handler. |

## Left out

- The contract's Solidity source is not part of this model. The engine is modelled from the behaviour its tests assert. Block time is the parameter `now`, and events are an abstract log.
- MemoryGame.AbandonError: abandoning a game that is already over is rejected with "Game is not active". The tests do not exercise this case, so this is a chosen policy.
- MemoryGame.Registry.GetGameDuration: durations are whole time units rather than seconds of real block time.
- `debounce`, `throttle`, `createOptimizedCardClickHandler`, `preloadImages` and `createCardIntersectionObserver` depend on timers, `Image` and IntersectionObserver. OptimizedCard.ClickOutcome models the handler after its 100 ms debounce has let a click through, with the card's current `disabled`; the debounced closure captures `disabled` when the click is made, so a click made while the card was enabled can still reach `handleClick` after it has become disabled, and that stale closure is not modelled.
- PerformanceOptimizer.AnimationPerformanceMonitor.GetMetrics: the floating-point `fps` and `animationsPerSecond` fields and the rounding of `duration` are not modelled. Times are whole milliseconds.
- PerformanceOptimizer.CardStateManager.IsCardAnimating: for a missing card the source returns `undefined`, and the model returns false. The stored state is modelled as three boolean flags rather than an arbitrary object.
- PerformanceOptimizer.AnimationScheduler.Schedule: the scheduler test expects the first callback to wait for a frame. The code runs it synchronously, and the model follows the code (`ScheduleTwoFromIdle`).
- Callbacks are opaque values. Running one appends it to a log and always returns, so a callback that throws or re-enters the scheduler is not modelled. A throwing callback skips the next `requestAnimationFrame`, which leaves the scheduler running with nothing pending and strands everything queued after it; `AnimationScheduler.Valid` holds only because modelled callbacks return normally.
- GameHistory.SuccessRate: `Math.round` is applied to the exact rational. Binary floating-point rounding at exact halves may differ.
- GameHistory.AverageTime has the same limitation as the success rate.
- `formatDate` (locale-dependent), `fetchGameHistory` (an HTTP call) and the React state hooks and rendering are not modelled. Neither are the `failed \|\| 0` and `completed \|\| 0` display fallbacks.
- MemoryController.GameStore.SaveGameData: Mongoose schema casting and the database are not modelled. The database's verdict on a write is the parameter `accepted`, and `gameDate` is a millisecond timestamp. Likewise the `answered` parameter of `GetGameHistory` and `GetAllGameHistory` stands for whether the query succeeds.
- MemoryController.SortSpec: among records with equal `gameDate` the database's order is unspecified. The model picks one order and proves only that the result is sorted and a permutation. `populate` is not modelled.
- Routing, the database connection, the deploy script, the wallet and ethers contexts, and the login and registration forms are out of scope.
- WalletConnection.FormatAddress follows the code. The component test expects short addresses unchanged, which the code does not do (`ShortAddressChanged`).
- OptimizedCard.SpringFor: the library's `config.stiff` preset is external and kept abstract. The spring animation, styled components and image loading are not modelled.
- OptimizedCard.AttributesOf: opacity is in tenths, so 0.6 is written as 6.
- Object-property lookups in the size, spring and network tables are modelled as finite maps. Inherited property names such as "toString" are not modelled.
