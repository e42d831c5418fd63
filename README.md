# sm-factory simulation core in Dafny

sm-factory is an assembly-line arcade game. Pieces of four kinds travel down
a conveyor belt. The player moves a hook between two tables and pushes the
piece under the hook onto the table it faces. Each table holds a receipt of
four piece kinds that must be delivered in order:

- a correct piece advances the table;
- the fourth correct piece completes an assembly, which is rewarded;
- a wrong piece throws the table's progress away and is penalised.

Every spawned piece costs money. The game ends when a spawn would leave the
balance at zero or below.

This project models the engine-independent logic of the game's two
prototypes, one module per source component:

| module | file | models |
|---|---|---|
| `ArrayOps` | array_ops.dfy | the JavaScript `indexOf`, `splice(i, 1)` and "remove the first occurrence" idioms both pools use |
| `Pieces` | pieces_pool.dfy | the Phaser piece pool: 4 kinds × 10 pieces, an available list, a random draw that avoids repeating the last kind |
| `Prefabs` | object_pool.dfy | the Cocos prefab pool: a free list per prefab that grows on demand, an ordered list of active objects and a tick-driven create/remove cycle |
| `Tables` | tables_manager.dfy | the recipe matcher: two tables with receipts and progress, `validatePiece` as a state machine, and the dimmed/pending projection of the receipt pictures |
| `Score` | score_manager.dfy | the money ledger |
| `Game` | game.dfy | the scene's session rules: spawn rate, spawn guard and cost, hook moves, the hook-busy guard, max-overlap selection and routing of table events to the ledger |

`Options` (option.dfy) is the usual `Option` datatype.

Each stateful component is a class whose methods update its fields in
place. Each method is specified against a function on values:

- `Score.Ledger` with `AfterDecrease` and the other ledger functions;
- `Tables.Step` for one delivery to one table, and `Tables.Projection` for the picture alphas;
- `Pieces.Candidates` and `Pieces.ActiveIds` for the pool queries;
- `ArrayOps.RemoveFirst` for list removal.

Properties that span several calls are lemmas about those functions. For
example, feeding a table its own receipt completes one assembly, and no
sequence of ledger calls ever sets `gameOver`.

Objects the source handles by reference are identified by their index:

- a piece (or a Cocos node) is its position in the append-only list of all
  pieces (nodes) created;
- the available list, the active list and the free lists hold these indices.

Things the game gets from the engine arrive as parameters:

- the random choices: `roll` and `pick` indices, and receipt `draws` of key indices;
- the y coordinates of the active pieces;
- the overlap area of each active piece with the hook, in `getActivePieces` order.

Tweens become explicit steps:

- `PushPieceToTable` starts the hook's motion;
- `HookAdvanceComplete` and `HookReturnComplete` are the two tween completions;
- `RecyclePiece` is what runs when a piece's belt or transfer motion ends.

## Model

| member | source | states |
|---|---|---|
| ArrayOps.IndexOf | assets/src/ObjectPool.ts:59 | -1 exactly when the value is absent; otherwise a position holding the value with no earlier occurrence |
| ArrayOps.Splice | assets/src/ObjectPool.ts:60 | `splice(i, 1)`: one element shorter, the prefix kept, the suffix shifted down by one, the multiset loses exactly that element |
| ArrayOps.RemoveFirst | prototype/src/components/PiecesPool.ts:51-54 | removes exactly one copy of the value when present (length down 1, multiset minus that value), and is the identity when absent |
| ArrayOps.FirstOccurrence | assets/src/ObjectPool.ts:111-118 | a first occurrence found by a linear search is the `indexOf` answer |
| Pieces.Batch | prototype/src/components/PiecesPool.ts:15-31 | `init`'s pieces: `MaxSize` per key, every one parked (inactive at -100, -100) with a key from the list |
| Pieces.CountKeyBatch | prototype/src/components/PiecesPool.ts:17-18 | each key occurs `MaxSize` times per occurrence in the key list |
| Pieces.InitialBatchShape | prototype/src/components/PiecesPool.ts:15-31 | after `init`: exactly 40 pieces, 10 of each of the 4 kinds, none active, so `getActivePieces` is empty |
| Pieces.NoneActive | prototype/src/components/PiecesPool.ts:95-97 | with no active piece the active list is empty |
| Pieces.WithoutKey | prototype/src/components/PiecesPool.ts:41 | the filter: an id is kept exactly when it is available and its kind differs from the last key |
| Pieces.Candidates | prototype/src/components/PiecesPool.ts:40-44 | empty exactly when the available list is empty; every candidate is available; avoids the last kind whenever some available piece has another kind; otherwise the whole available list |
| Pieces.CandidatesDrawnFromAvailable | prototype/src/components/PiecesPool.ts:40-44 | the filtered list and the candidate list are drawn from the available list: no id occurs in them more often than it is available |
| Pieces.ActiveIds | prototype/src/components/PiecesPool.ts:95-97 | `getActivePieces`: exactly the indices of active pieces, in strictly increasing (creation) order |
| Pieces.PiecesPool.constructor | prototype/src/components/PiecesPool.ts:9-13 | no pieces, nothing available, last key "" |
| Pieces.PiecesPool.Init | prototype/src/components/PiecesPool.ts:15-31 | appends `Batch` of the four keys and makes all 40 new pieces available, in creation order |
| Pieces.PiecesPool.GetRandomPiece | prototype/src/components/PiecesPool.ts:34-60 | none exactly when nothing is available; otherwise the candidate at the rolled index, removed once from the available list (length down 1), last key set to its kind, a different kind from the last one whenever one is available |
| Pieces.PiecesPool.Spawn | prototype/src/components/PiecesPool.ts:63-80 | the drawn piece becomes active at (x, y) and nothing else changes; with nothing available the pool is untouched; the pool never grows |
| Pieces.PiecesPool.Despawn | prototype/src/components/PiecesPool.ts:82-92 | the piece is parked and inactive and is appended to the available list with no membership check, so its count there grows by one each time |
| Score.Initial | prototype/src/components/ScoreManager.ts:7-9 | money 10000, no assemblies, not over |
| Score.AfterDecrease | prototype/src/components/ScoreManager.ts:23-28 | money down by exactly the amount, with no clamping; a no-op once over |
| Score.AfterIncrease | prototype/src/components/ScoreManager.ts:30-35 | money up by exactly the amount; a no-op once over |
| Score.AfterPenalty | prototype/src/components/ScoreManager.ts:37-42 | money down by assemblies × 100 + 2500, assemblies unchanged; a no-op once over |
| Score.AfterAssembly | prototype/src/components/ScoreManager.ts:44-49 | one more assembly and 5000 more money; a no-op once over |
| Score.NeverOver | prototype/src/components/ScoreManager.ts:5 | no sequence of ledger calls sets `gameOver` |
| Score.FrozenWhenOver | prototype/src/components/ScoreManager.ts:23-49 | once `gameOver` holds, every sequence of calls leaves the ledger unchanged |
| Score.AssembledCountsAssemblies | prototype/src/components/ScoreManager.ts:44-49 | the assembly count never decreases and, while the game runs, grows by exactly the number of `assemblyCompleted` calls |
| Score.PenaltyScales | prototype/src/components/ScoreManager.ts:37-42 | each assembly raises the waste penalty by 100 (2800 after three), and an assembly followed by a waste nets 5000 minus the raised penalty |
| Score.ScoreManager.constructor | prototype/src/components/ScoreManager.ts:7-9 | the fields hold the initial ledger |
| Score.ScoreManager.DecreaseMoney | prototype/src/components/ScoreManager.ts:23-28 | the fields change as `AfterDecrease` says |
| Score.ScoreManager.IncreaseMoney | prototype/src/components/ScoreManager.ts:30-35 | the fields change as `AfterIncrease` says |
| Score.ScoreManager.PenaltyForWaste | prototype/src/components/ScoreManager.ts:37-42 | the fields change as `AfterPenalty` says |
| Score.ScoreManager.AssemblyCompleted | prototype/src/components/ScoreManager.ts:44-49 | the fields change as `AfterAssembly` says |
| Tables.GenerateRandomReceipt | prototype/src/components/TablesManager.ts:127-132 | length 4, every element one of the four piece keys, repeats allowed |
| Tables.EveryReceiptIsGenerated | prototype/src/components/TablesManager.ts:127-132 | every length-4 sequence of piece keys is some draw's receipt |
| Tables.Step | prototype/src/components/TablesManager.ts:92-110 | correct piece exactly when the key is the expected one and progress + 1 < 4 (progress up by one, receipt kept); assembly complete exactly when it is expected and the last one; otherwise wrong piece; both of the latter reset to the new receipt with progress 0; progress stays below the receipt length |
| Tables.Feed | prototype/src/components/TablesManager.ts:92-110 | a run of deliveries keeps the table well formed and yields one event per delivery |
| Tables.FeedingTheReceiptCompletesIt | prototype/src/components/TablesManager.ts:96-102 | delivering the rest of the receipt in order gives correct-piece events and then one assembly-complete, leaving a fresh receipt with progress 0 |
| Tables.DimmedCountIsProgress | prototype/src/components/TablesManager.ts:76-86 | position i of the projection is dimmed exactly when i < progress, so exactly `progress` pictures are dimmed |
| Tables.TablesManager.constructor | prototype/src/components/TablesManager.ts:9-20 | no tables and no callback |
| Tables.TablesManager.Init | prototype/src/components/TablesManager.ts:22-39 | two tables with generated receipts and progress 0, fully opaque pictures, hook positions spawnY + 75 and spawnY + 325 |
| Tables.TablesManager.RegisterAssemblyCallback | prototype/src/components/TablesManager.ts:69-71 | a callback is registered; nothing else changes |
| Tables.TablesManager.UpdateReceiptVisuals | prototype/src/components/TablesManager.ts:76-87 | the table's alphas become the projection of its progress; nothing else changes |
| Tables.TablesManager.ResetTable | prototype/src/components/TablesManager.ts:115-125 | only that table changes: a new receipt, progress 0, fully opaque pictures |
| Tables.TablesManager.ValidatePiece | prototype/src/components/TablesManager.ts:92-110 | only the given table changes, as `Step` says; exactly one event with that table index reaches the callback when one is registered |
| Prefabs.Clones | assets/src/ObjectPool.ts:25-35 | `poolSize` clones of each prefab, all inactive, every one named after a prefab |
| Prefabs.CloneAt | assets/src/ObjectPool.ts:25-35 | clone j of prefab p sits at position p × poolSize + j of `Clones` |
| Prefabs.FreeListsHoldClones | assets/src/ObjectPool.ts:25-35 | the layout `initPool` builds gives each prefab a free list of exactly `poolSize` new nodes, each an inactive clone of that prefab |
| Prefabs.ObjectPool.constructor | assets/src/ObjectPool.ts:7-18 | no nodes, no free lists, no active objects, both timers 0 |
| Prefabs.ObjectPool.InitPool | assets/src/ObjectPool.ts:25-35 | appends the clones of every prefab in order; each prefab's free list becomes exactly `poolSize` of the new nodes, each an inactive clone of that prefab; the active list and the timers are untouched |
| Prefabs.ObjectPool.FillFreeList | assets/src/ObjectPool.ts:27-34 | one prefab's new free list of `poolSize` fresh inactive clones |
| Prefabs.ObjectPool.GetObject | assets/src/ObjectPool.ts:38-51 | pops the last free node of the chosen prefab, or clones a new one when its list is empty; the object becomes active and is appended to the active list |
| Prefabs.ObjectPool.GetPrefabType | assets/src/ObjectPool.ts:111-118 | the first prefab with the object's name, none exactly when no prefab has it |
| Prefabs.ObjectPool.ReleaseObject | assets/src/ObjectPool.ts:54-63 | always deactivates; when a prefab of its name exists, removes its first occurrence from the active list and pushes it on that prefab's free list without a duplicate check |
| Prefabs.ObjectPool.ReturnToPool | assets/src/ObjectPool.ts:58-62 | the first occurrence of the object leaves the active list and the object is pushed on the prefab's free list; nothing else changes |
| Prefabs.ObjectPool.Update | assets/src/ObjectPool.ts:66-88 | both timers grow by dt; one object is acquired exactly when the create timer reaches 2 (and that timer resets), popping the chosen prefab's free list or cloning it when that list is empty; the oldest active object is released exactly when the remove timer reaches 4 and the active list is not empty (and that timer resets), deactivated and pushed on its prefab's free list; the clones and free lists between the two halves are stated |
| Prefabs.ObjectPool.CreateStep | assets/src/ObjectPool.ts:70-81 | acquires exactly one object as `getObject` does (popped from the chosen prefab's free list, or a new clone when that list is empty; active and appended to the active list) exactly when the create timer has reached 2, and then restarts that timer; otherwise nothing changes |
| Prefabs.ObjectPool.RemoveStep | assets/src/ObjectPool.ts:83-87 | releases the head of the active list exactly when the remove timer has reached 4 and the list is not empty: it leaves the list, becomes inactive and is pushed on the free list of its prefab; the timer then restarts; otherwise nothing changes |
| Prefabs.ObjectPool.GetRandomObjectForLevel | assets/src/ObjectPool.ts:121-125 | exactly what `GetObject` does, whatever the level |
| Game.SpawnDelay | prototype/src/scenes/Game1.ts:110-124 | the delay lies in 1000..2750; it is 2750 exactly up to 15 pieces and 1000 exactly beyond 100 |
| Game.SpawnDelayNonIncreasing | prototype/src/scenes/Game1.ts:110-124 | the delay never grows as pieces are spawned |
| Game.FirstSpawnRearms | prototype/src/scenes/Game1.ts:23 | every computed delay is below the initial 3000, so the first update re-arms the timer |
| Game.HookUp | prototype/src/scenes/Game1.ts:164-169 | one up unless already at 0 |
| Game.HookDown | prototype/src/scenes/Game1.ts:171-176 | one down unless already at the last position |
| Game.HookMovesStayInRange | prototype/src/scenes/Game1.ts:164-176 | both moves keep the index on a hook position and undo each other away from the bounds |
| Game.SelectionIsUnique | prototype/src/scenes/Game1.ts:190-207 | at most one position is the first strictly largest positive overlap |
| Game.SelectMaxOverlap | prototype/src/scenes/Game1.ts:190-207 | nothing exactly when no area is positive; otherwise the first position whose area is positive and is the largest |
| Game.Route | prototype/src/scenes/Game1.ts:248-262 | correct piece leaves the ledger alone; wrong piece costs the waste penalty (at least 2500); assembly complete adds one assembly and 5000 |
| Game.Game1.constructor | prototype/src/scenes/Game1.ts:16-67 | a new ledger, two tables with generated receipts and the callback registered, hook positions 200 and 450 with the hook idle at the first, the pool holding `Batch` of the four keys (40 parked pieces, none active, by `InitialBatchShape`) with all 40 available in creation order, no pieces spawned, delay 3000 |
| Game.Game1.UpdateSpawnRate | prototype/src/scenes/Game1.ts:110-137 | the delay becomes `SpawnDelay` of the pieces spawned; the timer is re-armed exactly when that differs from the current delay |
| Game.Game1.SpawnPiece | prototype/src/scenes/Game1.ts:150-162 | spawns at (200, 125) as the pool's `Spawn` says: the rolled candidate becomes active there, leaves the available list once and sets the last kind, of another kind than the last whenever one is available; nothing changes when no piece is available |
| Game.Game1.TrySpawnPiece | prototype/src/scenes/Game1.ts:92-108 | skipped unless every active piece is more than 60 below the spawn point; game over with the balance as final score, and nothing changed, when money − 100 ≤ 0; otherwise 100 is charged, the count and the delay updated, the balance stays positive, even when no piece was available; the spawned piece, if any, is drawn and placed at (200, 125) as `SpawnPiece` says; without a spawn the pool, including the last kind, is untouched |
| Game.Game1.MoveHookUp | prototype/src/scenes/Game1.ts:164-169 | the index moves as `HookUp` says and stays in range; the busy flag is neither consulted nor changed |
| Game.Game1.MoveHookDown | prototype/src/scenes/Game1.ts:171-176 | the index moves as `HookDown` says and stays in range; the busy flag is neither consulted nor changed |
| Game.Game1.HookY | prototype/src/scenes/Game1.ts:167 | the hook is always at one of the tables' hook positions |
| Game.Game1.PushPieceToTable | prototype/src/scenes/Game1.ts:178-188 | a no-op while busy; otherwise marks the hook busy and starts its forward motion |
| Game.Game1.HandleAssemblyEvent | prototype/src/scenes/Game1.ts:248-262 | the ledger changes as `Route` says |
| Game.Game1.HookAdvanceComplete | prototype/src/scenes/Game1.ts:189-239 | pushes nothing exactly when no overlap is positive, and then neither tables nor ledger change; otherwise pushes the selected active piece, validates its kind once at the current hook table as `Step` says, and routes the event to the ledger; the hook starts back, still busy, at the same position |
| Game.Game1.HookReturnComplete | prototype/src/scenes/Game1.ts:235-237 | the hook is idle and no longer busy |
| Game.Game1.RecyclePiece | prototype/src/scenes/Game1.ts:244-246 | the piece is despawned: parked, appended to the available list, no longer active; the last kind drawn is kept for the next draw |

## Left out

- Rendering is left out: sprites, scaling, alphas other than the receipt projection, table layout, the money text and console logging.
- Tweens, their durations and Phaser/Cocos timer objects are not modelled. They become the explicit steps above, and the spawn timer is its stored delay.
- Physics and geometry are not modelled: overlap tests, rectangle intersections, bounds, gravity and rigid bodies. Positions during a tween, overlap areas and piece y coordinates arrive as integer inputs.
- Randomness is not modelled: `Phaser.Math.Between` and `Math.random` become index parameters constrained to their ranges.
- `getRandomScreenPosition` and the object's position in `update` are left out. That code is float math whose result is a constant anyway.
- Prefabs.ObjectPool.Update: `dt` is whole ticks rather than a float number of seconds.
- Prefabs.ObjectPool.GetObject: requires `pick < |prefabs|`, and so does `Update` when a creation is due. So an empty prefab list is excluded. In the source that case throws, because `prefabs[0]` is undefined and `pool.get(undefined).pop()` fails (assets/src/ObjectPool.ts:39-40, 105-108).
- Prefabs.ObjectPool.ReleaseObject: only nodes the pool made can be released, and every one of them is named after a prefab. So the source's "prefab not found" branch, though stated, is never taken.
- The Cocos `Map` is keyed by prefab position, not by prefab node.
- Game.Game1.TrySpawnPiece: the game-over path returns the final score. The registry write and the transition to the GameOver scene are not modelled.
- Game.Game1.HookReturnComplete: requires the return motion to be under way, which is the tween order the engine guarantees.
- Game.Game1.constructor: the scene's `create` runs once, on fresh components.
- Tables.TablesManager.Init: requires a manager with no tables yet, as the scene uses it.
- `getTables`, `getHookYPositions` and `getTableReceipts` are plain field reads; the fields are read directly.
- `ScoreManager.getMoney` and `PiecesPool.getLength` are plain field reads and have no contract of their own.
- `ScoreManager.gameOver` is never assigned, so its initial value is modelled as false, which is how the source reads it.
- `prototype/src/scenes/Preloader.ts` and `assets/src/MainController.ts` are not part of this model. They are asset loading and empty engine stubs.
