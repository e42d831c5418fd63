/** The session rules of the Phaser prototype's game scene: a piece is
    spawned on the conveyor belt at a rate that rises with the number of
    pieces spawned, each spawn costs money, the hook moves between the
    tables and pushes the piece it overlaps most onto the table it faces,
    and the table's verdict is charged to the ledger.

    Tweens become explicit steps: `PushPieceToTable` starts the hook's
    forward motion, `HookAdvanceComplete` is what runs when it ends and
    `HookReturnComplete` what runs when the hook is back. `RecyclePiece` is
    what runs when a piece's conveyor or transfer motion ends. Geometry
    arrives as integers, one per active piece in `getActivePieces` order:
    the pieces' y coordinates and their overlap areas with the hook. */
module Game {
  import opened Options
  import opened ArrayOps
  import opened Pieces
  import opened Tables
  import opened Score

  /** Where pieces are spawned. */
  const SpawnX: int := 200
  const SpawnY: int := 125
  /** Piece size plus a threshold: how far below the spawn point every
      active piece must be before the next one appears. */
  const MinSpacing: int := 60
  /** What each spawned piece costs. */
  const SpawnCost: int := 100
  /** The spawn delay the session starts with, in milliseconds. */
  const InitialSpawnDelay: nat := 3000

  /** The spawn delay, in milliseconds, once `piecesSpawned` pieces have
      been spawned: a step function that speeds the game up. */
  function SpawnDelay(piecesSpawned: nat): (d: nat)
    ensures 1000 <= d <= 2750
    ensures d == 2750 <==> piecesSpawned <= 15
    ensures d == 1000 <==> piecesSpawned > 100
  {
    if piecesSpawned <= 15 then 2750
    else if piecesSpawned <= 25 then 2500
    else if piecesSpawned <= 50 then 2250
    else if piecesSpawned <= 75 then 1750
    else if piecesSpawned <= 100 then 1500
    else 1000
  }

  /** Spawning more pieces never slows the game down. */
  lemma SpawnDelayNonIncreasing(a: nat, b: nat)
    requires a <= b
    ensures SpawnDelay(b) <= SpawnDelay(a)
  {
  }

  /** The delay is below the initial 3000 from the first spawn on, so the
      first call to `updateSpawnRate` always re-arms the timer. */
  lemma FirstSpawnRearms()
    ensures SpawnDelay(1) == 2750 != InitialSpawnDelay
    ensures forall n: nat :: SpawnDelay(n) < InitialSpawnDelay
  {
  }

  /** `moveHookUp` on the index. */
  function HookUp(index: nat): (r: nat)
    ensures index > 0 ==> r == index - 1
    ensures index == 0 ==> r == 0
  {
    if index > 0 then index - 1 else index
  }

  /** `moveHookDown` on the index, with `positions` hook positions. */
  function HookDown(index: nat, positions: nat): (r: nat)
    ensures index + 1 < positions ==> r == index + 1
    ensures index + 1 >= positions ==> r == index
  {
    if index < positions - 1 then index + 1 else index
  }

  /** Both moves keep the index on a hook position, and each undoes the
      other away from the bounds. */
  lemma HookMovesStayInRange(index: nat, positions: nat)
    requires index < positions
    ensures HookUp(index) < positions && HookDown(index, positions) < positions
    ensures index + 1 < positions ==> HookUp(HookDown(index, positions)) == index
    ensures index > 0 ==> HookDown(HookUp(index), positions) == index
  {
  }

  /** Selection by overlap: position `k` of the active list holds the
      piece with the largest positive overlap, and it is the first such
      piece (only a strictly larger area replaces the current choice). */
  predicate IsSelection(areas: seq<int>, k: nat)
  {
    && k < |areas|
    && areas[k] > 0
    && (forall j :: 0 <= j < k ==> areas[j] < areas[k])
    && (forall j :: k < j < |areas| ==> areas[j] <= areas[k])
  }

  /** There is at most one selection. */
  lemma SelectionIsUnique(areas: seq<int>, a: nat, b: nat)
    requires IsSelection(areas, a) && IsSelection(areas, b)
    ensures a == b
  {
  }

  /** The search in the hook's advance callback: the position of the piece
      with the largest positive overlap area, the earliest one on a tie,
      and nothing when no area is positive. */
  method SelectMaxOverlap(areas: seq<int>) returns (selected: Option<nat>)
    ensures selected.None? <==> forall j :: 0 <= j < |areas| ==> areas[j] <= 0
    ensures selected.Some? ==> IsSelection(areas, selected.value)
  {
    var maxOverlap := 0;
    selected := None;
    for i := 0 to |areas|
      invariant selected.None? ==> maxOverlap == 0 && forall j :: 0 <= j < i ==> areas[j] <= 0
      invariant selected.Some? ==>
        && selected.value < i
        && maxOverlap == areas[selected.value] > 0
        && (forall j :: 0 <= j < selected.value ==> areas[j] < maxOverlap)
        && (forall j :: selected.value < j < i ==> areas[j] <= maxOverlap)
    {
      if areas[i] > maxOverlap {
        maxOverlap := areas[i];
        selected := Some(i);
      }
    }
  }

  /** `handleAssemblyEvent` on the ledger: a wrong piece is penalised, a
      completed assembly rewarded, a correct piece changes nothing. */
  function Route(l: Ledger, kind: EventKind): (r: Ledger)
    ensures kind == CorrectPiece ==> r == l
    ensures r.gameOver == l.gameOver
    ensures r.piecesAssembled == l.piecesAssembled + (if kind == AssemblyComplete && !l.gameOver then 1 else 0)
    ensures kind == WrongPiece && !l.gameOver ==> r.money == l.money - WastePenalty(l.piecesAssembled) <= l.money - 2500
    ensures kind == AssemblyComplete && !l.gameOver ==> r.money == l.money + 5000
  {
    match kind
    case CorrectPiece => l
    case WrongPiece => AfterPenalty(l)
    case AssemblyComplete => AfterAssembly(l)
  }

  /** Where the hook is in a push: at rest, moving to the belt, or moving
      back. */
  datatype HookMotion = Idle | Advancing | Returning

  /** What one tick of the spawn timer did. `GameOver` carries the final
      score the scene stores before it ends. */
  datatype SpawnOutcome = Skipped | GameOver(finalScore: int) | Spawned(piece: Option<nat>)

  class Game1 {
    const piecesPool: PiecesPool
    const tablesManager: TablesManager
    const scoreManager: ScoreManager
    /** The hook's y coordinate for each table, copied from the tables. */
    var hookYPositions: seq<int>
    var hookIndex: nat
    var hookBusy: bool
    var hookMotion: HookMotion
    var piecesSpawned: nat
    /** The delay of the spawn timer. */
    var spawnDelay: nat

    ghost predicate Valid()
      reads this, piecesPool, tablesManager, scoreManager
    {
      && piecesPool.Valid()
      && piecesPool.Length() == |FactoryItemKeys| * MaxSize
      && tablesManager.Valid()
      && tablesManager.hasCallback
      && |tablesManager.tableReceipts| == TableCount
      && hookYPositions == tablesManager.hookYPositions
      && hookIndex < |hookYPositions|
      && (hookBusy <==> hookMotion != Idle)
    }

    /** The scene's field defaults followed by `create`: a fresh ledger,
        two tables whose receipts come from `draws`, the callback, the hook
        positions and a full pool of pieces. */
    constructor (draws: seq<seq<nat>>)
      requires |draws| == TableCount && forall i :: 0 <= i < |draws| ==> IsDraw(draws[i])
      ensures Valid()
      ensures scoreManager.State() == Initial()
      ensures tablesManager.tableReceipts == [GenerateRandomReceipt(draws[0]), GenerateRandomReceipt(draws[1])]
      ensures tablesManager.tableProgress == [0, 0]
      ensures hookYPositions == [200, 450]
      ensures piecesPool.pieces == Batch(FactoryItemKeys) && piecesPool.lastPieceKey == ""
      ensures piecesPool.availablePieces == Ids(0, |FactoryItemKeys| * MaxSize)
      ensures hookIndex == 0 && !hookBusy && hookMotion == Idle
      ensures piecesSpawned == 0 && spawnDelay == InitialSpawnDelay
    {
      scoreManager := new ScoreManager();
      tablesManager := new TablesManager();
      piecesPool := new PiecesPool();
      hookIndex := 0;
      hookBusy := false;
      hookMotion := Idle;
      piecesSpawned := 0;
      spawnDelay := InitialSpawnDelay;
      hookYPositions := [];
      new;
      tablesManager.Init(SpawnX, SpawnY, draws);
      tablesManager.RegisterAssemblyCallback();
      hookYPositions := tablesManager.hookYPositions;
      piecesPool.Init();
    }

    /** `updateSpawnRate`: sets the delay from `piecesSpawned`; `rearmed`
        says whether the timer was replaced, which happens exactly when the
        delay changed. */
    method UpdateSpawnRate() returns (rearmed: bool)
      modifies this
      ensures spawnDelay == SpawnDelay(piecesSpawned)
      ensures rearmed <==> SpawnDelay(piecesSpawned) != old(spawnDelay)
      ensures piecesSpawned == old(piecesSpawned) && hookYPositions == old(hookYPositions)
      ensures hookIndex == old(hookIndex) && hookBusy == old(hookBusy) && hookMotion == old(hookMotion)
    {
      var delay := SpawnDelay(piecesSpawned);
      rearmed := false;
      if delay != spawnDelay {
        spawnDelay := delay;
        rearmed := true;
      }
    }

    /** `spawnPiece`: spawns a piece at the spawn point, as the pool's
        `spawn` does. */
    method SpawnPiece(roll: nat) returns (piece: Option<nat>)
      requires piecesPool.Valid()
      requires piecesPool.availablePieces != [] ==> roll < piecesPool.CandidateCount()
      modifies piecesPool
      ensures piecesPool.Valid() && piecesPool.Length() == old(piecesPool.Length())
      ensures piece.None? <==> old(piecesPool.availablePieces) == []
      ensures piece.None? ==>
        && piecesPool.pieces == old(piecesPool.pieces)
        && piecesPool.availablePieces == old(piecesPool.availablePieces)
        && piecesPool.lastPieceKey == old(piecesPool.lastPieceKey)
      ensures piece.Some? ==>
        SpawnedAt(old(piecesPool.pieces), old(piecesPool.availablePieces), old(piecesPool.lastPieceKey), roll, SpawnX, SpawnY,
                piece.value, piecesPool.pieces, piecesPool.availablePieces, piecesPool.lastPieceKey)
    {
      piece := piecesPool.Spawn(SpawnX, SpawnY, roll);
    }

    /** `trySpawnPiece`, one tick of the spawn timer; `ys` holds the y
        coordinate of each active piece. A spawn needs every active piece
        to be more than `MinSpacing` below the spawn point. A balance that
        would not stay positive after paying ends the game; otherwise the
        piece is spawned and paid for, and counted, even when the pool had
        no piece to give. */
    method TrySpawnPiece(ys: seq<int>, roll: nat) returns (outcome: SpawnOutcome)
      requires Valid()
      requires |ys| == |piecesPool.ActivePieces()|
      requires piecesPool.availablePieces != [] ==> roll < piecesPool.CandidateCount()
      modifies this, piecesPool, scoreManager
      ensures Valid()
      ensures hookIndex == old(hookIndex) && hookBusy == old(hookBusy) && hookMotion == old(hookMotion)
      ensures var canSpawn := (forall i :: 0 <= i < |ys| ==> ys[i] > SpawnY + MinSpacing) && old(piecesPool.Length()) > 0;
        && (!canSpawn || old(scoreManager.money) - SpawnCost <= 0 ==>
              && outcome == (if canSpawn then GameOver(old(scoreManager.money)) else Skipped)
              && scoreManager.State() == old(scoreManager.State())
              && piecesPool.pieces == old(piecesPool.pieces)
              && piecesPool.availablePieces == old(piecesPool.availablePieces)
              && piecesPool.lastPieceKey == old(piecesPool.lastPieceKey)
              && piecesSpawned == old(piecesSpawned) && spawnDelay == old(spawnDelay))
        && (canSpawn && old(scoreManager.money) - SpawnCost > 0 ==>
              && outcome.Spawned?
              && (outcome.piece.None? <==> old(piecesPool.availablePieces) == [])
              && (outcome.piece.None? ==>
                    && piecesPool.pieces == old(piecesPool.pieces)
                    && piecesPool.availablePieces == old(piecesPool.availablePieces)
                    && piecesPool.lastPieceKey == old(piecesPool.lastPieceKey))
              && (outcome.piece.Some? ==>
                    SpawnedAt(old(piecesPool.pieces), old(piecesPool.availablePieces), old(piecesPool.lastPieceKey), roll,
                            SpawnX, SpawnY, outcome.piece.value,
                            piecesPool.pieces, piecesPool.availablePieces, piecesPool.lastPieceKey))
              && scoreManager.State() == AfterDecrease(old(scoreManager.State()), SpawnCost)
              && scoreManager.money > 0
              && piecesSpawned == old(piecesSpawned) + 1
              && spawnDelay == SpawnDelay(piecesSpawned))
    {
      var canSpawn := forall i :: 0 <= i < |ys| ==> ys[i] > SpawnY + MinSpacing;
      if canSpawn && piecesPool.Length() > 0 {
        if scoreManager.GetMoney() - SpawnCost <= 0 {
          outcome := GameOver(scoreManager.GetMoney());
        } else {
          var piece := SpawnPiece(roll);
          scoreManager.DecreaseMoney(SpawnCost);
          piecesSpawned := piecesSpawned + 1;
          var _ := UpdateSpawnRate();
          outcome := Spawned(piece);
        }
      } else {
        outcome := Skipped;
      }
    }

    /** `moveHookUp`: one table up unless at the first; `hookBusy` is not
        consulted. */
    method MoveHookUp()
      requires Valid()
      modifies this
      ensures Valid()
      ensures hookIndex == HookUp(old(hookIndex))
      ensures hookBusy == old(hookBusy) && hookMotion == old(hookMotion)
      ensures piecesSpawned == old(piecesSpawned) && spawnDelay == old(spawnDelay)
    {
      if hookIndex > 0 {
        hookIndex := hookIndex - 1;
      }
    }

    /** `moveHookDown`: one table down unless at the last; `hookBusy` is
        not consulted. */
    method MoveHookDown()
      requires Valid()
      modifies this
      ensures Valid()
      ensures hookIndex == HookDown(old(hookIndex), |hookYPositions|)
      ensures hookBusy == old(hookBusy) && hookMotion == old(hookMotion)
      ensures piecesSpawned == old(piecesSpawned) && spawnDelay == old(spawnDelay)
    {
      if hookIndex < |hookYPositions| - 1 {
        hookIndex := hookIndex + 1;
      }
    }

    /** The y coordinate the hook sits at. */
    function HookY(): (y: int)
      reads this, piecesPool, tablesManager, scoreManager
      requires Valid()
      ensures y in tablesManager.hookYPositions
    {
      hookYPositions[hookIndex]
    }

    /** `pushPieceToTable`: ignored while the hook is busy; otherwise marks
        the hook busy and starts its forward motion. */
    method PushPieceToTable()
      requires Valid()
      modifies this
      ensures Valid()
      ensures old(hookBusy) ==> hookBusy && hookMotion == old(hookMotion)
      ensures !old(hookBusy) ==> hookBusy && hookMotion == Advancing
      ensures hookIndex == old(hookIndex) && piecesSpawned == old(piecesSpawned) && spawnDelay == old(spawnDelay)
    {
      if hookBusy {
        return;
      }
      hookBusy := true;
      hookMotion := Advancing;
    }

    /** `handleAssemblyEvent`, the callback the tables call. */
    method HandleAssemblyEvent(event: AssemblyEvent)
      modifies scoreManager
      ensures scoreManager.State() == Route(old(scoreManager.State()), event.kind)
    {
      match event.kind
      case CorrectPiece =>
      case WrongPiece => scoreManager.PenaltyForWaste();
      case AssemblyComplete => scoreManager.AssemblyCompleted();
    }

    /** The end of the hook's forward motion: picks the active piece with
        the largest overlap (`areas`, one per active piece), has the table
        the hook faces validate its kind (a reset draws from `draws`),
        routes the verdict to the ledger, and starts the return motion.
        Returns the piece pushed, if any; the host recycles it when its
        transfer ends. */
    method HookAdvanceComplete(areas: seq<int>, draws: seq<nat>) returns (pushed: Option<nat>)
      requires Valid() && hookMotion == Advancing
      requires |areas| == |piecesPool.ActivePieces()| && IsDraw(draws)
      modifies this, tablesManager, scoreManager
      ensures Valid()
      ensures hookBusy && hookMotion == Returning
      ensures hookIndex == old(hookIndex) && piecesSpawned == old(piecesSpawned) && spawnDelay == old(spawnDelay)
      ensures hookYPositions == old(hookYPositions)
      ensures pushed.None? <==> forall j :: 0 <= j < |areas| ==> areas[j] <= 0
      ensures pushed.None? ==>
        && tablesManager.tableReceipts == old(tablesManager.tableReceipts)
        && tablesManager.tableProgress == old(tablesManager.tableProgress)
        && scoreManager.State() == old(scoreManager.State())
      ensures pushed.Some? ==>
        && (exists k: nat :: IsSelection(areas, k) && k < |piecesPool.ActivePieces()| && pushed.value == piecesPool.ActivePieces()[k])
        && pushed.value < |piecesPool.pieces|
        && var o := Step(old(tablesManager.TableAt(hookIndex)), piecesPool.pieces[pushed.value].key, GenerateRandomReceipt(draws));
           && tablesManager.tableReceipts == old(tablesManager.tableReceipts)[hookIndex := o.table.receipt]
           && tablesManager.tableProgress == old(tablesManager.tableProgress)[hookIndex := o.table.progress]
           && scoreManager.State() == Route(old(scoreManager.State()), o.event)
    {
      var active := piecesPool.ActivePieces();
      var selected := SelectMaxOverlap(areas);
      pushed := None;
      if selected.Some? {
        var id := active[selected.value];
        var targetTableIndex := hookIndex;
        var pieceKey := piecesPool.pieces[id].key;
        var fired := tablesManager.ValidatePiece(targetTableIndex, pieceKey, draws);
        HandleAssemblyEvent(fired.value);
        pushed := Some(id);
      }
      hookMotion := Returning;
    }

    /** The end of the hook's return motion: the hook is free again. */
    method HookReturnComplete()
      requires Valid() && hookMotion == Returning
      modifies this
      ensures Valid()
      ensures !hookBusy && hookMotion == Idle
      ensures hookIndex == old(hookIndex) && piecesSpawned == old(piecesSpawned) && spawnDelay == old(spawnDelay)
    {
      hookBusy := false;
      hookMotion := Idle;
    }

    /** `recyclePiece`: hands the piece back to the pool. */
    method RecyclePiece(id: nat)
      requires Valid() && id < |piecesPool.pieces|
      modifies piecesPool
      ensures Valid()
      ensures piecesPool.pieces == old(piecesPool.pieces)[id := Parked(old(piecesPool.pieces)[id].key)]
      ensures piecesPool.availablePieces == old(piecesPool.availablePieces) + [id]
      ensures piecesPool.lastPieceKey == old(piecesPool.lastPieceKey)
      ensures id !in piecesPool.ActivePieces()
    {
      piecesPool.Despawn(id);
    }
  }
}
