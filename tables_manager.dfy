/** The recipe matcher of the Phaser prototype: two assembly tables, each
    with a four-piece receipt and a progress counter. A piece delivered to a
    table either is the next one its receipt asks for, completes the receipt,
    or is wrong; completion and a wrong piece both give the table a new
    receipt and start it over.

    `Step` is what one delivery does to one table, as a value; the class
    `TablesManager` holds every table in fields and `ValidatePiece` updates
    them as `Step` says. */
module Tables {
  import opened Options
  import opened Pieces

  /** Pieces per receipt (`RECEIPT_LENGTH`). */
  const ReceiptLength: nat := 4
  /** Tables `init` creates. */
  const TableCount: nat := 2
  /** Vertical distance between tables. */
  const TableSpacing: int := 250
  /** Vertical distance from the spawn point to the first table. */
  const TableStartOffset: int := 75

  /** Alpha of a receipt picture whose piece has been delivered. */
  const Dimmed: real := 0.25
  /** Alpha of a receipt picture whose piece is still awaited. */
  const Pending: real := 1.0

  datatype EventKind = CorrectPiece | WrongPiece | AssemblyComplete

  /** What the assembly callback receives: the event and the table. */
  datatype AssemblyEvent = AssemblyEvent(kind: EventKind, tableIndex: nat)

  /** Random draws for one receipt: one index into the piece kinds per
      position. */
  predicate IsDraw(draws: seq<nat>)
  {
    |draws| == ReceiptLength && forall i :: 0 <= i < |draws| ==> draws[i] < |FactoryItemKeys|
  }

  /** A receipt: `ReceiptLength` piece kinds, repeats allowed. */
  predicate IsReceipt(r: seq<Key>)
  {
    |r| == ReceiptLength && forall i :: 0 <= i < |r| ==> r[i] in FactoryItemKeys
  }

  /** `generateRandomReceipt`, given the values its random draws produced. */
  function GenerateRandomReceipt(draws: seq<nat>): (r: seq<Key>)
    requires IsDraw(draws)
    ensures IsReceipt(r)
  {
    seq(ReceiptLength, i requires 0 <= i < ReceiptLength => FactoryItemKeys[draws[i]])
  }

  /** The position of a piece kind in `FactoryItemKeys`. */
  function KeyIndex(k: Key): (i: nat)
    requires k in FactoryItemKeys
    ensures i < |FactoryItemKeys| && FactoryItemKeys[i] == k
  {
    if k == FactoryItemKeys[0] then 0
    else if k == FactoryItemKeys[1] then 1
    else if k == FactoryItemKeys[2] then 2
    else 3
  }

  /** Every receipt, including those that repeat a kind, is what some draws
      generate: the generator reaches exactly the receipts. */
  lemma {:induction false} EveryReceiptIsGenerated(r: seq<Key>)
    requires IsReceipt(r)
    ensures exists draws :: IsDraw(draws) && GenerateRandomReceipt(draws) == r
  {
    var draws := seq(ReceiptLength, i requires 0 <= i < ReceiptLength => KeyIndex(r[i]));
    assert IsDraw(draws);
    assert GenerateRandomReceipt(draws) == r;
  }

  /** One table: its receipt and how many of its pieces have been delivered. */
  datatype Table = Table(receipt: seq<Key>, progress: nat)

  /** A table as callers observe it: a receipt, and progress short of its end. */
  predicate WellFormed(t: Table)
  {
    IsReceipt(t.receipt) && t.progress < |t.receipt|
  }

  datatype Outcome = Outcome(table: Table, event: EventKind)

  /** `validatePiece` on one table, with `next` the receipt a reset draws. */
  function Step(t: Table, key: Key, next: seq<Key>): (o: Outcome)
    requires WellFormed(t) && IsReceipt(next)
    ensures WellFormed(o.table)
    ensures o.event == CorrectPiece <==> key == t.receipt[t.progress] && t.progress + 1 < ReceiptLength
    ensures o.event == AssemblyComplete <==> key == t.receipt[t.progress] && t.progress + 1 == ReceiptLength
    ensures o.event == CorrectPiece ==> o.table == Table(t.receipt, t.progress + 1)
    ensures o.event != CorrectPiece ==> o.table == Table(next, 0)
  {
    if key == t.receipt[t.progress] then
      var progress := t.progress + 1;
      if progress == |t.receipt| then Outcome(Table(next, 0), AssemblyComplete)
      else Outcome(Table(t.receipt, progress), CorrectPiece)
    else
      Outcome(Table(next, 0), WrongPiece)
  }

  predicate AllReceipts(rs: seq<seq<Key>>)
  {
    forall i :: 0 <= i < |rs| ==> IsReceipt(rs[i])
  }

  /** Delivers `keys` to one table in order, the i-th reset drawing
      `next[i]`; gives the final table and the events fired. */
  function Feed(t: Table, keys: seq<Key>, next: seq<seq<Key>>): (r: (Table, seq<EventKind>))
    requires WellFormed(t) && |next| == |keys| && AllReceipts(next)
    ensures WellFormed(r.0) && |r.1| == |keys|
    decreases |keys|
  {
    if keys == [] then (t, [])
    else
      var o := Step(t, keys[0], next[0]);
      var rest := Feed(o.table, keys[1..], next[1..]);
      (rest.0, [o.event] + rest.1)
  }

  /** Delivering the rest of a receipt in order fires `CorrectPiece` for every
      piece but the last, then `AssemblyComplete`, and leaves the table at
      progress 0 with the receipt drawn by the completing reset. */
  lemma {:induction false} FeedingTheReceiptCompletesIt(r: seq<Key>, p: nat, next: seq<seq<Key>>)
    requires IsReceipt(r) && p < |r|
    requires |next| == |r| - p && AllReceipts(next)
    ensures Feed(Table(r, p), r[p..], next)
            == (Table(next[|next| - 1], 0), seq(|r| - p - 1, _ => CorrectPiece) + [AssemblyComplete])
    decreases |r| - p
  {
    var o := Step(Table(r, p), r[p], next[0]);
    assert r[p..][0] == r[p] && r[p..][1..] == r[p + 1..];
    if p + 1 == |r| {
      assert r[p + 1..] == [];
      assert Feed(o.table, [], next[1..]) == (o.table, []);
      assert o == Outcome(Table(next[0], 0), AssemblyComplete);
      assert Feed(Table(r, p), r[p..], next) == (o.table, [o.event] + []);
      assert seq(0, _ => CorrectPiece) == [];
      assert |next| == 1;
      assert seq(|r| - p - 1, _ => CorrectPiece) + [AssemblyComplete] == [AssemblyComplete];
      assert [o.event] + [] == [AssemblyComplete];
    } else {
      FeedingTheReceiptCompletesIt(r, p + 1, next[1..]);
      var rest := Feed(Table(r, p + 1), r[p + 1..], next[1..]);
      assert o.table == Table(r, p + 1) && o.event == CorrectPiece;
      assert Feed(Table(r, p), r[p..], next) == (rest.0, [CorrectPiece] + rest.1);
      assert next[1..][|next[1..]| - 1] == next[|next| - 1];
      var corrects := seq(|r| - p - 2, _ => CorrectPiece);
      assert [CorrectPiece] + corrects == seq(|r| - p - 1, _ => CorrectPiece);
      assert [CorrectPiece] + (corrects + [AssemblyComplete]) == ([CorrectPiece] + corrects) + [AssemblyComplete];
    }
  }

  /** The alpha of each receipt picture for a table at `progress`. */
  function Projection(progress: nat, n: nat): seq<real>
  {
    seq(n, i => if i < progress then Dimmed else Pending)
  }

  function CountDimmed(alphas: seq<real>): nat
  {
    if alphas == [] then 0
    else CountDimmed(alphas[..|alphas| - 1]) + (if alphas[|alphas| - 1] == Dimmed then 1 else 0)
  }

  /** The projection dims exactly `progress` pictures, the first ones. */
  lemma {:induction false} DimmedCountIsProgress(progress: nat, n: nat)
    requires progress <= n
    ensures CountDimmed(Projection(progress, n)) == progress
    ensures forall i :: 0 <= i < n ==> (Projection(progress, n)[i] == Dimmed <==> i < progress)
  {
    if n > 0 {
      var front := Projection(progress, n)[..n - 1];
      if progress == n {
        assert front == Projection(progress - 1, n - 1);
        DimmedCountIsProgress(progress - 1, n - 1);
      } else {
        assert front == Projection(progress, n - 1);
        DimmedCountIsProgress(progress, n - 1);
      }
    }
  }

  class TablesManager {
    /** The hook's y coordinate for each table. */
    var hookYPositions: seq<int>
    var tableReceipts: seq<seq<Key>>
    var tableProgress: seq<nat>
    /** The alpha of each receipt picture, table by table. */
    var receiptAlphas: seq<seq<real>>
    /** Whether an assembly callback has been registered. */
    var hasCallback: bool

    /** Every per-table list has one entry per table. */
    ghost predicate Shaped()
      reads this
    {
      && |tableProgress| == |tableReceipts|
      && |receiptAlphas| == |tableReceipts|
      && |hookYPositions| == |tableReceipts|
    }

    ghost predicate Valid()
      reads this
    {
      && Shaped()
      && forall t :: 0 <= t < |tableReceipts| ==>
           && WellFormed(Table(tableReceipts[t], tableProgress[t]))
           && receiptAlphas[t] == Projection(tableProgress[t], |tableReceipts[t]|)
    }

    /** Table `t` as a value. */
    function TableAt(t: nat): Table
      reads this
      requires Shaped() && t < |tableReceipts|
    {
      Table(tableReceipts[t], tableProgress[t])
    }

    constructor ()
      ensures Valid()
      ensures tableReceipts == [] && tableProgress == [] && receiptAlphas == [] && hookYPositions == []
      ensures !hasCallback
    {
      hookYPositions, tableReceipts, tableProgress, receiptAlphas := [], [], [], [];
      hasCallback := false;
    }

    /** `init`: sets up `TableCount` tables, each with a receipt drawn from
        `draws`, no progress, fully opaque pictures and a hook position. */
    method Init(spawnX: int, spawnY: int, draws: seq<seq<nat>>)
      requires tableReceipts == [] && tableProgress == [] && receiptAlphas == [] && hookYPositions == []
      requires |draws| == TableCount && forall i :: 0 <= i < |draws| ==> IsDraw(draws[i])
      modifies this
      ensures Valid()
      ensures tableReceipts == [GenerateRandomReceipt(draws[0]), GenerateRandomReceipt(draws[1])]
      ensures tableProgress == [0, 0]
      ensures hookYPositions == [spawnY + TableStartOffset, spawnY + TableStartOffset + TableSpacing]
      ensures hasCallback == old(hasCallback)
    {
      var tableStartY := spawnY + TableStartOffset;
      for i := 0 to TableCount
        invariant |tableReceipts| == i && Shaped()
        invariant forall j :: 0 <= j < i ==>
          && tableReceipts[j] == GenerateRandomReceipt(draws[j])
          && tableProgress[j] == 0
          && receiptAlphas[j] == Projection(0, ReceiptLength)
          && hookYPositions[j] == tableStartY + j * TableSpacing
        invariant hasCallback == old(hasCallback)
      {
        var tableY := tableStartY + i * TableSpacing;
        tableReceipts := tableReceipts + [GenerateRandomReceipt(draws[i])];
        tableProgress := tableProgress + [0];
        receiptAlphas := receiptAlphas + [Projection(0, |tableReceipts[i]|)];
        hookYPositions := hookYPositions + [tableY];
      }
    }

    /** `registerAssemblyCallback`. */
    method RegisterAssemblyCallback()
      modifies this
      ensures hasCallback
      ensures tableReceipts == old(tableReceipts) && tableProgress == old(tableProgress)
      ensures receiptAlphas == old(receiptAlphas) && hookYPositions == old(hookYPositions)
    {
      hasCallback := true;
    }

    /** `updateReceiptVisuals`: dims the pictures of the delivered pieces of
        table `t` and shows the others fully. */
    method UpdateReceiptVisuals(t: nat)
      requires Shaped() && t < |tableReceipts|
      modifies this
      ensures tableReceipts == old(tableReceipts) && tableProgress == old(tableProgress)
      ensures receiptAlphas == old(receiptAlphas)[t := Projection(tableProgress[t], |old(receiptAlphas)[t]|)]
      ensures hookYPositions == old(hookYPositions) && hasCallback == old(hasCallback)
    {
      var progress := tableProgress[t];
      var visuals := receiptAlphas[t];
      for index := 0 to |visuals|
        invariant |visuals| == |receiptAlphas[t]|
        invariant forall i :: 0 <= i < index ==> visuals[i] == if i < progress then Dimmed else Pending
      {
        if index < progress {
          visuals := visuals[index := Dimmed];
        } else {
          visuals := visuals[index := Pending];
        }
      }
      assert visuals == Projection(progress, |visuals|);
      receiptAlphas := receiptAlphas[t := visuals];
    }

    /** `resetTable`: a new receipt, no progress, fully opaque pictures. */
    method ResetTable(t: nat, draws: seq<nat>)
      requires Shaped() && t < |tableReceipts| && IsDraw(draws)
      modifies this
      ensures Shaped()
      ensures tableReceipts == old(tableReceipts)[t := GenerateRandomReceipt(draws)]
      ensures tableProgress == old(tableProgress)[t := 0]
      ensures receiptAlphas == old(receiptAlphas)[t := Projection(0, ReceiptLength)]
      ensures hookYPositions == old(hookYPositions) && hasCallback == old(hasCallback)
    {
      tableReceipts := tableReceipts[t := GenerateRandomReceipt(draws)];
      tableProgress := tableProgress[t := 0];
      receiptAlphas := receiptAlphas[t := Projection(0, |tableReceipts[t]|)];
    }

    /** `validatePiece`: checks `pieceKey` against what table `t` expects
        next, updates that table as `Step` says (a reset draws its receipt
        from `draws`) and returns the event passed to the callback, if one
        is registered. */
    method ValidatePiece(t: nat, pieceKey: Key, draws: seq<nat>) returns (fired: Option<AssemblyEvent>)
      requires Valid() && t < |tableReceipts| && IsDraw(draws)
      modifies this
      ensures Valid()
      ensures var o := Step(old(TableAt(t)), pieceKey, GenerateRandomReceipt(draws));
        && tableReceipts == old(tableReceipts)[t := o.table.receipt]
        && tableProgress == old(tableProgress)[t := o.table.progress]
        && fired == (if hasCallback then Some(AssemblyEvent(o.event, t)) else None)
      ensures hookYPositions == old(hookYPositions) && hasCallback == old(hasCallback)
    {
      var receipt := tableReceipts[t];
      var progress := tableProgress[t];
      if pieceKey == receipt[progress] {
        tableProgress := tableProgress[t := progress + 1];
        UpdateReceiptVisuals(t);
        if tableProgress[t] == |receipt| {
          fired := if hasCallback then Some(AssemblyEvent(AssemblyComplete, t)) else None;
          ResetTable(t, draws);
        } else {
          fired := if hasCallback then Some(AssemblyEvent(CorrectPiece, t)) else None;
        }
      } else {
        fired := if hasCallback then Some(AssemblyEvent(WrongPiece, t)) else None;
        ResetTable(t, draws);
      }
    }
  }
}
