/** The piece pool of the Phaser prototype: a fixed set of pieces, four kinds
    of ten, created once and then lent out and taken back.

    A piece is an object in the game; here its identity is its position in
    `pieces`, the list of every piece ever created, which only grows. The
    lists that hold piece references (`availablePieces`, the result of
    `ActivePieces`) hold these positions. */
module Pieces {
  import opened Options
  import opened ArrayOps

  /** A piece kind is the texture key the piece was created with. */
  type Key = string

  /** The piece kinds, in the order `init` creates them. */
  const FactoryItemKeys: seq<Key> := ["piece1", "piece2", "piece3", "piece4"]

  /** Pieces created per kind. */
  const MaxSize: nat := 10

  /** Both coordinates of a parked (off-screen) piece. */
  const OffScreen: int := -100

  datatype Piece = Piece(key: Key, active: bool, x: int, y: int)

  /** A piece of the given kind that is inactive and parked off-screen. */
  function Parked(key: Key): Piece
  {
    Piece(key, false, OffScreen, OffScreen)
  }

  /** The pieces that `init` creates for the given kinds, kind after kind,
      `MaxSize` of each. */
  function Batch(keys: seq<Key>): (b: seq<Piece>)
    ensures |b| == |keys| * MaxSize
    ensures forall j :: 0 <= j < |b| ==> b[j].key in keys && b[j] == Parked(b[j].key)
  {
    if keys == [] then []
    else
      var b := Batch(keys[..|keys| - 1]) + seq(MaxSize, _ => Parked(keys[|keys| - 1]));
      assert forall j :: 0 <= j < |b| ==> b[j].key in keys by {
        forall j | 0 <= j < |b| ensures b[j].key in keys {
          if j < (|keys| - 1) * MaxSize {
            assert b[j].key in keys[..|keys| - 1];
          }
        }
      }
      b
  }

  /** The number of pieces of kind `k`. */
  function CountKey(ps: seq<Piece>, k: Key): nat
  {
    if ps == [] then 0
    else CountKey(ps[..|ps| - 1], k) + (if ps[|ps| - 1].key == k then 1 else 0)
  }

  lemma {:induction false} CountKeyAppend(a: seq<Piece>, b: seq<Piece>, k: Key)
    ensures CountKey(a + b, k) == CountKey(a, k) + CountKey(b, k)
  {
    if b == [] {
      assert a + b == a;
    } else {
      assert (a + b)[..|a + b| - 1] == a + b[..|b| - 1];
      CountKeyAppend(a, b[..|b| - 1], k);
    }
  }

  lemma {:induction false} CountKeyUniform(ps: seq<Piece>, key: Key, k: Key)
    requires forall j :: 0 <= j < |ps| ==> ps[j].key == key
    ensures CountKey(ps, k) == if key == k then |ps| else 0
  {
    if ps != [] {
      CountKeyUniform(ps[..|ps| - 1], key, k);
    }
  }

  /** Every kind occurs in `Batch(keys)` `MaxSize` times for each time it
      occurs in `keys`. */
  lemma {:induction false} CountKeyBatch(keys: seq<Key>, k: Key)
    ensures CountKey(Batch(keys), k) == MaxSize * multiset(keys)[k]
  {
    if keys != [] {
      var front, last := keys[..|keys| - 1], keys[|keys| - 1];
      assert keys == front + [last];
      var block := seq(MaxSize, _ => Parked(last));
      CountKeyAppend(Batch(front), block, k);
      CountKeyUniform(block, last, k);
      CountKeyBatch(front, k);
    }
  }

  /** The pool `init` builds: 40 pieces, ten of each of the four kinds, all
      inactive and parked off-screen. */
  lemma InitialBatchShape()
    ensures |Batch(FactoryItemKeys)| == 40
    ensures forall j :: 0 <= j < 40 ==> !Batch(FactoryItemKeys)[j].active
    ensures forall k :: k in FactoryItemKeys ==> CountKey(Batch(FactoryItemKeys), k) == MaxSize
    ensures ActiveIds(Batch(FactoryItemKeys)) == []
  {
    NoneActive(Batch(FactoryItemKeys));
    forall k | k in FactoryItemKeys
      ensures CountKey(Batch(FactoryItemKeys), k) == MaxSize
    {
      CountKeyBatch(FactoryItemKeys, k);
      assert multiset(FactoryItemKeys)[k] == 1 by {
        assert "piece1" != "piece2" && "piece1" != "piece3" && "piece1" != "piece4";
        assert "piece2" != "piece3" && "piece2" != "piece4" && "piece3" != "piece4";
      }
    }
  }

  /** `availablePieces.filter(piece => piece.texture.key !== last)`. */
  function WithoutKey(ps: seq<Piece>, ids: seq<nat>, last: Key): (r: seq<nat>)
    requires IdsBelow(ids, |ps|)
    ensures IdsBelow(r, |ps|)
    ensures |r| <= |ids|
    ensures forall id :: id in r <==> id in ids && id < |ps| && ps[id].key != last
  {
    if ids == [] then []
    else
      var rest := WithoutKey(ps, ids[1..], last);
      assert forall id :: id in ids <==> id == ids[0] || id in ids[1..];
      if ps[ids[0]].key != last then [ids[0]] + rest else rest
  }

  /** The list `getRandomPiece` draws from: the available pieces of another
      kind than the last one drawn, or, when there is none, all of them. */
  function Candidates(ps: seq<Piece>, ids: seq<nat>, last: Key): (r: seq<nat>)
    requires IdsBelow(ids, |ps|)
    ensures IdsBelow(r, |ps|)
    ensures |r| == 0 <==> |ids| == 0
    ensures forall id :: id in r ==> id in ids
    ensures (exists id :: id in ids && id < |ps| && ps[id].key != last) ==>
              forall id :: id in r ==> ps[id].key != last
    ensures (forall id :: id in ids ==> id < |ps| && ps[id].key == last) ==> r == ids
  {
    var filtered := WithoutKey(ps, ids, last);
    assert |ids| > 0 ==> ids[0] in ids;
    assert |filtered| > 0 ==> filtered[0] in filtered;
    if |filtered| > 0 then filtered else ids
  }

  /** The candidates are drawn from the available list: no id occurs more
      often among them than it is available. */
  lemma {:induction false} CandidatesDrawnFromAvailable(ps: seq<Piece>, ids: seq<nat>, last: Key)
    requires IdsBelow(ids, |ps|)
    ensures multiset(WithoutKey(ps, ids, last)) <= multiset(ids)
    ensures multiset(Candidates(ps, ids, last)) <= multiset(ids)
  {
    if ids != [] {
      CandidatesDrawnFromAvailable(ps, ids[1..], last);
      assert ids == [ids[0]] + ids[1..];
    }
  }

  /** The identities of the active pieces, in the order the pieces were
      created. */
  function ActiveIds(ps: seq<Piece>): (r: seq<nat>)
    ensures IdsBelow(r, |ps|)
    ensures forall i: nat :: i in r <==> i < |ps| && ps[i].active
    ensures forall a, b :: 0 <= a < b < |r| ==> r[a] < r[b]
  {
    if ps == [] then []
    else
      var n := |ps| - 1;
      var front := ActiveIds(ps[..n]);
      assert forall i: nat :: i < n ==> ps[..n][i] == ps[i];
      front + (if ps[n].active then [n] else [])
  }

  /** With no active piece, `getActivePieces` is empty. */
  lemma {:induction false} NoneActive(ps: seq<Piece>)
    requires forall j :: 0 <= j < |ps| ==> !ps[j].active
    ensures ActiveIds(ps) == []
  {
    if ps != [] {
      NoneActive(ps[..|ps| - 1]);
    }
  }

  /** What `spawn` at (x, y) does when a piece is available, from
      (`ps0`, `avail0`, `last0`) to (`ps1`, `avail1`, `last1`): the piece at
      position `roll` of the candidate list, `id`, becomes active at (x, y),
      leaves the available list once and gives the last kind; it is of
      another kind than the last one whenever an available piece is. */
  ghost predicate SpawnedAt(ps0: seq<Piece>, avail0: seq<nat>, last0: Key, roll: nat, x: int, y: int, id: nat,
                          ps1: seq<Piece>, avail1: seq<nat>, last1: Key)
  {
    && IdsBelow(avail0, |ps0|)
    && roll < |Candidates(ps0, avail0, last0)|
    && id == Candidates(ps0, avail0, last0)[roll]
    && id < |ps0|
    && ps1 == ps0[id := Piece(ps0[id].key, true, x, y)]
    && avail1 == RemoveFirst(avail0, id)
    && |avail1| == |avail0| - 1
    && last1 == ps0[id].key
    && ((exists j :: j in avail0 && j < |ps0| && ps0[j].key != last0) ==> ps0[id].key != last0)
  }

  class PiecesPool {
    /** Every piece created, in creation order; the identity of a piece is
        its index here. */
    var pieces: seq<Piece>
    /** The kind of the piece drawn last; "" before the first draw. */
    var lastPieceKey: Key
    /** The pieces handed back and not yet drawn again. */
    var availablePieces: seq<nat>

    ghost predicate Valid()
      reads this
    {
      IdsBelow(availablePieces, |pieces|)
    }

    constructor ()
      ensures Valid()
      ensures pieces == [] && availablePieces == [] && lastPieceKey == ""
    {
      pieces, lastPieceKey, availablePieces := [], "", [];
    }

    /** `init`: creates `MaxSize` parked pieces of each kind and makes all of
        them available. */
    method Init()
      requires Valid()
      modifies this
      ensures Valid()
      ensures pieces == old(pieces) + Batch(FactoryItemKeys)
      ensures availablePieces == old(availablePieces) + Ids(|old(pieces)|, |FactoryItemKeys| * MaxSize)
      ensures lastPieceKey == old(lastPieceKey)
    {
      ghost var base := |pieces|;
      for k := 0 to |FactoryItemKeys|
        invariant pieces == old(pieces) + Batch(FactoryItemKeys[..k])
        invariant availablePieces == old(availablePieces) + Ids(base, k * MaxSize)
        invariant lastPieceKey == old(lastPieceKey)
        invariant Valid()
      {
        var pieceKey := FactoryItemKeys[k];
        for i := 0 to MaxSize
          invariant pieces == old(pieces) + Batch(FactoryItemKeys[..k]) + seq(i, _ => Parked(pieceKey))
          invariant availablePieces == old(availablePieces) + Ids(base, k * MaxSize + i)
          invariant lastPieceKey == old(lastPieceKey)
          invariant Valid()
        {
          var id := |pieces|;
          pieces := pieces + [Parked(pieceKey)];
          availablePieces := availablePieces + [id];
          assert Ids(base, k * MaxSize + i + 1) == Ids(base, k * MaxSize + i) + [id];
          assert seq(i + 1, _ => Parked(pieceKey)) == seq(i, _ => Parked(pieceKey)) + [Parked(pieceKey)];
        }
        assert FactoryItemKeys[..k + 1][..k] == FactoryItemKeys[..k];
      }
      assert FactoryItemKeys[..|FactoryItemKeys|] == FactoryItemKeys;
    }

    /** The number of pieces the next draw chooses among. */
    function CandidateCount(): nat
      reads this
      requires Valid()
    {
      |Candidates(pieces, availablePieces, lastPieceKey)|
    }

    /** `getRandomPiece`: draws the piece at position `roll` of the candidate
        list (the random index), takes it out of the available list and
        remembers its kind. */
    method GetRandomPiece(roll: nat) returns (piece: Option<nat>)
      requires Valid()
      requires availablePieces != [] ==> roll < CandidateCount()
      modifies this
      ensures Valid() && pieces == old(pieces)
      ensures piece.None? <==> old(availablePieces) == []
      ensures piece.None? ==> availablePieces == old(availablePieces) && lastPieceKey == old(lastPieceKey)
      ensures piece.Some? ==>
        var id := piece.value;
        && id < |pieces|
        && id == Candidates(pieces, old(availablePieces), old(lastPieceKey))[roll]
        && id in old(availablePieces)
        && availablePieces == RemoveFirst(old(availablePieces), id)
        && |availablePieces| == |old(availablePieces)| - 1
        && multiset(availablePieces) == multiset(old(availablePieces)) - multiset{id}
        && lastPieceKey == pieces[id].key
        && ((exists j :: j in old(availablePieces) && j < |pieces| && pieces[j].key != old(lastPieceKey))
              ==> pieces[id].key != old(lastPieceKey))
    {
      if availablePieces == [] {
        return None;
      }
      var piecesToChooseFrom := Candidates(pieces, availablePieces, lastPieceKey);
      var id := piecesToChooseFrom[roll];
      assert id in piecesToChooseFrom;
      var indexInAvailable := IndexOf(availablePieces, id);
      if indexInAvailable > -1 {
        availablePieces := Splice(availablePieces, indexInAvailable);
      }
      lastPieceKey := pieces[id].key;
      piece := Some(id);
    }

    /** `spawn`: draws a piece and, when there is one, activates it at
        (x, y). */
    method Spawn(x: int, y: int, roll: nat) returns (piece: Option<nat>)
      requires Valid()
      requires availablePieces != [] ==> roll < CandidateCount()
      modifies this
      ensures Valid() && |pieces| == |old(pieces)|
      ensures piece.None? <==> old(availablePieces) == []
      ensures piece.None? ==>
        pieces == old(pieces) && availablePieces == old(availablePieces) && lastPieceKey == old(lastPieceKey)
      ensures piece.Some? ==>
        SpawnedAt(old(pieces), old(availablePieces), old(lastPieceKey), roll, x, y, piece.value,
                pieces, availablePieces, lastPieceKey)
    {
      piece := GetRandomPiece(roll);
      if piece.None? {
        return;
      }
      var id := piece.value;
      pieces := pieces[id := Piece(pieces[id].key, true, x, y)];
    }

    /** `despawn`: deactivates the piece, parks it off-screen and appends it
        to the available list, whether or not it is already there. */
    method Despawn(id: nat)
      requires Valid() && id < |pieces|
      modifies this
      ensures Valid()
      ensures pieces == old(pieces)[id := Parked(old(pieces)[id].key)]
      ensures availablePieces == old(availablePieces) + [id]
      ensures multiset(availablePieces)[id] == multiset(old(availablePieces))[id] + 1
      ensures lastPieceKey == old(lastPieceKey)
    {
      pieces := pieces[id := Parked(pieces[id].key)];
      availablePieces := availablePieces + [id];
    }

    /** `getActivePieces`. */
    function ActivePieces(): (r: seq<nat>)
      reads this
    {
      ActiveIds(pieces)
    }

    /** `getLength`. */
    function Length(): nat
      reads this
    {
      |pieces|
    }
  }
}
