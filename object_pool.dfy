/** The prefab object pool of the Cocos prototype: one free list per prefab,
    filled with `poolSize` clones at load time, an ordered list of the
    objects in play, and a per-frame update that takes one object out every
    `CreateInterval` ticks and returns the oldest one every `RemoveInterval`
    ticks.

    A node is an object in the scene; here its identity is its position in
    `nodes`, the list of every clone ever made, which only grows. Prefab `p`
    is the prefab at position `p` of `prefabs`, and the pool's map is keyed
    by that position. */
module Prefabs {
  import opened Options
  import opened ArrayOps

  /** A clone of a prefab: the name it was cloned with and whether it is
      active. */
  datatype Node = Node(name: string, active: bool)

  /** Ticks between two creations (`createInterval`). */
  const CreateInterval: nat := 2
  /** Ticks between two removals (`removeInterval`). */
  const RemoveInterval: nat := 4

  /** The clones `initPool` makes: `size` inactive clones of each prefab,
      prefab after prefab. */
  function Clones(prefabs: seq<string>, size: nat): (r: seq<Node>)
    ensures |r| == |prefabs| * size
    ensures forall j :: 0 <= j < |r| ==> r[j].name in prefabs && !r[j].active
  {
    if prefabs == [] then []
    else
      var n := |prefabs| - 1;
      var front := Clones(prefabs[..n], size);
      assert |front| + size == |prefabs| * size;
      assert forall j :: 0 <= j < |front| ==> front[j].name in prefabs by {
        forall j | 0 <= j < |front| ensures front[j].name in prefabs {
          assert front[j].name in prefabs[..n];
        }
      }
      front + seq(size, _ => Node(prefabs[n], false))
  }

  /** Clone j of prefab p sits at position p * size + j of `Clones`. */
  lemma {:induction false} CloneAt(prefabs: seq<string>, size: nat, p: nat, j: nat)
    requires p < |prefabs| && j < size
    ensures p * size + j < |Clones(prefabs, size)|
    ensures Clones(prefabs, size)[p * size + j] == Node(prefabs[p], false)
  {
    var n := |prefabs| - 1;
    var front := Clones(prefabs[..n], size);
    var block := seq(size, _ => Node(prefabs[n], false));
    assert Clones(prefabs, size) == front + block;
    if p < n {
      CloneAt(prefabs[..n], size, p, j);
      EarlierBlock(p, n, size, j);
      assert prefabs[..n][p] == prefabs[p];
    } else {
      assert (front + block)[|front| + j] == block[j];
    }
  }

  /** Position j of block p comes before block n when p < n. */
  lemma {:induction false} EarlierBlock(p: nat, n: nat, size: nat, j: nat)
    requires p < n && j < size
    ensures p * size + j < n * size
  {
    assert n * size == (n - 1) * size + size;
    if p < n - 1 {
      EarlierBlock(p, n - 1, size, j);
    }
  }

  /** The free lists `initPool` leaves: prefab p's list is the `size`
      nodes numbered from |before| + p * size, and each of them is, in
      `all`, an inactive clone of p. */
  predicate FreeListsOfClones(before: seq<Node>, all: seq<Node>, prefabs: seq<string>, size: nat, pool: map<nat, seq<nat>>)
  {
    forall p :: 0 <= p < |prefabs| ==>
      && p in pool
      && pool[p] == Ids(|before| + p * size, size)
      && forall j :: 0 <= j < size ==> pool[p][j] < |all| && all[pool[p][j]] == Node(prefabs[p], false)
  }

  /** The layout `initPool` builds gives every prefab a free list of its
      own inactive clones. */
  lemma FreeListsHoldClones(before: seq<Node>, all: seq<Node>, prefabs: seq<string>, size: nat, pool: map<nat, seq<nat>>)
    requires all == before + Clones(prefabs, size)
    requires forall p :: 0 <= p < |prefabs| ==> p in pool && pool[p] == Ids(|before| + p * size, size)
    ensures FreeListsOfClones(before, all, prefabs, size, pool)
  {
    var clones := Clones(prefabs, size);
    forall p, j | 0 <= p < |prefabs| && 0 <= j < size
      ensures pool[p][j] < |all| && all[pool[p][j]] == Node(prefabs[p], false)
    {
      CloneAt(prefabs, size, p, j);
      var at := p * size + j;
      assert pool[p][j] == |before| + at;
      assert all[|before| + at] == clones[at];
    }
  }

  /** What handing out `obj` from prefab `pick` does to the clones and the
      free lists, from (`nodes0`, `pool0`) to (`nodes1`, `pool1`): the last
      node of the prefab's free list is popped, or, when that list is empty,
      a new clone of the prefab is made; either way the object ends active. */
  ghost predicate Handout(prefabs: seq<string>, nodes0: seq<Node>, pool0: map<nat, seq<nat>>, pick: nat, obj: nat,
                          nodes1: seq<Node>, pool1: map<nat, seq<nat>>)
  {
    && pick < |prefabs| && pick in pool0
    && obj < |nodes1| && nodes1[obj].active
    && var free := pool0[pick];
       && (free != [] ==>
             && obj == free[|free| - 1]
             && obj < |nodes0|
             && pool1 == pool0[pick := free[..|free| - 1]]
             && nodes1 == nodes0[obj := nodes0[obj].(active := true)])
       && (free == [] ==>
             && obj == |nodes0|
             && pool1 == pool0
             && nodes1 == nodes0 + [Node(prefabs[pick], true)])
  }

  /** What handing `obj` back does to the clones and the free lists, from
      (`nodes0`, `pool0`) to (`nodes1`, `pool1`), when a prefab of its name
      exists: the object is deactivated and pushed on the free list of the
      first such prefab. */
  ghost predicate Handback(prefabs: seq<string>, nodes0: seq<Node>, pool0: map<nat, seq<nat>>, obj: nat,
                           nodes1: seq<Node>, pool1: map<nat, seq<nat>>)
  {
    && obj < |nodes0|
    && nodes1 == nodes0[obj := nodes0[obj].(active := false)]
    && var p := IndexOf(prefabs, nodes0[obj].name);
       && 0 <= p < |prefabs| && p in pool0
       && pool1 == pool0[p := pool0[p] + [obj]]
  }

  class ObjectPool {
    /** The prefabs' names, in the order of the `prefabs` property. */
    const prefabs: seq<string>
    /** Clones made per prefab at load time. */
    const poolSize: nat
    /** Every clone made so far, in creation order. */
    var nodes: seq<Node>
    /** The free list of each prefab. */
    var pool: map<nat, seq<nat>>
    /** The objects handed out and not yet released, oldest first. */
    var activeObjects: seq<nat>
    var createTimer: nat
    var removeTimer: nat

    ghost predicate Valid()
      reads this
    {
      && (forall p :: p in pool ==> p < |prefabs| && IdsBelow(pool[p], |nodes|))
      && IdsBelow(activeObjects, |nodes|)
      && forall id :: 0 <= id < |nodes| ==> nodes[id].name in prefabs
    }

    /** Every prefab has a free list (what `initPool` establishes). */
    ghost predicate Loaded()
      reads this
    {
      forall p :: 0 <= p < |prefabs| ==> p in pool
    }

    constructor (prefabs: seq<string>, poolSize: nat)
      ensures Valid()
      ensures this.prefabs == prefabs && this.poolSize == poolSize
      ensures nodes == [] && pool == map[] && activeObjects == []
      ensures createTimer == 0 && removeTimer == 0
    {
      this.prefabs := prefabs;
      this.poolSize := poolSize;
      nodes, pool, activeObjects := [], map[], [];
      createTimer, removeTimer := 0, 0;
    }

    /** `initPool`: gives every prefab a new free list of `poolSize` fresh,
        inactive clones of it. */
    method InitPool()
      requires Valid()
      modifies this
      ensures Valid() && Loaded()
      ensures nodes == old(nodes) + Clones(prefabs, poolSize)
      ensures FreeListsOfClones(old(nodes), nodes, prefabs, poolSize, pool)
      ensures activeObjects == old(activeObjects)
      ensures createTimer == old(createTimer) && removeTimer == old(removeTimer)
    {
      ghost var base := |nodes|;
      for k := 0 to |prefabs|
        invariant Valid()
        invariant nodes == old(nodes) + Clones(prefabs[..k], poolSize)
        invariant forall p :: 0 <= p < k ==> p in pool && pool[p] == Ids(base + p * poolSize, poolSize)
        invariant activeObjects == old(activeObjects)
        invariant createTimer == old(createTimer) && removeTimer == old(removeTimer)
      {
        assert |nodes| == base + k * poolSize;
        FillFreeList(k);
        assert prefabs[..k + 1][..k] == prefabs[..k];
      }
      assert prefabs[..|prefabs|] == prefabs;
      FreeListsHoldClones(old(nodes), nodes, prefabs, poolSize, pool);
    }

    /** One round of `initPool`'s loop over the prefabs: a new free list for
        prefab `p`, filled with `poolSize` fresh inactive clones of it. */
    method FillFreeList(p: nat)
      requires Valid() && p < |prefabs|
      modifies this
      ensures Valid()
      ensures nodes == old(nodes) + seq(poolSize, _ => Node(prefabs[p], false))
      ensures pool == old(pool)[p := Ids(|old(nodes)|, poolSize)]
      ensures activeObjects == old(activeObjects)
      ensures createTimer == old(createTimer) && removeTimer == old(removeTimer)
    {
      pool := pool[p := []];
      for i := 0 to poolSize
        invariant Valid()
        invariant nodes == old(nodes) + seq(i, _ => Node(prefabs[p], false))
        invariant pool == old(pool)[p := Ids(|old(nodes)|, i)]
        invariant activeObjects == old(activeObjects)
        invariant createTimer == old(createTimer) && removeTimer == old(removeTimer)
      {
        var obj := |nodes|;
        nodes := nodes + [Node(prefabs[p], false)];
        assert Ids(|old(nodes)|, i + 1) == Ids(|old(nodes)|, i) + [obj];
        assert seq(i + 1, _ => Node(prefabs[p], false)) == seq(i, _ => Node(prefabs[p], false)) + [Node(prefabs[p], false)];
        pool := pool[p := pool[p] + [obj]];
      }
    }

    /** What `getObject` leaves behind when it hands out `obj` from prefab
        `pick`, given the pool's lists before the call. */
    ghost predicate Acquired(nodes0: seq<Node>, pool0: map<nat, seq<nat>>, active0: seq<nat>, pick: nat, obj: nat)
      reads this
    {
      && Handout(prefabs, nodes0, pool0, pick, obj, nodes, pool)
      && activeObjects == active0 + [obj]
    }

    /** `getObject`, with `pick` the prefab the random draw chose: pops that
        prefab's free list, or clones the prefab when the list is empty, and
        appends the object, now active, to the active list. */
    method GetObject(pick: nat) returns (obj: nat)
      requires Valid() && Loaded() && pick < |prefabs|
      modifies this
      ensures Valid() && Loaded()
      ensures Acquired(old(nodes), old(pool), old(activeObjects), pick, obj)
      ensures createTimer == old(createTimer) && removeTimer == old(removeTimer)
    {
      var free := pool[pick];
      if free != [] {
        obj := free[|free| - 1];
        pool := pool[pick := free[..|free| - 1]];
      } else {
        obj := |nodes|;
        nodes := nodes + [Node(prefabs[pick], false)];
      }
      nodes := nodes[obj := nodes[obj].(active := true)];
      activeObjects := activeObjects + [obj];
    }

    /** `getPrefabType`: the first prefab whose name is the object's name. */
    method GetPrefabType(obj: nat) returns (prefabType: Option<nat>)
      requires obj < |nodes|
      ensures prefabType.None? <==> nodes[obj].name !in prefabs
      ensures prefabType.Some? ==>
        var p := prefabType.value;
        p < |prefabs| && prefabs[p] == nodes[obj].name && nodes[obj].name !in prefabs[..p]
    {
      for p := 0 to |prefabs|
        invariant nodes[obj].name !in prefabs[..p]
      {
        if nodes[obj].name == prefabs[p] {
          return Some(p);
        }
        assert prefabs[..p + 1] == prefabs[..p] + [prefabs[p]];
      }
      assert prefabs[..|prefabs|] == prefabs;
      return None;
    }

    /** `releaseObject`: deactivates the object; when a prefab of its name
        exists, also takes it out of the active list (if it is there) and
        pushes it onto the first such prefab's free list, with no check that
        it is not already free. */
    method ReleaseObject(obj: nat)
      requires Valid() && Loaded() && obj < |nodes|
      modifies this
      ensures Valid() && Loaded()
      ensures nodes == old(nodes)[obj := old(nodes)[obj].(active := false)]
      ensures var p := IndexOf(prefabs, old(nodes)[obj].name);
        if p == -1 then activeObjects == old(activeObjects) && pool == old(pool)
        else
          && activeObjects == RemoveFirst(old(activeObjects), obj)
          && pool == old(pool)[p := old(pool)[p] + [obj]]
      ensures createTimer == old(createTimer) && removeTimer == old(removeTimer)
    {
      var name := nodes[obj].name;
      nodes := nodes[obj := Node(name, false)];
      assert Valid() by {
        forall id | 0 <= id < |nodes| ensures nodes[id].name in prefabs {
          assert nodes[id].name == old(nodes)[id].name;
        }
      }
      var prefabType := GetPrefabType(obj);
      if prefabType.Some? {
        FirstOccurrence(prefabs, name, prefabType.value);
        ReturnToPool(obj, prefabType.value);
      }
    }

    /** The list updates of `releaseObject` once prefab `p` is found: the
        first occurrence of the object leaves the active list, and the
        object is pushed on `p`'s free list. */
    method ReturnToPool(obj: nat, p: nat)
      requires Valid() && Loaded() && obj < |nodes| && p < |prefabs|
      modifies this
      ensures Valid() && Loaded()
      ensures nodes == old(nodes)
      ensures activeObjects == RemoveFirst(old(activeObjects), obj)
      ensures pool == old(pool)[p := old(pool)[p] + [obj]]
      ensures createTimer == old(createTimer) && removeTimer == old(removeTimer)
    {
      var index := IndexOf(activeObjects, obj);
      if index > -1 {
        activeObjects := Splice(activeObjects, index);
      }
      var freeList := pool[p] + [obj];
      assert IdsBelow(freeList, |nodes|);
      pool := pool[p := freeList];
    }

    /** `update`, with `dt` in whole ticks and `pick` the prefab a creation
        in this frame draws. Returns the object created and the object
        released in this frame, if any; `midNodes` and `midPool` are the
        clones and free lists between the creation and the removal. */
    method Update(dt: nat, pick: nat) returns (created: Option<nat>, released: Option<nat>,
                                              ghost midNodes: seq<Node>, ghost midPool: map<nat, seq<nat>>)
      requires Valid() && Loaded()
      requires createTimer + dt >= CreateInterval ==> pick < |prefabs|
      modifies this
      ensures Valid() && Loaded()
      ensures created.Some? <==> old(createTimer) + dt >= CreateInterval
      ensures createTimer == if created.Some? then 0 else old(createTimer) + dt
      ensures created.None? ==> midNodes == old(nodes) && midPool == old(pool)
      ensures created.Some? ==> Handout(prefabs, old(nodes), old(pool), pick, created.value, midNodes, midPool)
      ensures var grown := old(activeObjects) + (if created.Some? then [created.value] else []);
        && (released.Some? <==> old(removeTimer) + dt >= RemoveInterval && grown != [])
        && removeTimer == (if released.Some? then 0 else old(removeTimer) + dt)
        && activeObjects == (if released.Some? then grown[1..] else grown)
        && (released.Some? ==> released.value == grown[0])
      ensures released.None? ==> nodes == midNodes && pool == midPool
      ensures released.Some? ==> Handback(prefabs, midNodes, midPool, released.value, nodes, pool)
    {
      createTimer := createTimer + dt;
      removeTimer := removeTimer + dt;
      created := CreateStep(pick);
      midNodes, midPool := nodes, pool;
      released := RemoveStep();
    }

    /** The first half of `update`: once the create timer reaches
        `CreateInterval`, it restarts and one object is acquired. */
    method CreateStep(pick: nat) returns (created: Option<nat>)
      requires Valid() && Loaded()
      requires createTimer >= CreateInterval ==> pick < |prefabs|
      modifies this
      ensures Valid() && Loaded()
      ensures created.Some? <==> old(createTimer) >= CreateInterval
      ensures createTimer == if created.Some? then 0 else old(createTimer)
      ensures removeTimer == old(removeTimer)
      ensures created.None? ==> nodes == old(nodes) && pool == old(pool) && activeObjects == old(activeObjects)
      ensures created.Some? ==> Acquired(old(nodes), old(pool), old(activeObjects), pick, created.value)
    {
      created := None;
      if createTimer >= CreateInterval {
        createTimer := 0;
        var obj := GetObject(pick);
        created := Some(obj);
      }
    }

    /** The second half of `update`: once the remove timer reaches
        `RemoveInterval` and some object is active, the timer restarts and
        the oldest active object is released: it leaves the active list and
        goes back on its prefab's free list. */
    method RemoveStep() returns (released: Option<nat>)
      requires Valid() && Loaded()
      modifies this
      ensures Valid() && Loaded()
      ensures released.Some? <==> old(removeTimer) >= RemoveInterval && old(activeObjects) != []
      ensures removeTimer == if released.Some? then 0 else old(removeTimer)
      ensures createTimer == old(createTimer)
      ensures released.None? ==> activeObjects == old(activeObjects) && nodes == old(nodes) && pool == old(pool)
      ensures released.Some? ==>
        && released.value == old(activeObjects)[0]
        && activeObjects == old(activeObjects)[1..]
        && Handback(prefabs, old(nodes), old(pool), released.value, nodes, pool)
    {
      released := None;
      if removeTimer >= RemoveInterval && |activeObjects| > 0 {
        removeTimer := 0;
        var objToRemove := activeObjects[0];
        assert nodes[objToRemove].name in prefabs;
        RemoveFirstOfHead(activeObjects);
        ReleaseObject(objToRemove);
        released := Some(objToRemove);
      }
    }

    /** `getRandomObjectForLevel`: `getObject`, whatever the level. */
    method GetRandomObjectForLevel(level: int, pick: nat) returns (obj: nat)
      requires Valid() && Loaded() && pick < |prefabs|
      modifies this
      ensures Valid() && Loaded()
      ensures Acquired(old(nodes), old(pool), old(activeObjects), pick, obj)
      ensures createTimer == old(createTimer) && removeTimer == old(removeTimer)
    {
      obj := GetObject(pick);
    }
  }
}
