/**
 * `StringMap`: a skip-list map keyed by strings, run by one thread.
 *
 * The nodes live in a table (`nodes`, index 0 is the header); a link is the
 * index of the node it points to. The ghost field `levels` lists, level by
 * level, the nodes linked there in order, and `Valid()` ties it to the
 * `next` links. The per-node mutexes are the ghost set `locked`.
 */
module SkipMap {
  import opened Order
  import opened Nodes
  import opened Levels
  import opened Search
  import opened Splice
  import opened Walk

  /** A Go `interface{}` result that may be nil. */
  datatype Option<T> = None | Some(value: T)

  /** The distinct nodes among `preds[lo..hi]`: the mutexes a lock loop takes over those levels. */
  ghost function Held(preds: seq<nat>, lo: int, hi: int): set<nat>
    requires 0 <= lo && hi < |preds|
  {
    set l | lo <= l <= hi :: preds[l]
  }

  /**
   * Taking one more level adds its predecessor, and with contiguous
   * predecessors one that differs from the level below is not held yet.
   */
  lemma HeldGrow(preds: seq<nat>, layer: nat)
    requires Contiguous(preds) && layer < |preds|
    ensures Held(preds, 0, layer) == Held(preds, 0, layer - 1) + {preds[layer]}
    ensures 0 < layer && preds[layer] != preds[layer - 1] ==> preds[layer] !in Held(preds, 0, layer - 1)
  {
    if 0 < layer && preds[layer] in Held(preds, 0, layer - 1) {
      var j :| 0 <= j <= layer - 1 && preds[j] == preds[layer];
      if j < layer - 1 {
        assert preds[layer - 1] == preds[j];
      }
    }
  }

  /** Levels that repeat the predecessor of level `h` add no mutex beyond it. */
  lemma HeldRun(preds: seq<nat>, h: nat, top: nat)
    requires h <= top < |preds| && forall l :: h <= l <= top ==> preds[l] == preds[h]
    ensures Held(preds, 0, top) == Held(preds, 0, h)
  {
    forall y | y in Held(preds, 0, top) ensures y in Held(preds, 0, h) {
      var j :| 0 <= j <= top && preds[j] == y;
      if j > h {
        assert preds[h] == y;
      }
    }
  }

  class StringMap<V(0)> {
    /** The string hash (`wyhash.Sum64String`), an arbitrary function. */
    const hash: string -> Score
    var nodes: seq<Node<V>>
    var length: int
    ghost var levels: seq<seq<nat>>
    ghost var locked: set<nat>

    ghost predicate Valid()
      reads this
    {
      && WellFormed(nodes, levels, hash)
      && length == |levels[0]|
      && locked == {}
    }

    /** The key/value pairs the map holds: those of the nodes linked at level 0. */
    ghost function Contents(): map<string, V>
      reads this
      requires WellFormed(nodes, levels, hash)
    {
      Entries(nodes, levels, hash)
    }

    /** `NewString`: an empty map whose header spans every level. */
    constructor (hash: string -> Score)
      ensures Valid() && this.hash == hash
      ensures Contents() == map[] && length == 0
    {
      this.hash := hash;
      var v: V := *;
      var h := NewNode("", hash, v, MaxLevel);
      nodes := [h.(fullyLinked := true)];
      length := 0;
      levels := seq(MaxLevel, _ => []);
      locked := {};
    }

    /**
     * One level of every search: from `x0`, follow `next[i]` while the
     * successor compares below the key, and report the last node passed
     * and its successor, `pred < key <= succ`.
     */
    method SearchLevel(key: string, i: nat, x0: nat) returns (pred: nat, succ: Ref, ghost p: int)
      requires |levels| == MaxLevel && i < MaxLevel && Sorted(nodes, levels[i]) && Linked(nodes, i, levels[i])
      requires x0 == 0 || (x0 in levels[i] && Less(nodes[x0].Pos(), Target(hash, key)))
      ensures Bracket(nodes, levels[i], Target(hash, key), p, pred, succ)
      ensures NotAfter(nodes, x0, pred)
    {
      var score := hash(key);
      ghost var t := Target(hash, key);
      ghost var L := levels[i];
      p := -1;
      if x0 != 0 {
        p :| 0 <= p < |L| && L[p] == x0;
      }
      var x := x0;
      assert x == At(L, p) && i < |nodes[At(L, p)].next|;
      succ := nodes[x].next[i];
      while succ.Ptr? && nodes[succ.id].Cmp(score, key) < 0
        invariant -1 <= p < |L| && x == At(L, p) && succ == After(L, p)
        invariant p >= 0 ==> Less(nodes[x].Pos(), t)
        invariant NotAfter(nodes, x0, x)
        decreases |L| - p
      {
        if p >= 0 {
          assert Less(nodes[L[p]].Pos(), nodes[L[p + 1]].Pos());
        }
        NotAfterTrans(nodes, x0, x, succ.id);
        x := succ.id;
        p := p + 1;
        assert x == At(L, p) && i < |nodes[At(L, p)].next|;
        succ := nodes[x].next[i];
      }
      pred := x;
    }

    /**
     * `findNode`: walks down from the top level, filling `preds` and
     * `succs` with `pred < key <= succ` at each level, and stops at the
     * first (highest) level whose successor holds the key, which is the
     * top level of that node.
     */
    method FindNode(key: string) returns (found: Ref, preds: seq<nat>, succs: seq<Ref>, ghost top: int, ghost idx: seq<int>)
      requires WellFormed(nodes, levels, hash)
      ensures |preds| == MaxLevel && |succs| == MaxLevel && |idx| == MaxLevel
      ensures found.Ptr? ==> found.id in levels[0] && nodes[found.id].key == key
      ensures found.Ptr? ==> top == |nodes[found.id].next| - 1 && 0 <= top < MaxLevel && succs[top] == found
      ensures found.Nil? <==> key !in Contents()
      ensures found.Nil? ==> Filled(nodes, levels, Target(hash, key), preds, succs, idx, 0)
      ensures found.Ptr? ==> Filled(nodes, levels, Target(hash, key), preds, succs, idx, top)
    {
      var score := hash(key);
      var x: nat := 0;
      preds, succs := seq(MaxLevel, _ => 0), seq(MaxLevel, _ => Nil);
      idx := seq(MaxLevel, _ => -1);
      var i: int := MaxLevel - 1;
      while i >= 0
        invariant Descent(nodes, levels, hash, key, preds, succs, idx, i, x)
      {
        var pred, succ;
        ghost var p;
        pred, succ, p := SearchLevel(key, i, x);
        DescentStep(nodes, levels, hash, key, preds, succs, idx, i, x, pred, succ, p);
        preds, succs, idx := preds[i := pred], succs[i := succ], idx[i := p];
        x := pred;
        if succ.Ptr? && nodes[succ.id].Cmp(score, key) == 0 {
          return succ, preds, succs, i, idx;
        }
        i := i - 1;
      }
      MissAbsent(nodes, levels, hash, key, preds, succs, idx);
      return Nil, preds, succs, -1, idx;
    }
  
    /** `mu.Lock()`: the mutex must be free, since Go's mutexes do not nest. */
    ghost method Lock(id: nat)
      modifies this`locked
      requires id !in locked
      ensures locked == old(locked) + {id}
    {
      locked := locked + {id};
    }

    /** `mu.Unlock()`: the mutex must be held, or Go aborts. */
    ghost method Unlock(id: nat)
      modifies this`locked
      requires id in locked
      ensures locked == old(locked) - {id}
    {
      locked := locked - {id};
    }

    /**
     * `unlockString`: releases, from `highestLevel` down, each predecessor
     * once, skipping repeats of the one just released. Since equal
     * predecessors sit next to each other, every mutex taken is released
     * exactly once.
     */
    method UnlockString(preds: seq<nat>, highestLevel: int)
      modifies this`locked
      requires |preds| == MaxLevel && -1 <= highestLevel < MaxLevel && Contiguous(preds)
      requires Held(preds, 0, highestLevel) <= locked
      ensures locked == old(locked) - Held(preds, 0, highestLevel)
    {
      var prevPred: int := -1;
      var i := highestLevel;
      while i >= 0
        invariant -1 <= i <= highestLevel
        invariant i < highestLevel ==> prevPred == preds[i + 1]
        invariant i == highestLevel ==> prevPred == -1
        invariant locked == old(locked) - Held(preds, i + 1, highestLevel)
      {
        if preds[i] != prevPred {
          assert preds[i] !in Held(preds, i + 1, highestLevel);
          Unlock(preds[i]);
          prevPred := preds[i];
        }
        assert Held(preds, i, highestLevel) == Held(preds, i + 1, highestLevel) + {preds[i]};
        i := i - 1;
      }
    }

    /**
     * The lock-and-validate loop of `Store`: locks each new predecessor of
     * levels `0..level-1` and checks that it is unmarked and still links to
     * an unmarked successor.
     */
    method LockForInsert(preds: seq<nat>, succs: seq<Ref>, level: nat) returns (highestLocked: int, valid: bool)
      modifies this`locked
      requires |preds| == MaxLevel && |succs| == MaxLevel && 1 <= level <= MaxLevel && Contiguous(preds)
      requires locked == {}
      requires forall l :: 0 <= l < level ==> LinksTo(nodes, preds[l], l, succs[l]) && !nodes[preds[l]].marked
      requires forall l :: 0 <= l < level && succs[l].Ptr? ==> succs[l].id < |nodes| && !nodes[succs[l].id].marked
      ensures valid && 0 <= highestLocked < level
      ensures locked == Held(preds, 0, highestLocked) == Held(preds, 0, level - 1)
    {
      highestLocked, valid := -1, true;
      var prevPred: int := -1;
      var layer := 0;
      while valid && layer < level
        invariant 0 <= layer <= level && valid
        invariant layer == 0 ==> prevPred == -1 && highestLocked == -1
        invariant layer > 0 ==> prevPred == preds[layer - 1] && 0 <= highestLocked < layer && preds[highestLocked] == prevPred
        invariant layer > 0 ==> forall l :: highestLocked <= l < layer ==> preds[l] == prevPred
        invariant locked == Held(preds, 0, layer - 1)
      {
        var pred, succ := preds[layer], succs[layer];
        HeldGrow(preds, layer);
        if pred != prevPred {
          Lock(pred);
          highestLocked, prevPred := layer, pred;
        }
        valid := !nodes[pred].marked && (succ.Nil? || !nodes[succ.id].marked) && nodes[pred].next[layer] == succ;
        layer := layer + 1;
      }
      HeldRun(preds, highestLocked, level - 1);
    }

    /**
     * The lock-and-validate loop of `LoadAndDelete`: with the node being
     * deleted already locked, locks each new predecessor of levels
     * `0..topLayer` and checks that it is unmarked and still links to the
     * node's successor there.
     */
    method LockForDelete(preds: seq<nat>, succs: seq<Ref>, topLayer: nat, d: nat) returns (highestLocked: int, valid: bool)
      modifies this`locked
      requires |preds| == MaxLevel && |succs| == MaxLevel && topLayer < MaxLevel && Contiguous(preds)
      requires locked == {d}
      requires forall l :: 0 <= l <= topLayer ==> preds[l] != d && LinksTo(nodes, preds[l], l, succs[l]) && !nodes[preds[l]].marked
      ensures valid && 0 <= highestLocked <= topLayer
      ensures locked == {d} + Held(preds, 0, highestLocked) && Held(preds, 0, highestLocked) == Held(preds, 0, topLayer)
    {
      highestLocked, valid := -1, true;
      var prevPred: int := -1;
      var layer := 0;
      while valid && layer <= topLayer
        invariant 0 <= layer <= topLayer + 1 && valid
        invariant layer == 0 ==> prevPred == -1 && highestLocked == -1
        invariant layer > 0 ==> prevPred == preds[layer - 1] && 0 <= highestLocked < layer && preds[highestLocked] == prevPred
        invariant layer > 0 ==> forall l :: highestLocked <= l < layer ==> preds[l] == prevPred
        invariant locked == {d} + Held(preds, 0, layer - 1)
      {
        var pred, succ := preds[layer], succs[layer];
        HeldGrow(preds, layer);
        if pred != prevPred {
          Lock(pred);
          highestLocked, prevPred := layer, pred;
        }
        valid := !nodes[pred].marked && nodes[pred].next[layer] == succ;
        layer := layer + 1;
      }
      HeldRun(preds, highestLocked, topLayer);
    }
  
    /** `storeVal` on a linked node: the map now sends its key to `value`, and nothing else changes. */
    method StoreVal(id: nat, value: V)
      modifies this`nodes
      requires WellFormed(nodes, levels, hash) && id in levels[0]
      ensures nodes == old(nodes)[id := old(nodes)[id].(value := value)]
      ensures WellFormed(nodes, levels, hash)
      ensures Contents() == old(Contents())[nodes[id].key := value]
    {
      UpdateWellFormed(nodes, levels, hash, id, value);
      nodes := nodes[id := nodes[id].(value := value)];
    }

    /**
     * The linking loop of `Store`: at each layer below the new node's
     * height, bottom up, point the new node `x` at the successor and then
     * the predecessor at `x`.
     */
    method LinkNew(x: nat, level: nat, preds: seq<nat>, succs: seq<Ref>, ghost idx: seq<int>)
      modifies this`nodes, this`levels
      requires AllLinked(nodes, levels) && 1 <= x < |nodes| && |nodes[x].next| == level <= MaxLevel
      requires |preds| == MaxLevel && |succs| == MaxLevel && |idx| == MaxLevel
      requires forall l :: 0 <= l < level ==>
                 -1 <= idx[l] < |levels[l]| && Distinct(levels[l]) && x !in levels[l]
                 && preds[l] == At(levels[l], idx[l]) && succs[l] == After(levels[l], idx[l])
      ensures Grown(old(levels), idx, x, level, levels) && AllLinked(nodes, levels)
      ensures SameShapes(old(nodes), nodes)
    {
      ghost var N0, L0 := nodes, levels;
      for layer := 0 to level
        invariant Grown(L0, idx, x, layer, levels) && AllLinked(nodes, levels) && SameShapes(N0, nodes)
      {
        GrowStep(N0, L0, idx, x, layer, nodes, levels, preds[layer], succs[layer]);
        nodes := SetNext(nodes, x, layer, succs[layer]);
        nodes := SetNext(nodes, preds[layer], layer, Ptr(x));
        levels := levels[layer := Insert(levels[layer], idx[layer] + 1, x)];
      }
    }
  
    /**
     * The locked part of an insertion: lock and validate the predecessors
     * of levels `0..level-1`, append a node of height `level` and link it
     * in bottom up. The locks stay held.
     */
    method SpliceNew(key: string, value: V, level: nat, preds: seq<nat>, succs: seq<Ref>, ghost idx: seq<int>)
      returns (x: nat, highestLocked: int)
      modifies this`nodes, this`levels, this`locked
      requires 1 <= level <= MaxLevel && |preds| == MaxLevel && |succs| == MaxLevel && |idx| == MaxLevel
      requires locked == {} && Contiguous(preds) && AllLinked(nodes, levels) && 1 <= |nodes|
      requires forall l :: 0 <= l < level ==> LinksTo(nodes, preds[l], l, succs[l]) && !nodes[preds[l]].marked
      requires forall l :: 0 <= l < level && succs[l].Ptr? ==> succs[l].id < |nodes| && !nodes[succs[l].id].marked
      requires forall l :: 0 <= l < level ==>
                 -1 <= idx[l] < |levels[l]| && Distinct(levels[l]) && |nodes| !in levels[l]
                 && preds[l] == At(levels[l], idx[l]) && succs[l] == After(levels[l], idx[l])
      ensures x == |old(nodes)| && Grown(old(levels), idx, x, level, levels) && AllLinked(nodes, levels)
      ensures SameShapes(old(nodes) + [NewNode(key, hash, value, level)], nodes)
      ensures 0 <= highestLocked < MaxLevel && locked == Held(preds, 0, highestLocked)
    {
      var valid;
      highestLocked, valid := LockForInsert(preds, succs, level);
      if !valid {
        // Validation only fails when another writer got in first.
        assert false;
      }
      ghost var N0 := nodes;
      x := |nodes|;
      nodes := nodes + [NewNode(key, hash, value, level)];
      AllLinkedFrame(N0, nodes, levels);
      LinkNew(x, level, preds, succs, idx);
    }

    /**
     * The insertion half of `Store`'s loop, after a search missed `key`:
     * link a new node of height `level` in under the predecessors' locks,
     * flag it fully linked, unlock, and count it.
     */
    method InsertNode(key: string, value: V, level: nat, preds: seq<nat>, succs: seq<Ref>, ghost idx: seq<int>)
      modifies this
      requires Valid() && 1 <= level <= MaxLevel
      requires Filled(nodes, levels, Target(hash, key), preds, succs, idx, 0) && key !in Contents()
      ensures Valid()
      ensures Contents() == old(Contents())[key := value] && length == old(length) + 1
    {
      ghost var N0, L0 := nodes, levels;
      InsertReady(nodes, levels, hash, key, preds, succs, idx, level);
      var x, highestLocked := SpliceNew(key, value, level, preds, succs, idx);
      ghost var N1 := nodes;
      nodes := nodes[x := nodes[x].(fullyLinked := true)];
      UnlockString(preds, highestLocked);
      length := length + 1;
      InsertFinish(N0, L0, hash, key, value, preds, succs, idx, N1, levels, level);
    }

    /**
     * `Store`: sets the value for `key`, where `level` is the height
     * `randomLevel` drew. A present key has its value replaced. An absent
     * key gets a new node, after which the loop runs again, finds that
     * node and stores the value into it once more.
     */
    method Store(key: string, value: V, level: nat)
      modifies this
      requires Valid() && 1 <= level <= MaxLevel
      ensures Valid()
      ensures Contents() == old(Contents())[key := value]
      ensures length == old(length) + (if key in old(Contents()) then 0 else 1)
    {
      ghost var C0, n0 := Contents(), length;
      ghost var inserted := false;
      while true
        invariant Valid()
        invariant !inserted ==> Contents() == C0 && length == n0
        invariant inserted ==> key !in C0 && Contents() == C0[key := value] && length == n0 + 1
        decreases if inserted then 0 else 1
      {
        var done := StorePass(key, value, level);
        if done {
          return;
        }
        inserted := true;
      }
    }

    /**
     * One pass of `Store`'s loop: search for `key`; replace the value of a
     * node found, or else insert a new node and report that the loop goes on.
     */
    method StorePass(key: string, value: V, level: nat) returns (done: bool)
      modifies this
      requires Valid() && 1 <= level <= MaxLevel
      ensures Valid() && Contents() == old(Contents())[key := value]
      ensures done <==> key in old(Contents())
      ensures length == old(length) + (if done then 0 else 1)
    {
      var found, preds, succs, top, idx := FindNode(key);
      if found.Ptr? {
        if !nodes[found.id].marked {
          StoreVal(found.id, value);
          return true;
        }
        // A marked node is no longer linked when nothing runs alongside.
        assert false;
      }
      InsertNode(key, value, level, preds, succs, idx);
      return false;
    }
  
    /**
     * `findNodeDelete`: like `findNode`, but always searches down to level
     * 0, so `preds` and `succs` bracket the key at every level. `lFound` is
     * the first (highest) level whose successor holds the key, which is the
     * top level of that node, or -1 when no level does.
     */
    method FindNodeDelete(key: string) returns (lFound: int, preds: seq<nat>, succs: seq<Ref>, ghost idx: seq<int>)
      requires WellFormed(nodes, levels, hash)
      ensures Filled(nodes, levels, Target(hash, key), preds, succs, idx, 0)
      ensures -1 <= lFound < MaxLevel
      ensures lFound == -1 <==> key !in Contents()
      ensures lFound != -1 ==> succs[lFound].Ptr? && succs[lFound].id in levels[0] && nodes[succs[lFound].id].key == key
      ensures lFound != -1 ==> lFound == |nodes[succs[lFound].id].next| - 1
    {
      var score := hash(key);
      lFound := -1;
      var x: nat := 0;
      preds, succs := seq(MaxLevel, _ => 0), seq(MaxLevel, _ => Nil);
      idx := seq(MaxLevel, _ => -1);
      var i: int := MaxLevel - 1;
      while i >= 0
        invariant Sweep(nodes, levels, hash, key, preds, succs, idx, i, x, lFound)
      {
        var pred, succ;
        ghost var p;
        pred, succ, p := SearchLevel(key, i, x);
        SweepStep(nodes, levels, hash, key, preds, succs, idx, i, x, lFound, pred, succ, p);
        preds, succs, idx := preds[i := pred], succs[i := succ], idx[i := p];
        if lFound == -1 && succ.Ptr? && nodes[succ.id].Cmp(score, key) == 0 {
          lFound := i;
        }
        x := pred;
        i := i - 1;
      }
      SweepEnd(nodes, levels, hash, key, preds, succs, idx, x, lFound);
    }

    /**
     * The unlinking loop of `LoadAndDelete`: from the top level of `d` down,
     * point each predecessor at `d`'s successor there.
     */
    method Unlink(preds: seq<nat>, d: nat, topLayer: nat, ghost idx: seq<int>)
      modifies this`nodes, this`levels
      requires AllLinked(nodes, levels) && |preds| == MaxLevel && |idx| == MaxLevel
      requires 1 <= d < |nodes| && topLayer < |nodes[d].next| && topLayer < MaxLevel
      requires forall l :: 0 <= l <= topLayer ==>
                 Distinct(levels[l]) && -1 <= idx[l] && idx[l] + 1 < |levels[l]| && levels[l][idx[l] + 1] == d
                 && preds[l] == At(levels[l], idx[l])
      ensures Shrunk(old(levels), idx, d, 0, topLayer, levels) && AllLinked(nodes, levels)
      ensures SameShapes(old(nodes), nodes)
    {
      ghost var N0, L0 := nodes, levels;
      var i: int := topLayer;
      while i >= 0
        invariant -1 <= i <= topLayer
        invariant Shrunk(L0, idx, d, i + 1, topLayer, levels) && AllLinked(nodes, levels) && SameShapes(N0, nodes)
      {
        ShrinkStep(N0, L0, idx, d, i, topLayer, nodes, levels, preds[i]);
        nodes := SetNext(nodes, preds[i], i, nodes[d].next[i]);
        levels := levels[i := Remove(levels[i], idx[i] + 1)];
        i := i - 1;
      }
    }

    /**
     * The deletion half of `LoadAndDelete`, once a search met `key` at node
     * `d` on its top level: lock and mark `d`, lock and validate the
     * predecessors, unlink `d` from its top level down, unlock, uncount it,
     * and hand back its value.
     */
    method DeleteNode(key: string, d: nat, topLayer: nat, preds: seq<nat>, succs: seq<Ref>, ghost idx: seq<int>) returns (v: V)
      modifies this
      requires Valid() && Filled(nodes, levels, Target(hash, key), preds, succs, idx, 0)
      requires d in levels[0] && nodes[d].key == key && topLayer == |nodes[d].next| - 1
      ensures Valid()
      ensures key in old(Contents()) && v == old(Contents())[key]
      ensures Contents() == old(Contents()) - {key} && length == old(length) - 1
    {
      ghost var N0, L0 := nodes, levels;
      DeleteReady(nodes, levels, hash, key, preds, succs, idx, d);
      Lock(d);
      if nodes[d].marked {
        // Another deleter marked it first: with one thread, a linked node is unmarked.
        assert false;
      }
      nodes := nodes[d := nodes[d].(marked := true)];
      var highestLocked, valid := LockForDelete(preds, succs, topLayer, d);
      if !valid {
        // Validation only fails when another writer got in first.
        assert false;
      }
      Unlink(preds, d, topLayer, idx);
      Unlock(d);
      UnlockString(preds, highestLocked);
      length := length - 1;
      v := nodes[d].value;
      RemoveFinish(N0, L0, hash, key, idx, d, nodes, levels);
    }

    /**
     * `LoadAndDelete`: removes `key`, returning the value it had; `loaded`
     * reports whether it was present.
     */
    method LoadAndDelete(key: string) returns (value: Option<V>, loaded: bool)
      modifies this
      requires Valid()
      ensures Valid()
      ensures loaded <==> key in old(Contents())
      ensures value == if loaded then Some(old(Contents())[key]) else None
      ensures Contents() == old(Contents()) - {key}
      ensures length == old(length) - (if loaded then 1 else 0)
    {
      var lFound, preds, succs, idx := FindNodeDelete(key);
      if lFound != -1 && nodes[succs[lFound].id].Visible() && |nodes[succs[lFound].id].next| - 1 == lFound {
        var v := DeleteNode(key, succs[lFound].id, lFound, preds, succs, idx);
        return Some(v), true;
      }
      return None, false;
    }

    /** `Delete`: removes `key`; the same steps as `LoadAndDelete`, without the results. */
    method Delete(key: string)
      modifies this
      requires Valid()
      ensures Valid()
      ensures Contents() == old(Contents()) - {key}
      ensures length == old(length) - (if key in old(Contents()) then 1 else 0)
    {
      var _, _ := LoadAndDelete(key);
    }
  
    /**
     * `Load`: the same descent as `findNode`, without recording the path;
     * a node met with the key yields its value when it is fully linked and
     * not marked.
     */
    method Load(key: string) returns (value: Option<V>, ok: bool)
      requires Valid()
      ensures ok <==> key in Contents()
      ensures value == if ok then Some(Contents()[key]) else None
    {
      value, ok := None, false;
      var score := hash(key);
      var x: nat := 0;
      ghost var ps: seq<nat>, ss: seq<Ref>, idx: seq<int> := seq(MaxLevel, _ => 0), seq(MaxLevel, _ => Nil), seq(MaxLevel, _ => -1);
      var i: int := MaxLevel - 1;
      while i >= 0
        invariant Descent(nodes, levels, hash, key, ps, ss, idx, i, x)
      {
        var pred, nex;
        ghost var p;
        pred, nex, p := SearchLevel(key, i, x);
        DescentStep(nodes, levels, hash, key, ps, ss, idx, i, x, pred, nex, p);
        ps, ss, idx := ps[i := pred], ss[i := nex], idx[i := p];
        x := pred;
        if nex.Ptr? && nodes[nex.id].Cmp(score, key) == 0 {
          if nodes[nex.id].Visible() {
            value, ok := Some(nodes[nex.id].value), true;
          } else {
            // A node linked at level 0 is fully linked and not marked.
            assert false;
          }
          return;
        }
        i := i - 1;
      }
      MissAbsent(nodes, levels, hash, key, ps, ss, idx);
    }

    /**
     * `LoadOrStore`: the value already held for `key` if there is one;
     * otherwise stores `value` (with height `level`) and returns nil, not
     * the value stored.
     */
    method LoadOrStore(key: string, value: V, level: nat) returns (actual: Option<V>, loaded: bool)
      modifies this
      requires Valid() && 1 <= level <= MaxLevel
      ensures Valid()
      ensures loaded <==> key in old(Contents())
      ensures loaded ==> actual == Some(old(Contents())[key]) && Contents() == old(Contents()) && length == old(length)
      ensures !loaded ==> actual == None && Contents() == old(Contents())[key := value] && length == old(length) + 1
    {
      var loadedval, ok := Load(key);
      if !ok {
        Store(key, value, level);
        return None, false;
      }
      return loadedval, true;
    }

    /** The key/value pairs of level 0, in list order. */
    ghost function Listing(): seq<(string, V)>
      reads this
      requires WellFormed(nodes, levels, hash)
    {
      assert Sorted(nodes, levels[0]);
      Items(nodes, levels[0])
    }

    /**
     * `Range`: walks level 0 from the header, handing each visible node's
     * key and value to `f` until `f` answers false. `calls` lists the pairs
     * handed over.
     */
    method Range(f: (string, V) -> bool) returns (calls: seq<(string, V)>)
      requires Valid()
      ensures calls == RangeCalls(Listing(), f)
    {
      WalkFacts(nodes, levels, hash);
      calls := WalkLevel0(f, levels[0], Listing());
    }

    /** The loop of `Range` over the level-0 list `L`, whose pairs are `items`. */
    method WalkLevel0(f: (string, V) -> bool, ghost L: seq<nat>, ghost items: seq<(string, V)>) returns (calls: seq<(string, V)>)
      requires Linked(nodes, 0, L) && |items| == |L|
      requires forall p :: 0 <= p < |L| ==> nodes[L[p]].Visible() && items[p] == (nodes[L[p]].key, nodes[L[p]].value)
      ensures calls == RangeCalls(items, f)
    {
      ghost var p := 0;
      calls := [];
      assert 0 == At(L, -1);
      var x := nodes[0].next[0];
      while x.Ptr?
        invariant 0 <= p <= |L| && x == After(L, p - 1)
        invariant calls == items[..p] && forall j :: 0 <= j < p ==> f(items[j].0, items[j].1)
        decreases |L| - p
      {
        var n := nodes[x.id];
        if n.Visible() {
          calls := calls + [(n.key, n.value)];
          if !f(n.key, n.value) {
            RangeCallsStop(items, f, p);
            return;
          }
        } else {
          // A node linked at level 0 is fully linked and not marked.
          assert false;
        }
        assert x.id == At(L, p);
        x := n.next[0];
        p := p + 1;
      }
      RangeCallsAll(items, f);
    }

    /** `Len`: the element counter, which is the number of entries. */
    function Len(): (n: int)
      reads this
      requires Valid()
      ensures n == |Contents()|
    {
      EntriesSize(nodes, levels, hash);
      length
    }
  }
}
