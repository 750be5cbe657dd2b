/**
 * The two structural changes the map makes, stated over values: linking
 * a new node in at the levels below its height (`Store`), and unlinking a
 * node from its top level down (`LoadAndDelete`). Each is proved to take a
 * well-formed list to a well-formed list whose entries differ in exactly
 * the one key.
 */
module Splice {
  import opened Order
  import opened Nodes
  import opened Levels
  import opened Search

  /**
   * `storeNext`: node `id` now links to `to` at level `i`; its other links,
   * its fields and every other node stay as they were.
   */
  function SetNext<V>(nodes: seq<Node<V>>, id: nat, i: nat, to: Ref): (r: seq<Node<V>>)
    requires id < |nodes| && i < |nodes[id].next|
    ensures |r| == |nodes| && r[id].Shape() == nodes[id].Shape() && r[id].next[i] == to
    ensures forall l :: 0 <= l < |r[id].next| && l != i ==> r[id].next[l] == nodes[id].next[l]
    ensures forall j :: 0 <= j < |r| && j != id ==> r[j] == nodes[j]
  {
    nodes[id := nodes[id].(next := nodes[id].next[i := to])]
  }

  /** Every level is linked as listed. */
  ghost predicate AllLinked<V>(nodes: seq<Node<V>>, levels: seq<seq<nat>>)
  {
    |levels| == MaxLevel && forall l :: 0 <= l < MaxLevel ==> Linked(nodes, l, levels[l])
  }

  /** A link store elsewhere, or by a node not on the level, leaves level `i` linked. */
  lemma LinkedAway<V>(nodes: seq<Node<V>>, i: nat, L: seq<nat>, id: nat, j: nat, r: Ref)
    requires Linked(nodes, i, L) && id < |nodes| && j < |nodes[id].next|
    requires j != i || (id != 0 && id !in L)
    ensures Linked(SetNext(nodes, id, j, r), i, L)
  {
    var nodes' := SetNext(nodes, id, j, r);
    forall p | -1 <= p < |L|
      ensures i < |nodes'[At(L, p)].next| && nodes'[At(L, p)].next[i] == After(L, p)
    {
      assert i < |nodes[At(L, p)].next|;
      if j == i {
        assert At(L, p) != id;
      }
    }
  }

  /** Pointing `x` at the successor, then the predecessor at `x`, splices `x` into level `i`. */
  lemma LinkIn<V>(nodes: seq<Node<V>>, i: nat, L: seq<nat>, p: int, x: nat)
    requires Linked(nodes, i, L) && Distinct(L) && -1 <= p < |L|
    requires 1 <= x < |nodes| && x !in L && i < |nodes[x].next|
    ensures var n1 := SetNext(nodes, x, i, After(L, p));
      i < |n1[At(L, p)].next| && Linked(SetNext(n1, At(L, p), i, Ptr(x)), i, Insert(L, p + 1, x))
  {
    var n1 := SetNext(nodes, x, i, After(L, p));
    assert At(L, p) != x;
    var n2 := SetNext(n1, At(L, p), i, Ptr(x));
    LinkInsert(nodes, n2, i, L, p, x);
  }

  /** Pointing the predecessor past the node at `p + 1` removes it from level `i`. */
  lemma LinkOut<V>(nodes: seq<Node<V>>, i: nat, L: seq<nat>, p: int)
    requires Linked(nodes, i, L) && Distinct(L) && -1 <= p && p + 1 < |L|
    ensures var d := L[p + 1];
      i < |nodes[d].next| && i < |nodes[At(L, p)].next| &&
      Linked(SetNext(nodes, At(L, p), i, nodes[d].next[i]), i, Remove(L, p + 1))
  {
    var d := L[p + 1];
    assert nodes[At(L, p + 1)].next[i] == After(L, p + 1);
    var n' := SetNext(nodes, At(L, p), i, nodes[d].next[i]);
    LinkRemove(nodes, n', i, L, p);
  }

  // ---------------------------------------------------------------------------
  // Linking a new node in

  /** `G` is `L0` with `x` spliced in after position `idx[l]` at each level `l` below `h`. */
  ghost predicate Grown(L0: seq<seq<nat>>, idx: seq<int>, x: nat, h: nat, G: seq<seq<nat>>)
  {
    && |L0| == MaxLevel && |idx| == MaxLevel && |G| == MaxLevel && h <= MaxLevel
    && forall l :: 0 <= l < MaxLevel ==>
         if l < h then -1 <= idx[l] < |L0[l]| && G[l] == Insert(L0[l], idx[l] + 1, x) else G[l] == L0[l]
  }

  lemma GrownMembers(L0: seq<seq<nat>>, idx: seq<int>, x: nat, h: nat, G: seq<seq<nat>>, l: nat)
    requires Grown(L0, idx, x, h, G) && l < MaxLevel
    ensures forall y :: y in G[l] <==> y in L0[l] || (l < h && y == x)
  {
    if l < h {
      InsertMembers(L0[l], idx[l] + 1, x);
    }
  }

  /** Linking `x` in at level `i` after position `p` keeps every level linked as listed. */
  lemma LinkLayer<V>(nodes: seq<Node<V>>, levels: seq<seq<nat>>, i: nat, p: int, x: nat)
    requires AllLinked(nodes, levels) && i < MaxLevel && Distinct(levels[i]) && -1 <= p < |levels[i]|
    requires 1 <= x < |nodes| && x !in levels[i] && i < |nodes[x].next|
    ensures var n1 := SetNext(nodes, x, i, After(levels[i], p));
      && i < |n1[At(levels[i], p)].next|
      && AllLinked(SetNext(n1, At(levels[i], p), i, Ptr(x)), levels[i := Insert(levels[i], p + 1, x)])
  {
    var L := levels[i];
    var n1 := SetNext(nodes, x, i, After(L, p));
    LinkIn(nodes, i, L, p, x);
    var n2 := SetNext(n1, At(L, p), i, Ptr(x));
    var levels' := levels[i := Insert(L, p + 1, x)];
    forall l | 0 <= l < MaxLevel ensures Linked(n2, l, levels'[l]) {
      if l != i {
        LinkedAway(nodes, l, levels[l], x, i, After(L, p));
        LinkedAway(n1, l, levels[l], At(L, p), i, Ptr(x));
      }
    }
  }

  /** The nodes of `N` are those of `N0` with only their links changed. */
  ghost predicate SameShapes<V>(N0: seq<Node<V>>, N: seq<Node<V>>)
  {
    |N| == |N0| && forall id :: 0 <= id < |N| ==> N[id].Shape() == N0[id].Shape()
  }

  /** One pass of the linking loop of `Store`, at `layer`, grows the levels by one more layer. */
  lemma GrowStep<V>(N0: seq<Node<V>>, L0: seq<seq<nat>>, idx: seq<int>, x: nat, layer: nat,
                    nodes: seq<Node<V>>, levels: seq<seq<nat>>, pred: nat, succ: Ref)
    requires Grown(L0, idx, x, layer, levels) && AllLinked(nodes, levels) && SameShapes(N0, nodes)
    requires 1 <= x < |N0| && layer < |N0[x].next| <= MaxLevel
    requires -1 <= idx[layer] < |L0[layer]| && Distinct(L0[layer]) && x !in L0[layer]
    requires pred == At(L0[layer], idx[layer]) && succ == After(L0[layer], idx[layer])
    ensures layer < |nodes[x].next|
    ensures var n1 := SetNext(nodes, x, layer, succ);
      && pred < |n1| && layer < |n1[pred].next|
      && var n2 := SetNext(n1, pred, layer, Ptr(x));
         var levels' := levels[layer := Insert(levels[layer], idx[layer] + 1, x)];
         Grown(L0, idx, x, layer + 1, levels') && AllLinked(n2, levels') && SameShapes(N0, n2)
  {
    assert levels[layer] == L0[layer];
    assert nodes[x].Shape() == N0[x].Shape();
    LinkLayer(nodes, levels, layer, idx[layer], x);
  }

  /**
   * What a full search that missed `key` gives the insertion: predecessors
   * that never interleave, brackets that pass the check made under the
   * locks, and the places where a node of height `h`, appended as node
   * `|nodes|`, goes.
   */
  lemma InsertReady<V>(nodes: seq<Node<V>>, levels: seq<seq<nat>>, hash: string -> Score, key: string,
                       ps: seq<nat>, ss: seq<Ref>, idx: seq<int>, h: nat)
    requires WellFormed(nodes, levels, hash) && Filled(nodes, levels, Target(hash, key), ps, ss, idx, 0) && h <= MaxLevel
    ensures Contiguous(ps) && AllLinked(nodes, levels)
    ensures forall l :: 0 <= l < h ==> LinksTo(nodes, ps[l], l, ss[l]) && !nodes[ps[l]].marked
    ensures forall l :: 0 <= l < h && ss[l].Ptr? ==> ss[l].id < |nodes| && !nodes[ss[l].id].marked
    ensures forall l :: 0 <= l < h ==>
              -1 <= idx[l] < |levels[l]| && Distinct(levels[l]) && |nodes| !in levels[l]
              && ps[l] == At(levels[l], idx[l]) && ss[l] == After(levels[l], idx[l])
  {
    PredsContiguous(nodes, levels, hash, key, ps, ss, idx);
    forall l | 0 <= l < h
      ensures LinksTo(nodes, ps[l], l, ss[l]) && !nodes[ps[l]].marked
      ensures ss[l].Ptr? ==> ss[l].id < |nodes| && !nodes[ss[l].id].marked
      ensures -1 <= idx[l] < |levels[l]| && Distinct(levels[l]) && |nodes| !in levels[l]
      ensures ps[l] == At(levels[l], idx[l]) && ss[l] == After(levels[l], idx[l])
    {
      InsertValid(nodes, levels, hash, key, ps, ss, idx, l);
      assert Sorted(nodes, levels[l]) && Bracket(nodes, levels[l], Target(hash, key), idx[l], ps[l], ss[l]);
      SortedDistinct(nodes, levels[l]);
    }
  }

  /** The level `l` of a list grown by `x`, which falls between its bracket, is sorted. */
  lemma GrownSorted<V>(Nold: seq<Node<V>>, L0: seq<seq<nat>>, hash: string -> Score, key: string,
                       ps: seq<nat>, ss: seq<Ref>, idx: seq<int>, N: seq<Node<V>>, x: nat, l: nat)
    requires WellFormed(Nold, L0, hash) && Filled(Nold, L0, Target(hash, key), ps, ss, idx, 0)
    requires key !in Entries(Nold, L0, hash)
    requires x == |Nold| && |N| == x + 1 && l < MaxLevel
    requires forall id :: 0 <= id < x ==> N[id].Shape() == Nold[id].Shape()
    requires N[x].key == key && N[x].score == hash(key)
    ensures Sorted(N, L0[l]) && Sorted(N, Insert(L0[l], idx[l] + 1, x))
  {
    ShapeFacts(Nold, L0, hash);
    var L, p, t := L0[l], idx[l], Target(hash, key);
    SortedFrame(Nold, N, L);
    assert N[x].Pos() == t;
    assert Bracket(Nold, L, t, p, ps[l], ss[l]);
    if p >= 0 {
      assert N[L[p]].Pos() == Nold[L[p]].Pos();
    }
    if p + 1 < |L| {
      var y := L[p + 1];
      assert y in L0[0] by { assert y in L0[l]; }
      EntriesHas(Nold, L0, hash, key);
      assert Nold[y].key != key;
      LessTotal(t, Nold[y].Pos());
      assert N[y].Pos() == Nold[y].Pos();
    }
    SortedInsert(N, L, p, x);
  }

  /** Level membership still follows the heights once `x` of height `h` is linked below `h`. */
  lemma GrownMembership<V>(Nold: seq<Node<V>>, L0: seq<seq<nat>>, hash: string -> Score,
                           idx: seq<int>, N: seq<Node<V>>, G: seq<seq<nat>>, x: nat, h: nat)
    requires WellFormed(Nold, L0, hash) && Grown(L0, idx, x, h, G) && 1 <= h
    requires x == |Nold| && |N| == x + 1
    requires forall id :: 0 <= id < x ==> N[id].Shape() == Nold[id].Shape()
    requires |N[x].next| == h && !N[x].marked
    ensures forall i, id :: 0 <= i < MaxLevel && id in G[i] ==> id in G[0]
    ensures forall i, id :: 0 <= i < MaxLevel && id in G[0] ==> (id in G[i] <==> i < |N[id].next|)
    ensures forall id :: 1 <= id < |N| ==> (N[id].marked <==> id !in G[0])
  {
    ShapeFacts(Nold, L0, hash);
    GrownMembers(L0, idx, x, h, G, 0);
    assert x !in L0[0] by { assert Sorted(Nold, L0[0]); }
    forall i, id | 0 <= i < MaxLevel && id in G[i] ensures id in G[0] {
      GrownMembers(L0, idx, x, h, G, i);
    }
    forall i, id | 0 <= i < MaxLevel && id in G[0] ensures id in G[i] <==> i < |N[id].next| {
      GrownMembers(L0, idx, x, h, G, i);
      assert x !in L0[i] by { assert Sorted(Nold, L0[i]); }
      if id != x {
        assert id in L0[0];
        assert id < x by { assert Sorted(Nold, L0[0]); }
        assert |N[id].next| == |Nold[id].next|;
      }
    }
    forall id | 1 <= id < |N| ensures N[id].marked <==> id !in G[0] {
      if id != x {
        assert N[id].marked == Nold[id].marked;
      }
    }
  }

  /** Linking a fresh node of height `h`, between its bracket at each level below `h`, keeps the list well formed. */
  lemma GrownWellFormed<V>(Nold: seq<Node<V>>, L0: seq<seq<nat>>, hash: string -> Score, key: string,
                           ps: seq<nat>, ss: seq<Ref>, idx: seq<int>, N: seq<Node<V>>, G: seq<seq<nat>>, x: nat, h: nat)
    requires WellFormed(Nold, L0, hash) && Filled(Nold, L0, Target(hash, key), ps, ss, idx, 0)
    requires key !in Entries(Nold, L0, hash)
    requires x == |Nold| && |N| == x + 1 && 1 <= h <= MaxLevel
    requires forall id :: 0 <= id < x ==> N[id].Shape() == Nold[id].Shape()
    requires N[x].key == key && N[x].score == hash(key) && |N[x].next| == h && N[x].fullyLinked && !N[x].marked
    requires Grown(L0, idx, x, h, G) && AllLinked(N, G)
    ensures WellFormed(N, G, hash)
  {
    forall l | 0 <= l < MaxLevel ensures Sorted(N, G[l]) {
      GrownSorted(Nold, L0, hash, key, ps, ss, idx, N, x, l);
    }
    GrownMembership(Nold, L0, hash, idx, N, G, x, h);
    assert N[0].Shape() == Nold[0].Shape();
    forall id | 1 <= id < |N|
      ensures 1 <= |N[id].next| <= MaxLevel && N[id].score == hash(N[id].key) && N[id].fullyLinked
    {
      if id != x {
        assert N[id].Shape() == Nold[id].Shape();
      }
    }
  }

  /**
   * Linking a fresh node with an absent key in, below its height and between
   * its bracket at each level, keeps the list well formed and adds exactly
   * that key with the node's value.
   */
  lemma InsertWellFormed<V>(Nold: seq<Node<V>>, L0: seq<seq<nat>>, hash: string -> Score, key: string,
                            ps: seq<nat>, ss: seq<Ref>, idx: seq<int>, N: seq<Node<V>>, G: seq<seq<nat>>, x: nat, h: nat)
    requires WellFormed(Nold, L0, hash) && Filled(Nold, L0, Target(hash, key), ps, ss, idx, 0)
    requires key !in Entries(Nold, L0, hash)
    requires x == |Nold| && |N| == x + 1 && 1 <= h <= MaxLevel
    requires forall id :: 0 <= id < x ==> N[id].Shape() == Nold[id].Shape()
    requires N[x].key == key && N[x].score == hash(key) && |N[x].next| == h && N[x].fullyLinked && !N[x].marked
    requires Grown(L0, idx, x, h, G) && AllLinked(N, G)
    ensures WellFormed(N, G, hash)
    ensures Entries(N, G, hash) == Entries(Nold, L0, hash)[key := N[x].value]
    ensures |G[0]| == |L0[0]| + 1
  {
    GrownWellFormed(Nold, L0, hash, key, ps, ss, idx, N, G, x, h);
    ShapeFacts(Nold, L0, hash);
    assert G[0] == Insert(L0[0], idx[0] + 1, x);
    GrownEntries(Nold, L0[0], hash, N, x, idx[0] + 1);
  }

  /**
   * The end of `Store`'s insertion: a new node of height `h` appended to
   * the table, linked in by the loop without changing anything but links,
   * then flagged fully linked, leaves a well-formed list holding one more
   * entry.
   */
  lemma InsertFinish<V>(N0: seq<Node<V>>, L0: seq<seq<nat>>, hash: string -> Score, key: string, value: V,
                        ps: seq<nat>, ss: seq<Ref>, idx: seq<int>, N1: seq<Node<V>>, G: seq<seq<nat>>, h: nat)
    requires WellFormed(N0, L0, hash) && Filled(N0, L0, Target(hash, key), ps, ss, idx, 0)
    requires key !in Entries(N0, L0, hash) && 1 <= h <= MaxLevel
    requires SameShapes(N0 + [NewNode(key, hash, value, h)], N1)
    requires Grown(L0, idx, |N0|, h, G) && AllLinked(N1, G)
    ensures var N := N1[|N0| := N1[|N0|].(fullyLinked := true)];
      && WellFormed(N, G, hash)
      && Entries(N, G, hash) == Entries(N0, L0, hash)[key := value]
      && |G[0]| == |L0[0]| + 1
  {
    var x := |N0|;
    var N := N1[x := N1[x].(fullyLinked := true)];
    AllLinkedFrame(N1, N, G);
    forall id | 0 <= id < x ensures N[id].Shape() == N0[id].Shape() {
      assert N1[id].Shape() == (N0 + [NewNode(key, hash, value, h)])[id].Shape();
    }
    assert N1[x].Shape() == NewNode(key, hash, value, h).Shape();
    InsertWellFormed(N0, L0, hash, key, ps, ss, idx, N, G, x, h);
  }

  /** Splicing a node with a new key into a sorted level adds exactly its entry. */
  lemma GrownEntries<V>(Nold: seq<Node<V>>, L: seq<nat>, hash: string -> Score, N: seq<Node<V>>, x: nat, k: nat)
    requires Sorted(Nold, L) && forall p :: 0 <= p < |L| ==> Nold[L[p]].score == hash(Nold[L[p]].key)
    requires x == |Nold| >= 1 && |N| == x + 1 && k <= |L|
    requires N[x].key !in MapOf(Nold, L)
    requires forall id :: 0 <= id < x ==> N[id].Shape() == Nold[id].Shape()
    ensures InRange(N, Insert(L, k, x))
    ensures MapOf(N, Insert(L, k, x)) == MapOf(Nold, L)[N[x].key := N[x].value]
  {
    SortedDistinctKeys(Nold, L, hash);
    forall p | 0 <= p < |L| ensures N[L[p]].key != N[x].key {
      MapOfMember(Nold, L, p);
      assert N[L[p]].key == Nold[L[p]].key;
    }
    MapOfFrame(Nold, N, L);
    assert DistinctKeys(N, L) by {
      forall a, b | 0 <= a < b < |L| ensures N[L[a]].key != N[L[b]].key {
        assert N[L[a]].key == Nold[L[a]].key && N[L[b]].key == Nold[L[b]].key;
      }
    }
    MapOfInsert(N, L, k, x);
  }

  // ---------------------------------------------------------------------------
  // Unlinking a node

  /** `S` is `L0` without `d`, found right after position `idx[l]`, at each level `l` from `lo` to `top`. */
  ghost predicate Shrunk(L0: seq<seq<nat>>, idx: seq<int>, d: nat, lo: int, top: int, S: seq<seq<nat>>)
  {
    && |L0| == MaxLevel && |idx| == MaxLevel && |S| == MaxLevel && top < MaxLevel
    && forall l :: 0 <= l < MaxLevel ==>
         if lo <= l <= top then -1 <= idx[l] && idx[l] + 1 < |L0[l]| && L0[l][idx[l] + 1] == d && S[l] == Remove(L0[l], idx[l] + 1)
         else S[l] == L0[l]
  }

  /** Unlinking the node after position `p` at level `i` keeps every level linked as listed. */
  lemma UnlinkLayer<V>(nodes: seq<Node<V>>, levels: seq<seq<nat>>, i: nat, p: int)
    requires AllLinked(nodes, levels) && i < MaxLevel && Distinct(levels[i]) && -1 <= p && p + 1 < |levels[i]|
    ensures var d := levels[i][p + 1];
      && i < |nodes[d].next| && i < |nodes[At(levels[i], p)].next|
      && AllLinked(SetNext(nodes, At(levels[i], p), i, nodes[d].next[i]), levels[i := Remove(levels[i], p + 1)])
  {
    var L := levels[i];
    var d := L[p + 1];
    LinkOut(nodes, i, L, p);
    var n' := SetNext(nodes, At(L, p), i, nodes[d].next[i]);
    var levels' := levels[i := Remove(L, p + 1)];
    forall l | 0 <= l < MaxLevel ensures Linked(n', l, levels'[l]) {
      if l != i {
        LinkedAway(nodes, l, levels[l], At(L, p), i, nodes[d].next[i]);
      }
    }
  }

  /** One pass of the unlinking loop of `LoadAndDelete`, at level `i`, shrinks one more level. */
  lemma ShrinkStep<V>(N0: seq<Node<V>>, L0: seq<seq<nat>>, idx: seq<int>, d: nat, i: nat, top: nat,
                      nodes: seq<Node<V>>, levels: seq<seq<nat>>, pred: nat)
    requires Shrunk(L0, idx, d, i + 1, top, levels) && AllLinked(nodes, levels) && SameShapes(N0, nodes)
    requires i <= top < MaxLevel && 1 <= d < |N0| && top < |N0[d].next|
    requires Distinct(L0[i]) && -1 <= idx[i] && idx[i] + 1 < |L0[i]| && L0[i][idx[i] + 1] == d && pred == At(L0[i], idx[i])
    ensures pred < |nodes| && i < |nodes[pred].next| && d < |nodes| && i < |nodes[d].next|
    ensures var n' := SetNext(nodes, pred, i, nodes[d].next[i]);
      var levels' := levels[i := Remove(levels[i], idx[i] + 1)];
      Shrunk(L0, idx, d, i, top, levels') && AllLinked(n', levels') && SameShapes(N0, n')
  {
    assert levels[i] == L0[i];
    assert nodes[d].Shape() == N0[d].Shape();
    UnlinkLayer(nodes, levels, i, idx[i]);
  }

  lemma ShrunkMembers(L0: seq<seq<nat>>, idx: seq<int>, d: nat, top: int, S: seq<seq<nat>>, l: nat)
    requires Shrunk(L0, idx, d, 0, top, S) && l < MaxLevel && Distinct(L0[l])
    ensures forall y :: y in S[l] <==> y in L0[l] && (l > top || y != d)
  {
    if l <= top {
      RemoveMembers(L0[l], idx[l] + 1);
    }
  }

  /** Level membership still follows the heights once `d` is unlinked from every level and marked. */
  lemma ShrunkMembership<V>(Nold: seq<Node<V>>, L0: seq<seq<nat>>, hash: string -> Score,
                            idx: seq<int>, N: seq<Node<V>>, S: seq<seq<nat>>, d: nat)
    requires WellFormed(Nold, L0, hash) && d in L0[0]
    requires Shrunk(L0, idx, d, 0, |Nold[d].next| - 1, S)
    requires |N| == |Nold| && N[d].marked
    requires forall id :: 0 <= id < |N| && id != d ==> N[id].Shape() == Nold[id].Shape()
    ensures forall i, id :: 0 <= i < MaxLevel && id in S[i] ==> id in S[0]
    ensures forall i, id :: 0 <= i < MaxLevel && id in S[0] ==> (id in S[i] <==> i < |Nold[id].next|)
    ensures forall id :: 1 <= id < |N| ==> (N[id].marked <==> id !in S[0])
  {
    ShapeFacts(Nold, L0, hash);
    assert Sorted(Nold, L0[0]);
    SortedDistinct(Nold, L0[0]);
    ShrunkMembers(L0, idx, d, |Nold[d].next| - 1, S, 0);
    forall i, id | 0 <= i < MaxLevel && id in S[i] ensures id in S[0] {
      assert Sorted(Nold, L0[i]);
      SortedDistinct(Nold, L0[i]);
      ShrunkMembers(L0, idx, d, |Nold[d].next| - 1, S, i);
    }
    forall i, id | 0 <= i < MaxLevel && id in S[0] ensures id in S[i] <==> i < |Nold[id].next| {
      assert Sorted(Nold, L0[i]);
      SortedDistinct(Nold, L0[i]);
      ShrunkMembers(L0, idx, d, |Nold[d].next| - 1, S, i);
    }
    forall id | 1 <= id < |N| ensures N[id].marked <==> id !in S[0] {
      if id != d {
        assert N[id].marked == Nold[id].marked;
      }
    }
  }

  /** Unlinking and marking `d` keeps the list well formed. */
  lemma ShrunkWellFormed<V>(Nold: seq<Node<V>>, L0: seq<seq<nat>>, hash: string -> Score,
                            idx: seq<int>, N: seq<Node<V>>, S: seq<seq<nat>>, d: nat)
    requires WellFormed(Nold, L0, hash) && d in L0[0]
    requires Shrunk(L0, idx, d, 0, |Nold[d].next| - 1, S) && AllLinked(N, S)
    requires |N| == |Nold| && N[d].marked && N[d].Shape() == Nold[d].(marked := true).Shape()
    requires forall id :: 0 <= id < |N| && id != d ==> N[id].Shape() == Nold[id].Shape()
    ensures WellFormed(N, S, hash)
  {
    ShapeFacts(Nold, L0, hash);
    assert SameEntries(Nold, N) by {
      forall id | 0 <= id < |Nold| ensures N[id].key == Nold[id].key && N[id].score == Nold[id].score && N[id].value == Nold[id].value {
        if id != d {
          assert N[id].Shape() == Nold[id].Shape();
        }
      }
    }
    forall l | 0 <= l < MaxLevel ensures Sorted(N, S[l]) {
      SortedFrame(Nold, N, L0[l]);
      if l < |Nold[d].next| {
        SortedRemove(N, L0[l], idx[l] + 1);
      }
    }
    ShrunkMembership(Nold, L0, hash, idx, N, S, d);
    assert d != 0 by { assert Sorted(Nold, L0[0]); }
    assert N[0].Shape() == Nold[0].Shape();
    forall id | 0 <= id < |N| ensures |N[id].next| == |Nold[id].next| {
      if id != d {
        assert N[id].Shape() == Nold[id].Shape();
      }
    }
    forall id | 1 <= id < |N|
      ensures 1 <= |N[id].next| <= MaxLevel && N[id].score == hash(N[id].key) && N[id].fullyLinked
    {
      if id != d {
        assert N[id].Shape() == Nold[id].Shape();
      }
    }
  }

  /** Unlinking the node of a level drops exactly its key. */
  lemma ShrunkEntries<V>(Nold: seq<Node<V>>, L: seq<nat>, hash: string -> Score, N: seq<Node<V>>, k: nat)
    requires Sorted(Nold, L) && forall p :: 0 <= p < |L| ==> Nold[L[p]].score == hash(Nold[L[p]].key)
    requires k < |L| && SameEntries(Nold, N)
    ensures InRange(N, Remove(L, k))
    ensures MapOf(N, Remove(L, k)) == MapOf(Nold, L) - {Nold[L[k]].key}
  {
    SortedDistinctKeys(Nold, L, hash);
    MapOfFrame(Nold, N, L);
    MapOfRemove(N, L, k);
  }

  /**
   * Marking the node holding `key` and unlinking it at every level of its
   * height keeps the list well formed and drops exactly that key.
   */
  lemma RemoveWellFormed<V>(Nold: seq<Node<V>>, L0: seq<seq<nat>>, hash: string -> Score, key: string,
                            idx: seq<int>, N: seq<Node<V>>, S: seq<seq<nat>>, d: nat)
    requires WellFormed(Nold, L0, hash) && d in L0[0] && Nold[d].key == key
    requires Shrunk(L0, idx, d, 0, |Nold[d].next| - 1, S) && AllLinked(N, S)
    requires |N| == |Nold| && N[d].marked && N[d].Shape() == Nold[d].(marked := true).Shape()
    requires forall id :: 0 <= id < |N| && id != d ==> N[id].Shape() == Nold[id].Shape()
    ensures WellFormed(N, S, hash)
    ensures Entries(N, S, hash) == Entries(Nold, L0, hash) - {key}
    ensures |S[0]| == |L0[0]| - 1
  {
    ShrunkWellFormed(Nold, L0, hash, idx, N, S, d);
    ShapeFacts(Nold, L0, hash);
    assert S[0] == Remove(L0[0], idx[0] + 1);
    assert SameEntries(Nold, N) by {
      forall id | 0 <= id < |Nold| ensures N[id].key == Nold[id].key && N[id].score == Nold[id].score && N[id].value == Nold[id].value {
        if id != d {
          assert N[id].Shape() == Nold[id].Shape();
        }
      }
    }
    ShrunkEntries(Nold, L0[0], hash, N, idx[0] + 1);
  }

  // ---------------------------------------------------------------------------
  // Validation under the locks

  /** Node `id` has a link at level `l`, and it is `r`. */
  ghost predicate LinksTo<V>(nodes: seq<Node<V>>, id: nat, l: nat, r: Ref)
  {
    id < |nodes| && l < |nodes[id].next| && nodes[id].next[l] == r
  }

  /**
   * With nothing running alongside, the check `Store` makes under the locks
   * passes at every level: the predecessor is unmarked and still links to
   * the successor, which is unmarked as well.
   */
  lemma InsertValid<V>(nodes: seq<Node<V>>, levels: seq<seq<nat>>, hash: string -> Score, key: string,
                       ps: seq<nat>, ss: seq<Ref>, idx: seq<int>, l: nat)
    requires WellFormed(nodes, levels, hash) && Filled(nodes, levels, Target(hash, key), ps, ss, idx, 0) && l < MaxLevel
    ensures LinksTo(nodes, ps[l], l, ss[l]) && !nodes[ps[l]].marked
    ensures ss[l].Ptr? ==> ss[l].id < |nodes| && !nodes[ss[l].id].marked
  {
    assert Linked(nodes, l, levels[l]);
    assert Bracket(nodes, levels[l], Target(hash, key), idx[l], ps[l], ss[l]);
    if ss[l].Ptr? {
      assert ss[l].id in levels[l];
    }
  }

  /** The predecessors a search collects never interleave, so each is locked once. */
  lemma PredsContiguous<V>(nodes: seq<Node<V>>, levels: seq<seq<nat>>, hash: string -> Score, key: string,
                           ps: seq<nat>, ss: seq<Ref>, idx: seq<int>)
    requires WellFormed(nodes, levels, hash) && Filled(nodes, levels, Target(hash, key), ps, ss, idx, 0)
    ensures Contiguous(ps)
  {
    assert Sorted(nodes, levels[0]);
    ChainContiguous(nodes, levels[0], ps);
  }

  /**
   * Below the top level of the node `d` holding the key, a full search finds
   * `d` as the successor, right after the predecessor; once `d` is marked,
   * the check `LoadAndDelete` makes under the locks passes there.
   */
  lemma DeleteValid<V>(nodes: seq<Node<V>>, levels: seq<seq<nat>>, hash: string -> Score, key: string,
                       ps: seq<nat>, ss: seq<Ref>, idx: seq<int>, d: nat, l: nat)
    requires WellFormed(nodes, levels, hash) && Filled(nodes, levels, Target(hash, key), ps, ss, idx, 0)
    requires d in levels[0] && nodes[d].key == key && l < |nodes[d].next|
    ensures ss[l] == Ptr(d) && ps[l] != d
    ensures -1 <= idx[l] && idx[l] + 1 < |levels[l]| && levels[l][idx[l] + 1] == d && ps[l] == At(levels[l], idx[l])
    ensures var N1 := nodes[d := nodes[d].(marked := true)];
      LinksTo(N1, ps[l], l, ss[l]) && !N1[ps[l]].marked
  {
    assert d in levels[l];
    var q :| 0 <= q < |levels[l]| && levels[l][q] == d;
    BracketHasKey(nodes, levels, hash, key, l, idx[l], ps[l], ss[l], q);
    assert Sorted(nodes, levels[l]);
    SortedDistinct(nodes, levels[l]);
    InsertValid(nodes, levels, hash, key, ps, ss, idx, l);
  }

  /** Changing anything but the links of the nodes, or appending nodes, keeps every level linked. */
  lemma AllLinkedFrame<V>(nodes: seq<Node<V>>, nodes': seq<Node<V>>, levels: seq<seq<nat>>)
    requires AllLinked(nodes, levels) && |nodes| <= |nodes'|
    requires forall id :: 0 <= id < |nodes| ==> nodes'[id].next == nodes[id].next
    ensures AllLinked(nodes', levels)
  {
    forall l | 0 <= l < MaxLevel ensures Linked(nodes', l, levels[l]) {
      LinkFrame(nodes, nodes', l, levels[l]);
    }
  }

  // ---------------------------------------------------------------------------
  // Replacing a value

  /** Replacing a node's value leaves a level sorted and linked. */
  lemma UpdateLevel<V>(nodes: seq<Node<V>>, i: nat, L: seq<nat>, id: nat, v: V)
    requires Sorted(nodes, L) && Linked(nodes, i, L) && id < |nodes|
    ensures Sorted(nodes[id := nodes[id].(value := v)], L) && Linked(nodes[id := nodes[id].(value := v)], i, L)
  {
    var N := nodes[id := nodes[id].(value := v)];
    LinkFrame(nodes, N, i, L);
    forall p, q | 0 <= p < q < |L| ensures Less(N[L[p]].Pos(), N[L[q]].Pos()) {
      assert N[L[p]].Pos() == nodes[L[p]].Pos() && N[L[q]].Pos() == nodes[L[q]].Pos();
    }
  }

  /** Replacing the value of a linked node keeps the list well formed and updates that key only. */
  lemma UpdateWellFormed<V>(nodes: seq<Node<V>>, levels: seq<seq<nat>>, hash: string -> Score, id: nat, v: V)
    requires WellFormed(nodes, levels, hash) && id in levels[0]
    ensures WellFormed(nodes[id := nodes[id].(value := v)], levels, hash)
    ensures Entries(nodes[id := nodes[id].(value := v)], levels, hash) == Entries(nodes, levels, hash)[nodes[id].key := v]
  {
    ShapeFacts(nodes, levels, hash);
    var q :| 0 <= q < |levels[0]| && levels[0][q] == id;
    MapOfUpdate(nodes, levels[0], q, v);
    forall i | 0 <= i < MaxLevel
      ensures Sorted(nodes[id := nodes[id].(value := v)], levels[i]) && Linked(nodes[id := nodes[id].(value := v)], i, levels[i])
    {
      UpdateLevel(nodes, i, levels[i], id, v);
    }
  }

  // ---------------------------------------------------------------------------
  // Deleting a node

  /**
   * What a full search that met `key` at node `d` gives the deletion:
   * predecessors that never interleave, `d` right after the predecessor at
   * every level of its height, and, once `d` is marked, brackets that pass
   * the check made under the locks.
   */
  lemma DeleteReady<V>(nodes: seq<Node<V>>, levels: seq<seq<nat>>, hash: string -> Score, key: string,
                       ps: seq<nat>, ss: seq<Ref>, idx: seq<int>, d: nat)
    requires WellFormed(nodes, levels, hash) && Filled(nodes, levels, Target(hash, key), ps, ss, idx, 0)
    requires d in levels[0] && nodes[d].key == key
    ensures Contiguous(ps) && 1 <= d < |nodes| && |nodes[d].next| <= MaxLevel
    ensures key in Entries(nodes, levels, hash) && Entries(nodes, levels, hash)[key] == nodes[d].value
    ensures AllLinked(nodes[d := nodes[d].(marked := true)], levels)
    ensures var N1 := nodes[d := nodes[d].(marked := true)];
      forall l :: 0 <= l < |nodes[d].next| ==> ps[l] != d && LinksTo(N1, ps[l], l, ss[l]) && !N1[ps[l]].marked
    ensures forall l :: 0 <= l < |nodes[d].next| ==>
              Distinct(levels[l]) && -1 <= idx[l] && idx[l] + 1 < |levels[l]| && levels[l][idx[l] + 1] == d
              && ps[l] == At(levels[l], idx[l])
  {
    PredsContiguous(nodes, levels, hash, key, ps, ss, idx);
    ShapeFacts(nodes, levels, hash);
    var q :| 0 <= q < |levels[0]| && levels[0][q] == d;
    MapOfMember(nodes, levels[0], q);
    var N1 := nodes[d := nodes[d].(marked := true)];
    AllLinkedFrame(nodes, N1, levels);
    forall l | 0 <= l < |nodes[d].next|
      ensures ps[l] != d && LinksTo(N1, ps[l], l, ss[l]) && !N1[ps[l]].marked
      ensures Distinct(levels[l]) && -1 <= idx[l] && idx[l] + 1 < |levels[l]| && levels[l][idx[l] + 1] == d
      ensures ps[l] == At(levels[l], idx[l])
    {
      DeleteValid(nodes, levels, hash, key, ps, ss, idx, d, l);
      SortedDistinct(nodes, levels[l]);
    }
  }

  /**
   * The end of `LoadAndDelete`: the marked node `d`, unlinked by the loop
   * at every level of its height without changing anything but links,
   * leaves a well-formed list without its key.
   */
  lemma RemoveFinish<V>(N0: seq<Node<V>>, L0: seq<seq<nat>>, hash: string -> Score, key: string,
                        idx: seq<int>, d: nat, N1: seq<Node<V>>, S: seq<seq<nat>>)
    requires WellFormed(N0, L0, hash) && d in L0[0] && N0[d].key == key
    requires Shrunk(L0, idx, d, 0, |N0[d].next| - 1, S) && AllLinked(N1, S)
    requires SameShapes(N0[d := N0[d].(marked := true)], N1)
    ensures WellFormed(N1, S, hash)
    ensures Entries(N1, S, hash) == Entries(N0, L0, hash) - {key}
    ensures |S[0]| == |L0[0]| - 1
  {
    var M := N0[d := N0[d].(marked := true)];
    assert N1[d].Shape() == M[d].Shape();
    forall id | 0 <= id < |N1| && id != d ensures N1[id].Shape() == N0[id].Shape() {
      assert N1[id].Shape() == M[id].Shape();
    }
    RemoveWellFormed(N0, L0, hash, key, idx, N1, S, d);
  }
}
