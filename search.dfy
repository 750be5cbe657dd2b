/**
 * The descent of `findNode` and `findNodeDelete`, stated over the node
 * table and the levels as values: what one level of search establishes,
 * and what a whole descent says about the key.
 */
module Search {
  import opened Order
  import opened Nodes
  import opened Levels

  /** The position a key takes in the node order. */
  function Target(hash: string -> Score, key: string): Order.Pos
  {
    Order.Pos(hash(key), key)
  }

  /** The key/value pairs of a well-formed list: those of the nodes linked at level 0. */
  ghost function Entries<V>(nodes: seq<Node<V>>, levels: seq<seq<nat>>, hash: string -> Score): map<string, V>
    requires WellFormed(nodes, levels, hash)
  {
    assert Sorted(nodes, levels[0]);
    MapOf(nodes, levels[0])
  }

  lemma ShapeFacts<V>(nodes: seq<Node<V>>, levels: seq<seq<nat>>, hash: string -> Score)
    requires WellFormed(nodes, levels, hash)
    ensures forall i :: 0 <= i < MaxLevel ==> Sorted(nodes, levels[i]) && Linked(nodes, i, levels[i])
    ensures DistinctKeys(nodes, levels[0])
  {
    assert Sorted(nodes, levels[0]);
    SortedDistinctKeys(nodes, levels[0], hash);
  }

  /** Every level lists exactly the nodes of level 0 taller than it, in the same order. */
  lemma LevelFilter<V>(nodes: seq<Node<V>>, levels: seq<seq<nat>>, hash: string -> Score, i: nat)
    requires WellFormed(nodes, levels, hash) && i < MaxLevel
    ensures levels[i] == Tall(nodes, levels[0], i)
  {
    ShapeFacts(nodes, levels, hash);
    TallSorted(nodes, levels[0], i);
    SortedUnique(nodes, levels[i], Tall(nodes, levels[0], i));
  }

  /** Level `i + 1` is the sub-list of level `i` formed by its nodes taller than `i + 1`. */
  lemma LevelSubList<V>(nodes: seq<Node<V>>, levels: seq<seq<nat>>, hash: string -> Score, i: nat)
    requires WellFormed(nodes, levels, hash) && i + 1 < MaxLevel
    ensures levels[i + 1] == Tall(nodes, levels[i], i + 1)
  {
    ShapeFacts(nodes, levels, hash);
    TallSorted(nodes, levels[i], i + 1);
    var upper, lower := levels[i + 1], levels[i];
    forall y ensures y in upper <==> y in Tall(nodes, lower, i + 1) {
      if y in upper || y in lower {
        assert y in levels[0];
      }
    }
    SortedUnique(nodes, levels[i + 1], Tall(nodes, levels[i], i + 1));
  }

  /** The map holds one entry per node linked at level 0. */
  lemma EntriesSize<V>(nodes: seq<Node<V>>, levels: seq<seq<nat>>, hash: string -> Score)
    requires WellFormed(nodes, levels, hash)
    ensures |Entries(nodes, levels, hash)| == |levels[0]|
  {
    ShapeFacts(nodes, levels, hash);
    MapOfSize(nodes, levels[0]);
  }

  /** A node linked at level 0 is visible, and its key maps to its value. */
  lemma EntryOf<V>(nodes: seq<Node<V>>, levels: seq<seq<nat>>, hash: string -> Score, id: nat)
    requires WellFormed(nodes, levels, hash) && id in levels[0]
    ensures 1 <= id < |nodes| && nodes[id].Visible()
    ensures nodes[id].key in Entries(nodes, levels, hash) && Entries(nodes, levels, hash)[nodes[id].key] == nodes[id].value
  {
    ShapeFacts(nodes, levels, hash);
    var q :| 0 <= q < |levels[0]| && levels[0][q] == id;
    MapOfMember(nodes, levels[0], q);
  }

  /** A key is present exactly when a node with that key is linked at level 0. */
  lemma EntriesHas<V>(nodes: seq<Node<V>>, levels: seq<seq<nat>>, hash: string -> Score, key: string)
    requires WellFormed(nodes, levels, hash)
    ensures key in Entries(nodes, levels, hash) <==>
              exists p :: 0 <= p < |levels[0]| && nodes[levels[0][p]].key == key
  {
    ShapeFacts(nodes, levels, hash);
    if key in Entries(nodes, levels, hash) {
      var p := MapOfWitness(nodes, levels[0], key);
    }
    forall p | 0 <= p < |levels[0]| && nodes[levels[0][p]].key == key
      ensures key in Entries(nodes, levels, hash)
    {
      MapOfMember(nodes, levels[0], p);
    }
  }

  /** The node with `key`, wherever it is linked, is the successor found at that level. */
  lemma BracketHasKey<V>(nodes: seq<Node<V>>, levels: seq<seq<nat>>, hash: string -> Score,
                         key: string, i: nat, p: int, pred: nat, succ: Ref, q: nat)
    requires WellFormed(nodes, levels, hash) && i < MaxLevel
    requires Bracket(nodes, levels[i], Target(hash, key), p, pred, succ)
    requires q < |levels[i]| && nodes[levels[i][q]].key == key
    ensures succ == Ptr(levels[i][q])
  {
    ShapeFacts(nodes, levels, hash);
    assert levels[i][q] in levels[0];
    BracketFinds(nodes, levels[i], Target(hash, key), p, pred, succ, q);
  }

  /**
   * Levels `lo` to the top of a search result: `pred < key <= succ` at each,
   * every predecessor linked (or the header), and predecessors never move
   * backwards going down.
   */
  ghost predicate Filled<V>(nodes: seq<Node<V>>, levels: seq<seq<nat>>, t: Order.Pos,
                            ps: seq<nat>, ss: seq<Ref>, idx: seq<int>, lo: int)
  {
    && |levels| == MaxLevel && |ps| == MaxLevel && |ss| == MaxLevel && |idx| == MaxLevel && 0 <= lo <= MaxLevel
    && (forall i :: lo <= i < MaxLevel ==>
          Bracket(nodes, levels[i], t, idx[i], ps[i], ss[i]) && (ps[i] == 0 || ps[i] in levels[0]))
    && (forall j, k :: lo <= j < k < MaxLevel ==> NotAfter(nodes, ps[k], ps[j]))
  }

  /** The successor found at level `j` (if any) does not hold the key. */
  ghost predicate Misses<V>(nodes: seq<Node<V>>, key: string, ss: seq<Ref>, j: int)
  {
    0 <= j < |ss| && !(ss[j].Ptr? && ss[j].id < |nodes| && nodes[ss[j].id].key == key)
  }

  lemma FilledExtend<V>(nodes: seq<Node<V>>, levels: seq<seq<nat>>, t: Order.Pos,
                        ps: seq<nat>, ss: seq<Ref>, idx: seq<int>, i: nat, x: nat, succ: Ref, p: int)
    requires i < MaxLevel && Filled(nodes, levels, t, ps, ss, idx, i + 1)
    requires Bracket(nodes, levels[i], t, p, x, succ) && (x == 0 || x in levels[0])
    requires i + 1 < MaxLevel ==> NotAfter(nodes, ps[i + 1], x)
    ensures Filled(nodes, levels, t, ps[i := x], ss[i := succ], idx[i := p], i)
  {
    var ps' := ps[i := x];
    forall j, k | i <= j < k < MaxLevel ensures NotAfter(nodes, ps'[k], ps'[j]) {
      if j == i && k > i + 1 {
        NotAfterTrans(nodes, ps[k], ps[i + 1], x);
      }
    }
  }

  /** A search that filled every level and missed the key at level 0 proves the key absent. */
  lemma MissAbsent<V>(nodes: seq<Node<V>>, levels: seq<seq<nat>>, hash: string -> Score,
                      key: string, ps: seq<nat>, ss: seq<Ref>, idx: seq<int>)
    requires WellFormed(nodes, levels, hash)
    requires Filled(nodes, levels, Target(hash, key), ps, ss, idx, 0) && Misses(nodes, key, ss, 0)
    ensures key !in Entries(nodes, levels, hash)
  {
    EntriesHas(nodes, levels, hash, key);
    if key in Entries(nodes, levels, hash) {
      var q :| 0 <= q < |levels[0]| && nodes[levels[0][q]].key == key;
      BracketHasKey(nodes, levels, hash, key, 0, idx[0], ps[0], ss[0], q);
      assert false;
    }
  }

  /** The first level, from the top, whose successor holds the key is that node's top level. */
  lemma FirstMatchIsTop<V>(nodes: seq<Node<V>>, levels: seq<seq<nat>>, hash: string -> Score,
                           key: string, ps: seq<nat>, ss: seq<Ref>, idx: seq<int>, i: nat)
    requires WellFormed(nodes, levels, hash) && i < MaxLevel
    requires Filled(nodes, levels, Target(hash, key), ps, ss, idx, i)
    requires i + 1 < MaxLevel ==> Misses(nodes, key, ss, i + 1)
    requires ss[i].Ptr? && nodes[ss[i].id].key == key
    ensures ss[i].id in levels[0] && i == |nodes[ss[i].id].next| - 1
    ensures key in Entries(nodes, levels, hash)
  {
    var id := ss[i].id;
    assert id in levels[i];
    if i + 1 < |nodes[id].next| {
      assert id in levels[i + 1];
      var q :| 0 <= q < |levels[i + 1]| && levels[i + 1][q] == id;
      BracketHasKey(nodes, levels, hash, key, i + 1, idx[i + 1], ps[i + 1], ss[i + 1], q);
      assert false;
    }
    EntryOf(nodes, levels, hash, id);
  }

  /**
   * The state of a descent before it searches level `i`: the levels above
   * are filled, the one just above missed the key, and `x` is the node
   * the search resumes from.
   */
  ghost predicate Descent<V>(nodes: seq<Node<V>>, levels: seq<seq<nat>>, hash: string -> Score,
                             key: string, ps: seq<nat>, ss: seq<Ref>, idx: seq<int>, i: int, x: nat)
  {
    && -1 <= i < MaxLevel && Filled(nodes, levels, Target(hash, key), ps, ss, idx, i + 1)
    && (i + 1 < MaxLevel ==> Misses(nodes, key, ss, i + 1) && x == ps[i + 1])
    && (i + 1 == MaxLevel ==> x == 0)
    && (i >= 0 ==> x < |nodes| && (x == 0 || (x in levels[i] && Less(nodes[x].Pos(), Target(hash, key)))))
  }

  /** One level of search either meets the key at its top level or continues the descent. */
  lemma DescentStep<V>(nodes: seq<Node<V>>, levels: seq<seq<nat>>, hash: string -> Score,
                       key: string, ps: seq<nat>, ss: seq<Ref>, idx: seq<int>, i: nat, x: nat, x': nat, succ: Ref, p: int)
    requires WellFormed(nodes, levels, hash) && Descent(nodes, levels, hash, key, ps, ss, idx, i, x)
    requires Bracket(nodes, levels[i], Target(hash, key), p, x', succ) && NotAfter(nodes, x, x')
    requires x' == 0 || (x' in levels[i] && Less(nodes[x'].Pos(), Target(hash, key)))
    ensures Filled(nodes, levels, Target(hash, key), ps[i := x'], ss[i := succ], idx[i := p], i)
    ensures succ.Ptr? ==> succ.id < |nodes|
    ensures succ.Ptr? && nodes[succ.id].key == key ==>
              && succ.id in levels[0] && i == |nodes[succ.id].next| - 1 && nodes[succ.id].Visible()
              && key in Entries(nodes, levels, hash) && Entries(nodes, levels, hash)[key] == nodes[succ.id].value
    ensures !(succ.Ptr? && nodes[succ.id].key == key) ==>
              Descent(nodes, levels, hash, key, ps[i := x'], ss[i := succ], idx[i := p], i - 1, x')
  {
    FilledExtend(nodes, levels, Target(hash, key), ps, ss, idx, i, x', succ, p);
    if succ.Ptr? && nodes[succ.id].key == key {
      FirstMatchIsTop(nodes, levels, hash, key, ps[i := x'], ss[i := succ], idx[i := p], i);
      EntryOf(nodes, levels, hash, succ.id);
    }
  }

  /**
   * The state of the descent of `findNodeDelete` before it searches level
   * `i`: the levels above are filled and `x` is the node the search resumes
   * from. `lFound` is -1 while no successor above held the key, and
   * otherwise the first (highest) such level, which is the top level of
   * that node.
   */
  ghost predicate Sweep<V>(nodes: seq<Node<V>>, levels: seq<seq<nat>>, hash: string -> Score,
                           key: string, ps: seq<nat>, ss: seq<Ref>, idx: seq<int>, i: int, x: nat, lFound: int)
  {
    && -1 <= i < MaxLevel && Filled(nodes, levels, Target(hash, key), ps, ss, idx, i + 1)
    && (i + 1 == MaxLevel ==> x == 0 && lFound == -1)
    && (i + 1 < MaxLevel ==> x == ps[i + 1])
    && (i >= 0 ==> x < |nodes| && (x == 0 || (x in levels[i] && Less(nodes[x].Pos(), Target(hash, key)))))
    && (lFound == -1 && i + 1 < MaxLevel ==> Misses(nodes, key, ss, i + 1))
    && (lFound != -1 ==>
          && i < lFound < MaxLevel && ss[lFound].Ptr? && ss[lFound].id in levels[0]
          && nodes[ss[lFound].id].key == key && lFound == |nodes[ss[lFound].id].next| - 1)
  }

  /** One level of the descent of `findNodeDelete`, which goes on to level 0 whatever it meets. */
  lemma SweepStep<V>(nodes: seq<Node<V>>, levels: seq<seq<nat>>, hash: string -> Score, key: string,
                     ps: seq<nat>, ss: seq<Ref>, idx: seq<int>, i: nat, x: nat, lFound: int, x': nat, succ: Ref, p: int)
    requires WellFormed(nodes, levels, hash) && Sweep(nodes, levels, hash, key, ps, ss, idx, i, x, lFound)
    requires Bracket(nodes, levels[i], Target(hash, key), p, x', succ) && NotAfter(nodes, x, x')
    requires x' == 0 || (x' in levels[i] && Less(nodes[x'].Pos(), Target(hash, key)))
    ensures succ.Ptr? ==> succ.id < |nodes|
    ensures var lFound' := if lFound == -1 && succ.Ptr? && nodes[succ.id].key == key then i else lFound;
      Sweep(nodes, levels, hash, key, ps[i := x'], ss[i := succ], idx[i := p], i - 1, x', lFound')
  {
    FilledExtend(nodes, levels, Target(hash, key), ps, ss, idx, i, x', succ, p);
    if lFound == -1 && succ.Ptr? && nodes[succ.id].key == key {
      FirstMatchIsTop(nodes, levels, hash, key, ps[i := x'], ss[i := succ], idx[i := p], i);
    }
  }

  /** At the end of the descent, `lFound` is -1 exactly when the key is absent. */
  lemma SweepEnd<V>(nodes: seq<Node<V>>, levels: seq<seq<nat>>, hash: string -> Score, key: string,
                    ps: seq<nat>, ss: seq<Ref>, idx: seq<int>, x: nat, lFound: int)
    requires WellFormed(nodes, levels, hash) && Sweep(nodes, levels, hash, key, ps, ss, idx, -1, x, lFound)
    ensures lFound == -1 <==> key !in Entries(nodes, levels, hash)
  {
    if lFound == -1 {
      MissAbsent(nodes, levels, hash, key, ps, ss, idx);
    } else {
      var d := ss[lFound].id;
      ShapeFacts(nodes, levels, hash);
      var q :| 0 <= q < |levels[0]| && levels[0][q] == d;
      MapOfMember(nodes, levels[0], q);
    }
  }
}
