/**
 * What `Range` walks: the key/value pairs of level 0, in list order, and
 * the prefix of them it hands to the callback before the callback asks it
 * to stop.
 */
module Walk {
  import opened Order
  import opened Nodes
  import opened Levels
  import opened Search

  /** The key/value pairs of the nodes of a level, in order. */
  ghost function Items<V>(nodes: seq<Node<V>>, L: seq<nat>): seq<(string, V)>
    requires InRange(nodes, L)
  {
    seq(|L|, p requires 0 <= p < |L| => (nodes[L[p]].key, nodes[L[p]].value))
  }

  /**
   * The pairs a walk over `items` hands to `f`: every pair up to and
   * including the first one `f` answers false to, or all of them.
   */
  function RangeCalls<V>(items: seq<(string, V)>, f: (string, V) -> bool): (r: seq<(string, V)>)
    ensures |r| <= |items| && r == items[..|r|]
    ensures forall j :: 0 <= j < |r| - 1 ==> f(r[j].0, r[j].1)
    ensures |r| < |items| ==> r != [] && !f(r[|r| - 1].0, r[|r| - 1].1)
  {
    if items == [] then []
    else if !f(items[0].0, items[0].1) then [items[0]]
    else [items[0]] + RangeCalls(items[1..], f)
  }

  /** A walk whose callback accepts the first `p` pairs and rejects pair `p` stops right after it. */
  lemma {:induction false} RangeCallsStop<V>(items: seq<(string, V)>, f: (string, V) -> bool, p: nat)
    requires p < |items| && !f(items[p].0, items[p].1)
    requires forall j :: 0 <= j < p ==> f(items[j].0, items[j].1)
    ensures RangeCalls(items, f) == items[..p + 1]
  {
    if p > 0 {
      RangeCallsStop(items[1..], f, p - 1);
      assert items[..p + 1] == [items[0]] + items[1..][..p];
    }
  }

  /** A walk whose callback accepts every pair hands it all of them. */
  lemma {:induction false} RangeCallsAll<V>(items: seq<(string, V)>, f: (string, V) -> bool)
    requires forall j :: 0 <= j < |items| ==> f(items[j].0, items[j].1)
    ensures RangeCalls(items, f) == items
  {
    if items != [] {
      RangeCallsAll(items[1..], f);
      assert items == [items[0]] + items[1..];
    }
  }

  /** Level 0 lists its pairs in strictly ascending `(hash(key), key)` order, so no key twice. */
  lemma ItemsAscending<V>(nodes: seq<Node<V>>, levels: seq<seq<nat>>, hash: string -> Score)
    requires WellFormed(nodes, levels, hash)
    ensures InRange(nodes, levels[0])
    ensures var items := Items(nodes, levels[0]);
      forall a, b :: 0 <= a < b < |items| ==>
        Less(Target(hash, items[a].0), Target(hash, items[b].0)) && items[a].0 != items[b].0
  {
    ShapeFacts(nodes, levels, hash);
    var L := levels[0];
    var items := Items(nodes, L);
    forall a, b | 0 <= a < b < |items|
      ensures Less(Target(hash, items[a].0), Target(hash, items[b].0)) && items[a].0 != items[b].0
    {
      assert Target(hash, items[a].0) == nodes[L[a]].Pos() && Target(hash, items[b].0) == nodes[L[b]].Pos();
    }
  }

  /** The pairs of level 0 are exactly the entries of the map. */
  lemma ItemsAreEntries<V>(nodes: seq<Node<V>>, levels: seq<seq<nat>>, hash: string -> Score)
    requires WellFormed(nodes, levels, hash)
    ensures InRange(nodes, levels[0])
    ensures var items, m := Items(nodes, levels[0]), Entries(nodes, levels, hash);
      && |items| == |m|
      && (forall j :: 0 <= j < |items| ==> items[j].0 in m && m[items[j].0] == items[j].1)
      && (forall k :: k in m ==> exists j :: 0 <= j < |items| && items[j].0 == k)
  {
    ShapeFacts(nodes, levels, hash);
    EntriesSize(nodes, levels, hash);
    var L := levels[0];
    var items, m := Items(nodes, L), Entries(nodes, levels, hash);
    forall j | 0 <= j < |items| ensures items[j].0 in m && m[items[j].0] == items[j].1 {
      MapOfMember(nodes, L, j);
    }
    forall k | k in m ensures exists j :: 0 <= j < |items| && items[j].0 == k {
      var j := MapOfWitness(nodes, L, k);
      assert items[j].0 == k;
    }
  }

  /** What each step of `Range` relies on: level 0 is linked from the header, and each of its nodes is visible. */
  lemma WalkFacts<V>(nodes: seq<Node<V>>, levels: seq<seq<nat>>, hash: string -> Score)
    requires WellFormed(nodes, levels, hash)
    ensures Linked(nodes, 0, levels[0])
    ensures var L := levels[0];
      forall p :: 0 <= p < |L| ==> nodes[L[p]].Visible() && Items(nodes, L)[p] == (nodes[L[p]].key, nodes[L[p]].value)
  {
    ShapeFacts(nodes, levels, hash);
  }
}
