/**
 * The shape of the skip list, stated over a node table `nodes` (index 0 is
 * the header) and, for each level, the ordered sequence of the ids of the
 * nodes linked at that level (the header excluded). These are values, so
 * the facts about splicing a node in or out are proved here once, away
 * from the heap.
 */
module Levels {
  import opened Order
  import opened Nodes

  /** The node at position `p` of a level; position -1 is the header. */
  function At(L: seq<nat>, p: int): nat
    requires -1 <= p < |L|
  {
    if p < 0 then 0 else L[p]
  }

  /** The link that follows position `p` of a level. */
  function After(L: seq<nat>, p: int): Ref
    requires -1 <= p < |L|
  {
    if p + 1 < |L| then Ptr(L[p + 1]) else Nil
  }

  function Insert(L: seq<nat>, k: nat, x: nat): seq<nat>
    requires k <= |L|
  {
    L[..k] + [x] + L[k..]
  }

  function Remove(L: seq<nat>, k: nat): seq<nat>
    requires k < |L|
  {
    L[..k] + L[k + 1..]
  }

  ghost predicate InRange<V>(nodes: seq<Node<V>>, L: seq<nat>)
  {
    forall p :: 0 <= p < |L| ==> 1 <= L[p] < |nodes|
  }

  ghost predicate Distinct(L: seq<nat>)
  {
    forall p, q :: 0 <= p < q < |L| ==> L[p] != L[q]
  }

  /** The level is strictly ascending by `(score, key)`. */
  ghost predicate Sorted<V>(nodes: seq<Node<V>>, L: seq<nat>)
  {
    && InRange(nodes, L)
    && forall p, q :: 0 <= p < q < |L| ==> Less(nodes[L[p]].Pos(), nodes[L[q]].Pos())
  }

  /** The header's and every listed node's `next[i]` is the following node of the level. */
  ghost predicate Linked<V>(nodes: seq<Node<V>>, i: nat, L: seq<nat>)
  {
    && |nodes| > 0
    && InRange(nodes, L)
    && forall p :: -1 <= p < |L| ==> i < |nodes[At(L, p)].next| && nodes[At(L, p)].next[i] == After(L, p)
  }

  /** `pred < target <= succ` at one level: the result of one level of search. */
  ghost predicate Bracket<V>(nodes: seq<Node<V>>, L: seq<nat>, t: Order.Pos, p: int, pred: nat, succ: Ref)
  {
    && InRange(nodes, L)
    && -1 <= p < |L| && pred == At(L, p) && succ == After(L, p)
    && (p >= 0 ==> Less(nodes[L[p]].Pos(), t))
    && (p + 1 < |L| ==> !Less(nodes[L[p + 1]].Pos(), t))
  }

  /** Node `a` does not come after node `b`; the header comes first. */
  ghost predicate NotAfter<V>(nodes: seq<Node<V>>, a: nat, b: nat)
  {
    a == 0 || (1 <= a < |nodes| && 1 <= b < |nodes| && LessEq(nodes[a].Pos(), nodes[b].Pos()))
  }

  /** Equal entries of `s` are never separated by a different one. */
  ghost predicate Contiguous(s: seq<nat>)
  {
    forall j, m, k :: 0 <= j < m < k < |s| && s[j] == s[k] ==> s[m] == s[j]
  }

  /** Links of level `i` are the same in `nodes'` as in `nodes`, and no height changed. */
  ghost predicate SameLinksAt<V>(nodes: seq<Node<V>>, nodes': seq<Node<V>>, i: nat)
  {
    && |nodes| <= |nodes'|
    && forall id :: 0 <= id < |nodes| ==>
         |nodes'[id].next| == |nodes[id].next| && (i < |nodes[id].next| ==> nodes'[id].next[i] == nodes[id].next[i])
  }

  /** Keys, scores and values are the same in `nodes'` as in `nodes`. */
  ghost predicate SameEntries<V>(nodes: seq<Node<V>>, nodes': seq<Node<V>>)
  {
    && |nodes| <= |nodes'|
    && forall id :: 0 <= id < |nodes| ==>
         nodes'[id].key == nodes[id].key && nodes'[id].score == nodes[id].score && nodes'[id].value == nodes[id].value
  }

  /** Every level is sorted and linked, and level membership follows the node heights. */
  ghost predicate WellFormed<V>(nodes: seq<Node<V>>, levels: seq<seq<nat>>, hash: string -> Score)
  {
    && |nodes| >= 1 && |levels| == MaxLevel
    && |nodes[0].next| == MaxLevel && nodes[0].fullyLinked && !nodes[0].marked
    && (forall id :: 1 <= id < |nodes| ==>
          1 <= |nodes[id].next| <= MaxLevel && nodes[id].score == hash(nodes[id].key) && nodes[id].fullyLinked)
    && (forall i :: 0 <= i < MaxLevel ==> Sorted(nodes, levels[i]) && Linked(nodes, i, levels[i]))
    && (forall i, id :: 0 <= i < MaxLevel && id in levels[i] ==> id in levels[0])
    && (forall i, id :: 0 <= i < MaxLevel && id in levels[0] ==> (id in levels[i] <==> i < |nodes[id].next|))
    && (forall id :: 1 <= id < |nodes| ==> (nodes[id].marked <==> id !in levels[0]))
  }

  /** The key/value map held by the nodes of a level. */
  ghost function MapOf<V>(nodes: seq<Node<V>>, L: seq<nat>): map<string, V>
    requires InRange(nodes, L)
    decreases |L|
  {
    if L == [] then map[]
    else MapOf(nodes, L[..|L| - 1])[nodes[L[|L| - 1]].key := nodes[L[|L| - 1]].value]
  }

  ghost predicate DistinctKeys<V>(nodes: seq<Node<V>>, L: seq<nat>)
    requires InRange(nodes, L)
  {
    forall p, q :: 0 <= p < q < |L| ==> nodes[L[p]].key != nodes[L[q]].key
  }

  // ---------------------------------------------------------------------------
  // Order facts

  lemma SortedDistinct<V>(nodes: seq<Node<V>>, L: seq<nat>)
    requires Sorted(nodes, L)
    ensures Distinct(L)
  {
    forall p, q | 0 <= p < q < |L| ensures L[p] != L[q] {
      LessAsymmetric(nodes[L[p]].Pos(), nodes[L[q]].Pos());
    }
  }

  /** With scores given by the hash of the key, a sorted level holds no key twice. */
  lemma SortedDistinctKeys<V>(nodes: seq<Node<V>>, L: seq<nat>, hash: string -> Score)
    requires Sorted(nodes, L)
    requires forall p :: 0 <= p < |L| ==> nodes[L[p]].score == hash(nodes[L[p]].key)
    ensures DistinctKeys(nodes, L)
  {
    forall p, q | 0 <= p < q < |L| ensures nodes[L[p]].key != nodes[L[q]].key {
      LessAsymmetric(nodes[L[p]].Pos(), nodes[L[q]].Pos());
    }
  }

  /** Everything up to the predecessor is below the target; everything after it is not. */
  lemma {:induction false} BracketSplit<V>(nodes: seq<Node<V>>, L: seq<nat>, t: Order.Pos, p: int, pred: nat, succ: Ref, q: int)
    requires Sorted(nodes, L) && Bracket(nodes, L, t, p, pred, succ)
    requires 0 <= q < |L|
    ensures q <= p ==> Less(nodes[L[q]].Pos(), t)
    ensures q > p ==> !Less(nodes[L[q]].Pos(), t)
  {
    if q < p {
      LessTrans(nodes[L[q]].Pos(), nodes[L[p]].Pos(), t);
    } else if q > p + 1 {
      NotLessIsLessEq(t, nodes[L[p + 1]].Pos());
      LessEqLessTrans(t, nodes[L[p + 1]].Pos(), nodes[L[q]].Pos());
      LessAsymmetric(t, nodes[L[q]].Pos());
    }
  }

  /** A node at the target position sits right after the predecessor. */
  lemma BracketFinds<V>(nodes: seq<Node<V>>, L: seq<nat>, t: Order.Pos, p: int, pred: nat, succ: Ref, q: int)
    requires Sorted(nodes, L) && Bracket(nodes, L, t, p, pred, succ)
    requires 0 <= q < |L| && nodes[L[q]].Pos() == t
    ensures q == p + 1 && succ == Ptr(L[q])
  {
    BracketSplit(nodes, L, t, p, pred, succ, q);
    LessIrreflexive(t);
  }

  lemma NotAfterTrans<V>(nodes: seq<Node<V>>, a: nat, b: nat, c: nat)
    requires NotAfter(nodes, a, b) && NotAfter(nodes, b, c)
    ensures NotAfter(nodes, a, c)
  {
    if a != 0 {
      LessEqTrans(nodes[a].Pos(), nodes[b].Pos(), nodes[c].Pos());
    }
  }

  /** Equal entries of a chain that never moves backwards are contiguous. */
  lemma ChainContiguous<V>(nodes: seq<Node<V>>, L0: seq<nat>, s: seq<nat>)
    requires Sorted(nodes, L0)
    requires forall j :: 0 <= j < |s| ==> s[j] == 0 || s[j] in L0
    requires forall j, k :: 0 <= j < k < |s| ==> NotAfter(nodes, s[k], s[j])
    ensures Contiguous(s)
  {
    SortedDistinct(nodes, L0);
    forall j, m, k | 0 <= j < m < k < |s| && s[j] == s[k] ensures s[m] == s[j] {
      assert NotAfter(nodes, s[k], s[m]) && NotAfter(nodes, s[m], s[j]);
      if s[j] != 0 && s[m] != 0 {
        var a, b := s[j], s[m];
        if a != b {
          var pa :| 0 <= pa < |L0| && L0[pa] == a;
          var pb :| 0 <= pb < |L0| && L0[pb] == b;
          assert pa != pb;
          if pa < pb {
            LessAsymmetric(nodes[a].Pos(), nodes[b].Pos());
          } else {
            LessAsymmetric(nodes[b].Pos(), nodes[a].Pos());
          }
        }
      }
    }
  }

  // ---------------------------------------------------------------------------
  // Splicing a node into a level and out of it

  lemma LinkFrame<V>(nodes: seq<Node<V>>, nodes': seq<Node<V>>, i: nat, L: seq<nat>)
    requires Linked(nodes, i, L) && SameLinksAt(nodes, nodes', i)
    ensures Linked(nodes', i, L)
  {
    forall p | -1 <= p < |L|
      ensures i < |nodes'[At(L, p)].next| && nodes'[At(L, p)].next[i] == After(L, p)
    {
      assert i < |nodes[At(L, p)].next|;
    }
  }

  /** Where positions of a level land once `x` is spliced in after position `p`. */
  lemma InsertView(L: seq<nat>, p: int, x: nat, q: int)
    requires -1 <= p < |L| && -1 <= q <= |L|
    ensures q <= p ==> At(Insert(L, p + 1, x), q) == At(L, q)
    ensures q < p ==> After(Insert(L, p + 1, x), q) == After(L, q)
    ensures q == p ==> After(Insert(L, p + 1, x), q) == Ptr(x)
    ensures q == p + 1 ==> At(Insert(L, p + 1, x), q) == x && After(Insert(L, p + 1, x), q) == After(L, p)
    ensures p + 1 < q ==> At(Insert(L, p + 1, x), q) == L[q - 1] && After(Insert(L, p + 1, x), q) == After(L, q - 1)
  {
  }

  /** Storing `x` after the node at position `p`, and its old successor after `x`, links `x` in. */
  lemma LinkInsert<V>(nodes: seq<Node<V>>, nodes': seq<Node<V>>, i: nat, L: seq<nat>, p: int, x: nat)
    requires Linked(nodes, i, L) && Distinct(L) && -1 <= p < |L|
    requires 1 <= x < |nodes| && x !in L && i < |nodes[x].next|
    requires |nodes'| == |nodes|
    requires forall id :: 0 <= id < |nodes| ==> |nodes'[id].next| == |nodes[id].next|
    requires nodes'[At(L, p)].next[i] == Ptr(x) && nodes'[x].next[i] == After(L, p)
    requires forall id :: 0 <= id < |nodes| && id != At(L, p) && id != x && i < |nodes[id].next| ==>
               nodes'[id].next[i] == nodes[id].next[i]
    ensures Linked(nodes', i, Insert(L, p + 1, x))
  {
    var L' := Insert(L, p + 1, x);
    forall q | -1 <= q < |L'|
      ensures i < |nodes'[At(L', q)].next| && nodes'[At(L', q)].next[i] == After(L', q)
    {
      InsertView(L, p, x, q);
      if q < p {
        assert At(L, q) != At(L, p);
      } else if p + 1 < q {
        assert L[q - 1] != At(L, p) && L[q - 1] != x;
      }
    }
  }

  /** Storing the successor of position `p + 1` after position `p` links that node out. */
  lemma LinkRemove<V>(nodes: seq<Node<V>>, nodes': seq<Node<V>>, i: nat, L: seq<nat>, p: int)
    requires Linked(nodes, i, L) && Distinct(L) && -1 <= p && p + 1 < |L|
    requires |nodes'| == |nodes|
    requires forall id :: 0 <= id < |nodes| ==> |nodes'[id].next| == |nodes[id].next|
    requires nodes'[At(L, p)].next[i] == After(L, p + 1)
    requires forall id :: 0 <= id < |nodes| && id != At(L, p) && i < |nodes[id].next| ==>
               nodes'[id].next[i] == nodes[id].next[i]
    ensures Linked(nodes', i, Remove(L, p + 1))
  {
    var L' := Remove(L, p + 1);
    forall q | -1 <= q < |L'|
      ensures i < |nodes'[At(L', q)].next| && nodes'[At(L', q)].next[i] == After(L', q)
    {
      if q < p {
        assert At(L', q) == At(L, q) && After(L', q) == After(L, q);
        assert At(L, q) != At(L, p);
      } else if q == p {
        assert At(L', q) == At(L, p) && After(L', q) == After(L, p + 1);
      } else {
        assert At(L', q) == L[q + 1] && After(L', q) == After(L, q + 1);
        assert L[q + 1] != At(L, p);
      }
    }
  }

  lemma SortedFrame<V>(nodes: seq<Node<V>>, nodes': seq<Node<V>>, L: seq<nat>)
    requires Sorted(nodes, L) && SameEntries(nodes, nodes')
    ensures Sorted(nodes', L)
  {
    forall p, q | 0 <= p < q < |L| ensures Less(nodes'[L[p]].Pos(), nodes'[L[q]].Pos()) {
      assert nodes'[L[p]].Pos() == nodes[L[p]].Pos() && nodes'[L[q]].Pos() == nodes[L[q]].Pos();
    }
  }

  /** The node at position `a` once `x` is spliced in at `k`. */
  lemma InsertIndex(L: seq<nat>, k: nat, x: nat, a: nat)
    requires k <= |L| && a <= |L|
    ensures Insert(L, k, x)[a] == if a < k then L[a] else if a == k then x else L[a - 1]
  {
  }

  /** One pair of positions of the spliced level is in order. */
  lemma SortedInsertPair<V>(nodes: seq<Node<V>>, L: seq<nat>, p: int, x: nat, a: nat, b: nat)
    requires Sorted(nodes, L) && -1 <= p < |L| && 1 <= x < |nodes|
    requires p >= 0 ==> Less(nodes[L[p]].Pos(), nodes[x].Pos())
    requires p + 1 < |L| ==> Less(nodes[x].Pos(), nodes[L[p + 1]].Pos())
    requires a < b <= |L|
    ensures Less(nodes[Insert(L, p + 1, x)[a]].Pos(), nodes[Insert(L, p + 1, x)[b]].Pos())
  {
    var k := p + 1;
    InsertIndex(L, k, x, a);
    InsertIndex(L, k, x, b);
    var u, w := Insert(L, k, x)[a], Insert(L, k, x)[b];
    if b < k {
      assert u == L[a] && w == L[b];
    } else if b == k {
      assert u == L[a] && w == x;
      if a < p {
        assert Less(nodes[L[a]].Pos(), nodes[L[p]].Pos());
        LessTrans(nodes[L[a]].Pos(), nodes[L[p]].Pos(), nodes[x].Pos());
      }
    } else if a < k {
      assert u == L[a] && w == L[b - 1];
    } else if a == k {
      assert u == x && w == L[b - 1];
      if b - 1 > k {
        assert Less(nodes[L[k]].Pos(), nodes[L[b - 1]].Pos());
        LessTrans(nodes[x].Pos(), nodes[L[k]].Pos(), nodes[L[b - 1]].Pos());
      }
    } else {
      assert u == L[a - 1] && w == L[b - 1];
    }
  }

  /** A node placed between its bracket keeps the level sorted. */
  lemma SortedInsert<V>(nodes: seq<Node<V>>, L: seq<nat>, p: int, x: nat)
    requires Sorted(nodes, L) && -1 <= p < |L| && 1 <= x < |nodes|
    requires p >= 0 ==> Less(nodes[L[p]].Pos(), nodes[x].Pos())
    requires p + 1 < |L| ==> Less(nodes[x].Pos(), nodes[L[p + 1]].Pos())
    ensures Sorted(nodes, Insert(L, p + 1, x))
  {
    var L' := Insert(L, p + 1, x);
    forall a | 0 <= a < |L'| ensures 1 <= L'[a] < |nodes| {
      InsertIndex(L, p + 1, x, a);
    }
    forall a, b | 0 <= a < b < |L'| ensures Less(nodes[L'[a]].Pos(), nodes[L'[b]].Pos()) {
      SortedInsertPair(nodes, L, p, x, a, b);
    }
  }

  lemma SortedRemove<V>(nodes: seq<Node<V>>, L: seq<nat>, k: nat)
    requires Sorted(nodes, L) && k < |L|
    ensures Sorted(nodes, Remove(L, k))
  {
    var L' := Remove(L, k);
    forall a, b | 0 <= a < b < |L'| ensures Less(nodes[L'[a]].Pos(), nodes[L'[b]].Pos()) {
      var a0 := if a < k then a else a + 1;
      var b0 := if b < k then b else b + 1;
      assert L'[a] == L[a0] && L'[b] == L[b0];
    }
  }

  lemma InsertMembers(L: seq<nat>, k: nat, x: nat)
    requires k <= |L|
    ensures forall y :: y in Insert(L, k, x) <==> y in L || y == x
  {
    assert L == L[..k] + L[k..];
  }

  lemma RemoveMembers(L: seq<nat>, k: nat)
    requires k < |L| && Distinct(L)
    ensures forall y :: y in Remove(L, k) <==> y in L && y != L[k]
  {
    assert L == L[..k] + [L[k]] + L[k + 1..];
  }

  // ---------------------------------------------------------------------------
  // The key/value map of a level

  /** Every key of the map comes from some node of the level. */
  lemma {:induction false} MapOfWitness<V>(nodes: seq<Node<V>>, L: seq<nat>, k: string) returns (p: nat)
    requires InRange(nodes, L) && k in MapOf(nodes, L)
    ensures p < |L| && nodes[L[p]].key == k
    decreases |L|
  {
    var L0 := L[..|L| - 1];
    if k == nodes[L[|L| - 1]].key {
      p := |L| - 1;
    } else {
      p := MapOfWitness(nodes, L0, k);
      assert L0[p] == L[p];
    }
  }

  /** Every node of a level with distinct keys is an entry of the map. */
  lemma {:induction false} MapOfMember<V>(nodes: seq<Node<V>>, L: seq<nat>, p: nat)
    requires InRange(nodes, L) && DistinctKeys(nodes, L) && p < |L|
    ensures nodes[L[p]].key in MapOf(nodes, L) && MapOf(nodes, L)[nodes[L[p]].key] == nodes[L[p]].value
    decreases |L|
  {
    var L0 := L[..|L| - 1];
    if p < |L| - 1 {
      assert L0[p] == L[p];
      assert nodes[L[p]].key != nodes[L[|L| - 1]].key;
      assert DistinctKeys(nodes, L0);
      MapOfMember(nodes, L0, p);
    }
  }

  /** A level with distinct keys holds as many entries as it has nodes. */
  lemma {:induction false} MapOfSize<V>(nodes: seq<Node<V>>, L: seq<nat>)
    requires InRange(nodes, L) && DistinctKeys(nodes, L)
    ensures |MapOf(nodes, L)| == |L|
    decreases |L|
  {
    if L != [] {
      var L0 := L[..|L| - 1];
      assert DistinctKeys(nodes, L0);
      MapOfSize(nodes, L0);
      var k := nodes[L[|L| - 1]].key;
      if k in MapOf(nodes, L0) {
        var p := MapOfWitness(nodes, L0, k);
        assert false;
      }
    }
  }

  lemma {:induction false} MapOfFrame<V>(nodes: seq<Node<V>>, nodes': seq<Node<V>>, L: seq<nat>)
    requires InRange(nodes, L) && SameEntries(nodes, nodes')
    ensures InRange(nodes', L) && MapOf(nodes', L) == MapOf(nodes, L)
    decreases |L|
  {
    if L != [] {
      MapOfFrame(nodes, nodes', L[..|L| - 1]);
    }
  }

  lemma InsertDistinctKeys<V>(nodes: seq<Node<V>>, L: seq<nat>, k: nat, x: nat)
    requires InRange(nodes, L) && DistinctKeys(nodes, L) && k <= |L| && 1 <= x < |nodes|
    requires forall p :: 0 <= p < |L| ==> nodes[L[p]].key != nodes[x].key
    ensures InRange(nodes, Insert(L, k, x)) && DistinctKeys(nodes, Insert(L, k, x))
  {
    var L' := Insert(L, k, x);
    forall a, b | 0 <= a < b < |L'| ensures nodes[L'[a]].key != nodes[L'[b]].key {
      var a0 := if a < k then a else a - 1;
      var b0 := if b < k then b else b - 1;
      if a == k {
        assert L'[a] == x && L'[b] == L[b0];
      } else if b == k {
        assert L'[a] == L[a0] && L'[b] == x;
      } else {
        assert L'[a] == L[a0] && L'[b] == L[b0];
      }
    }
  }

  /** Position `p` of the level holds the same node after `x` is spliced in at `k`. */
  lemma InsertShift<V>(nodes: seq<Node<V>>, L: seq<nat>, k: nat, x: nat, p: nat)
    requires InRange(nodes, L) && DistinctKeys(nodes, L) && k <= |L| && 1 <= x < |nodes| && p < |L|
    requires forall p :: 0 <= p < |L| ==> nodes[L[p]].key != nodes[x].key
    ensures var k' := nodes[L[p]].key;
      k' in MapOf(nodes, Insert(L, k, x)) && MapOf(nodes, Insert(L, k, x))[k'] == nodes[L[p]].value
  {
    InsertDistinctKeys(nodes, L, k, x);
    var p' := if p < k then p else p + 1;
    assert Insert(L, k, x)[p'] == L[p];
    MapOfMember(nodes, Insert(L, k, x), p');
  }

  /** Every node of the spliced level other than `x` was in the level before. */
  lemma InsertOrigin<V>(nodes: seq<Node<V>>, L: seq<nat>, k: nat, x: nat, p: nat)
    requires InRange(nodes, L) && DistinctKeys(nodes, L) && k <= |L| && 1 <= x < |nodes| && p < |L| + 1 && p != k
    ensures var k' := nodes[Insert(L, k, x)[p]].key;
      k' in MapOf(nodes, L)
  {
    var p0 := if p < k then p else p - 1;
    assert Insert(L, k, x)[p] == L[p0];
    MapOfMember(nodes, L, p0);
  }

  /** Splicing in a node with a new key adds exactly that key and its value. */
  lemma MapOfInsert<V>(nodes: seq<Node<V>>, L: seq<nat>, k: nat, x: nat)
    requires InRange(nodes, L) && DistinctKeys(nodes, L) && k <= |L| && 1 <= x < |nodes|
    requires forall p :: 0 <= p < |L| ==> nodes[L[p]].key != nodes[x].key
    ensures InRange(nodes, Insert(L, k, x)) && DistinctKeys(nodes, Insert(L, k, x))
    ensures MapOf(nodes, Insert(L, k, x)) == MapOf(nodes, L)[nodes[x].key := nodes[x].value]
  {
    var L' := Insert(L, k, x);
    InsertDistinctKeys(nodes, L, k, x);
    var m, m' := MapOf(nodes, L'), MapOf(nodes, L)[nodes[x].key := nodes[x].value];
    forall key | key in m' ensures key in m && m[key] == m'[key] {
      if key == nodes[x].key {
        assert L'[k] == x;
        MapOfMember(nodes, L', k);
      } else {
        var p := MapOfWitness(nodes, L, key);
        MapOfMember(nodes, L, p);
        InsertShift(nodes, L, k, x, p);
      }
    }
    forall key | key in m ensures key in m' {
      var p := MapOfWitness(nodes, L', key);
      if p != k {
        InsertOrigin(nodes, L, k, x, p);
      }
    }
  }

  lemma RemoveDistinctKeys<V>(nodes: seq<Node<V>>, L: seq<nat>, k: nat)
    requires InRange(nodes, L) && DistinctKeys(nodes, L) && k < |L|
    ensures InRange(nodes, Remove(L, k)) && DistinctKeys(nodes, Remove(L, k))
  {
    var L' := Remove(L, k);
    forall a, b | 0 <= a < b < |L'| ensures nodes[L'[a]].key != nodes[L'[b]].key {
      var a0 := if a < k then a else a + 1;
      var b0 := if b < k then b else b + 1;
      assert L'[a] == L[a0] && L'[b] == L[b0];
    }
  }

  /** Every node of the level other than the one at `k` stays, with its value. */
  lemma RemoveShift<V>(nodes: seq<Node<V>>, L: seq<nat>, k: nat, p: nat)
    requires InRange(nodes, L) && DistinctKeys(nodes, L) && k < |L| && p < |L| && p != k
    ensures var k' := nodes[L[p]].key;
      k' in MapOf(nodes, Remove(L, k)) && MapOf(nodes, Remove(L, k))[k'] == nodes[L[p]].value
  {
    RemoveDistinctKeys(nodes, L, k);
    var p' := if p < k then p else p - 1;
    assert Remove(L, k)[p'] == L[p];
    MapOfMember(nodes, Remove(L, k), p');
  }

  /** Every node left after the splice was in the level, and is not the one at `k`. */
  lemma RemoveOrigin<V>(nodes: seq<Node<V>>, L: seq<nat>, k: nat, p: nat)
    requires InRange(nodes, L) && DistinctKeys(nodes, L) && k < |L| && p < |L| - 1
    ensures var k' := nodes[Remove(L, k)[p]].key;
      k' in MapOf(nodes, L) && k' != nodes[L[k]].key
  {
    var p0 := if p < k then p else p + 1;
    assert Remove(L, k)[p] == L[p0];
    MapOfMember(nodes, L, p0);
  }

  /** Splicing out a node drops exactly its key. */
  lemma MapOfRemove<V>(nodes: seq<Node<V>>, L: seq<nat>, k: nat)
    requires InRange(nodes, L) && DistinctKeys(nodes, L) && k < |L|
    ensures InRange(nodes, Remove(L, k)) && DistinctKeys(nodes, Remove(L, k))
    ensures MapOf(nodes, Remove(L, k)) == MapOf(nodes, L) - {nodes[L[k]].key}
  {
    var L' := Remove(L, k);
    RemoveDistinctKeys(nodes, L, k);
    var m, m' := MapOf(nodes, L'), MapOf(nodes, L) - {nodes[L[k]].key};
    forall key | key in m' ensures key in m && m[key] == m'[key] {
      var p := MapOfWitness(nodes, L, key);
      MapOfMember(nodes, L, p);
      RemoveShift(nodes, L, k, p);
    }
    forall key | key in m ensures key in m' {
      var p := MapOfWitness(nodes, L', key);
      RemoveOrigin(nodes, L, k, p);
    }
  }

  /** Replacing the value of one listed node updates that key only. */
  lemma MapOfUpdate<V>(nodes: seq<Node<V>>, L: seq<nat>, q: nat, v: V)
    requires InRange(nodes, L) && DistinctKeys(nodes, L) && q < |L|
    ensures InRange(nodes[L[q] := nodes[L[q]].(value := v)], L)
    ensures MapOf(nodes[L[q] := nodes[L[q]].(value := v)], L) == MapOf(nodes, L)[nodes[L[q]].key := v]
  {
    var nodes' := nodes[L[q] := nodes[L[q]].(value := v)];
    assert DistinctKeys(nodes', L) by {
      forall a, b | 0 <= a < b < |L| ensures nodes'[L[a]].key != nodes'[L[b]].key {
        assert nodes'[L[a]].key == nodes[L[a]].key && nodes'[L[b]].key == nodes[L[b]].key;
      }
    }
    var m, m' := MapOf(nodes', L), MapOf(nodes, L)[nodes[L[q]].key := v];
    forall key | key in m' ensures key in m && m[key] == m'[key] {
      if key == nodes[L[q]].key {
        MapOfMember(nodes', L, q);
      } else {
        var p := MapOfWitness(nodes, L, key);
        MapOfMember(nodes, L, p);
        assert L[p] != L[q];
        MapOfMember(nodes', L, p);
      }
    }
    forall key | key in m ensures key in m' {
      var p := MapOfWitness(nodes', L, key);
      MapOfMember(nodes, L, p);
    }
  }

  // ---------------------------------------------------------------------------
  // Levels as filters of level 0

  /** The nodes of `L` whose height exceeds `i`, in the order of `L`. */
  ghost function Tall<V>(nodes: seq<Node<V>>, L: seq<nat>, i: nat): (r: seq<nat>)
    requires InRange(nodes, L)
    ensures |r| <= |L| && InRange(nodes, r)
    ensures forall y :: y in r <==> y in L && i < |nodes[y].next|
    decreases |L|
  {
    if L == [] then []
    else
      var y := L[|L| - 1];
      assert forall z :: z in L <==> z in L[..|L| - 1] || z == y;
      Tall(nodes, L[..|L| - 1], i) + (if i < |nodes[y].next| then [y] else [])
  }

  lemma SortedSnoc<V>(nodes: seq<Node<V>>, T: seq<nat>, y: nat)
    requires Sorted(nodes, T) && 1 <= y < |nodes|
    requires forall a :: 0 <= a < |T| ==> Less(nodes[T[a]].Pos(), nodes[y].Pos())
    ensures Sorted(nodes, T + [y])
  {
    var T' := T + [y];
    forall a, b | 0 <= a < b < |T'| ensures Less(nodes[T'[a]].Pos(), nodes[T'[b]].Pos()) {
      assert T'[a] == T[a];
    }
  }

  lemma {:induction false} TallSorted<V>(nodes: seq<Node<V>>, L: seq<nat>, i: nat)
    requires Sorted(nodes, L)
    ensures Sorted(nodes, Tall(nodes, L, i))
    decreases |L|
  {
    if L != [] {
      var L' := L[..|L| - 1];
      var y := L[|L| - 1];
      TallSorted(nodes, L', i);
      var T := Tall(nodes, L', i);
      if i < |nodes[y].next| {
        forall a | 0 <= a < |T| ensures Less(nodes[T[a]].Pos(), nodes[y].Pos()) {
          assert T[a] in T;
          var pa :| 0 <= pa < |L'| && L'[pa] == T[a];
          assert L[pa] == T[a];
        }
        SortedSnoc(nodes, T, y);
        assert Tall(nodes, L, i) == T + [y];
      } else {
        assert Tall(nodes, L, i) == T;
      }
    }
  }

  /**
   * Names the first node of a non-empty list, so that `SortedUnique` can
   * rule out a non-empty `B` beside an empty `A` without asserting inside
   * that impossible case.
   */
  lemma HeadIn(B: seq<nat>)
    ensures B != [] ==> B[0] in B
  {
  }

  /** Two sorted levels with the same nodes are the same level. */
  lemma {:induction false} SortedUnique<V>(nodes: seq<Node<V>>, A: seq<nat>, B: seq<nat>)
    requires Sorted(nodes, A) && Sorted(nodes, B)
    requires forall y :: y in A <==> y in B
    ensures A == B
    decreases |A|
  {
    SortedDistinct(nodes, A);
    SortedDistinct(nodes, B);
    if A == [] {
      HeadIn(B);
    } else {
      assert A[|A| - 1] in A;
      var a, b := A[|A| - 1], B[|B| - 1];
      if a != b {
        assert b in B && a in B;
        var pa :| 0 <= pa < |B| && B[pa] == a;
        var pb :| 0 <= pb < |A| && A[pb] == b;
        LessAsymmetric(nodes[a].Pos(), nodes[b].Pos());
        assert false;
      }
      var A', B' := A[..|A| - 1], B[..|B| - 1];
      forall y ensures y in A' <==> y in B' {
        assert y in A' <==> y in A && y != a;
        assert y in B' <==> y in B && y != b;
      }
      SortedUnique(nodes, A', B');
      assert A == A' + [a] && B == B' + [b];
    }
  }
}
