/**
 * The node record of the string skip map: key, hash score, value, one
 * successor link per level, and the two flags `fullyLinked` and `marked`.
 */
module Nodes {
  import opened Order

  /** The ceiling on node heights (`maxLevel`); the proofs only use MaxLevel >= 1. */
  const MaxLevel: nat := 16

  /** The flag bits of a node: set once it is linked at every level of its height, and once it is being deleted. */
  const FullyLinked: bv8 := 1
  const Marked: bv8 := 2

  /** An unsigned 64-bit hash score. */
  type Score = x: int | 0 <= x < 0x1_0000_0000_0000_0000

  /** A successor link: nil, or the index of a node in the node table. */
  datatype Ref = Nil | Ptr(id: nat)

  datatype Node<V> = Node(
    key: string,
    score: Score,
    value: V,
    next: seq<Ref>,
    fullyLinked: bool,
    marked: bool)
  {
    /** The node's place in the `(score, key)` order. */
    function Pos(): Order.Pos
    {
      Order.Pos(score, key)
    }

    /**
     * `stringNode.cmp`: 1 if this node is bigger than (score, key),
     * 0 if equal, -1 if smaller.
     */
    function Cmp(score: int, key: string): (r: int)
      ensures r < 0 <==> Less(Pos(), Order.Pos(score, key))
      ensures r == 0 <==> this.score == score && this.key == key
      ensures r > 0 <==> Less(Order.Pos(score, key), Pos())
    {
      CmpMeaning(Pos(), Order.Pos(score, key));
      Order.Cmp(Pos(), score, key)
    }

    /** Everything about the node except where its links point. */
    function Shape(): (string, Score, V, nat, bool, bool)
    {
      (key, score, value, |next|, fullyLinked, marked)
    }

    /** The node's `bitflag` word: bit `FullyLinked` and bit `Marked`. */
    function Flags(): bv8
    {
      (if fullyLinked then FullyLinked else 0) | (if marked then Marked else 0)
    }

    /**
     * `flags.MGet(fullyLinked|marked, fullyLinked)`: of the two flag bits,
     * exactly `fullyLinked` is set, so the node is linked and not deleted.
     */
    function Visible(): (v: bool)
      ensures v <==> Flags() & (FullyLinked | Marked) == FullyLinked
    {
      fullyLinked && !marked
    }
  }

  /** `newStringNode`: a fresh node of height `level`, all links nil, no flag set. */
  function NewNode<V>(key: string, hash: string -> Score, value: V, level: nat): (n: Node<V>)
    ensures n.key == key && n.score == hash(key) && n.value == value
    ensures |n.next| == level && forall i :: 0 <= i < level ==> n.next[i] == Nil
    ensures !n.fullyLinked && !n.marked
  {
    Node(key, hash(key), value, seq(level, _ => Nil), false, false)
  }
}
