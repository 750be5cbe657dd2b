/**
 * The order in which the skip map keeps its nodes: by 64-bit hash score
 * first, and by the key itself (byte-wise lexicographic comparison) when
 * two scores collide.
 */
module Order {

  /** A node's place in the order: its hash score and its key. */
  datatype Pos = Pos(score: int, key: string)

  /**
   * Three-way lexicographic comparison of two strings, character by
   * character; a proper prefix sorts first. Stands for `cmpstring`.
   */
  function CompareStrings(a: string, b: string): (r: int)
    ensures -1 <= r <= 1
    ensures |a| == 0 && |b| > 0 ==> r == -1
    ensures |a| > 0 && |b| == 0 ==> r == 1
  {
    if |a| == 0 && |b| == 0 then 0
    else if |a| == 0 then -1
    else if |b| == 0 then 1
    else if a[0] < b[0] then -1
    else if a[0] > b[0] then 1
    else CompareStrings(a[1..], b[1..])
  }

  /** The comparison reports equality exactly for equal strings. */
  lemma {:induction false} CompareStringsZero(a: string, b: string)
    ensures CompareStrings(a, b) == 0 <==> a == b
  {
    if |a| > 0 && |b| > 0 && a[0] == b[0] {
      CompareStringsZero(a[1..], b[1..]);
      assert a == [a[0]] + a[1..] && b == [b[0]] + b[1..];
    }
  }

  /** Swapping the arguments negates the answer. */
  lemma {:induction false} CompareStringsFlip(a: string, b: string)
    ensures CompareStrings(a, b) == -CompareStrings(b, a)
  {
    if |a| > 0 && |b| > 0 && a[0] == b[0] {
      CompareStringsFlip(a[1..], b[1..]);
    }
  }

  /** "Sorts before" is transitive. */
  lemma {:induction false} CompareStringsTrans(a: string, b: string, c: string)
    requires CompareStrings(a, b) < 0 && CompareStrings(b, c) < 0
    ensures CompareStrings(a, c) < 0
  {
    if |a| > 0 && |b| > 0 && |c| > 0 && a[0] == b[0] == c[0] {
      CompareStringsTrans(a[1..], b[1..], c[1..]);
    }
  }

  /**
   * `stringNode.cmp`: compares the node at `n` with the target
   * (score, key); 1 when the node is bigger, 0 when equal, -1 otherwise.
   */
  function Cmp(n: Pos, score: int, key: string): (r: int)
    ensures -1 <= r <= 1
    ensures r == 0 <==> n == Pos(score, key)
    ensures n.score > score ==> r == 1
    ensures n.score < score ==> r == -1
  {
    CompareStringsZero(n.key, key);
    if n.score > score then 1
    else if n.score == score then CompareStrings(n.key, key)
    else -1
  }

  /** The strict order on positions: `a` compares below `b`. */
  predicate Less(a: Pos, b: Pos)
  {
    Cmp(a, b.score, b.key) < 0
  }

  /** `a` does not come after `b`. */
  predicate LessEq(a: Pos, b: Pos)
  {
    a == b || Less(a, b)
  }

  /** Comparing in the other direction gives the opposite answer. */
  lemma CmpFlip(a: Pos, b: Pos)
    ensures Cmp(a, b.score, b.key) == -Cmp(b, a.score, a.key)
  {
    CompareStringsFlip(a.key, b.key);
  }

  lemma LessIrreflexive(a: Pos)
    ensures !Less(a, a)
  {
  }

  lemma LessAsymmetric(a: Pos, b: Pos)
    requires Less(a, b)
    ensures !Less(b, a) && a != b
  {
    CmpFlip(a, b);
  }

  lemma LessTrans(a: Pos, b: Pos, c: Pos)
    requires Less(a, b) && Less(b, c)
    ensures Less(a, c)
  {
    if a.score == b.score == c.score {
      CompareStringsTrans(a.key, b.key, c.key);
    }
  }

  /** Any two positions are comparable: `(score, key)` is a total order. */
  lemma LessTotal(a: Pos, b: Pos)
    ensures Less(a, b) || a == b || Less(b, a)
  {
    CmpFlip(a, b);
  }

  /** `Cmp` below, at or above zero says exactly how the node and target relate. */
  lemma CmpMeaning(n: Pos, t: Pos)
    ensures Cmp(n, t.score, t.key) < 0 <==> Less(n, t)
    ensures Cmp(n, t.score, t.key) == 0 <==> n == t
    ensures Cmp(n, t.score, t.key) > 0 <==> Less(t, n)
  {
    CmpFlip(n, t);
  }

  lemma NotLessIsLessEq(a: Pos, b: Pos)
    ensures !Less(b, a) <==> LessEq(a, b)
  {
    LessTotal(a, b);
    if Less(a, b) { LessAsymmetric(a, b); }
  }

  lemma LessEqTrans(a: Pos, b: Pos, c: Pos)
    requires LessEq(a, b) && LessEq(b, c)
    ensures LessEq(a, c)
  {
    if Less(a, b) && Less(b, c) { LessTrans(a, b, c); }
  }

  lemma LessLessEqTrans(a: Pos, b: Pos, c: Pos)
    requires Less(a, b) && LessEq(b, c)
    ensures Less(a, c)
  {
    if b != c { LessTrans(a, b, c); }
  }

  lemma LessEqLessTrans(a: Pos, b: Pos, c: Pos)
    requires LessEq(a, b) && Less(b, c)
    ensures Less(a, c)
  {
    if a != b { LessTrans(a, b, c); }
  }
}
