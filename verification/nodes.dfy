/** Search nodes and their ordering.

    A node records a cell, the cost `dist` of the path that reached it, the
    heuristic estimate of the remaining cost, their sum `priority`, and the
    cell it was reached from (-1, -1 for the start node). The frontier is
    ordered by `Less`, which compares (priority, heuristic, row, column)
    lexicographically; `dist` and the back-link take no part in it. */
module Nodes {

  /** The row and column stored as the back-link of the start node. */
  const NO_PARENT: int := -1

  datatype Node = Node(r: int, c: int, heuristic: int, dist: int, priority: int, fromR: int, fromC: int)

  /** True when the node carries a back-link to a predecessor. */
  predicate HasParent(x: Node)
  {
    x.fromR != NO_PARENT
  }

  /** True when the node's priority is the sum of its cost and estimate. */
  predicate WellFormed(x: Node)
  {
    x.priority == x.heuristic + x.dist
  }

  /** The node constructor: cell, estimate and cost are taken as given, the
      priority is derived from them and the node has no back-link yet. */
  function NewNode(rr: int, cc: int, h: int, d: int): (x: Node)
    ensures x.r == rr && x.c == cc && x.heuristic == h && x.dist == d
    ensures WellFormed(x)
    ensures !HasParent(x) && x.fromC == NO_PARENT
  {
    Node(rr, cc, h, d, h + d, NO_PARENT, NO_PARENT)
  }

  /** The frontier's comparison. */
  predicate Less(a: Node, b: Node)
  {
    if a.priority != b.priority then a.priority < b.priority
    else if a.heuristic != b.heuristic then a.heuristic < b.heuristic
    else if a.r != b.r then a.r < b.r
    else a.c < b.c
  }

  /** Neither node orders before the other: an ordered set treats them as
      the same element. */
  predicate Equiv(a: Node, b: Node)
  {
    !Less(a, b) && !Less(b, a)
  }

  /** The sort key of a node, most significant component first. */
  function Key(x: Node): seq<int>
  {
    [x.priority, x.heuristic, x.r, x.c]
  }

  // ---------------------------------------------------------------------
  // Lexicographic order on integer sequences of equal length, the
  // reference definition that `Less` is an instance of

  predicate LexLess(x: seq<int>, y: seq<int>)
    requires |x| == |y|
    decreases |x|
  {
    |x| > 0 && (x[0] < y[0] || (x[0] == y[0] && LexLess(x[1..], y[1..])))
  }

  lemma {:induction false} LexIrreflexive(x: seq<int>)
    ensures !LexLess(x, x)
    decreases |x|
  {
    if |x| > 0 {
      LexIrreflexive(x[1..]);
    }
  }

  lemma {:induction false} LexTransitive(x: seq<int>, y: seq<int>, z: seq<int>)
    requires |x| == |y| == |z|
    requires LexLess(x, y) && LexLess(y, z)
    ensures LexLess(x, z)
    decreases |x|
  {
    if x[0] == y[0] == z[0] {
      LexTransitive(x[1..], y[1..], z[1..]);
    }
  }

  /** Any two sequences of equal length are equal or ordered one way. */
  lemma {:induction false} LexTrichotomy(x: seq<int>, y: seq<int>)
    requires |x| == |y|
    ensures LexLess(x, y) || LexLess(y, x) || x == y
    decreases |x|
  {
    if |x| > 0 && x[0] == y[0] {
      LexTrichotomy(x[1..], y[1..]);
      if x[1..] == y[1..] {
        assert x == [x[0]] + x[1..] && y == [y[0]] + y[1..];
      }
    }
  }

  // ---------------------------------------------------------------------
  // Properties of the node order

  /** The comparison is the lexicographic order of the sort keys. */
  lemma LessIsLexicographic(a: Node, b: Node)
    ensures Less(a, b) <==> LexLess(Key(a), Key(b))
  {
    var ka, kb := Key(a), Key(b);
    assert ka[1..][1..][1..][1..] == [];
    assert LexLess(ka[1..][1..][1..], kb[1..][1..][1..]) <==> a.c < b.c;
    assert LexLess(ka[1..][1..], kb[1..][1..]) <==> a.r < b.r || (a.r == b.r && a.c < b.c);
  }

  /** The comparison is a strict order: irreflexive and transitive. */
  lemma LessStrictOrder(a: Node, b: Node, c: Node)
    ensures !Less(a, a)
    ensures Less(a, b) && Less(b, c) ==> Less(a, c)
  {
    LessIsLexicographic(a, a);
    LexIrreflexive(Key(a));
    if Less(a, b) && Less(b, c) {
      LessIsLexicographic(b, c);
      LessIsLexicographic(a, b);
      LessIsLexicographic(a, c);
      LexTransitive(Key(a), Key(b), Key(c));
    }
  }

  /** Two nodes are mutually not-less exactly when all four key components
      agree. */
  lemma EquivIffSameKey(a: Node, b: Node)
    ensures Equiv(a, b) <==> Key(a) == Key(b)
  {
    LessIsLexicographic(a, b);
    LessIsLexicographic(b, a);
    LexTrichotomy(Key(a), Key(b));
    if Key(a) == Key(b) {
      LexIrreflexive(Key(a));
    }
  }

  /** Equivalent well-formed nodes describe the same cell at the same cost;
      they can differ only in their back-links. */
  lemma EquivSameCost(a: Node, b: Node)
    requires WellFormed(a) && WellFormed(b)
    requires Equiv(a, b)
    ensures a.r == b.r && a.c == b.c && a.dist == b.dist && a.heuristic == b.heuristic
  {
    EquivIffSameKey(a, b);
    assert Key(a)[0] == Key(b)[0] && Key(a)[1] == Key(b)[1];
    assert Key(a)[2] == Key(b)[2] && Key(a)[3] == Key(b)[3];
  }

  /** The sort key of a freshly constructed node determines all of the
      constructor's arguments. */
  lemma NewNodeKeyInjective(r1: int, c1: int, h1: int, d1: int, r2: int, c2: int, h2: int, d2: int)
    ensures Equiv(NewNode(r1, c1, h1, d1), NewNode(r2, c2, h2, d2)) <==>
            r1 == r2 && c1 == c2 && h1 == h2 && d1 == d2
  {
    var a, b := NewNode(r1, c1, h1, d1), NewNode(r2, c2, h2, d2);
    EquivIffSameKey(a, b);
    if Equiv(a, b) {
      EquivSameCost(a, b);
    }
  }
}
