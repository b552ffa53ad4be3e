/** The frontier: an ordered set of nodes.

    The program keeps its frontier in an ordered set keyed by the node
    comparison. Its in-order contents form a strictly increasing sequence,
    which is how it is represented here: the first element is the set's
    minimum, erasing it drops the head, and inserting a node that compares
    equal to one already present leaves the set as it was. */
module Frontier {
  import opened Nodes

  /** Strictly increasing under the node comparison; in particular no two
      elements are equivalent. */
  predicate Sorted(s: seq<Node>)
  {
    forall i, j :: 0 <= i < j < |s| ==> Less(s[i], s[j])
  }

  /** True when the sequence holds a node equivalent to `x`. */
  predicate HasEquiv(s: seq<Node>, x: Node)
  {
    exists y :: y in s && Equiv(x, y)
  }

  /** Ordered-set insertion. */
  function Insert(s: seq<Node>, x: Node): (t: seq<Node>)
    requires Sorted(s)
    ensures Sorted(t)
    ensures HasEquiv(s, x) ==> t == s
    ensures !HasEquiv(s, x) ==> multiset(t) == multiset(s) + multiset{x}
    ensures HasEquiv(t, x)
  {
    LessStrictOrder(x, x, x);
    if |s| == 0 then
      [x]
    else if Less(x, s[0]) then
      InsertBeforeHead(s, x);
      assert x in [x] + s;
      [x] + s
    else if Less(s[0], x) then
      var t' := Insert(s[1..], x);
      InsertAfterHead(s, x, t');
      [s[0]] + t'
    else
      assert s[0] in s && Equiv(x, s[0]);
      s
  }

  // A node that orders before the head of a sorted sequence orders before
  // all of it, so no element is equivalent to it.
  lemma InsertBeforeHead(s: seq<Node>, x: Node)
    requires Sorted(s) && |s| > 0 && Less(x, s[0])
    ensures Sorted([x] + s)
    ensures !HasEquiv(s, x)
  {
    forall j | 0 <= j < |s|
      ensures Less(x, s[j])
    {
      LessStrictOrder(x, s[0], s[j]);
    }
    forall y | y in s
      ensures !Equiv(x, y)
    {
    }
  }

  // Putting the head back in front of the insertion into the tail keeps
  // every promise of `Insert`.
  lemma InsertAfterHead(s: seq<Node>, x: Node, t': seq<Node>)
    requires Sorted(s) && |s| > 0 && Less(s[0], x)
    requires Sorted(t')
    requires HasEquiv(s[1..], x) ==> t' == s[1..]
    requires !HasEquiv(s[1..], x) ==> multiset(t') == multiset(s[1..]) + multiset{x}
    requires HasEquiv(t', x)
    ensures Sorted([s[0]] + t')
    ensures HasEquiv(s, x) ==> [s[0]] + t' == s
    ensures !HasEquiv(s, x) ==> multiset([s[0]] + t') == multiset(s) + multiset{x}
    ensures HasEquiv([s[0]] + t', x)
  {
    var t := [s[0]] + t';
    assert s == [s[0]] + s[1..];
    assert !Equiv(x, s[0]);
    assert HasEquiv(s, x) <==> HasEquiv(s[1..], x);
    forall y | y in t'
      ensures Less(s[0], y)
    {
      if !HasEquiv(s[1..], x) {
        assert y in multiset(t');
      }
    }
    forall i, j | 0 <= i < j < |t|
      ensures Less(t[i], t[j])
    {
      if i == 0 {
        assert t[j] in t';
      } else {
        assert t[i] == t'[i - 1] && t[j] == t'[j - 1];
      }
    }
    var y :| y in t' && Equiv(x, y);
    assert y in t;
  }

  /** Insertion keeps every element and adds nothing but the new node. */
  lemma InsertMembers(s: seq<Node>, x: Node)
    requires Sorted(s)
    ensures forall y :: y in s ==> y in Insert(s, x)
    ensures forall y :: y in Insert(s, x) ==> y in s || y == x
  {
    var t := Insert(s, x);
    if !HasEquiv(s, x) {
      forall y | y in s ensures y in t {
        assert y in multiset(s);
        assert y in multiset(t);
      }
      forall y | y in t ensures y in s || y == x {
        assert y in multiset(t);
      }
    }
  }

  /** Taking the first element of the ordered set: the least node, which
      orders strictly before every node that remains. */
  function PopMin(s: seq<Node>): (res: (Node, seq<Node>))
    requires Sorted(s) && |s| > 0
    ensures res.0 in s
    ensures multiset(s) == multiset{res.0} + multiset(res.1)
    ensures Sorted(res.1)
    ensures forall y :: y in res.1 ==> Less(res.0, y)
  {
    assert s == [s[0]] + s[1..];
    (s[0], s[1..])
  }

  /** The head of a sorted sequence is its least element: it does not order
      after anything in it, so its priority is the smallest. */
  lemma {:induction false} HeadIsLeast(s: seq<Node>, y: Node)
    requires Sorted(s) && |s| > 0 && y in s
    ensures !Less(y, s[0])
    ensures s[0].priority <= y.priority
  {
    if y != s[0] {
      var j :| 0 <= j < |s| && s[j] == y;
      LessStrictOrder(s[0], y, s[0]);
    } else {
      LessStrictOrder(y, y, y);
    }
  }
}
