/** One iteration of the A* expansion loop.

    A session holds the frontier, the visited table (cell key to the node
    that finalised the cell), the `found` flag, the display cursor `cur`
    and the finalisation order. Each iteration pops the least frontier node;
    if its cell is already finalised the node is discarded, otherwise the
    node is entered into the visited table and, unless it stands on the
    goal, its free, unvisited neighbours are pushed. */
module Expansion {
  import opened Grid
  import opened Nodes
  import opened Frontier

  /** The fixed inputs of a run: grid side, field, start and goal cells. */
  datatype Problem = Problem(n: int, field: seq<seq<char>>, start: Cell, goal: Cell)

  /** What the map generator guarantees before the search starts and the
      search relies on: a square field and in-bounds start and goal. */
  predicate ValidProblem(p: Problem)
  {
    && p.n > 0
    && IsSquare(p.n, p.field)
    && InBounds(p.n, p.start.r, p.start.c)
    && InBounds(p.n, p.goal.r, p.goal.c)
  }

  /** The state of a run. `cur` is the cell the display marks as current;
      `order` lists the finalised nodes in the order they were finalised.
      The display draws one frame per entry of `order`, except for the goal's
      finalisation: the loop breaks before drawing it, so when `found` holds
      the frames are `order` without its last entry. */
  datatype Session = Session(next: seq<Node>, seen: map<int, Node>, found: bool, cur: Cell, order: seq<Node>)

  function CellOf(x: Node): Cell
  {
    Cell(x.r, x.c)
  }

  /** The heuristic: Manhattan distance to the goal. */
  function H(p: Problem, r: int, c: int): int
  {
    Dist(r, c, p.goal.r, p.goal.c)
  }

  predicate AtGoal(p: Problem, x: Node)
  {
    x.r == p.goal.r && x.c == p.goal.c
  }

  function KeyOf(p: Problem, x: Node): int
  {
    Hash(p.n, x.r, x.c)
  }

  function StartNode(p: Problem): Node
  {
    NewNode(p.start.r, p.start.c, H(p, p.start.r, p.start.c), 0)
  }

  /** The session before the first iteration: only the start node is in
      the frontier and the cursor is on the start cell. */
  function Init(p: Problem): Session
  {
    Session([StartNode(p)], map[], false, p.start, [])
  }

  /** Move `i` from `x` leads to an in-bounds, wall-free, unvisited cell. */
  predicate Pushable(p: Problem, seen: map<int, Node>, x: Node, i: int)
    requires 0 <= i < 4
  {
    var m := Move(x.r, x.c, i);
    InBounds(p.n, m.r, m.c) && !Blocked(p.field, m.r, m.c) && Hash(p.n, m.r, m.c) !in seen
  }

  /** The node pushed for move `i` from `x`: one step further from the
      start, estimated from its own cell, linked back to `x`. */
  function Successor(p: Problem, x: Node, i: int): Node
    requires 0 <= i < 4
  {
    var m := Move(x.r, x.c, i);
    NewNode(m.r, m.c, H(p, m.r, m.c), 1 + x.dist).(fromR := x.r, fromC := x.c)
  }

  /** What every pushed node is: a move from `x` to a free unvisited
      in-bounds cell, one step more expensive, linked back to `x`. */
  predicate IsSuccessor(p: Problem, seen: map<int, Node>, x: Node, y: Node)
  {
    && InBounds(p.n, y.r, y.c)
    && !Blocked(p.field, y.r, y.c)
    && Hash(p.n, y.r, y.c) !in seen
    && Dist(x.r, x.c, y.r, y.c) == 1
    && y.dist == x.dist + 1
    && y.heuristic == H(p, y.r, y.c)
    && WellFormed(y)
    && y.fromR == x.r && y.fromC == x.c
  }

  /** The neighbour loop, from move `i` on: pushes the successor of every
      pushable move into the frontier. */
  function Expand(p: Problem, seen: map<int, Node>, x: Node, next: seq<Node>, i: nat): (t: seq<Node>)
    requires i <= 4 && Sorted(next)
    ensures Sorted(t)
    ensures forall y :: y in next ==> y in t
    ensures forall y :: y in t ==> y in next || exists j :: i <= j < 4 && Pushable(p, seen, x, j) && y == Successor(p, x, j)
    ensures forall j :: i <= j < 4 && Pushable(p, seen, x, j) ==> HasEquiv(t, Successor(p, x, j))
    decreases 4 - i
  {
    if i == 4 then
      next
    else
      var t' := if Pushable(p, seen, x, i) then Insert(next, Successor(p, x, i)) else next;
      var t := Expand(p, seen, x, t', i + 1);
      ExpandStep(p, seen, x, next, i, t', t);
      t
  }

  // Move `i` followed by the loop from `i + 1` keeps every promise of the
  // loop from `i`.
  lemma ExpandStep(p: Problem, seen: map<int, Node>, x: Node, next: seq<Node>, i: nat, t': seq<Node>, t: seq<Node>)
    requires i < 4 && Sorted(next)
    requires t' == if Pushable(p, seen, x, i) then Insert(next, Successor(p, x, i)) else next
    requires forall y :: y in t' ==> y in t
    requires forall y :: y in t ==> y in t' || exists j :: i + 1 <= j < 4 && Pushable(p, seen, x, j) && y == Successor(p, x, j)
    requires forall j :: i + 1 <= j < 4 && Pushable(p, seen, x, j) ==> HasEquiv(t, Successor(p, x, j))
    ensures forall y :: y in next ==> y in t
    ensures forall y :: y in t ==> y in next || exists j :: i <= j < 4 && Pushable(p, seen, x, j) && y == Successor(p, x, j)
    ensures forall j :: i <= j < 4 && Pushable(p, seen, x, j) ==> HasEquiv(t, Successor(p, x, j))
  {
    if Pushable(p, seen, x, i) {
      var z := Successor(p, x, i);
      InsertMembers(next, z);
      var w :| w in t' && Equiv(z, w);
      assert w in t;
    }
  }

  /** Every node the neighbour loop adds is a successor of `x`. */
  lemma ExpandAddsSuccessors(p: Problem, seen: map<int, Node>, x: Node, next: seq<Node>, y: Node)
    requires Sorted(next)
    requires y in Expand(p, seen, x, next, 0) && y !in next
    ensures IsSuccessor(p, seen, x, y)
  {
    var j :| 0 <= j < 4 && Pushable(p, seen, x, j) && y == Successor(p, x, j);
    MoveIffDistOne(x.r, x.c, y.r, y.c);
  }

  /** One iteration of the loop. */
  function Step(p: Problem, s: Session): (t: Session)
    requires Sorted(s.next) && |s.next| > 0
    // the visited table only grows, and no entry is ever overwritten
    ensures s.seen.Keys <= t.seen.Keys
    ensures forall k :: k in s.seen ==> t.seen[k] == s.seen[k]
    // either the popped node is discarded and nothing else changes ...
    ensures KeyOf(p, s.next[0]) in s.seen ==>
              t == s.(next := s.next[1..]) && |t.next| < |s.next|
    // ... or it finalises its cell, and the table grows by exactly that entry
    ensures KeyOf(p, s.next[0]) !in s.seen ==>
              && t.seen == s.seen[KeyOf(p, s.next[0]) := s.next[0]]
              && |t.seen| == |s.seen| + 1
              && t.order == s.order + [s.next[0]]
    // the goal's finalisation breaks out of the loop before any neighbour is pushed
    ensures KeyOf(p, s.next[0]) !in s.seen && AtGoal(p, s.next[0]) ==> t.next == s.next[1..]
    // any other finalisation pushes every free unvisited neighbour, or finds an equivalent node already there
    ensures KeyOf(p, s.next[0]) !in s.seen && !AtGoal(p, s.next[0]) ==>
              forall i :: 0 <= i < 4 && Pushable(p, t.seen, s.next[0], i) ==> HasEquiv(t.next, Successor(p, s.next[0], i))
    // the search succeeds exactly when the finalised cell is the goal
    ensures t.found <==> s.found || (KeyOf(p, s.next[0]) !in s.seen && Dist(s.next[0].r, s.next[0].c, p.goal.r, p.goal.c) == 0)
    // the cursor follows the finalised cell, except onto the goal
    ensures t.cur == if KeyOf(p, s.next[0]) !in s.seen && !AtGoal(p, s.next[0]) then CellOf(s.next[0]) else s.cur
    // the rest of the frontier stays, and everything new is a successor
    ensures Sorted(t.next)
    ensures forall y :: y in s.next[1..] ==> y in t.next
    ensures forall y :: y in t.next ==> y in s.next[1..] || IsSuccessor(p, t.seen, s.next[0], y)
  {
    var (x, rest) := PopMin(s.next);
    var k := KeyOf(p, x);
    if k in s.seen then
      assert |rest| < |s.next|;
      s.(next := rest)
    else
      var seen := s.seen[k := x];
      if Dist(x.r, x.c, p.goal.r, p.goal.c) == 0 then
        s.(next := rest, seen := seen, found := true, order := s.order + [x])
      else
        var t := Expand(p, seen, x, rest, 0);
        assert forall y :: y in t ==> y in rest || IsSuccessor(p, seen, x, y) by {
          forall y | y in t ensures y in rest || IsSuccessor(p, seen, x, y) {
            if y !in rest {
              ExpandAddsSuccessors(p, seen, x, rest, y);
            }
          }
        }
        s.(next := t, seen := seen, cur := CellOf(x), order := s.order + [x])
  }

  /** A successor costs at least as much as the node it was pushed from,
      because the heuristic drops by at most one per move: the priorities
      pushed are never below the priority just popped. */
  lemma SuccessorPriority(p: Problem, seen: map<int, Node>, x: Node, y: Node)
    requires WellFormed(x) && x.heuristic == H(p, x.r, x.c)
    requires IsSuccessor(p, seen, x, y)
    ensures y.priority >= x.priority
    ensures y.priority == x.priority <==> y.heuristic == x.heuristic - 1
  {
    MoveIffDistOne(x.r, x.c, y.r, y.c);
    var i :| 0 <= i < 4 && Move(x.r, x.c, i) == Cell(y.r, y.c);
    MoveChangesDistByOne(x.r, x.c, i, p.goal.r, p.goal.c);
  }
}
