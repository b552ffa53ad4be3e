/** The invariant of the expansion loop and its preservation by one step.

    Besides the well-formedness of the frontier and of the visited table,
    the invariant records the facts behind the algorithm's guarantees:
    finalised priorities never exceed the frontier's, every free unvisited
    neighbour of a finalised cell has a frontier node at most one step more
    expensive, and the cost recorded for a finalised cell is no more than
    the length of any path to it. */
module Invariants {
  import opened Grid
  import opened Nodes
  import opened Frontier
  import opened Expansion
  import opened Paths

  predicate FrontierOk(p: Problem, s: Session)
  {
    Sorted(s.next) && forall y :: y in s.next ==> NodeOk(p, s.seen, y)
  }

  /** `order` lists exactly the table's entries, each cell once, in
      non-decreasing order of priority. */
  predicate OrderOk(p: Problem, s: Session)
  {
    && (forall j :: 0 <= j < |s.order| ==>
          KeyOf(p, s.order[j]) in s.seen && s.seen[KeyOf(p, s.order[j])] == s.order[j])
    && (forall k :: k in s.seen ==> exists j :: 0 <= j < |s.order| && s.order[j] == s.seen[k])
    && (forall i, j :: 0 <= i < j < |s.order| ==> s.order[i].priority <= s.order[j].priority)
    && (forall i, j :: 0 <= i < j < |s.order| ==> CellOf(s.order[i]) != CellOf(s.order[j]))
  }

  /** No finalised node has a higher priority than a node still waiting. */
  predicate Settled(s: Session)
  {
    forall j, y :: 0 <= j < |s.order| && y in s.next ==> s.order[j].priority <= y.priority
  }

  predicate FoundOk(p: Problem, s: Session)
  {
    && (s.found <==> Hash(p.n, p.goal.r, p.goal.c) in s.seen)
    && (s.found ==> |s.order| > 0 && AtGoal(p, s.order[|s.order| - 1]))
  }

  /** The cell of the last finalised node that is not the goal, or the
      start cell when there is none. */
  function LastExpanded(p: Problem, order: seq<Node>): Cell
  {
    if |order| == 0 then p.start
    else if AtGoal(p, order[|order| - 1]) then LastExpanded(p, order[..|order| - 1])
    else CellOf(order[|order| - 1])
  }

  predicate CurOk(p: Problem, s: Session)
  {
    s.cur == LastExpanded(p, s.order)
  }

  predicate StartOk(p: Problem, s: Session)
  {
    && (s.seen == map[] ==> s == Init(p))
    && (s.seen != map[] ==> Hash(p.n, p.start.r, p.start.c) in s.seen)
  }

  /** Every free, unvisited neighbour of a finalised cell other than the
      goal has a frontier node at most one step more expensive. */
  predicate Covered(p: Problem, s: Session)
  {
    forall k, i :: k in s.seen && 0 <= i < 4 && !AtGoal(p, s.seen[k]) && Pushable(p, s.seen, s.seen[k], i) ==>
      exists y :: y in s.next && CellOf(y) == Move(s.seen[k].r, s.seen[k].c, i) && y.dist <= s.seen[k].dist + 1
  }

  /** While searching, a goal node in the frontier either links back to the
      cursor or costs more than the last finalised node. */
  predicate GoalParentOk(p: Problem, s: Session)
  {
    !s.found && |s.order| > 0 ==>
      forall y :: y in s.next && AtGoal(p, y) && HasParent(y) ==>
        Cell(y.fromR, y.fromC) == s.cur || y.priority > s.order[|s.order| - 1].priority
  }

  /** Once found, the cursor stands on the goal's recorded predecessor. */
  predicate FoundParentOk(p: Problem, s: Session)
  {
    s.found && Hash(p.n, p.goal.r, p.goal.c) in s.seen ==>
      var g := s.seen[Hash(p.n, p.goal.r, p.goal.c)];
      HasParent(g) ==> s.cur == Cell(g.fromR, g.fromC)
  }

  /** No path to a finalised cell is shorter than its recorded cost. */
  ghost predicate Optimal(p: Problem, s: Session)
  {
    forall k, path :: k in s.seen && Reaches(p, path, CellOf(s.seen[k])) ==> s.seen[k].dist <= |path| - 1
  }

  ghost predicate Inv(p: Problem, s: Session)
  {
    && ValidProblem(p)
    && SeenOk(p, s.seen)
    && FrontierOk(p, s)
    && OrderOk(p, s)
    && Settled(s)
    && FoundOk(p, s)
    && CurOk(p, s)
    && StartOk(p, s)
    && Covered(p, s)
    && GoalParentOk(p, s)
    && FoundParentOk(p, s)
    && Optimal(p, s)
  }

  // ---------------------------------------------------------------------
  // Establishing the invariant

  lemma InitInv(p: Problem)
    requires ValidProblem(p)
    ensures Inv(p, Init(p))
  {
    var s := Init(p);
    assert NodeOk(p, s.seen, StartNode(p));
  }

  // ---------------------------------------------------------------------
  // Helpers

  /** `seen'` keeps every entry of `seen`. */
  predicate Extends(seen: map<int, Node>, seen': map<int, Node>)
  {
    forall k :: k in seen ==> k in seen' && seen'[k] == seen[k]
  }

  lemma NodeOkMono(p: Problem, seen: map<int, Node>, seen': map<int, Node>, x: Node)
    requires Extends(seen, seen') && NodeOk(p, seen, x)
    ensures NodeOk(p, seen', x)
  {
  }

  /** A frontier node other than the head is in the rest of the frontier. */
  lemma InTail(s: seq<Node>, y: Node)
    requires y in s && y != s[0]
    ensures y in s[1..]
  {
    var j :| 0 <= j < |s| && s[j] == y;
    assert s[1..][j - 1] == y;
  }

  /** Along a path, the distance to a fixed cell shrinks by at most one
      per move. */
  lemma {:induction false} DistAlongPath(path: seq<Cell>, a: int, b: int, g: Cell)
    requires 0 <= a <= b < |path|
    requires forall i :: 0 < i < |path| ==> Dist(path[i - 1].r, path[i - 1].c, path[i].r, path[i].c) == 1
    ensures Dist(path[a].r, path[a].c, g.r, g.c) <= Dist(path[b].r, path[b].c, g.r, g.c) + (b - a)
    decreases b - a
  {
    if a < b {
      DistAlongPath(path, a + 1, b, g);
      DistTriangle(path[a].r, path[a].c, path[a + 1].r, path[a + 1].c, g.r, g.c);
    }
  }

  /** A path from the visited start cell to an unvisited cell leaves the
      visited cells somewhere: at index k, right after a visited cell. */
  lemma FirstUnseen(p: Problem, seen: map<int, Node>, path: seq<Cell>) returns (k: int)
    requires IsPath(p, path)
    requires Hash(p.n, p.start.r, p.start.c) in seen
    requires Hash(p.n, path[|path| - 1].r, path[|path| - 1].c) !in seen
    ensures 1 <= k < |path|
    ensures Hash(p.n, path[k - 1].r, path[k - 1].c) in seen
    ensures Hash(p.n, path[k].r, path[k].c) !in seen
  {
    k := 1;
    while Hash(p.n, path[k].r, path[k].c) in seen
      invariant 1 <= k < |path|
      invariant Hash(p.n, path[k - 1].r, path[k - 1].c) in seen
      decreases |path| - k
    {
      k := k + 1;
    }
  }

  // ---------------------------------------------------------------------
  // A discarded node

  lemma DiscardInv(p: Problem, s: Session)
    requires Inv(p, s) && !s.found && |s.next| > 0
    requires KeyOf(p, s.next[0]) in s.seen
    ensures Inv(p, Step(p, s))
  {
    var t := Step(p, s);
    assert t == s.(next := s.next[1..]);
    DiscardFrontier(p, s, t);
    DiscardCovered(p, s, t);
  }

  lemma DiscardFrontier(p: Problem, s: Session, t: Session)
    requires FrontierOk(p, s) && Settled(s) && GoalParentOk(p, s) && |s.next| > 0
    requires t == s.(next := s.next[1..])
    ensures FrontierOk(p, t) && Settled(t) && GoalParentOk(p, t)
  {
    forall y | y in t.next
      ensures y in s.next
    {
    }
  }

  lemma DiscardCovered(p: Problem, s: Session, t: Session)
    requires Covered(p, s) && |s.next| > 0 && KeyOf(p, s.next[0]) in s.seen
    requires t == s.(next := s.next[1..])
    ensures Covered(p, t)
  {
    var x := s.next[0];
    forall k, i | k in t.seen && 0 <= i < 4 && !AtGoal(p, t.seen[k]) && Pushable(p, t.seen, t.seen[k], i)
      ensures exists y :: y in t.next && CellOf(y) == Move(t.seen[k].r, t.seen[k].c, i) && y.dist <= t.seen[k].dist + 1
    {
      var w := s.seen[k];
      var y :| y in s.next && CellOf(y) == Move(w.r, w.c, i) && y.dist <= w.dist + 1;
      assert y != x;
      InTail(s.next, y);
    }
  }

  // ---------------------------------------------------------------------
  // A finalised node: one lemma per part of the invariant

  /** The premise shared by the lemmas below. */
  ghost predicate Finalising(p: Problem, s: Session)
  {
    Inv(p, s) && !s.found && |s.next| > 0 && KeyOf(p, s.next[0]) !in s.seen
  }

  lemma FinaliseTable(p: Problem, s: Session)
    requires Finalising(p, s)
    ensures Extends(s.seen, Step(p, s).seen)
    ensures SeenOk(p, Step(p, s).seen)
    ensures FrontierOk(p, Step(p, s))
  {
    var x := s.next[0];
    var t := Step(p, s);
    var kx := KeyOf(p, x);
    assert t.seen == s.seen[kx := x];
    assert Extends(s.seen, t.seen);
    forall k
      ensures EntryOk(p, t.seen, k)
    {
      if k == kx {
        NodeOkMono(p, s.seen, t.seen, x);
      } else if k in t.seen {
        assert EntryOk(p, s.seen, k);
        NodeOkMono(p, s.seen, t.seen, s.seen[k]);
      }
    }
    forall y | y in t.next
      ensures NodeOk(p, t.seen, y)
    {
      if y in s.next[1..] {
        NodeOkMono(p, s.seen, t.seen, y);
      } else {
        assert IsSuccessor(p, t.seen, x, y);
        assert t.seen[kx] == x;
      }
    }
  }

  lemma FinaliseOrder(p: Problem, s: Session)
    requires Finalising(p, s)
    ensures OrderOk(p, Step(p, s))
    ensures Settled(Step(p, s))
  {
    var x := s.next[0];
    var t := Step(p, s);
    assert x in s.next;
    OrderAppend(p, s, t, x);
    SettledAppend(p, s, t, x);
  }

  lemma OrderAppend(p: Problem, s: Session, t: Session, x: Node)
    requires OrderOk(p, s) && Settled(s) && x in s.next && KeyOf(p, x) !in s.seen
    requires t.order == s.order + [x] && t.seen == s.seen[KeyOf(p, x) := x]
    ensures OrderOk(p, t)
  {
    OrderAppendTable(p, s, t, x);
    OrderAppendCover(p, s, t, x);
    OrderAppendSorted(p, s, t, x);
  }

  lemma OrderAppendTable(p: Problem, s: Session, t: Session, x: Node)
    requires OrderOk(p, s) && KeyOf(p, x) !in s.seen
    requires t.order == s.order + [x] && t.seen == s.seen[KeyOf(p, x) := x]
    ensures forall j :: 0 <= j < |t.order| ==>
              KeyOf(p, t.order[j]) in t.seen && t.seen[KeyOf(p, t.order[j])] == t.order[j]
  {
    forall j | 0 <= j < |t.order|
      ensures KeyOf(p, t.order[j]) in t.seen && t.seen[KeyOf(p, t.order[j])] == t.order[j]
    {
      if j < |s.order| {
        assert t.order[j] == s.order[j];
      }
    }
  }

  lemma OrderAppendCover(p: Problem, s: Session, t: Session, x: Node)
    requires OrderOk(p, s) && KeyOf(p, x) !in s.seen
    requires t.order == s.order + [x] && t.seen == s.seen[KeyOf(p, x) := x]
    ensures forall k :: k in t.seen ==> exists j :: 0 <= j < |t.order| && t.order[j] == t.seen[k]
  {
    forall k | k in t.seen
      ensures exists j :: 0 <= j < |t.order| && t.order[j] == t.seen[k]
    {
      if k == KeyOf(p, x) {
        assert t.order[|s.order|] == t.seen[k];
      } else {
        var j :| 0 <= j < |s.order| && s.order[j] == s.seen[k];
        assert t.order[j] == t.seen[k];
      }
    }
  }

  lemma OrderAppendSorted(p: Problem, s: Session, t: Session, x: Node)
    requires OrderOk(p, s) && Settled(s) && x in s.next && KeyOf(p, x) !in s.seen
    requires t.order == s.order + [x]
    ensures forall i, j :: 0 <= i < j < |t.order| ==> t.order[i].priority <= t.order[j].priority
    ensures forall i, j :: 0 <= i < j < |t.order| ==> CellOf(t.order[i]) != CellOf(t.order[j])
  {
    var n := |s.order|;
    forall i, j | 0 <= i < j < |t.order|
      ensures t.order[i].priority <= t.order[j].priority
      ensures CellOf(t.order[i]) != CellOf(t.order[j])
    {
      if j == n {
        assert t.order[i] == s.order[i] && t.order[j] == x;
        assert KeyOf(p, s.order[i]) in s.seen;
      } else {
        assert t.order[i] == s.order[i] && t.order[j] == s.order[j];
      }
    }
  }

  lemma SettledAppend(p: Problem, s: Session, t: Session, x: Node)
    requires Settled(s) && Sorted(s.next) && |s.next| > 0 && x == s.next[0]
    requires WellFormed(x) && x.heuristic == H(p, x.r, x.c)
    requires t.order == s.order + [x]
    requires forall y :: y in t.next ==> y in s.next[1..] || IsSuccessor(p, t.seen, x, y)
    ensures Settled(t)
  {
    var n := |s.order|;
    forall j, y | 0 <= j < |t.order| && y in t.next
      ensures t.order[j].priority <= y.priority
    {
      var xp := if j < n then s.order[j].priority else x.priority;
      assert t.order[j].priority == xp;
      assert xp <= x.priority;
      if y in s.next[1..] {
        HeadIsLeast(s.next, y);
      } else {
        SuccessorPriority(p, t.seen, x, y);
      }
    }
  }

  lemma FinaliseFound(p: Problem, s: Session)
    requires Finalising(p, s)
    ensures FoundOk(p, Step(p, s))
    ensures CurOk(p, Step(p, s))
    ensures StartOk(p, Step(p, s))
  {
    var x := s.next[0];
    var t := Step(p, s);
    assert x in s.next && NodeOk(p, s.seen, x);
    FoundAppend(p, s, t, x);
    CurAppend(p, s, t, x);
    StartAppend(p, s, t, x);
  }

  lemma FoundAppend(p: Problem, s: Session, t: Session, x: Node)
    requires ValidProblem(p) && InBounds(p.n, x.r, x.c)
    requires Hash(p.n, p.goal.r, p.goal.c) !in s.seen
    requires t.seen == s.seen[KeyOf(p, x) := x] && t.order == s.order + [x]
    requires t.found <==> Dist(x.r, x.c, p.goal.r, p.goal.c) == 0
    ensures FoundOk(p, t)
  {
    HashInjective(p.n, x.r, x.c, p.goal.r, p.goal.c);
  }

  lemma CurAppend(p: Problem, s: Session, t: Session, x: Node)
    requires CurOk(p, s) && t.order == s.order + [x]
    requires t.cur == if !AtGoal(p, x) then CellOf(x) else s.cur
    ensures CurOk(p, t)
  {
    assert t.order[..|t.order| - 1] == s.order;
  }

  lemma StartAppend(p: Problem, s: Session, t: Session, x: Node)
    requires StartOk(p, s) && |s.next| > 0 && x == s.next[0]
    requires t.seen == s.seen[KeyOf(p, x) := x]
    ensures StartOk(p, t)
  {
    assert KeyOf(p, x) in t.seen;
    if s.seen == map[] {
      assert s == Init(p);
      assert x == StartNode(p);
    }
  }

  lemma FinaliseCovered(p: Problem, s: Session)
    requires Finalising(p, s)
    requires FrontierOk(p, Step(p, s))
    ensures Covered(p, Step(p, s))
  {
    var x := s.next[0];
    var t := Step(p, s);
    var kx := KeyOf(p, x);
    assert t.seen == s.seen[kx := x];
    forall k, i | k in t.seen && 0 <= i < 4 && !AtGoal(p, t.seen[k]) && Pushable(p, t.seen, t.seen[k], i)
      ensures exists y :: y in t.next && CellOf(y) == Move(t.seen[k].r, t.seen[k].c, i) && y.dist <= t.seen[k].dist + 1
    {
      var w := t.seen[k];
      var u := Move(w.r, w.c, i);
      if k == kx {
        assert w == x && !AtGoal(p, x);
        assert t.next == Expand(p, t.seen, x, s.next[1..], 0);
        var z := Successor(p, x, i);
        assert HasEquiv(t.next, z);
        var y :| y in t.next && Equiv(z, y);
        EquivSameCost(z, y);
      } else {
        assert w == s.seen[k];
        assert Pushable(p, s.seen, w, i);
        var y :| y in s.next && CellOf(y) == u && y.dist <= w.dist + 1;
        assert y != x;
        InTail(s.next, y);
      }
    }
  }

  lemma FinaliseGoalParent(p: Problem, s: Session)
    requires Finalising(p, s)
    ensures GoalParentOk(p, Step(p, s))
    ensures FoundParentOk(p, Step(p, s))
  {
    var x := s.next[0];
    var t := Step(p, s);
    assert x in s.next;
    if AtGoal(p, x) {
      GoalFinalised(p, s, t, x);
    } else {
      OtherFinalised(p, s, t, x);
    }
  }

  // Finalising the goal: its node links back to the cursor, since a goal
  // node with a parent has the same priority as that parent, which the
  // last finalised node's priority already reaches.
  lemma GoalFinalised(p: Problem, s: Session, t: Session, x: Node)
    requires SeenOk(p, s.seen) && OrderOk(p, s) && GoalParentOk(p, s) && !s.found
    requires x in s.next && NodeOk(p, s.seen, x) && AtGoal(p, x) && KeyOf(p, x) !in s.seen
    requires t.found && t.cur == s.cur && t.seen == s.seen[KeyOf(p, x) := x]
    ensures GoalParentOk(p, t) && FoundParentOk(p, t)
  {
    assert Hash(p.n, p.goal.r, p.goal.c) == KeyOf(p, x);
    if HasParent(x) {
      var kw := Hash(p.n, x.fromR, x.fromC);
      GoalParentPriority(p, s.seen, x);
      OrderBoundsTable(p, s, kw);
    }
  }

  // A goal node's recorded predecessor is one move from the goal and one
  // step cheaper, so it has the same priority.
  lemma GoalParentPriority(p: Problem, seen: map<int, Node>, x: Node)
    requires SeenOk(p, seen) && NodeOk(p, seen, x) && AtGoal(p, x) && HasParent(x)
    ensures Hash(p.n, x.fromR, x.fromC) in seen
    ensures seen[Hash(p.n, x.fromR, x.fromC)].priority == x.priority
  {
    var w := seen[Hash(p.n, x.fromR, x.fromC)];
    assert EntryOk(p, seen, Hash(p.n, x.fromR, x.fromC));
    DistSymmetric(x.fromR, x.fromC, x.r, x.c);
  }

  // No table entry has a higher priority than the last finalised node.
  lemma OrderBoundsTable(p: Problem, s: Session, k: int)
    requires OrderOk(p, s) && k in s.seen
    ensures |s.order| > 0 && s.seen[k].priority <= s.order[|s.order| - 1].priority
  {
    var j :| 0 <= j < |s.order| && s.order[j] == s.seen[k];
    var last := |s.order| - 1;
    if j < last {
      assert s.order[j].priority <= s.order[last].priority;
    }
  }

  // Finalising another cell: goal nodes still waiting order after it, and
  // since their estimate is zero while its own is not, they cost more.
  lemma OtherFinalised(p: Problem, s: Session, t: Session, x: Node)
    requires Sorted(s.next) && |s.next| > 0 && x == s.next[0]
    requires forall y :: y in s.next ==> y.heuristic == H(p, y.r, y.c)
    requires !AtGoal(p, x)
    requires !t.found && t.cur == CellOf(x) && t.order == s.order + [x]
    requires forall y :: y in t.next ==> y in s.next[1..] || IsSuccessor(p, t.seen, x, y)
    ensures GoalParentOk(p, t) && FoundParentOk(p, t)
  {
    assert t.order[|t.order| - 1] == x;
    forall y | y in t.next && AtGoal(p, y) && HasParent(y)
      ensures Cell(y.fromR, y.fromC) == t.cur || y.priority > x.priority
    {
      if y in s.next[1..] {
        assert Less(x, y);
        assert y in s.next;
      }
    }
  }

  /** The heart of A*: a node popped for an unvisited cell carries a cost no
      larger than the length of any path to that cell. A path first leaves
      the visited cells right after some visited cell; that step's node is
      waiting in the frontier at most one move later, and the consistent
      heuristic bounds what the rest of the path can save. */
  lemma PoppedIsOptimal(p: Problem, s: Session, path: seq<Cell>)
    requires Finalising(p, s)
    requires Reaches(p, path, CellOf(s.next[0]))
    ensures s.next[0].dist <= |path| - 1
  {
    if s.seen == map[] {
      assert s == Init(p);
    } else {
      var k := FirstUnseen(p, s.seen, path);
      var y := WaitingNode(p, s, path, k);
      assert s.next[0] in s.next;
      DetourBound(p, s.next, path, k, y);
    }
  }

  // Where a path first leaves the visited cells, a frontier node waits on
  // its next cell, costing no more than the path's prefix.
  lemma WaitingNode(p: Problem, s: Session, path: seq<Cell>, k: int) returns (y: Node)
    requires ValidProblem(p) && SeenOk(p, s.seen) && Covered(p, s) && Optimal(p, s)
    requires Hash(p.n, p.goal.r, p.goal.c) !in s.seen
    requires IsPath(p, path) && 1 <= k < |path|
    requires Hash(p.n, path[k - 1].r, path[k - 1].c) in s.seen
    requires Hash(p.n, path[k].r, path[k].c) !in s.seen
    ensures y in s.next && CellOf(y) == path[k] && y.dist <= k
  {
    var v, u := path[k - 1], path[k];
    assert InBounds(p.n, v.r, v.c);
    var kv := Hash(p.n, v.r, v.c);
    SeenCell(p, s.seen, v.r, v.c);
    var w := s.seen[kv];
    assert CellOf(w) == v;
    assert !AtGoal(p, w);
    MoveIffDistOne(v.r, v.c, u.r, u.c);
    var i :| 0 <= i < 4 && Move(v.r, v.c, i) == u;
    y := CoveredNode(p, s, kv, i);
    PrefixBound(p, s, path, k, kv);
  }

  lemma CoveredNode(p: Problem, s: Session, k: int, i: int) returns (y: Node)
    requires Covered(p, s) && k in s.seen && 0 <= i < 4
    requires !AtGoal(p, s.seen[k]) && Pushable(p, s.seen, s.seen[k], i)
    ensures y in s.next && CellOf(y) == Move(s.seen[k].r, s.seen[k].c, i) && y.dist <= s.seen[k].dist + 1
  {
    y :| y in s.next && CellOf(y) == Move(s.seen[k].r, s.seen[k].c, i) && y.dist <= s.seen[k].dist + 1;
  }

  lemma PrefixBound(p: Problem, s: Session, path: seq<Cell>, k: int, kv: int)
    requires Optimal(p, s) && IsPath(p, path) && 1 <= k < |path|
    requires kv in s.seen && CellOf(s.seen[kv]) == path[k - 1]
    ensures s.seen[kv].dist <= k - 1
  {
    assert Reaches(p, path[..k], path[k - 1]);
  }

  // The least frontier node costs no more than the remaining path through
  // a waiting node allows.
  lemma DetourBound(p: Problem, next: seq<Node>, path: seq<Cell>, k: int, y: Node)
    requires Sorted(next) && |next| > 0
    requires WellFormed(next[0]) && next[0].heuristic == H(p, next[0].r, next[0].c)
    requires y in next && WellFormed(y) && y.heuristic == H(p, y.r, y.c)
    requires IsPath(p, path) && path[|path| - 1] == CellOf(next[0])
    requires 0 <= k < |path| && CellOf(y) == path[k] && y.dist <= k
    ensures next[0].dist <= |path| - 1
  {
    HeadIsLeast(next, y);
    DistAlongPath(path, k, |path| - 1, p.goal);
  }

  lemma FinaliseOptimal(p: Problem, s: Session)
    requires Finalising(p, s)
    ensures Optimal(p, Step(p, s))
  {
    var x := s.next[0];
    var t := Step(p, s);
    var kx := KeyOf(p, x);
    assert t.seen == s.seen[kx := x];
    forall k, path | k in t.seen && Reaches(p, path, CellOf(t.seen[k]))
      ensures t.seen[k].dist <= |path| - 1
    {
      if k == kx {
        PoppedIsOptimal(p, s, path);
      } else {
        assert t.seen[k] == s.seen[k];
      }
    }
  }

  /** One iteration of the loop preserves the invariant. */
  lemma StepInv(p: Problem, s: Session)
    requires Inv(p, s) && !s.found && |s.next| > 0
    ensures Inv(p, Step(p, s))
  {
    if KeyOf(p, s.next[0]) in s.seen {
      DiscardInv(p, s);
    } else {
      FinaliseTable(p, s);
      FinaliseOrder(p, s);
      FinaliseFound(p, s);
      FinaliseCovered(p, s);
      FinaliseGoalParent(p, s);
      FinaliseOptimal(p, s);
    }
  }
}
