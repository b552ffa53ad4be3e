/** The whole search: the expansion loop run to completion, and the
    walk-back that marks the path once the goal has been finalised.

    The loop stops when the goal is finalised or the frontier runs dry. In
    the first case the recorded cost of every finalised cell is the length
    of a shortest path to it, and the cursor stands on the cell the goal
    was reached from, so the walk-back from the cursor traces a shortest
    path to the goal minus the goal itself. In the second case every cell
    reachable from the start was finalised, so the goal is unreachable. */
module AStar {
  import opened Grid
  import opened Nodes
  import opened Frontier
  import opened Expansion
  import opened Paths
  import opened Invariants

  /** `path` reaches `target`, and no path from the start to `target` is
      shorter. */
  ghost predicate Shortest(p: Problem, path: seq<Cell>, target: Cell)
  {
    Reaches(p, path, target) && forall q :: Reaches(p, q, target) ==> |path| <= |q|
  }

  /** The integers 0 .. m - 1. */
  function Range(m: nat): (r: set<int>)
    ensures forall k :: k in r <==> 0 <= k < m
  {
    if m == 0 then {} else Range(m - 1) + {m - 1}
  }

  lemma {:induction false} RangeCard(m: nat)
    ensures |Range(m)| == m
  {
    if m > 0 {
      RangeCard(m - 1);
    }
  }

  /** The visited table holds at most one entry per cell of the grid. */
  lemma SeenBound(p: Problem, seen: map<int, Node>)
    requires p.n > 0 && SeenOk(p, seen)
    ensures |seen| <= p.n * p.n
  {
    KeysInRange(p, seen);
    RangeCard(p.n * p.n);
    SubsetCard(seen.Keys, Range(p.n * p.n));
  }

  lemma KeysInRange(p: Problem, seen: map<int, Node>)
    requires SeenOk(p, seen)
    ensures seen.Keys <= Range(p.n * p.n)
  {
    forall k | k in seen
      ensures k in Range(p.n * p.n)
    {
      assert EntryOk(p, seen, k);
      HashRange(p.n, seen[k].r, seen[k].c);
    }
  }

  lemma SubsetCard(a: set<int>, b: set<int>)
    requires a <= b
    ensures |a| <= |b|
  {
    assert b == a + (b - a);
    assert a * (b - a) == {};
  }

  /** The program's expansion loop, from the initial session until the goal
      is finalised or the frontier is empty. Each iteration either finalises
      a new cell, of which there are at most n * n, or shrinks the frontier. */
  method Search(p: Problem) returns (s: Session)
    requires ValidProblem(p)
    ensures Inv(p, s)
    ensures s.found || s.next == []
    ensures s.found <==> Hash(p.n, p.goal.r, p.goal.c) in s.seen
    // nodes are finalised in non-decreasing order of priority, each cell once;
    // the frames drawn are a prefix of this order, so the same holds of them
    ensures forall i, j :: 0 <= i < j < |s.order| ==> s.order[i].priority <= s.order[j].priority
    ensures forall i, j :: 0 <= i < j < |s.order| ==> CellOf(s.order[i]) != CellOf(s.order[j])
  {
    s := Init(p);
    InitInv(p);
    while s.next != []
      invariant Inv(p, s) && !s.found
      invariant |s.seen| <= p.n * p.n
      decreases p.n * p.n - |s.seen|, |s.next|
    {
      StepInv(p, s);
      s := Step(p, s);
      SeenBound(p, s.seen);
      if s.found {
        return;
      }
    }
  }

  /** When the frontier runs dry without the goal, every cell a path from
      the start can reach has been finalised; in particular the goal is
      unreachable. */
  lemma Exhausted(p: Problem, s: Session, path: seq<Cell>)
    requires Inv(p, s) && !s.found && s.next == []
    requires IsPath(p, path)
    ensures Hash(p.n, path[|path| - 1].r, path[|path| - 1].c) in s.seen
    ensures path[|path| - 1] != p.goal
  {
    var last := path[|path| - 1];
    assert Init(p).next != [];
    assert Hash(p.n, p.start.r, p.start.c) in s.seen;
    if Hash(p.n, last.r, last.c) !in s.seen {
      var k := FirstUnseen(p, s.seen, path);
      var y := WaitingNode(p, s, path, k);
      assert false;
    }
    if last == p.goal {
      assert false;
    }
  }

  /** The recorded cost of a finalised cell is a shortest-path length, and
      the walk-back from it, read from the start, is such a shortest path. */
  lemma FinalisedIsShortest(p: Problem, s: Session, c: Cell)
    requires Inv(p, s)
    requires InBounds(p.n, c.r, c.c) && Hash(p.n, c.r, c.c) in s.seen
    ensures Shortest(p, Reverse(Trail(p, s.seen, c)), c)
    ensures |Trail(p, s.seen, c)| == s.seen[Hash(p.n, c.r, c.c)].dist + 1
  {
    TrailIsPath(p, s.seen, c);
    SeenCell(p, s.seen, c.r, c.c);
    var k := Hash(p.n, c.r, c.c);
    forall q | Reaches(p, q, c)
      ensures |Reverse(Trail(p, s.seen, c))| <= |q|
    {
      assert CellOf(s.seen[k]) == c;
    }
  }

  /** Once the goal is finalised, away from the start, the cursor stands on
      the cell the goal was reached from: the walk-back from the cursor is
      the walk-back from the goal without its first cell. */
  lemma CurIsGoalParent(p: Problem, s: Session)
    requires Inv(p, s) && s.found && p.start != p.goal
    ensures InBounds(p.n, s.cur.r, s.cur.c) && Hash(p.n, s.cur.r, s.cur.c) in s.seen
    ensures Trail(p, s.seen, p.goal) == [p.goal] + Trail(p, s.seen, s.cur)
  {
    var kg := Hash(p.n, p.goal.r, p.goal.c);
    var g := s.seen[kg];
    SeenCell(p, s.seen, p.goal.r, p.goal.c);
    assert EntryOk(p, s.seen, kg);
    assert HasParent(g);
    assert s.cur == Cell(g.fromR, g.fromC);
  }

  lemma ReverseCons<T>(a: T, t: seq<T>)
    ensures Reverse([a] + t) == Reverse(t) + [a]
  {
    var l, r := Reverse([a] + t), Reverse(t) + [a];
    assert |l| == |r|;
    forall i | 0 <= i < |l|
      ensures l[i] == r[i]
    {
      if i < |t| {
        assert l[i] == ([a] + t)[|t| - i];
      }
    }
  }

  /** The program end to end: search, then, if the goal was found, walk back
      from the cursor marking cells until the start node's missing link.
      The returned path lists the marked cells in the order they are marked:
      from the goal's predecessor back to the start; the goal cell itself
      keeps its own marker. Without a path to the goal nothing is marked. */
  method Run(p: Problem) returns (found: bool, path: seq<Cell>)
    requires ValidProblem(p)
    ensures found <==> exists q :: Reaches(p, q, p.goal)
    ensures !found ==> path == []
    ensures found && p.start == p.goal ==> path == [p.start]
    ensures found && p.start != p.goal ==>
              |path| > 0 && path[|path| - 1] == p.start && Shortest(p, Reverse(path) + [p.goal], p.goal)
  {
    var s := Search(p);
    found := s.found;
    if !found {
      path := [];
      forall q | Reaches(p, q, p.goal)
        ensures false
      {
        Exhausted(p, s, q);
      }
      return;
    }
    FinalisedIsShortest(p, s, p.goal);
    var goalPath := Reverse(Trail(p, s.seen, p.goal));
    assert Reaches(p, goalPath, p.goal);
    if p.start == p.goal {
      CurAtStart(p, s);
      path := WalkBack(p, s.seen, s.cur);
      SeenCell(p, s.seen, p.start.r, p.start.c);
      assert EntryOk(p, s.seen, Hash(p.n, p.start.r, p.start.c));
    } else {
      CurIsGoalParent(p, s);
      path := WalkBack(p, s.seen, s.cur);
      ReverseCons(p.goal, path);
    }
  }

  /** When the start is the goal, the first iteration finalises it and the
      cursor never leaves the start. */
  lemma CurAtStart(p: Problem, s: Session)
    requires Inv(p, s) && s.found && p.start == p.goal
    ensures s.cur == p.start
  {
    var m := |s.order|;
    var g := s.order[m - 1];
    StartGoalCost(p, s, g);
    if m >= 2 {
      var x := s.order[m - 2];
      NonGoalCost(p, s.seen, x);
      assert false;
    }
    assert AtGoal(p, g);
    assert s.order[..m - 1] == [];
    assert LastExpanded(p, s.order) == LastExpanded(p, s.order[..m - 1]);
  }

  // A goal node finalised on the start cell costs nothing.
  lemma StartGoalCost(p: Problem, s: Session, g: Node)
    requires ValidProblem(p) && SeenOk(p, s.seen) && Optimal(p, s) && p.start == p.goal
    requires KeyOf(p, g) in s.seen && s.seen[KeyOf(p, g)] == g && AtGoal(p, g)
    ensures g.priority == 0
  {
    assert EntryOk(p, s.seen, KeyOf(p, g));
    assert Reaches(p, [p.start], CellOf(s.seen[KeyOf(p, g)]));
  }

  // A finalised node off the goal costs at least one.
  lemma NonGoalCost(p: Problem, seen: map<int, Node>, x: Node)
    requires SeenOk(p, seen)
    requires KeyOf(p, x) in seen && seen[KeyOf(p, x)] == x && !AtGoal(p, x)
    ensures x.priority >= 1
  {
    assert EntryOk(p, seen, KeyOf(p, x));
  }
}
