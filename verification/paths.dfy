/** Paths on the grid and the back-links recorded in the visited table.

    A path is a sequence of cells that begins at the start cell and moves
    one step at a time, through in-bounds cells free of walls. Every node
    in the visited table links back to the cell it was reached from, one
    step cheaper; following those links from any finalised cell yields a
    path back to the start. */
module Paths {
  import opened Grid
  import opened Nodes
  import opened Expansion

  /** A walk from the start cell through free cells, one move at a time.
      The start cell itself is where the search begins, whatever it holds. */
  predicate IsPath(p: Problem, path: seq<Cell>)
  {
    && |path| > 0
    && path[0] == p.start
    && (forall i :: 0 < i < |path| ==> InBounds(p.n, path[i].r, path[i].c) && !Blocked(p.field, path[i].r, path[i].c))
    && (forall i :: 0 < i < |path| ==> Dist(path[i - 1].r, path[i - 1].c, path[i].r, path[i].c) == 1)
  }

  /** A path from the start that ends on `target`; it takes |path| - 1 moves. */
  predicate Reaches(p: Problem, path: seq<Cell>, target: Cell)
  {
    IsPath(p, path) && path[|path| - 1] == target
  }

  function Reverse<T>(s: seq<T>): (r: seq<T>)
    ensures |r| == |s|
    ensures forall i :: 0 <= i < |s| ==> r[i] == s[|s| - 1 - i]
  {
    if |s| == 0 then [] else Reverse(s[1..]) + [s[0]]
  }

  /** The back-link of a node: the start node has none and costs nothing;
      any other node stands on a free cell, one move away from a finalised
      cell whose cost is one less. */
  predicate LinkOk(p: Problem, seen: map<int, Node>, x: Node)
  {
    if !HasParent(x) then
      x.fromC == NO_PARENT && x.r == p.start.r && x.c == p.start.c && x.dist == 0
    else
      && InBounds(p.n, x.fromR, x.fromC)
      && Dist(x.fromR, x.fromC, x.r, x.c) == 1
      && !Blocked(p.field, x.r, x.c)
      && Hash(p.n, x.fromR, x.fromC) in seen
      && seen[Hash(p.n, x.fromR, x.fromC)].r == x.fromR
      && seen[Hash(p.n, x.fromR, x.fromC)].c == x.fromC
      && seen[Hash(p.n, x.fromR, x.fromC)].dist == x.dist - 1
  }

  /** What holds of every node the search creates, relative to the table
      of finalised nodes. */
  predicate NodeOk(p: Problem, seen: map<int, Node>, x: Node)
  {
    && InBounds(p.n, x.r, x.c)
    && x.heuristic == H(p, x.r, x.c)
    && WellFormed(x)
    && x.dist >= 0
    && LinkOk(p, seen, x)
  }

  /** The entry under key `k`, if any, is keyed by its cell and is a node
      the search created. */
  predicate EntryOk(p: Problem, seen: map<int, Node>, k: int)
  {
    k in seen ==> k == Hash(p.n, seen[k].r, seen[k].c) && NodeOk(p, seen, seen[k])
  }

  /** Every entry of the visited table is well formed. The trigger keeps
      the back-links of one entry from unfolding the entries they point to. */
  ghost predicate SeenOk(p: Problem, seen: map<int, Node>)
  {
    forall k {:trigger EntryOk(p, seen, k)} :: EntryOk(p, seen, k)
  }

  /** The table entry under the key of an in-bounds cell stands on that cell. */
  lemma SeenCell(p: Problem, seen: map<int, Node>, r: int, c: int)
    requires SeenOk(p, seen)
    requires InBounds(p.n, r, c) && Hash(p.n, r, c) in seen
    ensures seen[Hash(p.n, r, c)].r == r && seen[Hash(p.n, r, c)].c == c
  {
    var x := seen[Hash(p.n, r, c)];
    assert EntryOk(p, seen, Hash(p.n, r, c));
    HashInjective(p.n, r, c, x.r, x.c);
  }

  /** The cells the walk-back visits from `from`, following back-links until
      the start node, which has none. */
  function Trail(p: Problem, seen: map<int, Node>, from: Cell): (t: seq<Cell>)
    requires SeenOk(p, seen)
    requires InBounds(p.n, from.r, from.c) && Hash(p.n, from.r, from.c) in seen
    ensures |t| == seen[Hash(p.n, from.r, from.c)].dist + 1 && |t| > 0
    ensures t[0] == from && t[|t| - 1] == p.start
    ensures forall i :: 0 <= i < |t| ==>
              && InBounds(p.n, t[i].r, t[i].c)
              && Hash(p.n, t[i].r, t[i].c) in seen
              && seen[Hash(p.n, t[i].r, t[i].c)].dist == |t| - 1 - i
    ensures forall i :: 0 < i < |t| ==> Dist(t[i - 1].r, t[i - 1].c, t[i].r, t[i].c) == 1
    ensures forall i :: 0 <= i < |t| - 1 ==> !Blocked(p.field, t[i].r, t[i].c)
    decreases seen[Hash(p.n, from.r, from.c)].dist
  {
    var x := seen[Hash(p.n, from.r, from.c)];
    SeenCell(p, seen, from.r, from.c);
    assert EntryOk(p, seen, Hash(p.n, from.r, from.c));
    if !HasParent(x) then
      [from]
    else
      [from] + Trail(p, seen, Cell(x.fromR, x.fromC))
  }

  /** The program's walk-back loop: starting from a finalised cell, mark it
      and move to its recorded predecessor until the row is -1. */
  method WalkBack(p: Problem, seen: map<int, Node>, from: Cell) returns (path: seq<Cell>)
    requires SeenOk(p, seen)
    requires InBounds(p.n, from.r, from.c) && Hash(p.n, from.r, from.c) in seen
    ensures path == Trail(p, seen, from)
    ensures |path| == seen[Hash(p.n, from.r, from.c)].dist + 1
    ensures path[0] == from && path[|path| - 1] == p.start
  {
    var cur := from;
    path := [];
    while cur.r != NO_PARENT
      invariant cur.r == NO_PARENT || (InBounds(p.n, cur.r, cur.c) && Hash(p.n, cur.r, cur.c) in seen)
      invariant path + (if cur.r == NO_PARENT then [] else Trail(p, seen, cur)) == Trail(p, seen, from)
      decreases if cur.r == NO_PARENT then 0 else seen[Hash(p.n, cur.r, cur.c)].dist + 1
    {
      var x := seen[Hash(p.n, cur.r, cur.c)];
      SeenCell(p, seen, cur.r, cur.c);
      assert EntryOk(p, seen, Hash(p.n, cur.r, cur.c));
      path := path + [cur];
      cur := Cell(x.fromR, x.fromC);
    }
  }

  /** Read from the start, the cells of the walk-back form a path that
      reaches the finalised cell in exactly its recorded number of moves. */
  lemma TrailIsPath(p: Problem, seen: map<int, Node>, from: Cell)
    requires SeenOk(p, seen)
    requires InBounds(p.n, from.r, from.c) && Hash(p.n, from.r, from.c) in seen
    ensures var path := Reverse(Trail(p, seen, from));
      Reaches(p, path, from) && |path| == seen[Hash(p.n, from.r, from.c)].dist + 1
  {
    ReversedWalkIsPath(p, Trail(p, seen, from));
  }

  // A walk that ends on the start cell, moves one step at a time and
  // passes only free cells before it, is a path when read backwards.
  lemma ReversedWalkIsPath(p: Problem, t: seq<Cell>)
    requires |t| > 0 && t[|t| - 1] == p.start
    requires forall i :: 0 <= i < |t| ==> InBounds(p.n, t[i].r, t[i].c)
    requires forall i :: 0 < i < |t| ==> Dist(t[i - 1].r, t[i - 1].c, t[i].r, t[i].c) == 1
    requires forall i :: 0 <= i < |t| - 1 ==> !Blocked(p.field, t[i].r, t[i].c)
    ensures Reaches(p, Reverse(t), t[0])
  {
    var path := Reverse(t);
    assert path[0] == t[|t| - 1] && path[|path| - 1] == t[0];
    forall i | 0 < i < |path|
      ensures InBounds(p.n, path[i].r, path[i].c) && !Blocked(p.field, path[i].r, path[i].c)
    {
      assert path[i] == t[|t| - 1 - i];
    }
    forall i | 0 < i < |path|
      ensures Dist(path[i - 1].r, path[i - 1].c, path[i].r, path[i].c) == 1
    {
      var j := |t| - 1 - i;
      assert path[i] == t[j] && path[i - 1] == t[j + 1];
      DistSymmetric(t[j].r, t[j].c, t[j + 1].r, t[j + 1].c);
    }
  }
}
