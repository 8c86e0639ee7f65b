/** The map of `Server` (hw11/main.cpp): a `size` by `size` grid of
    characters, walled with '#', the player's start 'P' at (1, 1), the
    finish 'T' somewhere inside, and random '#' walls and 'M' monsters.
    `hasValidPath` decides by depth-first search whether the finish can be
    reached; `generateMap` lays out the walls and the start before placing
    the random terrain.  A grid is `grid[x][y]`, row first, as in the code. */
module Maze {

  /** The `Position` struct without its `next` link; the linked list of
      positions is a sequence whose first element is the head. */
  datatype Position = Position(x: int, y: int)

  /** The search starts at (1, 1). */
  const Start: Position := Position(1, 1)

  predicate IsGrid(g: seq<seq<char>>, n: int) {
    |g| == n && forall i | 0 <= i < n :: |g[i]| == n
  }

  /** Rows and columns 1 .. n-2: the cells inside the outer wall. */
  predicate Interior(n: int, p: Position) {
    1 <= p.x < n - 1 && 1 <= p.y < n - 1
  }

  /** A cell the search may enter: inside the wall, neither '#' nor 'M'. */
  predicate Passable(g: seq<seq<char>>, n: int, p: Position)
    requires IsGrid(g, n)
  {
    Interior(n, p) && g[p.x][p.y] != '#' && g[p.x][p.y] != 'M'
  }

  /** The four neighbours in the order the search creates them. */
  function Neighbours(p: Position): (r: seq<Position>)
    ensures |r| == 4
  {
    [Position(p.x + 1, p.y), Position(p.x - 1, p.y), Position(p.x, p.y + 1), Position(p.x, p.y - 1)]
  }

  /** A walk of 4-neighbour moves through passable cells. */
  ghost predicate IsWalk(g: seq<seq<char>>, n: int, path: seq<Position>)
    requires IsGrid(g, n)
  {
    |path| >= 1 &&
    (forall i | 0 <= i < |path| :: Passable(g, n, path[i])) &&
    (forall i | 0 <= i < |path| - 1 :: path[i + 1] in Neighbours(path[i]))
  }

  /** `target` can be reached from the start. */
  ghost predicate Reachable(g: seq<seq<char>>, n: int, target: Position)
    requires IsGrid(g, n)
  {
    exists path :: IsWalk(g, n, path) && path[0] == Start && path[|path| - 1] == target
  }

  /** A passable neighbour of a reachable cell is reachable. */
  lemma {:induction false} ReachStep(g: seq<seq<char>>, n: int, v: Position, w: Position)
    requires IsGrid(g, n) && Reachable(g, n, v) && Passable(g, n, w) && w in Neighbours(v)
    ensures Reachable(g, n, w)
  {
    var path :| IsWalk(g, n, path) && path[0] == Start && path[|path| - 1] == v;
    var longer := path + [w];
    assert forall i | 0 <= i < |path| :: longer[i] == path[i];
    assert IsWalk(g, n, longer);
  }

  /** Every passable neighbour of an expanded cell has been expanded or is
      still waiting on the list. */
  ghost predicate Covered(g: seq<seq<char>>, n: int, visited: set<Position>, pending: seq<Position>)
    requires IsGrid(g, n)
  {
    forall v, w | v in visited && w in Neighbours(v) :: Passable(g, n, w) ==> w in visited || w in pending
  }

  /** Dropping a popped position that is expanded or impassable keeps
      every expanded cell covered. */
  lemma {:induction false} CoveredAfterSkip(g: seq<seq<char>>, n: int, visited: set<Position>, current: Position, rest: seq<Position>)
    requires IsGrid(g, n) && Covered(g, n, visited, [current] + rest)
    requires current in visited || !Passable(g, n, current)
    ensures Covered(g, n, visited, rest)
  {
    forall v, w | v in visited && w in Neighbours(v) && Passable(g, n, w)
      ensures w in visited || w in rest
    {
      assert w in visited || w in [current] + rest;
    }
  }

  /** Expanding a popped cell and pushing its neighbours keeps every
      expanded cell covered. */
  lemma {:induction false} CoveredAfterExpand(g: seq<seq<char>>, n: int, visited: set<Position>, current: Position, rest: seq<Position>)
    requires IsGrid(g, n) && Covered(g, n, visited, [current] + rest)
    ensures var ns := Neighbours(current);
            Covered(g, n, visited + {current}, [ns[3], ns[2], ns[1], ns[0]] + rest)
  {
    var ns := Neighbours(current);
    var pushed := [ns[3], ns[2], ns[1], ns[0]] + rest;
    forall v, w | v in visited + {current} && w in Neighbours(v) && Passable(g, n, w)
      ensures w in visited + {current} || w in pushed
    {
      if v == current {
        assert w in pushed;
      } else {
        assert w in visited || w in [current] + rest;
        assert w in rest ==> w in pushed;
      }
    }
  }

  /** A set closed under passable neighbours that holds a walk's first
      cell holds its last one. */
  lemma {:induction false} WalkStaysInside(g: seq<seq<char>>, n: int, visited: set<Position>, path: seq<Position>)
    requires IsGrid(g, n) && IsWalk(g, n, path) && path[0] in visited
    requires Covered(g, n, visited, [])
    ensures path[|path| - 1] in visited
    decreases |path|
  {
    if |path| > 1 {
      var front := path[..|path| - 1];
      assert forall i | 0 <= i < |front| :: front[i] == path[i];
      assert IsWalk(g, n, front);
      WalkStaysInside(g, n, visited, front);
      assert path[|path| - 1] in Neighbours(path[|path| - 2]);
    }
  }

  /** The cells inside the wall, as a finite set (the termination measure
      of the search counts the ones not yet expanded). */
  function InteriorCells(n: int): (r: set<Position>)
    ensures forall p | p in r :: Interior(n, p)
  {
    set x, y | 1 <= x < n - 1 && 1 <= y < n - 1 :: Position(x, y)
  }

  lemma {:induction false} InInteriorCells(n: int, p: Position)
    requires Interior(n, p)
    ensures p in InteriorCells(n)
  {
    assert p == Position(p.x, p.y);
  }

  /** The marked cells: inside the wall, passable, reachable, and listed
      once each in `expanded`. */
  ghost predicate MarkedCells(g: seq<seq<char>>, n: int, visited: set<Position>, expanded: seq<Position>)
    requires IsGrid(g, n)
  {
    visited <= InteriorCells(n) &&
    (forall i | 0 <= i < |expanded| :: expanded[i] in visited) &&
    (forall i | 0 <= i < |expanded| :: Passable(g, n, expanded[i]) && Reachable(g, n, expanded[i])) &&
    (forall i, j | 0 <= i < j < |expanded| :: expanded[i] != expanded[j])
  }

  /** The list of positions still to try: its passable entries are
      reachable; until the finish is found, every passable neighbour of a
      marked cell is marked or on the list, and so is the start. */
  ghost predicate Frontier(g: seq<seq<char>>, n: int, finish: Position, visited: set<Position>,
                           stack: seq<Position>, found: bool)
    requires IsGrid(g, n)
  {
    (forall s | s in stack :: Passable(g, n, s) ==> Reachable(g, n, s)) &&
    (!found ==> finish !in visited && Covered(g, n, visited, stack)) &&
    (Passable(g, n, Start) ==> Start in visited || Start in stack)
  }

  /** What holds between iterations of the search. */
  ghost predicate SearchInvariant(g: seq<seq<char>>, n: int, finish: Position, visited: set<Position>,
                                  stack: seq<Position>, expanded: seq<Position>, found: bool)
    requires IsGrid(g, n)
  {
    MarkedCells(g, n, visited, expanded) &&
    Frontier(g, n, finish, visited, stack, found) &&
    (found ==> |expanded| > 0 && expanded[|expanded| - 1] == finish)
  }

  /** One iteration of the search loop: pop a position; skip it when it
      lies outside the interior, is already visited, or is '#' or 'M';
      otherwise mark it, stop if it is the finish, else push its four
      neighbours (the last created ends on top).  Each iteration marks a
      new interior cell or shortens the list. */
  method SearchStep(g: seq<seq<char>>, n: int, finish: Position, visited: set<Position>,
                    stack: seq<Position>, expanded: seq<Position>)
    returns (visited2: set<Position>, stack2: seq<Position>, expanded2: seq<Position>, found: bool)
    requires IsGrid(g, n) && stack != []
    requires SearchInvariant(g, n, finish, visited, stack, expanded, false)
    ensures SearchInvariant(g, n, finish, visited2, stack2, expanded2, found)
    ensures visited2 == visited ==> |stack2| < |stack|
    ensures visited2 != visited ==> |InteriorCells(n) - visited2| < |InteriorCells(n) - visited|
  {
    var current := stack[0];
    var rest := stack[1..];
    if Interior(n, current) && current !in visited && Passable(g, n, current) {
      InInteriorCells(n, current);
      assert InteriorCells(n) - (visited + {current}) < InteriorCells(n) - visited;
      visited2 := visited + {current};
      expanded2 := expanded + [current];
      if current == finish {
        found := true;
        stack2 := rest;
        MarkKeepsInvariant(g, n, finish, visited, stack, expanded, stack2, true);
      } else {
        found := false;
        var ns := Neighbours(current);
        stack2 := [ns[3], ns[2], ns[1], ns[0]] + rest;
        MarkKeepsInvariant(g, n, finish, visited, stack, expanded, stack2, false);
      }
    } else {
      SkipKeepsInvariant(g, n, finish, visited, stack, expanded);
      visited2, stack2, expanded2, found := visited, rest, expanded, false;
    }
  }

  /** Dropping the top of the list keeps the invariant when the position
      is impassable or already marked. */
  lemma {:induction false} SkipKeepsInvariant(g: seq<seq<char>>, n: int, finish: Position, visited: set<Position>,
                                              stack: seq<Position>, expanded: seq<Position>)
    requires IsGrid(g, n) && stack != []
    requires SearchInvariant(g, n, finish, visited, stack, expanded, false)
    requires !Passable(g, n, stack[0]) || stack[0] in visited
    ensures SearchInvariant(g, n, finish, visited, stack[1..], expanded, false)
  {
    CoveredAfterSkip(g, n, visited, stack[0], stack[1..]);
    assert stack == [stack[0]] + stack[1..];
  }

  /** Marking the passable, unmarked top of the list keeps the invariant,
      whether the search stops there (`stop`, at the finish) or pushes its
      neighbours. */
  lemma {:induction false} MarkKeepsInvariant(g: seq<seq<char>>, n: int, finish: Position, visited: set<Position>,
                                              stack: seq<Position>, expanded: seq<Position>,
                                              stack2: seq<Position>, stop: bool)
    requires IsGrid(g, n) && stack != []
    requires SearchInvariant(g, n, finish, visited, stack, expanded, false)
    requires Passable(g, n, stack[0]) && stack[0] !in visited
    requires stop <==> stack[0] == finish
    requires var ns := Neighbours(stack[0]);
             stack2 == if stop then stack[1..] else [ns[3], ns[2], ns[1], ns[0]] + stack[1..]
    ensures SearchInvariant(g, n, finish, visited + {stack[0]}, stack2, expanded + [stack[0]], stop)
  {
    MarkKeepsFrontier(g, n, finish, visited, stack, stack2, stop);
    MarkKeepsMarked(g, n, visited, expanded, stack[0]);
  }

  lemma {:induction false} MarkKeepsMarked(g: seq<seq<char>>, n: int, visited: set<Position>,
                                           expanded: seq<Position>, current: Position)
    requires IsGrid(g, n) && MarkedCells(g, n, visited, expanded)
    requires Passable(g, n, current) && Reachable(g, n, current) && current !in visited
    ensures MarkedCells(g, n, visited + {current}, expanded + [current])
  {
    var e2 := expanded + [current];
    InInteriorCells(n, current);
    assert forall i | 0 <= i < |expanded| :: e2[i] == expanded[i];
  }

  lemma {:induction false} MarkKeepsFrontier(g: seq<seq<char>>, n: int, finish: Position, visited: set<Position>,
                                             stack: seq<Position>, stack2: seq<Position>, stop: bool)
    requires IsGrid(g, n) && stack != []
    requires Frontier(g, n, finish, visited, stack, false)
    requires Passable(g, n, stack[0])
    requires stop <==> stack[0] == finish
    requires var ns := Neighbours(stack[0]);
             stack2 == if stop then stack[1..] else [ns[3], ns[2], ns[1], ns[0]] + stack[1..]
    ensures Reachable(g, n, stack[0])
    ensures Frontier(g, n, finish, visited + {stack[0]}, stack2, stop)
  {
    var current := stack[0];
    var rest := stack[1..];
    assert stack == [current] + rest;
    assert current in stack;
    var ns := Neighbours(current);
    forall w | w in ns && Passable(g, n, w)
      ensures Reachable(g, n, w)
    {
      ReachStep(g, n, current, w);
    }
    if !stop {
      CoveredAfterExpand(g, n, visited, current, rest);
    }
  }

  /** `hasValidPath`: depth-first search from (1, 1) with a visited mark
      per cell, stopping at the finish.  `expanded` lists the cells marked,
      in order: none twice, none impassable. */
  method HasValidPath(g: seq<seq<char>>, n: int, finish: Position) returns (found: bool, expanded: seq<Position>)
    requires IsGrid(g, n)
    ensures found <==> Reachable(g, n, finish)
    ensures forall i | 0 <= i < |expanded| :: Passable(g, n, expanded[i]) && Reachable(g, n, expanded[i])
    ensures forall i, j | 0 <= i < j < |expanded| :: expanded[i] != expanded[j]
    ensures found ==> |expanded| > 0 && expanded[|expanded| - 1] == finish
  {
    var visited: set<Position> := {};
    var stack: seq<Position> := [Start];
    expanded := [];
    found := false;
    while stack != [] && !found
      invariant SearchInvariant(g, n, finish, visited, stack, expanded, found)
      decreases |InteriorCells(n) - visited|, |stack|
    {
      visited, stack, expanded, found := SearchStep(g, n, finish, visited, stack, expanded);
    }
    if !found && Reachable(g, n, finish) {
      var path :| IsWalk(g, n, path) && path[0] == Start && path[|path| - 1] == finish;
      WalkStaysInside(g, n, visited, path);
      assert false;
    }
  }

  /** The fixed part of `generateMap`: fill with '.', mark the start 'P',
      then wall every border cell with '#'. */
  method GenerateLayout(n: int) returns (grid: seq<seq<char>>)
    requires n >= 2
    ensures IsGrid(grid, n)
    ensures forall x, y | 0 <= x < n && 0 <= y < n ::
              (grid[x][y] == '#' <==> !Interior(n, Position(x, y)))
    ensures n >= 3 ==> grid[1][1] == 'P'
    ensures forall x, y | 0 <= x < n && 0 <= y < n && Interior(n, Position(x, y)) && (x, y) != (1, 1) ::
              grid[x][y] == '.'
  {
    grid := seq(n, _ => seq(n, _ => '.'));
    grid := grid[1 := grid[1][1 := 'P']];
    var i := 0;
    while i < n
      invariant 0 <= i <= n
      invariant IsGrid(grid, n)
      invariant forall x, y | 0 <= x < n && 0 <= y < n ::
                  grid[x][y] == if (y == 0 && x < i) || (x == 0 && y < i) || (x == n - 1 && y < i) || (y == n - 1 && x < i) then '#'
                                else if x == 1 && y == 1 then 'P'
                                else '.'
    {
      grid := grid[i := grid[i][0 := '#']];
      grid := grid[0 := grid[0][i := '#']];
      grid := grid[n - 1 := grid[n - 1][i := '#']];
      grid := grid[i := grid[i][n - 1 := '#']];
      i := i + 1;
    }
  }

  /** On the fixed layout the passable cells are exactly the interior, so
      the start is passable and every interior finish is reachable. */
  lemma {:induction false} LayoutPassable(g: seq<seq<char>>, n: int, p: Position)
    requires IsGrid(g, n)
    requires forall x, y | 0 <= x < n && 0 <= y < n :: (g[x][y] == '#' <==> !Interior(n, Position(x, y)))
    requires forall x, y | 0 <= x < n && 0 <= y < n && Interior(n, Position(x, y)) :: g[x][y] != 'M'
    ensures Passable(g, n, p) <==> Interior(n, p)
  {
    if Interior(n, p) {
      assert g[p.x][p.y] != '#';
    }
  }

}
