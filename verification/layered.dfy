/** The layered strategy's planning helpers (`LayeredStrategy`): the A*
    cost estimate, the `goto` search with its `cameFrom` path
    reconstruction, the split of a move into L-move legs, and the test that
    a leg's cells are empty. */
module Layered {
  import opened Geometry
  import opened Ordered
  import opened Wrappers
  import opened Commands

  /** `(n + 14) / 15`: the number of long-linear moves that cover a
      distance of `n` along one axis, i.e. the ceiling of n / 15. */
  function AxisCost(n: nat): (k: nat)
    ensures 15 * k >= n
    ensures k > 0 ==> 15 * (k - 1) < n
  {
    (n + 14) / 15
  }

  /** The A* estimate: per axis, how many long-linear moves the distance needs. */
  function EstimateCost(a: Coord, b: Coord): (k: nat)
    ensures k == 0 <==> a == b
    ensures Clen(Diff(a, b)) <= 15 * k
    ensures k <= Mlen(Diff(a, b))
  {
    CostBounds(Diff(a, b));
    AxisCost(Abs(a.x - b.x)) + AxisCost(Abs(a.y - b.y)) + AxisCost(Abs(a.z - b.z))
  }

  lemma CostBounds(d: Delta)
    ensures var k := AxisCost(Abs(d.dx)) + AxisCost(Abs(d.dy)) + AxisCost(Abs(d.dz));
      && (k == 0 <==> d == Zero) && Clen(d) <= 15 * k && k <= Mlen(d)
  {
  }

  lemma EstimateCostSymmetric(a: Coord, b: Coord)
    ensures EstimateCost(a, b) == EstimateCost(b, a)
  {
    assert Abs(a.x - b.x) == Abs(b.x - a.x);
    assert Abs(a.y - b.y) == Abs(b.y - a.y);
    assert Abs(a.z - b.z) == Abs(b.z - a.z);
  }


  /* ---------------------------------------------------------------- goto */

  /** `reachableFrom`: the coordinates one move away (the matrix's s- and
      l-neighbourhoods, which are not part of this model). */
  type Reach = Coord -> seq<Coord>

  /** Every `cameFrom` link points to a coordinate discovered earlier. */
  predicate Ranked(cameFrom: map<Coord, Coord>, rank: map<Coord, nat>) {
    forall k :: k in cameFrom ==> k in rank && cameFrom[k] in rank && rank[cameFrom[k]] < rank[k]
  }

  /** The coordinates met by following the `cameFrom` links back from `c`,
      listed from the root of the links down to `c`. */
  function Chain(cameFrom: map<Coord, Coord>, rank: map<Coord, nat>, c: Coord): (ch: seq<Coord>)
    requires Ranked(cameFrom, rank) && c in rank
    ensures |ch| >= 1 && ch[|ch| - 1] == c
    ensures ch[0] !in cameFrom
    ensures forall i :: 0 <= i < |ch| ==> ch[i] in rank
    ensures forall i :: 0 < i < |ch| ==> ch[i] in cameFrom && cameFrom[ch[i]] == ch[i - 1]
    decreases rank[c]
  {
    if c in cameFrom then Chain(cameFrom, rank, cameFrom[c]) + [c] else [c]
  }

  /** The path reconstruction of `goto`: walk the links back from `last`,
      reverse, and drop the root. */
  method Reconstruct(cameFrom: map<Coord, Coord>, ghost rank: map<Coord, nat>, last: Coord)
    returns (path: seq<Coord>)
    requires Ranked(cameFrom, rank) && last in rank
    ensures path == Chain(cameFrom, rank, last)[1..]
  {
    var trail := [last];
    var prev := last;
    while prev in cameFrom
      invariant prev in rank
      invariant |trail| >= 1 && trail[|trail| - 1] == prev
      invariant Chain(cameFrom, rank, last) == Chain(cameFrom, rank, prev) + Rev(trail)[1..]
      decreases rank[prev]
    {
      var next := cameFrom[prev];
      RevSnoc(trail, next);
      assert Chain(cameFrom, rank, prev) == Chain(cameFrom, rank, next) + [prev];
      assert Rev(trail) == [prev] + Rev(trail)[1..];
      prev := next;
      trail := trail + [prev];
    }
    assert Rev(trail) == [prev] + Rev(trail)[1..];
    path := Rev(trail)[1..];
  }

  /** `path` lists the coordinates after `start`, each one move from the
      one before, ending at `target`; it is empty when already there. */
  predicate Walk(reach: Reach, start: Coord, path: seq<Coord>, target: Coord) {
    if path == [] then start == target
    else
      path[0] in reach(start) && path[|path| - 1] == target
      && forall i :: 0 < i < |path| ==> path[i] in reach(path[i - 1])
  }

  /** A chain rooted at `start` whose links are moves is a walk. */
  lemma ChainWalk(reach: Reach, cameFrom: map<Coord, Coord>, rank: map<Coord, nat>, start: Coord, target: Coord)
    requires Ranked(cameFrom, rank) && target in rank
    requires forall c :: c in rank && c !in cameFrom ==> c == start
    requires forall k :: k in cameFrom ==> k in reach(cameFrom[k])
    ensures Walk(reach, start, Chain(cameFrom, rank, target)[1..], target)
  {
    var ch := Chain(cameFrom, rank, target);
    assert ch[0] == start;
    var path := ch[1..];
    if path != [] {
      assert path[0] == ch[1] && cameFrom[ch[1]] == start;
      forall i | 0 < i < |path|
        ensures path[i] in reach(path[i - 1])
      {
        assert path[i] == ch[i + 1] && cameFrom[ch[i + 1]] == ch[i];
      }
    }
  }

  /** Index of the first open coordinate with the least f-score. */
  function FirstMin(open: seq<Coord>, f: map<Coord, int>): (i: nat)
    requires |open| > 0 && forall c :: c in open ==> c in f
    ensures i < |open|
    ensures forall j :: 0 <= j < |open| ==> f[open[i]] <= f[open[j]]
    ensures forall j :: 0 <= j < i ==> f[open[i]] < f[open[j]]
  {
    if |open| == 1 then 0
    else
      var k := FirstMin(open[1..], f) + 1;
      if f[open[0]] <= f[open[k]] then 0 else k
  }

  predicate Distinct(q: seq<Coord>) {
    forall i, j :: 0 <= i < j < |q| ==> q[i] != q[j]
  }

  /** The A* bookkeeping: the open list, the closed set, the links and the
      scores. */
  datatype Search = Search(
    open: seq<Coord>,
    closed: set<Coord>,
    cameFrom: map<Coord, Coord>,
    gScore: map<Coord, int>,
    fScore: map<Coord, int>)

  /** What `goto` keeps true between expansions: open and closed are
      disjoint, inside the cube, and are exactly the discovered coordinates;
      every discovered coordinate but `start` is linked to an earlier one it
      is reachable from. */
  ghost predicate Searching(s: Search, rank: map<Coord, nat>, count: nat, reach: Reach, R: int, start: Coord) {
    Bookkept(s, R) && Discovered(s, rank, count) && Linked(s, rank, reach, start)
  }

  /** Open and closed are disjoint and inside the cube; the open list has no
      repeats and every open coordinate has an f-score. */
  ghost predicate Bookkept(s: Search, R: int) {
    Distinct(s.open)
    && (forall c :: c in s.open ==> InBounds(c, R) && c !in s.closed && c in s.fScore)
    && (forall c :: c in s.closed ==> InBounds(c, R))
  }

  /** `rank` numbers the discovered (open or closed) coordinates in
      discovery order, and each has a g-score. */
  ghost predicate Discovered(s: Search, rank: map<Coord, nat>, count: nat) {
    (forall c :: c in rank <==> c in s.open || c in s.closed)
    && (forall c :: c in rank ==> c in s.gScore && rank[c] < count)
  }

  /** Every discovered coordinate but `start` is linked to one discovered
      earlier, from which it is reachable. */
  ghost predicate Linked(s: Search, rank: map<Coord, nat>, reach: Reach, start: Coord) {
    Ranked(s.cameFrom, rank)
    && start in rank && start !in s.cameFrom
    && (forall c :: c in rank && c !in s.cameFrom ==> c == start)
    && (forall k :: k in s.cameFrom ==> k in reach(s.cameFrom[k]))
  }

  datatype GotoError = NoPath

  /** `goto`: A* from `start` to `target` over `reach`, every edge costing 1. */
  method Goto(reach: Reach, R: int, start: Coord, target: Coord) returns (r: Result<seq<Coord>, GotoError>)
    requires InBounds(start, R)
    requires forall p, n | n in reach(p) :: InBounds(n, R)
    ensures r.Ok? ==> Walk(reach, start, r.value, target)
    ensures start == target ==> r == Ok([])
  {
    var s := Begin(start, target, reach, R);
    ghost var rank: map<Coord, nat> := map[start := 0];
    ghost var count: nat := 1;
    ghost var cube := AllCoords(R);
    while s.open != []
      invariant Searching(s, rank, count, reach, R, start)
      invariant start == target ==> |s.open| == 1 && s.open[0] == start
      decreases |cube - s.closed|
    {
      var i := FirstMin(s.open, s.fScore);
      var current := s.open[i];
      if current == target {
        var path := Finish(s, rank, count, reach, R, start, target);
        return Ok(path);
      }
      assert start != target;
      ghost var before := s.closed;
      s, rank, count := Expand(s, i, target, reach, R, start, rank, count);
      CubeShrinks(cube, before, current, R);
    }
    return Err(NoPath);
  }

  /** The search before the first expansion: only `start` is open, with
      g-score 0 and f-score the estimate to the target. */
  function Begin(start: Coord, target: Coord, reach: Reach, R: int): (s: Search)
    requires InBounds(start, R)
    ensures Searching(s, map[start := 0], 1, reach, R, start)
    ensures |s.open| == 1 && s.open[0] == start
  {
    Search([start], {}, map[], map[start := 0], map[start := EstimateCost(start, target)])
  }

  /** The path to a target taken off the open list. */
  method Finish(s: Search, ghost rank: map<Coord, nat>, ghost count: nat, reach: Reach, R: int,
                ghost start: Coord, target: Coord) returns (path: seq<Coord>)
    requires Searching(s, rank, count, reach, R, start) && target in s.open
    ensures Walk(reach, start, path, target)
    ensures target == start ==> path == []
  {
    path := Reconstruct(s.cameFrom, rank, target);
    ChainWalk(reach, s.cameFrom, rank, start, target);
  }

  /** One A* expansion: close `open[i]` and open its undiscovered
      neighbours, linked back to it. A coordinate already open is never
      re-linked: the source compares the tentative score with the expanded
      coordinate's own score, which it always exceeds. */
  method Expand(s0: Search, i: nat, target: Coord, reach: Reach, R: int, ghost start: Coord,
                ghost rank0: map<Coord, nat>, ghost count0: nat)
    returns (s: Search, ghost rank: map<Coord, nat>, ghost count: nat)
    requires forall p, n | n in reach(p) :: InBounds(n, R)
    requires Searching(s0, rank0, count0, reach, R, start) && i < |s0.open|
    ensures Searching(s, rank, count, reach, R, start)
    ensures s.closed == s0.closed + {s0.open[i]}
    ensures InBounds(s0.open[i], R) && s0.open[i] !in s0.closed
  {
    var current := s0.open[i];
    s := Close(s0, i, reach, R, start, rank0, count0);
    rank, count := rank0, count0;
    var ns := reach(current);
    var j := 0;
    while j < |ns|
      invariant j <= |ns|
      invariant Searching(s, rank, count, reach, R, start)
      invariant s.closed == s0.closed + {current}
    {
      var coord := ns[j];
      j := j + 1;
      if coord in s.closed {
        continue;
      }
      if coord in s.open {
        // the source's rescoring test, `gScore[current] + 1 >= gScore[current]`,
        // always holds, so an open coordinate is never re-linked
        continue;
      }
      s := Discover(s, coord, current, target, reach, R, start, rank, count);
      rank := rank[coord := count];
      count := count + 1;
    }
  }

  /** Moving `open[i]` to the closed set keeps the bookkeeping. */
  function Close(s: Search, i: nat, reach: Reach, R: int, ghost start: Coord,
                 ghost rank: map<Coord, nat>, ghost count: nat): (r: Search)
    requires Searching(s, rank, count, reach, R, start) && i < |s.open|
    ensures Searching(r, rank, count, reach, R, start)
    ensures r.closed == s.closed + {s.open[i]}
    ensures r.cameFrom == s.cameFrom && r.gScore == s.gScore && r.fScore == s.fScore
  {
    var r := s.(open := s.open[..i] + s.open[i + 1..], closed := s.closed + {s.open[i]});
    CloseMoves(s.open, r.open, i);
    r
  }

  /** Removing the i-th entry of a list without repeats removes exactly
      that coordinate. */
  lemma CloseMoves(open: seq<Coord>, open': seq<Coord>, i: nat)
    requires Distinct(open) && i < |open| && open' == open[..i] + open[i + 1..]
    ensures Distinct(open')
    ensures forall c :: c in open' <==> c in open && c != open[i]
  {
    assert forall k :: 0 <= k < |open'| ==> open'[k] == if k < i then open[k] else open[k + 1];
  }

  /** Opening an undiscovered coordinate reached from a closed one, linked
      back to it with a g-score one more than its own, keeps the bookkeeping. */
  function Discover(s: Search, coord: Coord, current: Coord, target: Coord, reach: Reach, R: int,
                    ghost start: Coord, ghost rank: map<Coord, nat>, ghost count: nat): (r: Search)
    requires forall p, n | n in reach(p) :: InBounds(n, R)
    requires Searching(s, rank, count, reach, R, start)
    requires coord !in s.open && coord !in s.closed && current in s.closed && coord in reach(current)
    ensures Searching(r, rank[coord := count], count + 1, reach, R, start)
    ensures r.closed == s.closed
  {
    var g := s.gScore[current] + 1;
    var r := Search(s.open + [coord], s.closed, s.cameFrom[coord := current],
                    s.gScore[coord := g], s.fScore[coord := g + EstimateCost(coord, target)]);
    DiscoverBookkept(s, r, coord, R);
    DiscoverRanks(s, r, coord, rank, count);
    DiscoverLinks(s, r, coord, current, rank, count, reach, start);
    r
  }

  lemma DiscoverBookkept(s: Search, r: Search, coord: Coord, R: int)
    requires Bookkept(s, R) && InBounds(coord, R) && coord !in s.open && coord !in s.closed
    requires r.open == s.open + [coord] && r.closed == s.closed
    requires s.fScore.Keys + {coord} <= r.fScore.Keys
    ensures Bookkept(r, R)
  {
    assert forall c :: c in r.open <==> c in s.open || c == coord;
  }

  lemma DiscoverRanks(s: Search, r: Search, coord: Coord, rank: map<Coord, nat>, count: nat)
    requires Discovered(s, rank, count)
    requires r.open == s.open + [coord] && r.closed == s.closed
    requires s.gScore.Keys + {coord} <= r.gScore.Keys
    ensures Discovered(r, rank[coord := count], count + 1)
  {
    assert forall c :: c in r.open <==> c in s.open || c == coord;
  }

  lemma DiscoverLinks(s: Search, r: Search, coord: Coord, current: Coord, rank: map<Coord, nat>, count: nat,
                      reach: Reach, start: Coord)
    requires Linked(s, rank, reach, start) && Discovered(s, rank, count)
    requires coord !in s.open && coord !in s.closed && current in s.closed && coord in reach(current)
    requires r.cameFrom == s.cameFrom[coord := current]
    ensures Linked(r, rank[coord := count], reach, start)
  {
    assert coord !in rank;
  }

  /* ---------------------------------------------------------------- move */

  /** The unit step along the first nonzero axis of `d` (towards -z for the
      zero delta, as the source's sign test does). */
  function Unit(d: Delta): Delta {
    if d.dx != 0 then Delta(if d.dx > 0 then 1 else -1, 0, 0)
    else if d.dy != 0 then Delta(0, if d.dy > 0 then 1 else -1, 0)
    else Delta(0, 0, if d.dz > 0 then 1 else -1)
  }

  /** How many unit steps the first nonzero axis of `d` spans. */
  function Steps(d: Delta): (n: nat)
    ensures NonzeroAxes(d) <= 1 ==> Scale(n, Unit(d)) == d
    ensures n == 0 <==> d == Zero
  {
    if d.dx != 0 then Abs(d.dx) else if d.dy != 0 then Abs(d.dy) else Abs(d.dz)
  }

  /** The cells `base + k * u` for `k` in 1..n are all empty. */
  function ClearUpTo(full: Coord -> bool, base: Coord, u: Delta, n: nat): (ok: bool)
    ensures ok <==> forall k :: 1 <= k <= n ==> !full(Shift(base, Scale(k, u)))
  {
    n == 0 || (ClearUpTo(full, base, u, n - 1) && !full(Shift(base, Scale(n, u))))
  }

  /** `testDeltaReachability`: the cells one to |d| unit steps from `base`
      along the first nonzero axis of `d` are empty. */
  function TestDeltaReachability(full: Coord -> bool, base: Coord, d: Delta): (ok: bool)
    ensures ok <==> forall k :: 1 <= k <= Steps(d) ==> !full(Shift(base, Scale(k, Unit(d))))
  {
    ClearUpTo(full, base, Unit(d), Steps(d))
  }

  /** `e` lies between 0 and `d` inclusive. */
  predicate Within(e: int, d: int) {
    if d >= 0 then 0 <= e <= d else d <= e <= 0
  }

  /** `c` lies in the box spanned by `base` and `base + d`, `base` excluded. */
  predicate InBox(base: Coord, d: Delta, c: Coord) {
    var e := Diff(c, base);
    e != Zero && Within(e.dx, d.dx) && Within(e.dy, d.dy) && Within(e.dz, d.dz)
  }

  /** Every cell a straight leg `d` passes through after `base` is empty. */
  ghost predicate Clear(full: Coord -> bool, base: Coord, d: Delta) {
    forall c :: InBox(base, d, c) ==> !full(c)
  }

  /** For a leg along at most one axis the reachability test checks exactly
      the cells the leg passes through. */
  lemma ReachabilityIsClear(full: Coord -> bool, base: Coord, d: Delta)
    requires NonzeroAxes(d) <= 1
    ensures TestDeltaReachability(full, base, d) <==> Clear(full, base, d)
  {
    TestedCellsAreInBox(base, d);
    if TestDeltaReachability(full, base, d) {
      forall c | InBox(base, d, c)
        ensures !full(c)
      {
        BoxCellIsTested(base, d, c);
      }
    }
  }

  lemma TestedCellsAreInBox(base: Coord, d: Delta)
    requires NonzeroAxes(d) <= 1
    ensures forall k :: 1 <= k <= Steps(d) ==> InBox(base, d, Shift(base, Scale(k, Unit(d))))
  {
    forall k | 1 <= k <= Steps(d)
      ensures InBox(base, d, Shift(base, Scale(k, Unit(d))))
    {
      if d.dx > 0 {
        assert Scale(k, Unit(d)) == Delta(k, 0, 0);
      } else if d.dx < 0 {
        assert Scale(k, Unit(d)) == Delta(-k, 0, 0);
      } else if d.dy > 0 {
        assert Scale(k, Unit(d)) == Delta(0, k, 0);
      } else if d.dy < 0 {
        assert Scale(k, Unit(d)) == Delta(0, -k, 0);
      } else if d.dz > 0 {
        assert Scale(k, Unit(d)) == Delta(0, 0, k);
      } else {
        assert Scale(k, Unit(d)) == Delta(0, 0, -k);
      }
    }
  }

  lemma BoxCellIsTested(base: Coord, d: Delta, c: Coord)
    requires NonzeroAxes(d) <= 1 && InBox(base, d, c)
    ensures exists k :: 1 <= k <= Steps(d) && c == Shift(base, Scale(k, Unit(d)))
  {
    var e := Diff(c, base);
    if d.dx > 0 {
      assert c == Shift(base, Scale(e.dx, Unit(d)));
    } else if d.dx < 0 {
      assert c == Shift(base, Scale(-e.dx, Unit(d)));
    } else if d.dy > 0 {
      assert c == Shift(base, Scale(e.dy, Unit(d)));
    } else if d.dy < 0 {
      assert c == Shift(base, Scale(-e.dy, Unit(d)));
    } else if d.dz > 0 {
      assert c == Shift(base, Scale(e.dz, Unit(d)));
    } else {
      assert c == Shift(base, Scale(-e.dz, Unit(d)));
    }
  }

  /** The two single-axis legs of `move`'s L-move, in their first-choice order. */
  function Legs(d: Delta): (legs: (Delta, Delta))
    ensures NonzeroAxes(legs.0) <= 1 && NonzeroAxes(legs.1) <= 1
    ensures NonzeroAxes(d) <= 2 ==> Plus(legs.0, legs.1) == d
    ensures NonzeroAxes(d) == 3 ==> Plus(legs.0, legs.1) == Delta(d.dx, d.dy, 0)
  {
    if d.dx == 0 then (Delta(0, d.dy, 0), Delta(0, 0, d.dz))
    else if d.dy == 0 then (Delta(d.dx, 0, 0), Delta(0, 0, d.dz))
    else (Delta(d.dx, 0, 0), Delta(0, d.dy, 0))
  }

  /** How far a move command carries its bot. */
  function Displacement(c: Command): Delta {
    match c
    case SMove(d) => d
    case LMove(a, b) => Plus(a, b)
    case _ => Zero
  }

  datatype MoveError = InvalidMove

  /** `move`: one s-move when the delta is long-linear; otherwise an L-move
      along the two legs, first leg first if both legs are clear in that
      order, else the other order, else an error. */
  function Move(full: Coord -> bool, pos: Coord, target: Coord): (r: Result<Command, MoveError>)
    ensures var d := Diff(target, pos);
      LongLinear(d) ==> r == Ok(SMove(d))
    ensures var d := Diff(target, pos); var (a, b) := Legs(d);
      !LongLinear(d) ==>
        r == if Clear(full, pos, a) && Clear(full, Shift(pos, a), b) then Ok(LMove(a, b))
             else if Clear(full, pos, b) && Clear(full, Shift(pos, b), a) then Ok(LMove(b, a))
             else Err(InvalidMove)
    ensures r.Ok? && NonzeroAxes(Diff(target, pos)) <= 2 ==> Shift(pos, Displacement(r.value)) == target
  {
    var d := Diff(target, pos);
    if LongLinear(d) then Ok(SMove(d))
    else
      var (a, b) := Legs(d);
      ReachabilityIsClear(full, pos, a);
      ReachabilityIsClear(full, pos, b);
      ReachabilityIsClear(full, Shift(pos, b), a);
      ReachabilityIsClear(full, Shift(pos, a), b);
      var okAFirst := TestDeltaReachability(full, pos, a);
      var okBFirst := TestDeltaReachability(full, pos, b);
      var okASecond := TestDeltaReachability(full, Shift(pos, b), a);
      var okBSecond := TestDeltaReachability(full, Shift(pos, a), b);
      if okAFirst && okBSecond then Ok(LMove(a, b))
      else if okBFirst && okASecond then Ok(LMove(b, a))
      else Err(InvalidMove)
  }
}
