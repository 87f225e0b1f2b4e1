/** The baseline relocation search (`multiSLMove`): a greedy best-first
    search over the cells a bot can reach with one S or L move, ordered by
    Chebyshev distance to the target, that records for each cell the best
    distance with which it was queued. The commands found are kept as a
    linked list built by prepending and reversed before replay. */
module Baseline {
  import opened Geometry
  import opened Ordered
  import opened Wrappers
  import opened Commands

  // ---------------------------------------------------------------------
  // LList

  datatype LList<T> = Nil | Cons(value: T, next: LList<T>)

  /** The elements from the head on. */
  function Elements<T>(l: LList<T>): (s: seq<T>)
    ensures l.Nil? <==> s == []
  {
    match l
    case Nil => []
    case Cons(v, rest) => [v] + Elements(rest)
  }

  /** Lists with the same elements are the same list. */
  lemma {:induction false} ElementsInjective<T>(a: LList<T>, b: LList<T>)
    requires Elements(a) == Elements(b)
    ensures a == b
  {
    if a.Cons? {
      assert Elements(a.next) == Elements(a)[1..] == Elements(b)[1..] == Elements(b.next);
      ElementsInjective(a.next, b.next);
    }
  }

  /** `LList.reversed`: `Nil` reverses to itself; a `Cons` list is walked
      once, prepending each value to an accumulator. */
  method Reversed<T>(l: LList<T>) returns (r: LList<T>)
    ensures Elements(r) == Rev(Elements(l))
  {
    if l.Nil? {
      return l;
    }
    var ptr := l;
    var acc: LList<T> := Nil;
    while !ptr.Nil?
      invariant Rev(Elements(l)) == Rev(Elements(ptr)) + Elements(acc)
      decreases ptr
    {
      RevAppendOne(Elements(ptr.next), ptr.value);
      assert Elements(ptr) == [ptr.value] + Elements(ptr.next);
      acc := Cons(ptr.value, acc);
      ptr := ptr.next;
    }
    return acc;
  }

  /** Whatever list `Reversed` returns, reversing it again gives back the
      original list, and the length never changes. */
  lemma ReversedTwice<T>(l: LList<T>, r: LList<T>, rr: LList<T>)
    requires Elements(r) == Rev(Elements(l)) && Elements(rr) == Rev(Elements(r))
    ensures rr == l && |Elements(r)| == |Elements(l)|
  {
    RevRev(Elements(l));
    ElementsInjective(rr, l);
  }

  // ---------------------------------------------------------------------
  // The search

  /** `heuristic`: Chebyshev distance from the bot to the target. */
  function Heuristic(pos: Coord, target: Coord): (h: nat)
    ensures h == 0 <==> pos == target
  {
    Clen(Diff(pos, target))
  }

  /** Two cells of the R-cube are less than R apart on every axis. */
  lemma HeuristicBelowR(p: Coord, t: Coord, R: int)
    requires InBounds(p, R) && InBounds(t, R)
    ensures Heuristic(p, t) < R
  {
  }

  /** The commands a bot can issue from a cell, each with the cell it leads
      to (`sNeighborhood` followed by `lNeighborhood`; both are parameters
      here). */
  type Neighbourhood = Coord -> seq<(Command, Coord)>

  /** `cmds`, issued in order from p, step from neighbour to neighbour and
      end at t. */
  ghost predicate Leads(nbrs: Neighbourhood, p: Coord, cmds: seq<Command>, t: Coord)
    decreases |cmds|
  {
    if cmds == [] then p == t
    else exists i :: 0 <= i < |nbrs(p)| && nbrs(p)[i].0 == cmds[0] && Leads(nbrs, nbrs(p)[i].1, cmds[1..], t)
  }

  /** A walk extended by one more neighbour step. */
  lemma {:induction false} LeadsSnoc(nbrs: Neighbourhood, p: Coord, cmds: seq<Command>, q: Coord, i: int)
    requires Leads(nbrs, p, cmds, q) && 0 <= i < |nbrs(q)|
    ensures Leads(nbrs, p, cmds + [nbrs(q)[i].0], nbrs(q)[i].1)
    decreases |cmds|
  {
    var step := nbrs(q)[i];
    if cmds == [] {
      assert [step.0][1..] == [];
      assert Leads(nbrs, step.1, [], step.1);
      assert nbrs(p)[i].0 == ([] + [step.0])[0];
    } else {
      var k :| 0 <= k < |nbrs(p)| && nbrs(p)[k].0 == cmds[0] && Leads(nbrs, nbrs(p)[k].1, cmds[1..], q);
      LeadsSnoc(nbrs, nbrs(p)[k].1, cmds[1..], q, i);
      assert (cmds + [step.0])[1..] == cmds[1..] + [step.0];
      assert (cmds + [step.0])[0] == cmds[0];
    }
  }

  /** A queue entry: the bot's cell and the commands that led there, the
      latest first. */
  datatype Entry = Entry(pos: Coord, path: LList<Command>)

  /** The entry polled from the priority queue: the first one of least
      heuristic. */
  function MinIndex(q: seq<Entry>, target: Coord): (i: nat)
    requires |q| > 0
    ensures i < |q|
    ensures forall j :: 0 <= j < |q| ==> Heuristic(q[i].pos, target) <= Heuristic(q[j].pos, target)
    ensures forall j :: 0 <= j < i ==> Heuristic(q[i].pos, target) < Heuristic(q[j].pos, target)
  {
    if |q| == 1 then 0
    else
      var k := MinIndex(q[1..], target) + 1;
      if Heuristic(q[k].pos, target) < Heuristic(q[0].pos, target) then k else 0
  }

  datatype SearchError = TargetOutOfBounds | NotFound

  /** Every cell of the R-cube, x-major. */
  function Cells(R: nat): (cs: seq<Coord>)
    ensures forall c | InBounds(c, R) :: c in cs
  {
    Block(R, R, R)
  }

  function Column(x: int, y: int, n: nat): (cs: seq<Coord>)
    ensures forall z | 0 <= z < n :: Coord(x, y, z) in cs
  {
    var cs := seq(n, z => Coord(x, y, z));
    assert forall z | 0 <= z < n :: cs[z] == Coord(x, y, z);
    cs
  }

  function Slab(x: int, m: nat, n: nat): (cs: seq<Coord>)
    ensures forall y, z | 0 <= y < m && 0 <= z < n :: Coord(x, y, z) in cs
  {
    if m == 0 then [] else Slab(x, m - 1, n) + Column(x, m - 1, n)
  }

  function Block(l: nat, m: nat, n: nat): (cs: seq<Coord>)
    ensures forall x, y, z | 0 <= x < l && 0 <= y < m && 0 <= z < n :: Coord(x, y, z) in cs
  {
    if l == 0 then [] else Block(l - 1, m, n) + Slab(l - 1, m, n)
  }

  /** The recorded heuristic of a cell; a cell never queued ranks R, above
      every heuristic inside the cube. */
  function Rank(best: map<Coord, nat>, c: Coord, R: nat): nat {
    if c in best then best[c] else R
  }

  /** The termination measure: the recorded heuristics summed over the cube. */
  function RankSum(cells: seq<Coord>, best: map<Coord, nat>, R: nat): nat {
    if |cells| == 0 then 0 else Rank(best, cells[0], R) + RankSum(cells[1..], best, R)
  }

  /** Recording a better heuristic for a cell of the cube lowers the sum. */
  lemma {:induction false} RankSumDecreases(cells: seq<Coord>, best: map<Coord, nat>, R: nat, n: Coord, h: nat)
    requires h < Rank(best, n, R)
    ensures RankSum(cells, best[n := h], R) <= RankSum(cells, best, R)
    ensures n in cells ==> RankSum(cells, best[n := h], R) < RankSum(cells, best, R)
  {
    if |cells| > 0 {
      RankSumDecreases(cells[1..], best, R, n, h);
      if cells[0] != n {
        assert n in cells ==> n in cells[1..];
      }
    }
  }

  /** Every queued entry lies in the cube and its commands, oldest first,
      lead there from the start. */
  ghost predicate QueueLeads(queue: seq<Entry>, nbrs: Neighbourhood, start: Coord, R: nat) {
    forall k :: 0 <= k < |queue| ==>
      InBounds(queue[k].pos, R) && Leads(nbrs, start, Rev(Elements(queue[k].path)), queue[k].pos)
  }

  /** The record holds, for each cell queued so far, its heuristic, which
      is below R inside the cube. */
  predicate Recorded(best: map<Coord, nat>, target: Coord, R: nat) {
    forall c | c in best :: best[c] == Heuristic(c, target) < R
  }

  /** Appending an entry that leads to its cell keeps the queue valid. */
  lemma QueueLeadsSnoc(queue: seq<Entry>, x: Entry, nbrs: Neighbourhood, start: Coord, R: nat)
    requires QueueLeads(queue, nbrs, start, R)
    requires InBounds(x.pos, R) && Leads(nbrs, start, Rev(Elements(x.path)), x.pos)
    ensures QueueLeads(queue + [x], nbrs, start, R)
  {
    var q := queue + [x];
    assert forall k :: 0 <= k < |queue| ==> q[k] == queue[k];
  }

  /** `multiSLMove`: the search, then the commands in the order they are
      replayed. A polled entry at the target ends the search; an empty
      queue is an error. */
  method MultiSLMove(start: Coord, target: Coord, R: nat, nbrs: Neighbourhood)
    returns (r: Result<seq<Command>, SearchError>)
    requires InBounds(start, R)
    requires forall p, i | 0 <= i < |nbrs(p)| :: InBounds(nbrs(p)[i].1, R)
    ensures !InBounds(target, R) <==> r == Err(TargetOutOfBounds)
    ensures r.Ok? ==> Leads(nbrs, start, r.value, target)
    ensures InBounds(target, R) && start == target ==> r == Ok([])
  {
    if !InBounds(target, R) {
      return Err(TargetOutOfBounds);
    }
    var cells := Cells(R);
    var best: map<Coord, nat> := map[];
    var next: set<Coord> := {};
    var queue := [Entry(start, Nil)];
    var found: Option<LList<Command>> := None;
    assert Rev(Elements(queue[0].path)) == [];
    while queue != []
      invariant QueueLeads(queue, nbrs, start, R) && Recorded(best, target, R)
      invariant found.Some? ==> Leads(nbrs, start, Rev(Elements(found.value)), target)
      invariant start == target ==> queue == [Entry(start, Nil)] && found.None?
      decreases RankSum(cells, best, R), |queue|
    {
      var e;
      e, queue := Poll(queue, target, nbrs, start, R);
      if e.pos == target {
        found := Some(e.path);
        break;
      }
      next := next - {e.pos};
      queue, best, next := Expand(e, target, R, nbrs, start, cells, queue, best, next);
    }
    if found.None? {
      return Err(NotFound);
    }
    assert start == target ==> found == Some(Nil);
    var inOrder := Reversed(found.value);
    return Ok(Elements(inOrder));
  }

  /** `queue.poll()`: the first entry of least heuristic, and the queue
      without it. */
  method Poll(queue0: seq<Entry>, target: Coord, ghost nbrs: Neighbourhood, ghost start: Coord, ghost R: nat)
    returns (e: Entry, queue: seq<Entry>)
    requires queue0 != [] && QueueLeads(queue0, nbrs, start, R)
    ensures e == queue0[MinIndex(queue0, target)]
    ensures queue == queue0[..MinIndex(queue0, target)] + queue0[MinIndex(queue0, target) + 1..]
    ensures InBounds(e.pos, R) && Leads(nbrs, start, Rev(Elements(e.path)), e.pos)
    ensures QueueLeads(queue, nbrs, start, R) && |queue| == |queue0| - 1
    ensures |queue0| == 1 ==> e == queue0[0]
  {
    var i := MinIndex(queue0, target);
    e := queue0[i];
    queue := queue0[..i] + queue0[i + 1..];
    forall k | 0 <= k < |queue|
      ensures InBounds(queue[k].pos, R) && Leads(nbrs, start, Rev(Elements(queue[k].path)), queue[k].pos)
    {
      var j := if k < i then k else k + 1;
      assert queue[k] == queue0[j];
    }
  }

  /** Appending an entry for a cell not yet recorded, and recording it,
      keeps the new entries exactly the newly recorded cells. */
  lemma FreshSnoc(queue0: seq<Entry>, best0: map<Coord, nat>, queue: seq<Entry>, best: map<Coord, nat>, x: Entry, h: nat)
    requires |queue| >= |queue0| && queue[..|queue0|] == queue0 && best0.Keys <= best.Keys
    requires forall k :: |queue0| <= k < |queue| ==> queue[k].pos !in best0 && queue[k].pos in best
    requires x.pos !in best
    ensures var q := queue + [x];
      && |q| >= |queue0| && q[..|queue0|] == queue0
      && forall k :: |queue0| <= k < |q| ==> q[k].pos !in best0 && q[k].pos in best[x.pos := h]
  {
    var q := queue + [x];
    assert q[..|queue0|] == queue[..|queue0|];
    assert forall k :: |queue0| <= k < |queue| ==> q[k] == queue[k];
  }

  /** The neighbour loop: each neighbour whose heuristic beats the one
      recorded for its cell is queued with its command prepended, and its
      cell recorded and marked in `next`. Once the polled cell is itself
      marked, the remaining neighbours are skipped. */
  method Expand(e: Entry, target: Coord, R: nat, nbrs: Neighbourhood, ghost start: Coord, ghost cells: seq<Coord>,
                queue0: seq<Entry>, best0: map<Coord, nat>, next0: set<Coord>)
    returns (queue: seq<Entry>, best: map<Coord, nat>, next: set<Coord>)
    requires InBounds(target, R) && InBounds(e.pos, R)
    requires forall p, i | 0 <= i < |nbrs(p)| :: InBounds(nbrs(p)[i].1, R)
    requires forall c | InBounds(c, R) :: c in cells
    requires Leads(nbrs, start, Rev(Elements(e.path)), e.pos)
    requires QueueLeads(queue0, nbrs, start, R) && Recorded(best0, target, R)
    ensures QueueLeads(queue, nbrs, start, R) && Recorded(best, target, R)
    ensures |queue| >= |queue0| && queue[..|queue0|] == queue0
    ensures forall k :: |queue0| <= k < |queue| ==> queue[k].pos !in best0 && queue[k].pos in best
    ensures RankSum(cells, best, R) < RankSum(cells, best0, R)
      || (RankSum(cells, best, R) == RankSum(cells, best0, R) && queue == queue0)
  {
    queue, best, next := queue0, best0, next0;
    var ns := nbrs(e.pos);
    var j := 0;
    while j < |ns|
      invariant 0 <= j <= |ns|
      invariant QueueLeads(queue, nbrs, start, R) && Recorded(best, target, R)
      invariant |queue| >= |queue0| && queue[..|queue0|] == queue0
      invariant best0.Keys <= best.Keys
      invariant forall k :: |queue0| <= k < |queue| ==> queue[k].pos !in best0 && queue[k].pos in best
      invariant RankSum(cells, best, R) < RankSum(cells, best0, R)
        || (RankSum(cells, best, R) == RankSum(cells, best0, R) && queue == queue0)
    {
      var cmd := ns[j].0;
      var n := ns[j].1;
      if e.pos !in next {
        var h := Heuristic(n, target);
        if n !in best || h < best[n] {
          HeuristicBelowR(n, target, R);
          Queued(nbrs, start, e, j, R);
          RankSumDecreases(cells, best, R, n, h);
          QueueLeadsSnoc(queue, Entry(n, Cons(cmd, e.path)), nbrs, start, R);
          FreshSnoc(queue0, best0, queue, best, Entry(n, Cons(cmd, e.path)), h);
          queue := queue + [Entry(n, Cons(cmd, e.path))];
          best := best[n := h];
          next := next + {n};
        }
      }
      j := j + 1;
    }
  }

  /** The entry queued for the j-th neighbour leads there from the start. */
  lemma Queued(nbrs: Neighbourhood, start: Coord, e: Entry, j: int, R: nat)
    requires Leads(nbrs, start, Rev(Elements(e.path)), e.pos) && 0 <= j < |nbrs(e.pos)|
    ensures Leads(nbrs, start, Rev(Elements(Cons(nbrs(e.pos)[j].0, e.path))), nbrs(e.pos)[j].1)
  {
    var cmd := nbrs(e.pos)[j].0;
    LeadsSnoc(nbrs, start, Rev(Elements(e.path)), e.pos, j);
    RevAppendOne(Elements(e.path), cmd);
    assert Elements(Cons(cmd, e.path)) == [cmd] + Elements(e.path);
  }
}
