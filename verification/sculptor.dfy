/** The sculptor strategy's comb (`SculptorStrategy.Comb`): a row of bots
    that moves, fills and voids in lock-step. A comb is modelled by the
    positions of its bots, first bot first, and a round by the order each
    bot is given. */
module Sculptor {
  import opened Geometry
  import opened Ordered
  import opened Wrappers
  import opened Commands
  import Simulation

  /** What one comb bot does in a round: a nanobot command, or `void`, which
      the comb issues but which is not among the nine commands. */
  datatype Order = Issue(c: Command) | Void(delta: Delta)

  type Round = seq<Order>

  /* ------------------------------------------------------------ chunking */

  /** `d.sign * min(|d|, 15)`: the next shift of a normal move. */
  function Chunk(d: int): int {
    if d < 0 then -Min(-d, 15) else Min(d, 15)
  }

  /** The shifts a normal move makes along one axis, in order: each nonzero,
      at most 15 long, pointing the way `d` does, and adding up to `d`, in
      as few shifts as 15-long steps allow. */
  function Chunks(d: int): (cs: seq<int>)
    ensures forall i :: 0 <= i < |cs| ==> cs[i] != 0 && Abs(cs[i]) <= 15 && (cs[i] > 0 <==> d > 0)
    ensures Sum(cs) == d
    ensures 15 * |cs| >= Abs(d) && (|cs| > 0 ==> 15 * (|cs| - 1) < Abs(d))
    decreases Abs(d)
  {
    if d == 0 then [] else [Chunk(d)] + Chunks(d - Chunk(d))
  }

  /** `normalMove(dx, dy)`: every comb bot s-moves by the same chunk each
      round, all x chunks first, then all y chunks. */
  function NormalMove(dx: int, dy: int): (ds: seq<Delta>)
    ensures forall i :: 0 <= i < |ds| ==> LongLinear(ds[i]) && ds[i].dz == 0
    ensures forall i, j :: 0 <= i < j < |ds| && ds[i].dx == 0 ==> ds[j].dx == 0
    ensures Total(ds) == Delta(dx, dy, 0)
    ensures |ds| == |Chunks(dx)| + |Chunks(dy)|
  {
    var xs, ys := AlongAll(0, Chunks(dx)), AlongAll(1, Chunks(dy));
    AlongAllTotal(0, Chunks(dx));
    AlongAllTotal(1, Chunks(dy));
    TotalAppend(xs, ys);
    xs + ys
  }

  /** `normalZMove(dz)`: every comb bot s-moves by the same z chunk each round. */
  function NormalZMove(dz: int): (ds: seq<Delta>)
    ensures forall i :: 0 <= i < |ds| ==> LongLinear(ds[i]) && ds[i].dx == 0 && ds[i].dy == 0
    ensures Total(ds) == Delta(0, 0, dz)
    ensures |ds| == |Chunks(dz)|
  {
    var zs := AlongAll(2, Chunks(dz));
    AlongAllTotal(2, Chunks(dz));
    zs
  }

  /* --------------------------------------------------------- executing */

  /** Where a bot ends up after its order. */
  function Moved(p: Coord, o: Order): Coord {
    if o.Issue? && o.c.SMove? then Shift(p, o.c.delta) else p
  }

  /** The comb after one round. */
  function Apply(pos: seq<Coord>, round: Round): (r: seq<Coord>)
    requires |round| == |pos|
    ensures |r| == |pos| && forall i :: 0 <= i < |pos| ==> r[i] == Moved(pos[i], round[i])
  {
    seq(|pos|, i requires 0 <= i < |pos| => Moved(pos[i], round[i]))
  }

  /** Every bot issues the same s-move. */
  function Uniform(n: nat, d: Delta): (r: Round)
    ensures |r| == n && forall i :: 0 <= i < n ==> r[i] == Issue(SMove(d))
  {
    seq(n, _ => Issue(SMove(d)))
  }

  function ShiftAll(pos: seq<Coord>, d: Delta): (r: seq<Coord>)
    ensures |r| == |pos| && forall i :: 0 <= i < |pos| ==> r[i] == Shift(pos[i], d)
  {
    seq(|pos|, i requires 0 <= i < |pos| => Shift(pos[i], d))
  }

  /** The comb after one uniform round per delta. */
  function Run(pos: seq<Coord>, ds: seq<Delta>): (r: seq<Coord>)
    ensures |r| == |pos|
    decreases |ds|
  {
    if ds == [] then pos else Run(Apply(pos, Uniform(|pos|, ds[0])), ds[1..])
  }

  /** Uniform rounds carry every bot by the deltas' total, so the bots keep
      their places relative to each other. */
  lemma {:induction false} RunShiftsAll(pos: seq<Coord>, ds: seq<Delta>)
    ensures Run(pos, ds) == ShiftAll(pos, Total(ds))
    ensures forall i, j :: 0 <= i < |pos| && 0 <= j < |pos| ==>
      Diff(Run(pos, ds)[i], Run(pos, ds)[j]) == Diff(pos[i], pos[j])
    decreases |ds|
  {
    if ds == [] {
      assert ShiftAll(pos, Zero) == pos;
    } else {
      var next := Apply(pos, Uniform(|pos|, ds[0]));
      assert next == ShiftAll(pos, ds[0]);
      RunShiftsAll(next, ds[1..]);
      assert ShiftAll(next, Total(ds[1..])) == ShiftAll(pos, Total(ds));
    }
  }

  /** `normalMove` carries every comb bot by (dx, dy, 0). */
  lemma NormalMoveArrives(pos: seq<Coord>, dx: int, dy: int)
    ensures Run(pos, NormalMove(dx, dy)) == ShiftAll(pos, Delta(dx, dy, 0))
  {
    RunShiftsAll(pos, NormalMove(dx, dy));
  }

  /* ------------------------------------------------------ lateral move */

  /** The blow-out shift of comb bot `i`: `(i % 16) * dir.dx` along x. */
  function BlowOutDelta(i: int, dir: Delta): Delta {
    Delta((i % 16) * dir.dx, 0, 0)
  }

  /** Spreading the comb along x: bot `i` waits when `i % 16 == 0` and
      otherwise s-moves by its blow-out shift; with a unit direction every
      such shift is long-linear. */
  function BlowOut(n: nat, dir: Delta): (r: Round)
    ensures |r| == n
    ensures forall i :: 0 <= i < n ==> (r[i] == Issue(Wait) <==> i % 16 == 0)
    ensures forall i :: 0 <= i < n && i % 16 != 0 ==> r[i] == Issue(SMove(BlowOutDelta(i, dir)))
    ensures Abs(dir.dx) == 1 ==> forall i :: 0 <= i < n && i % 16 != 0 ==> LongLinear(r[i].c.delta)
  {
    var r := seq(n, i => if i % 16 == 0 then Issue(Wait) else Issue(SMove(BlowOutDelta(i, dir))));
    assert forall i :: 0 <= i < n && i % 16 != 0 && Abs(dir.dx) == 1 ==>
      Abs(BlowOutDelta(i, dir).dx) == i % 16;
    r
  }

  /** Gathering the comb again: each bot s-moves back by its blow-out shift. */
  function BlowIn(n: nat, dir: Delta): (r: Round)
    ensures |r| == n
    ensures forall i :: 0 <= i < n ==> (r[i] == Issue(Wait) <==> i % 16 == 0)
    ensures forall i :: 0 <= i < n && i % 16 != 0 ==> r[i] == Issue(SMove(Neg(BlowOutDelta(i, dir))))
  {
    seq(n, i => if i % 16 == 0 then Issue(Wait) else Issue(SMove(Neg(BlowOutDelta(i, dir)))))
  }

  /** `lateralMove(dz, dir)`: nothing when dz is 0; otherwise blow out, move
      every bot by the z chunks, and blow in. */
  datatype Lateral = Lateral(out: Round, shifts: seq<Delta>, back: Round)

  function LateralMove(n: nat, dz: int, dir: Delta): (r: Option<Lateral>)
    ensures r.None? <==> dz == 0
    ensures r.Some? ==> r.value.out == BlowOut(n, dir) && r.value.back == BlowIn(n, dir)
    ensures r.Some? ==> Total(r.value.shifts) == Delta(0, 0, dz)
  {
    if dz == 0 then None else Some(Lateral(BlowOut(n, dir), NormalZMove(dz), BlowIn(n, dir)))
  }

  /** The comb after a lateral move. */
  function RunLateral(pos: seq<Coord>, l: Lateral): seq<Coord>
    requires |l.out| == |pos| && |l.back| == |pos|
  {
    Apply(Run(Apply(pos, l.out), l.shifts), l.back)
  }

  /** A lateral move carries every comb bot by (0, 0, dz): each bot's
      blow-in undoes its blow-out. */
  lemma LateralMoveArrives(pos: seq<Coord>, dz: int, dir: Delta)
    requires dz != 0
    ensures var l := LateralMove(|pos|, dz, dir).value;
      RunLateral(pos, l) == ShiftAll(pos, Delta(0, 0, dz))
  {
    var l := LateralMove(|pos|, dz, dir).value;
    var out := Apply(pos, l.out);
    RunShiftsAll(out, l.shifts);
    var moved := Run(out, l.shifts);
    assert moved == ShiftAll(out, Delta(0, 0, dz));
    var back := Apply(moved, l.back);
    forall i | 0 <= i < |pos|
      ensures back[i] == Shift(pos[i], Delta(0, 0, dz))
    {
      if i % 16 != 0 {
        assert out[i] == Shift(pos[i], BlowOutDelta(i, dir));
        assert back[i] == Shift(moved[i], Neg(BlowOutDelta(i, dir)));
      }
    }
  }

  /* ------------------------------------------------------- fill, void */

  /** `fill(delta)`: no round when every bot's target is already Full;
      otherwise every bot issues one command, fill for an empty target and
      wait for a Full one. */
  function CombFill(full: set<Coord>, pos: seq<Coord>, d: Delta): (r: Option<Round>)
    ensures r.None? <==> forall i :: 0 <= i < |pos| ==> Shift(pos[i], d) in full
    ensures r.Some? ==> |r.value| == |pos| && forall i :: 0 <= i < |pos| ==>
      (r.value[i] == Issue(Fill(d)) <==> Shift(pos[i], d) !in full)
      && (r.value[i] == Issue(Wait) <==> Shift(pos[i], d) in full)
  {
    if forall i :: 0 <= i < |pos| ==> Shift(pos[i], d) in full then None
    else Some(seq(|pos|, i requires 0 <= i < |pos| => if Shift(pos[i], d) in full then Issue(Wait) else Issue(Fill(d))))
  }

  /** `void(delta)`: no round when every bot's target is already Empty;
      otherwise every bot issues one order, void for a Full target and wait
      for an empty one. */
  function CombVoid(full: set<Coord>, pos: seq<Coord>, d: Delta): (r: Option<Round>)
    ensures r.None? <==> forall i :: 0 <= i < |pos| ==> Shift(pos[i], d) !in full
    ensures r.Some? ==> |r.value| == |pos| && forall i :: 0 <= i < |pos| ==>
      (r.value[i] == Void(d) <==> Shift(pos[i], d) in full)
      && (r.value[i] == Issue(Wait) <==> Shift(pos[i], d) !in full)
  {
    if forall i :: 0 <= i < |pos| ==> Shift(pos[i], d) !in full then None
    else Some(seq(|pos|, i requires 0 <= i < |pos| => if Shift(pos[i], d) in full then Void(d) else Issue(Wait)))
  }

  /** The Full voxels after a round: fills add their target, voids remove it. */
  ghost function Effect(full: set<Coord>, pos: seq<Coord>, round: Round): set<Coord>
    requires |round| == |pos|
  {
    (full + set i | 0 <= i < |pos| && round[i].Issue? && round[i].c.Fill? :: Shift(pos[i], round[i].c.delta))
    - set i | 0 <= i < |pos| && round[i].Void? :: Shift(pos[i], round[i].delta)
  }

  /** After a comb fill every target is Full, so filling again issues nothing. */
  lemma FillThenNothing(full: set<Coord>, pos: seq<Coord>, d: Delta)
    requires CombFill(full, pos, d).Some?
    ensures var after := Effect(full, pos, CombFill(full, pos, d).value);
      full <= after && CombFill(after, pos, d).None?
  {
    var round := CombFill(full, pos, d).value;
    var after := Effect(full, pos, round);
    forall i | 0 <= i < |pos|
      ensures Shift(pos[i], d) in after
    {
      if Shift(pos[i], d) !in full {
        assert round[i] == Issue(Fill(d));
      }
    }
  }

  /** After a comb void every target is Empty, so voiding again issues nothing. */
  lemma VoidThenNothing(full: set<Coord>, pos: seq<Coord>, d: Delta)
    requires CombVoid(full, pos, d).Some?
    ensures var after := Effect(full, pos, CombVoid(full, pos, d).value);
      after <= full && CombVoid(after, pos, d).None?
  {
    var round := CombVoid(full, pos, d).value;
    var after := Effect(full, pos, round);
    forall i | 0 <= i < |pos|
      ensures Shift(pos[i], d) !in after
    {
      if Shift(pos[i], d) in full {
        assert round[i] == Void(d);
      }
    }
  }

  /* ------------------------------------------------------------ resize */

  /** `resize`'s fission: the comb's last bot splits off a bot one step up z
      and hands it every seed (m = |seeds| - 1). */
  function ResizeFission(seeds: set<int>): Command {
    Fission(Delta(0, 0, 1), |seeds| - 1)
  }

  /** Handing over all seeds: the new bot is the least seed, it takes all
      the others, and the parent keeps none. */
  lemma HandOverAll(seeds: set<int>)
    requires seeds != {}
    ensures var sp := Simulation.SplitSeeds(seeds, |seeds| - 1);
      sp.newId == Least(seeds) && sp.child == seeds - {Least(seeds)} && sp.parent == {}
  {
    var sp := Simulation.SplitSeeds(seeds, |seeds| - 1);
    NothingLeft(seeds, sp.newId, sp.child, sp.parent);
  }

  /** A set cut into one element and two disjoint parts, the first part one
      short of the whole, leaves nothing for the second part. */
  lemma NothingLeft(s: set<int>, n: int, c: set<int>, p: set<int>)
    requires forall k :: k in s <==> k == n || k in c || k in p
    requires n !in c && n !in p && c !! p && |c| == |s| - 1
    ensures p == {} && c == s - {n}
  {
    var head := {n} + c;
    assert {n} * c == {};
    assert |head| == 1 + |c|;
    assert head * p == {};
    forall k
      ensures k in s <==> k in head + p
    {
    }
    assert s == head + p;
    assert |s| == |head| + |p|;
  }

  /** The comb's ids, and the seeds its last bot holds, after growing it by
      `k` bots with `resize`'s fission: by `HandOverAll`, each fission adds
      the least seed to the comb and leaves the last bot the others. */
  function Grow(ids: seq<int>, seeds: set<int>, k: nat): (r: (seq<int>, set<int>))
    requires k <= |seeds|
    ensures |r.0| == |ids| + k && |r.1| == |seeds| - k
    ensures Grown(ids, seeds, k, r)
    decreases k
  {
    if k == 0 then (ids, seeds)
    else
      var l := Least(seeds);
      assert |seeds - {l}| == |seeds| - 1;
      var r := Grow(ids + [l], seeds - {l}, k - 1);
      GrowStep(ids, seeds, k, r);
      r
  }

  /** The comb keeps its ids and gains the k least seeds in ascending
      order; the last bot keeps exactly the other seeds, all above the ids
      handed out. */
  ghost predicate Grown(ids: seq<int>, seeds: set<int>, k: nat, r: (seq<int>, set<int>))
    requires k <= |seeds|
  {
    GrownBy(ids, Ascending(seeds), seeds, k, r)
  }

  /** `Grown`, with the seeds in ascending order given as `q`. */
  ghost predicate GrownBy(ids: seq<int>, q: seq<int>, seeds: set<int>, k: nat, r: (seq<int>, set<int>))
    requires k <= |q|
  {
    && r.0 == ids + q[..k]
    && r.1 == seeds - Prefix(q, k)
    && (forall i, x | 0 <= i < k && x in r.1 :: q[i] < x)
  }

  /** The first k entries of `q`, as a set. */
  function Prefix(q: seq<int>, k: nat): (p: set<int>)
    requires k <= |q|
    ensures forall x :: x in p <==> exists i :: 0 <= i < k && q[i] == x
  {
    set i | 0 <= i < k :: q[i]
  }

  /** Handing out the least seed, then growing by k - 1, grows by k. */
  lemma {:induction false} GrowStep(ids: seq<int>, seeds: set<int>, k: nat, r: (seq<int>, set<int>))
    requires 1 <= k <= |seeds|
    requires |seeds - {Least(seeds)}| == |seeds| - 1
    requires Grown(ids + [Least(seeds)], seeds - {Least(seeds)}, k - 1, r)
    ensures Grown(ids, seeds, k, r)
  {
    var l := Least(seeds);
    AscendingCons(seeds);
    HandOutLeast(ids, seeds, l, Ascending(seeds), Ascending(seeds - {l}), k, r);
  }

  /** The seeds left after handing out the least and then k - 1 more are
      the seeds left after handing out the first k, and lie above them. */
  lemma {:induction false} HandOutLeast(ids: seq<int>, seeds: set<int>, l: int, q: seq<int>, q': seq<int>, k: nat, r: (seq<int>, set<int>))
    requires l in seeds && (forall y :: y in seeds ==> l <= y)
    requires q == [l] + q' && 1 <= k <= |q|
    requires GrownBy(ids + [l], q', seeds - {l}, k - 1, r)
    ensures GrownBy(ids, q, seeds, k, r)
  {
    assert Prefix(q, k) == {l} + Prefix(q', k - 1) by {
      forall x
        ensures x in Prefix(q, k) <==> x == l || x in Prefix(q', k - 1)
      {
        if x in Prefix(q, k) && x != l {
          var i :| 0 <= i < k && q[i] == x;
          assert q'[i - 1] == x;
        }
        if x in Prefix(q', k - 1) {
          var i :| 0 <= i < k - 1 && q'[i] == x;
          assert q[i + 1] == x;
        }
        if x == l {
          assert q[0] == x;
        }
      }
    }
    forall i, x | 0 <= i < k && x in r.1
      ensures q[i] < x
    {
      if i > 0 {
        assert q[i] == q'[i - 1];
      }
    }
    assert q[..k] == [l] + q'[..k - 1];
  }

  /** `resize`'s shrinking: each fusion removes the comb's last bot, and
      the new last bot takes its id and seeds. Every bot but the last holds
      no seeds of its own, as `resize`'s growing leaves them (`HandOverAll`),
      so the new last bot's seeds are exactly the ones handed back. */
  function Shrink(ids: seq<int>, seeds: set<int>, k: nat): (r: (seq<int>, set<int>))
    requires k < |ids|
    ensures |r.0| == |ids| - k && r.0 == ids[..|ids| - k]
    ensures r.1 == seeds + set i | |ids| - k <= i < |ids| :: ids[i]
    decreases k
  {
    if k == 0 then (ids, seeds)
    else
      var r := Shrink(ids[..|ids| - 1], seeds + {ids[|ids| - 1]}, k - 1);
      ShrinkStep(ids, seeds, k, r.1);
      r
  }

  /** Handing back the last id, then the k - 1 before it, hands back the
      last k ids. */
  lemma {:induction false} ShrinkStep(ids: seq<int>, seeds: set<int>, k: nat, back: set<int>)
    requires 1 <= k < |ids|
    requires var ids' := ids[..|ids| - 1];
      back == seeds + {ids[|ids| - 1]} + set i | |ids'| - (k - 1) <= i < |ids'| :: ids'[i]
    ensures back == seeds + set i | |ids| - k <= i < |ids| :: ids[i]
  {
    var n := |ids|;
    var ids' := ids[..n - 1];
    var before := set i | n - 1 - (k - 1) <= i < n - 1 :: ids'[i];
    var after := set i | n - k <= i < n :: ids[i];
    forall x
      ensures x in after <==> x == ids[n - 1] || x in before
    {
      if x in after {
        var i :| n - k <= i < n && ids[i] == x;
        if i < n - 1 {
          assert ids'[i] == x;
        }
      }
      if x in before {
        var i :| n - 1 - (k - 1) <= i < n - 1 && ids'[i] == x;
        assert ids[i] == x;
      }
      if x == ids[n - 1] {
        assert n - k <= n - 1;
      }
    }
    assert after == {ids[n - 1]} + before;
  }

  /** Shrinking by k+1 is shrinking by k and then by one more. */
  lemma {:induction false} ShrinkLast(ids: seq<int>, seeds: set<int>, k: nat)
    requires k + 1 < |ids|
    ensures var r := Shrink(ids, seeds, k);
      Shrink(ids, seeds, k + 1) == Shrink(r.0, r.1, 1)
    decreases k
  {
    if k > 0 {
      ShrinkLast(ids[..|ids| - 1], seeds + {ids[|ids| - 1]}, k - 1);
    }
  }

  /** Shrinking a comb by as many bots as it was grown by gives back the
      comb and the seeds it started with. */
  lemma ShrinkUndoesGrow(ids: seq<int>, seeds: set<int>, k: nat)
    requires k <= |seeds| && |ids| > 0
    ensures var g := Grow(ids, seeds, k); Shrink(g.0, g.1, k) == (ids, seeds)
  {
    UndoGrown(ids, seeds, k, Grow(ids, seeds, k));
  }

  /** Shrinking any comb `Grown` from `ids` and `seeds` by k gives them back. */
  lemma UndoGrown(ids: seq<int>, seeds: set<int>, k: nat, g: (seq<int>, set<int>))
    requires k <= |seeds| && k < |g.0|
    requires Grown(ids, seeds, k, g)
    ensures Shrink(g.0, g.1, k) == (ids, seeds)
  {
    HandBack(ids, Ascending(seeds), seeds, k, g, Shrink(g.0, g.1, k));
  }

  /** The last k ids of a grown comb are the seeds it handed out. */
  lemma HandBack(ids: seq<int>, q: seq<int>, seeds: set<int>, k: nat, g: (seq<int>, set<int>), sh: (seq<int>, set<int>))
    requires k <= |q| && (forall i | 0 <= i < |q| :: q[i] in seeds)
    requires GrownBy(ids, q, seeds, k, g)
    requires k <= |g.0|
    requires sh.0 == g.0[..|g.0| - k]
    requires sh.1 == g.1 + set i | |g.0| - k <= i < |g.0| :: g.0[i]
    ensures sh == (ids, seeds)
  {
    var n := |g.0|;
    assert g.0[..n - k] == ids;
    var handed := set i | n - k <= i < n :: g.0[i];
    forall x
      ensures x in handed <==> x in Prefix(q, k)
    {
      if x in handed {
        var i :| n - k <= i < n && g.0[i] == x;
        assert q[i - (n - k)] == x;
      }
      if x in Prefix(q, k) {
        var i :| 0 <= i < k && q[i] == x;
        assert g.0[n - k + i] == x;
      }
    }
    assert handed == Prefix(q, k);
    assert Prefix(q, k) <= seeds;
    assert sh.0 == ids;
    assert sh.1 == seeds;
  }

  lemma RangeCard(lo: int, hi: int)
    ensures |Simulation.IdRange(lo, hi)| == if lo <= hi then hi - lo + 1 else 0
  {
    Simulation.RangeAscending(lo, hi);
  }

  lemma LeastOfRange(lo: int, hi: int)
    requires lo <= hi
    ensures lo in Simulation.IdRange(lo, hi) && Least(Simulation.IdRange(lo, hi)) == lo
  {
    assert lo in Simulation.IdRange(lo, hi);
  }

  lemma IdSeqSnoc(lo: int, hi: int)
    requires lo <= hi + 1
    ensures Simulation.IdSeq(lo, hi) + [hi + 1] == Simulation.IdSeq(lo, hi + 1)
  {
  }

  lemma RangeDrop(lo: int, hi: int)
    ensures Simulation.IdRange(lo, hi) - {lo} == Simulation.IdRange(lo + 1, hi)
  {
  }

  /** Growing a comb whose ids are 1..j, its last bot holding j+1..20, by
      `k` bots gives ids 1..j+k, the last bot holding the seeds above. */
  lemma {:induction false} GrowRange(j: int, n: int)
    requires 1 <= j <= n <= Simulation.MaxId
    ensures n - j <= |Simulation.IdRange(j + 1, Simulation.MaxId)|
    ensures Grow(Simulation.IdSeq(1, j), Simulation.IdRange(j + 1, Simulation.MaxId), n - j)
      == (Simulation.IdSeq(1, n), Simulation.IdRange(n + 1, Simulation.MaxId))
    decreases n - j
  {
    var ids, seeds := Simulation.IdSeq(1, j), Simulation.IdRange(j + 1, Simulation.MaxId);
    RangeCard(j + 1, Simulation.MaxId);
    if j < n {
      LeastOfRange(j + 1, Simulation.MaxId);
      RangeDrop(j + 1, Simulation.MaxId);
      IdSeqSnoc(1, j);
      GrowRange(j + 1, n);
    }
  }

  /** Resizing the initial single bot (id 1, seeds 2..20) to `n` bots gives
      the comb the ids 1..n in order, the last bot holding the seeds above n. */
  lemma ResizeLinesUp(n: int)
    requires 1 <= n <= Simulation.MaxId
    ensures n - 1 <= |Simulation.IdRange(2, Simulation.MaxId)|
    ensures Grow([1], Simulation.IdRange(2, Simulation.MaxId), n - 1)
      == (Simulation.IdSeq(1, n), Simulation.IdRange(n + 1, Simulation.MaxId))
  {
    RangeCard(2, Simulation.MaxId);
    assert Simulation.IdSeq(1, 1) == [1];
    GrowRange(1, n);
  }
}
