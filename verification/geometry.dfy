/** Coordinates and coordinate differences of the contest cube, with the
    delta classifications of the ICFP Programming Contest 2018 task
    description (linear, short-linear, long-linear, near). */
module Geometry {

  datatype Coord = Coord(x: int, y: int, z: int)

  datatype Delta = Delta(dx: int, dy: int, dz: int)

  const Origin := Coord(0, 0, 0)

  function Abs(n: int): nat {
    if n < 0 then -n else n
  }

  function Max(a: int, b: int): int {
    if a < b then b else a
  }

  function Min(a: int, b: int): int {
    if a < b then a else b
  }

  /** `coord + delta` */
  function Shift(c: Coord, d: Delta): Coord {
    Coord(c.x + d.dx, c.y + d.dy, c.z + d.dz)
  }

  /** `a - b` between two coordinates */
  function Diff(a: Coord, b: Coord): Delta {
    Delta(a.x - b.x, a.y - b.y, a.z - b.z)
  }

  /** `-delta` */
  function Neg(d: Delta): Delta {
    Delta(-d.dx, -d.dy, -d.dz)
  }

  function Plus(a: Delta, b: Delta): Delta {
    Delta(a.dx + b.dx, a.dy + b.dy, a.dz + b.dz)
  }

  function Scale(k: int, d: Delta): Delta {
    Delta(k * d.dx, k * d.dy, k * d.dz)
  }

  const Zero := Delta(0, 0, 0)

  /** Manhattan length. */
  function Mlen(d: Delta): nat {
    Abs(d.dx) + Abs(d.dy) + Abs(d.dz)
  }

  /** Chebyshev length. */
  function Clen(d: Delta): nat {
    Max(Abs(d.dx), Max(Abs(d.dy), Abs(d.dz)))
  }

  /** Number of axes on which the delta is nonzero. */
  function NonzeroAxes(d: Delta): nat {
    (if d.dx != 0 then 1 else 0) + (if d.dy != 0 then 1 else 0) + (if d.dz != 0 then 1 else 0)
  }

  predicate Linear(d: Delta) {
    NonzeroAxes(d) == 1
  }

  predicate ShortLinear(d: Delta) {
    Linear(d) && Mlen(d) <= 5
  }

  predicate LongLinear(d: Delta) {
    Linear(d) && Mlen(d) <= 15
  }

  predicate Near(d: Delta) {
    0 < Mlen(d) <= 2 && Clen(d) == 1
  }

  /** Every coordinate lies inside the R*R*R cube. */
  predicate InBounds(c: Coord, R: int) {
    0 <= c.x < R && 0 <= c.y < R && 0 <= c.z < R
  }

  /** Two coordinates share a face. */
  predicate FaceAdjacent(a: Coord, b: Coord) {
    Mlen(Diff(a, b)) == 1
  }

  /** The eighteen near deltas, x-major. */
  const NearDeltas: seq<Delta> := [
    Delta(-1, -1, 0), Delta(-1, 0, -1), Delta(-1, 0, 0), Delta(-1, 0, 1), Delta(-1, 1, 0),
    Delta(0, -1, -1), Delta(0, -1, 0), Delta(0, -1, 1), Delta(0, 0, -1),
    Delta(0, 0, 1), Delta(0, 1, -1), Delta(0, 1, 0), Delta(0, 1, 1),
    Delta(1, -1, 0), Delta(1, 0, -1), Delta(1, 0, 0), Delta(1, 0, 1), Delta(1, 1, 0)
  ]

  /** The six face deltas (Manhattan length one). */
  const FaceDeltas: seq<Delta> := [
    Delta(-1, 0, 0), Delta(1, 0, 0), Delta(0, -1, 0), Delta(0, 1, 0), Delta(0, 0, -1), Delta(0, 0, 1)
  ]

  lemma NearDeltasAreTheNearDeltas(d: Delta)
    ensures d in NearDeltas <==> Near(d)
  {
    if Near(d) {
      assert -1 <= d.dx <= 1 && -1 <= d.dy <= 1 && -1 <= d.dz <= 1;
    }
  }

  lemma FaceDeltasAreUnitSteps(d: Delta)
    ensures d in FaceDeltas <==> Mlen(d) == 1
  {
  }

  lemma NearIsSymmetric(d: Delta)
    ensures Near(d) <==> Near(Neg(d))
  {
  }

  /** The coordinates of the R*R*R cube form a finite set. */
  lemma AllCoords(R: int) returns (cs: set<Coord>)
    ensures forall c :: c in cs <==> InBounds(c, R)
  {
    cs := set x, y, z | 0 <= x < R && 0 <= y < R && 0 <= z < R :: Coord(x, y, z);
    assert forall c :: InBounds(c, R) ==> Coord(c.x, c.y, c.z) in cs;
  }

  /** Adding a new cell of the cube to a set leaves fewer cells outside it. */
  lemma CubeShrinks(cube: set<Coord>, done: set<Coord>, c: Coord, R: int)
    requires forall c :: c in cube <==> InBounds(c, R)
    requires InBounds(c, R) && c !in done
    ensures |cube - (done + {c})| < |cube - done|
  {
    var rest := cube - done;
    assert c in rest;
    assert cube - (done + {c}) == rest - {c};
  }

  /* --------------------------------------------------------- sums */

  function Sum(s: seq<int>): int {
    if s == [] then 0 else s[0] + Sum(s[1..])
  }

  /** The delta a sequence of moves adds up to. */
  function Total(ds: seq<Delta>): Delta {
    if ds == [] then Zero else Plus(ds[0], Total(ds[1..]))
  }

  lemma {:induction false} TotalAppend(a: seq<Delta>, b: seq<Delta>)
    ensures Total(a + b) == Plus(Total(a), Total(b))
  {
    if a == [] {
      assert a + b == b;
    } else {
      assert (a + b)[0] == a[0];
      assert (a + b)[1..] == a[1..] + b;
      TotalAppend(a[1..], b);
    }
  }

  /** The delta `c` along axis 0 (x), 1 (y) or 2 (z). */
  function Along(axis: nat, c: int): Delta {
    if axis == 0 then Delta(c, 0, 0) else if axis == 1 then Delta(0, c, 0) else Delta(0, 0, c)
  }

  /** One move along the axis per length. */
  function AlongAll(axis: nat, cs: seq<int>): (ds: seq<Delta>)
    ensures |ds| == |cs| && forall i :: 0 <= i < |cs| ==> ds[i] == Along(axis, cs[i])
  {
    seq(|cs|, i requires 0 <= i < |cs| => Along(axis, cs[i]))
  }

  /** Moves along one axis add up to the sum of their lengths. */
  lemma {:induction false} AlongAllTotal(axis: nat, cs: seq<int>)
    ensures Total(AlongAll(axis, cs)) == Along(axis, Sum(cs))
  {
    if cs != [] {
      AlongAllTotal(axis, cs[1..]);
      assert AlongAll(axis, cs)[1..] == AlongAll(axis, cs[1..]);
    }
  }
}
