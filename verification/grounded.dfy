/** The grounded strategy (`GroundedStrategy`): fill the target model cell
    by cell from a frontier that starts at the floor and only ever grows to
    face neighbours of filled cells, so the filled voxels stay grounded. */
module Grounded {
  import opened Geometry
  import opened Wrappers
  import opened Voxels

  /** The Full voxels of a matrix. */
  function Target(m: Matrix): (full: set<Coord>)
    requires WellSized(m)
    ensures forall c :: c in full <==> InBounds(c, m.R) && Get(m, c)
  {
    var full := set x, y, z | 0 <= x < m.R && 0 <= y < m.R && 0 <= z < m.R && Get(m, Coord(x, y, z)) :: Coord(x, y, z);
    assert forall c :: InBounds(c, m.R) && Get(m, c) ==> Coord(c.x, c.y, c.z) in full;
    full
  }

  /** A near neighbour of `c` inside the cube that is not yet filled. */
  predicate Fillable(filled: set<Coord>, R: int, c: Coord, d: Delta) {
    InBounds(Shift(c, d), R) && Shift(c, d) !in filled
  }

  /** The first of the near deltas from index `i` on that leads to a
      fillable neighbour. */
  function FirstFillable(filled: set<Coord>, R: int, c: Coord, i: nat): (r: Option<Delta>)
    requires i <= |NearDeltas|
    ensures r.Some? ==> r.value in NearDeltas && Fillable(filled, R, c, r.value)
    ensures r.None? <==> forall j :: i <= j < |NearDeltas| ==> !Fillable(filled, R, c, NearDeltas[j])
    decreases |NearDeltas| - i
  {
    if i == |NearDeltas| then None
    else if Fillable(filled, R, c, NearDeltas[i]) then Some(NearDeltas[i])
    else FirstFillable(filled, R, c, i + 1)
  }

  /** `fillableFrom`: a position near `c`, inside the cube and empty, from
      which a bot can fill `c`; none when every near neighbour is outside
      the cube or filled. */
  function FillableFrom(filled: set<Coord>, R: int, c: Coord): (r: Option<Coord>)
    ensures r.Some? ==> Near(Diff(r.value, c)) && InBounds(r.value, R) && r.value !in filled
    ensures r.None? <==> forall d :: Near(d) ==> !InBounds(Shift(c, d), R) || Shift(c, d) in filled
  {
    var d := FirstFillable(filled, R, c, 0);
    ScanCoversNear(filled, R, c);
    if d.Some? then Some(Shift(c, d.value)) else None
  }

  /** Scanning the near deltas finds a near fillable neighbour, or shows
      there is none. */
  lemma ScanCoversNear(filled: set<Coord>, R: int, c: Coord)
    ensures var d := FirstFillable(filled, R, c, 0);
      d.Some? ==> Near(d.value) && Diff(Shift(c, d.value), c) == d.value
    ensures FirstFillable(filled, R, c, 0).None? <==>
      forall d :: Near(d) ==> !InBounds(Shift(c, d), R) || Shift(c, d) in filled
  {
    var d := FirstFillable(filled, R, c, 0);
    if d.Some? {
      NearDeltasAreTheNearDeltas(d.value);
    } else {
      forall e | Near(e)
        ensures !InBounds(Shift(c, e), R) || Shift(c, e) in filled
      {
        NearDeltasAreTheNearDeltas(e);
        var j :| 0 <= j < |NearDeltas| && NearDeltas[j] == e;
        assert !Fillable(filled, R, c, NearDeltas[j]);
      }
    }
  }

  /** A choice the loop may make: a frontier cell and the position to fill it from. */
  type Fill = (Coord, Coord)

  /** The loop's sort order: lower cell first, then the fill position
      nearer (Manhattan) to the bot. */
  predicate NotAfter(p: Fill, q: Fill, bot: Coord) {
    p.0.y < q.0.y || (p.0.y == q.0.y && Mlen(Diff(p.1, bot)) <= Mlen(Diff(q.1, bot)))
  }

  lemma NotAfterReflexive(p: Fill, bot: Coord)
    ensures NotAfter(p, p, bot)
  {
  }

  lemma NotAfterTotal(p: Fill, q: Fill, bot: Coord)
    ensures NotAfter(p, q, bot) || NotAfter(q, p, bot)
  {
  }

  lemma NotAfterTransitive(p: Fill, q: Fill, r: Fill, bot: Coord)
    requires NotAfter(p, q, bot) && NotAfter(q, r, bot)
    ensures NotAfter(p, r, bot)
  {
  }

  /** Every frontier cell that can be filled, with its fill position. */
  function Candidates(frontier: set<Coord>, filled: set<Coord>, R: int): (cs: set<Fill>)
    ensures forall p :: p in cs <==> p.0 in frontier && FillableFrom(filled, R, p.0) == Some(p.1)
  {
    set c | c in frontier && FillableFrom(filled, R, c).Some? :: (c, FillableFrom(filled, R, c).value)
  }

  /** `p` is a candidate that comes first in the loop's sort order. */
  predicate IsFirst(p: Fill, cs: set<Fill>, bot: Coord) {
    p in cs && forall q :: q in cs ==> NotAfter(p, q, bot)
  }

  lemma {:induction false} FirstExists(cs: set<Fill>, bot: Coord)
    requires cs != {}
    ensures exists p :: IsFirst(p, cs, bot)
    decreases |cs|
  {
    var x :| x in cs;
    if cs == {x} {
      NotAfterReflexive(x, bot);
      assert IsFirst(x, cs, bot);
    } else {
      var rest := cs - {x};
      FirstExists(rest, bot);
      var m :| IsFirst(m, rest, bot);
      var best := if NotAfter(x, m, bot) then x else m;
      NotAfterTotal(x, m, bot);
      forall q | q in cs
        ensures NotAfter(best, q, bot)
      {
        if q == x {
          NotAfterReflexive(x, bot);
        } else {
          assert q in rest;
          NotAfterTransitive(best, m, q, bot);
        }
      }
      assert IsFirst(best, cs, bot);
    }
  }

  /** The head of the sorted candidate list: the first candidate in the sort
      order; none when no frontier cell can be filled. */
  method PickFill(frontier: set<Coord>, filled: set<Coord>, R: int, bot: Coord) returns (r: Option<Fill>)
    ensures r.None? <==> forall c :: c in frontier ==> FillableFrom(filled, R, c).None?
    ensures r.Some? ==> r.value.0 in frontier && FillableFrom(filled, R, r.value.0) == Some(r.value.1)
    ensures r.Some? ==> forall c :: c in frontier && FillableFrom(filled, R, c).Some? ==>
      NotAfter(r.value, (c, FillableFrom(filled, R, c).value), bot)
  {
    var cs := Candidates(frontier, filled, R);
    assert forall c :: c in frontier && FillableFrom(filled, R, c).Some? ==>
      (c, FillableFrom(filled, R, c).value) in cs;
    if cs == {} {
      return None;
    }
    FirstExists(cs, bot);
    var p :| IsFirst(p, cs, bot);
    return Some(p);
  }

  /** The frontier after filling `c`: its face neighbours inside the cube
      that are Full in the model and not yet filled are added, scanning the
      face deltas from index `k` on. */
  function Admit(target: set<Coord>, filled: set<Coord>, frontier: set<Coord>, c: Coord, k: nat): (r: set<Coord>)
    requires k <= |FaceDeltas|
    ensures forall n :: n in r <==>
      (n in frontier || (n in target && n !in filled && exists j :: k <= j < |FaceDeltas| && n == Shift(c, FaceDeltas[j])))
    decreases |FaceDeltas| - k
  {
    if k == |FaceDeltas| then frontier
    else
      var n := Shift(c, FaceDeltas[k]);
      var rest := Admit(target, filled, frontier, c, k + 1);
      if n in target && n !in filled then rest + {n} else rest
  }

  /** The filled cells listed in fill order. */
  function Cells(order: seq<Fill>): (cs: set<Coord>)
    ensures forall c :: c in cs <==> exists i :: 0 <= i < |order| && order[i].0 == c
  {
    set i | 0 <= i < |order| :: order[i].0
  }

  lemma CellsSnoc(order: seq<Fill>, x: Fill)
    ensures Cells(order + [x]) == Cells(order) + {x.0}
  {
    var order' := order + [x];
    forall a | a in Cells(order')
      ensures a in Cells(order) + {x.0}
    {
      var i :| 0 <= i < |order'| && order'[i].0 == a;
      if i < |order| {
        assert order[i].0 == a;
      }
    }
    forall a | a in Cells(order)
      ensures a in Cells(order')
    {
      var i :| 0 <= i < |order| && order[i].0 == a;
      assert order'[i].0 == a;
    }
    assert order'[|order|].0 == x.0;
  }

  /** Each filled cell lies on the floor or shares a face with a cell filled
      before it. */
  predicate GroundedOrder(order: seq<Fill>) {
    forall i :: 0 <= i < |order| ==>
      order[i].0.y == 0 || exists j :: 0 <= j < i && FaceAdjacent(order[j].0, order[i].0)
  }

  /** No cell is filled twice, and each was filled from an empty position
      near it inside the cube. */
  predicate FilledOnceFromNear(order: seq<Fill>, R: int) {
    (forall i, j :: 0 <= i < j < |order| ==> order[i].0 != order[j].0)
    && (forall i :: 0 <= i < |order| ==>
          Near(Diff(order[i].1, order[i].0)) && InBounds(order[i].1, R)
          && forall j :: 0 <= j < i ==> order[j].0 != order[i].1)
  }

  /** `filled` holds every Full floor cell and every Full face neighbour of
      its own cells, and nothing that is not Full. */
  ghost predicate GroundClosed(target: set<Coord>, filled: set<Coord>) {
    filled <= target
    && (forall c :: c in target && c.y == 0 ==> c in filled)
    && (forall c, n :: c in filled && n in target && FaceAdjacent(c, n) ==> n in filled)
  }

  datatype GroundedError = UnfillableGroundedCell | Incomplete

  /** What the frontier loop keeps true. */
  ghost predicate Frontier(target: set<Coord>, frontier: set<Coord>, filled: set<Coord>, order: seq<Fill>, R: int) {
    frontier <= target && filled <= target && frontier !! filled
    && filled == Cells(order)
    && GroundedOrder(order) && FilledOnceFromNear(order, R)
    && (forall c :: c in frontier ==> c.y == 0 || exists j :: 0 <= j < |order| && FaceAdjacent(order[j].0, c))
    && (forall c :: c in target && c.y == 0 ==> c in filled || c in frontier)
    && (forall c, n :: c in filled && n in target && FaceAdjacent(c, n) ==> n in filled || n in frontier)
  }

  /** The grounded strategy's fill loop for the model `model`, the bot
      starting at `bot0`. The answer lists each filled cell with the
      position it was filled from. */
  method GroundedFill(model: Matrix, bot0: Coord) returns (r: Result<seq<Fill>, GroundedError>)
    requires WellSized(model)
    ensures r.Ok? ==> GroundedOrder(r.value) && FilledOnceFromNear(r.value, model.R)
    ensures r.Ok? ==> Cells(r.value) == Target(model)
    ensures r == Err(Incomplete) ==> exists filled :: GroundClosed(Target(model), filled) && filled != Target(model)
  {
    var R := model.R;
    var target := Target(model);
    var frontier := set x, z | 0 <= x < R && 0 <= z < R && Get(model, Coord(x, 0, z)) :: Coord(x, 0, z);
    var filled: set<Coord> := {};
    var order: seq<Fill> := [];
    var bot := bot0;
    assert forall c :: c in target && c.y == 0 ==> Coord(c.x, 0, c.z) in frontier;
    assert Frontier(target, frontier, filled, order, R);
    ghost var cube := AllCoords(R);
    while frontier != {}
      invariant Frontier(target, frontier, filled, order, R)
      decreases |cube - filled|
    {
      var pick := PickFill(frontier, filled, R, bot);
      if pick.None? {
        return Err(UnfillableGroundedCell);
      }
      var (toFill, from) := pick.value;
      CubeShrinks(cube, filled, toFill, R);
      FillKeeps(target, frontier, filled, order, toFill, from, R);
      frontier := frontier - {toFill};
      bot := from;
      filled := filled + {toFill};
      order := order + [(toFill, from)];
      frontier := Admit(target, filled, frontier, toFill, 0);
    }
    assert GroundClosed(target, filled);
    if filled != target {
      return Err(Incomplete);
    }
    return Ok(order);
  }

  /** Filling a fillable frontier cell and admitting its neighbours keeps
      the loop's invariant. */
  lemma FillKeeps(target: set<Coord>, frontier: set<Coord>, filled: set<Coord>, order: seq<Fill>,
                  c: Coord, from: Coord, R: int)
    requires Frontier(target, frontier, filled, order, R)
    requires c in frontier && FillableFrom(filled, R, c) == Some(from)
    ensures Frontier(target, Admit(target, filled + {c}, frontier - {c}, c, 0), filled + {c}, order + [(c, from)], R)
  {
    var filled' := filled + {c};
    var order' := order + [(c, from)];
    var frontier' := Admit(target, filled', frontier - {c}, c, 0);
    OrderKeeps(frontier, filled, order, c, from, R);
    FrontierStaysAdjacent(target, frontier, filled, order, c, from, R);
    ClosureKeeps(target, frontier, filled, c);
  }

  /** Appending the fill of a frontier cell keeps the order grounded, each
      cell filled once, from an empty near position. */
  lemma OrderKeeps(frontier: set<Coord>, filled: set<Coord>, order: seq<Fill>, c: Coord, from: Coord, R: int)
    requires filled == Cells(order) && GroundedOrder(order) && FilledOnceFromNear(order, R)
    requires forall c :: c in frontier ==> c.y == 0 || exists j :: 0 <= j < |order| && FaceAdjacent(order[j].0, c)
    requires c in frontier && c !in filled && FillableFrom(filled, R, c) == Some(from)
    ensures Cells(order + [(c, from)]) == filled + {c}
    ensures GroundedOrder(order + [(c, from)]) && FilledOnceFromNear(order + [(c, from)], R)
  {
    CellsSnoc(order, (c, from));
    GroundedSnoc(order, (c, from));
    FilledOnceSnoc(order, (c, from), R);
  }

  /** A cell on the floor or next to one already filled may come next. */
  lemma GroundedSnoc(order: seq<Fill>, x: Fill)
    requires GroundedOrder(order)
    requires x.0.y == 0 || exists j :: 0 <= j < |order| && FaceAdjacent(order[j].0, x.0)
    ensures GroundedOrder(order + [x])
  {
    var order' := order + [x];
    forall i | 0 <= i < |order'|
      ensures order'[i].0.y == 0 || exists j :: 0 <= j < i && FaceAdjacent(order'[j].0, order'[i].0)
    {
      if i < |order| {
        if order[i].0.y != 0 {
          var j :| 0 <= j < i && FaceAdjacent(order[j].0, order[i].0);
          assert order'[j] == order[j];
        }
      } else if x.0.y != 0 {
        var j :| 0 <= j < |order| && FaceAdjacent(order[j].0, x.0);
        assert order'[j] == order[j];
      }
    }
  }

  /** A cell not yet filled, filled from a near empty position inside the
      cube, may come next. */
  lemma FilledOnceSnoc(order: seq<Fill>, x: Fill, R: int)
    requires FilledOnceFromNear(order, R)
    requires x.0 !in Cells(order) && x.1 !in Cells(order)
    requires Near(Diff(x.1, x.0)) && InBounds(x.1, R)
    ensures FilledOnceFromNear(order + [x], R)
  {
    var order' := order + [x];
    assert forall i :: 0 <= i < |order| ==> order'[i] == order[i];
  }

  /** A face delta leads to a face neighbour. */
  lemma StepIsFaceAdjacent(c: Coord, j: nat)
    requires j < |FaceDeltas|
    ensures FaceAdjacent(c, Shift(c, FaceDeltas[j]))
  {
  }

  /** After the fill every frontier cell is still on the floor or next to a
      filled cell. */
  lemma FrontierStaysAdjacent(target: set<Coord>, frontier: set<Coord>, filled: set<Coord>, order: seq<Fill>,
                              c: Coord, from: Coord, R: int)
    requires forall c :: c in frontier ==> c.y == 0 || exists j :: 0 <= j < |order| && FaceAdjacent(order[j].0, c)
    requires frontier <= target && filled <= target && frontier !! filled && c in frontier
    ensures var frontier' := Admit(target, filled + {c}, frontier - {c}, c, 0);
      frontier' <= target && frontier' !! (filled + {c})
      && forall n :: n in frontier' ==>
           n.y == 0 || exists j :: 0 <= j < |order| + 1 && FaceAdjacent((order + [(c, from)])[j].0, n)
  {
    var order' := order + [(c, from)];
    var frontier' := Admit(target, filled + {c}, frontier - {c}, c, 0);
    forall n | n in frontier'
      ensures n.y == 0 || exists j :: 0 <= j < |order'| && FaceAdjacent(order'[j].0, n)
    {
      if n !in frontier {
        var j :| 0 <= j < |FaceDeltas| && n == Shift(c, FaceDeltas[j]);
        StepIsFaceAdjacent(c, j);
        assert order'[|order|].0 == c;
      } else if n.y != 0 {
        var j :| 0 <= j < |order| && FaceAdjacent(order[j].0, n);
        assert order'[j] == order[j];
      }
    }
  }

  /** The floor stays covered and the filled set's Full face neighbours stay
      filled or on the frontier. */
  lemma ClosureKeeps(target: set<Coord>, frontier: set<Coord>, filled: set<Coord>, c: Coord)
    requires forall a :: a in target && a.y == 0 ==> a in filled || a in frontier
    requires forall a, n :: a in filled && n in target && FaceAdjacent(a, n) ==> n in filled || n in frontier
    requires c in frontier
    ensures var frontier' := Admit(target, filled + {c}, frontier - {c}, c, 0);
      (forall a :: a in target && a.y == 0 ==> a in filled + {c} || a in frontier')
      && forall a, n :: a in filled + {c} && n in target && FaceAdjacent(a, n) ==> n in filled + {c} || n in frontier'
  {
    var filled' := filled + {c};
    var frontier' := Admit(target, filled', frontier - {c}, c, 0);
    forall a, n | a in filled' && n in target && FaceAdjacent(a, n)
      ensures n in filled' || n in frontier'
    {
      if a == c && n !in filled' {
        FaceDeltasAreUnitSteps(Diff(n, c));
        var j :| 0 <= j < |FaceDeltas| && FaceDeltas[j] == Diff(n, c);
        assert n == Shift(c, FaceDeltas[j]);
      }
    }
  }
}
