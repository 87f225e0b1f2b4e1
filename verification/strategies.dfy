/** `multiSMove`, the helper the strategies use to bring one bot to a
    target: short s-moves of at most 5 along x, then y, then z, each axis
    only while the bot is still below the target on it. The bot's position
    is the only part of the state the helper reads. */
module Strategies {
  import opened Geometry

  /** The moves `multiSMove` makes along one axis to bring a bot from `s`
      up to `t`: each a positive move of 1 to 5 along the axis, adding up to
      the distance (nothing when `s` is not below `t`), in as few moves as
      the 5 limit allows. */
  function Leg(axis: nat, s: int, t: int): (ds: seq<Delta>)
    ensures forall i :: 0 <= i < |ds| ==> 1 <= Mlen(ds[i]) <= 5 && ds[i] == Along(axis, Mlen(ds[i]))
    ensures forall i :: 0 <= i < |ds| ==> ShortLinear(ds[i])
    ensures 5 * |ds| >= t - s && (|ds| > 0 ==> 5 * (|ds| - 1) < t - s)
    decreases t - s
  {
    if s >= t then []
    else
      var c := Min(5, t - s);
      [Along(axis, c)] + Leg(axis, s + c, t)
  }

  /** A leg carries the bot by the distance to `t`, or not at all. */
  lemma {:induction false} LegTotal(axis: nat, s: int, t: int)
    ensures Total(Leg(axis, s, t)) == Along(axis, Max(t - s, 0))
    decreases t - s
  {
    if s < t {
      var c := Min(5, t - s);
      LegTotal(axis, s + c, t);
      assert Leg(axis, s, t)[1..] == Leg(axis, s + c, t);
    }
  }

  /** One of `multiSMove`'s loops: the moves along `axis` that bring the
      coordinate `s` up to `t`, and the coordinate reached. */
  method Approach(axis: nat, s: int, t: int) returns (moves: seq<Delta>, p: int)
    ensures moves == Leg(axis, s, t)
    ensures p == Max(s, t)
  {
    moves, p := [], s;
    while p < t
      invariant s <= p <= Max(s, t)
      invariant moves + Leg(axis, p, t) == Leg(axis, s, t)
      decreases t - p
    {
      var c := Min(5, t - p);
      moves, p := moves + [Along(axis, c)], p + c;
    }
  }

  /** `multiSMove(b, target)`: the moves made and where the bot ends up:
      first the x moves, then the y moves, then the z moves, the bot ending
      at the target on every axis where it started below it and not moving
      on the others. */
  method MultiSMove(start: Coord, target: Coord) returns (moves: seq<Delta>, pos: Coord)
    ensures moves == Leg(0, start.x, target.x) + Leg(1, start.y, target.y) + Leg(2, start.z, target.z)
    ensures pos == Coord(Max(start.x, target.x), Max(start.y, target.y), Max(start.z, target.z))
  {
    var xs, x := Approach(0, start.x, target.x);
    var ys, y := Approach(1, start.y, target.y);
    var zs, z := Approach(2, start.z, target.z);
    moves, pos := xs + ys + zs, Coord(x, y, z);
  }

  /** Three legs along x, y and z add up to the three distances. */
  lemma ThreeLegs(start: Coord, target: Coord, a: seq<Delta>, b: seq<Delta>, c: seq<Delta>)
    requires Total(a) == Along(0, Max(target.x - start.x, 0))
    requires Total(b) == Along(1, Max(target.y - start.y, 0))
    requires Total(c) == Along(2, Max(target.z - start.z, 0))
    ensures Shift(start, Total(a + b + c)) == Coord(Max(start.x, target.x), Max(start.y, target.y), Max(start.z, target.z))
  {
    TotalOfThree(a, b, c);
    Arrive(start, target, Total(a + b + c));
  }

  lemma TotalOfThree(a: seq<Delta>, b: seq<Delta>, c: seq<Delta>)
    ensures Total(a + b + c) == Plus(Plus(Total(a), Total(b)), Total(c))
  {
    TotalAppend(a + b, c);
    TotalAppend(a, b);
  }

  lemma Arrive(start: Coord, target: Coord, d: Delta)
    requires d == Plus(Plus(Along(0, Max(target.x - start.x, 0)), Along(1, Max(target.y - start.y, 0))),
                       Along(2, Max(target.z - start.z, 0)))
    ensures Shift(start, d) == Coord(Max(start.x, target.x), Max(start.y, target.y), Max(start.z, target.z))
  {
  }

  /** The moves of one axis only touch that axis: the moves `multiSMove`
      makes add up to where it leaves the bot, and that is the target
      exactly when the bot starts at or below it on every axis. */
  lemma MultiSMoveReaches(start: Coord, target: Coord)
    ensures var moves := Leg(0, start.x, target.x) + Leg(1, start.y, target.y) + Leg(2, start.z, target.z);
      Shift(start, Total(moves)) == Coord(Max(start.x, target.x), Max(start.y, target.y), Max(start.z, target.z))
    ensures var moves := Leg(0, start.x, target.x) + Leg(1, start.y, target.y) + Leg(2, start.z, target.z);
      Shift(start, Total(moves)) == target <==> start.x <= target.x && start.y <= target.y && start.z <= target.z
  {
    LegTotal(0, start.x, target.x);
    LegTotal(1, start.y, target.y);
    LegTotal(2, start.z, target.z);
    ThreeLegs(start, target, Leg(0, start.x, target.x), Leg(1, start.y, target.y), Leg(2, start.z, target.z));
  }
}
