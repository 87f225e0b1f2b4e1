/** A nanobot (`Bot`) and its read-only view (`BotView`). */
module Bots {
  import opened Geometry
  import opened Ordered

  /** `seeds` is a sorted set: a set, enumerated in ascending order. */
  datatype Bot = Bot(id: int, pos: Coord, seeds: set<int>)

  /** What `BotView` exposes: the id, the position, and the seeds as an
      ascending sequence. */
  datatype BotView = BotView(id: int, pos: Coord, seeds: seq<int>)

  function View(b: Bot): (v: BotView)
    ensures v.id == b.id && v.pos == b.pos
    ensures StrictlyIncreasing(v.seeds)
    ensures |v.seeds| == |b.seeds|
    ensures forall k :: k in b.seeds <==> k in v.seeds
  {
    BotView(b.id, b.pos, Ascending(b.seeds))
  }

  /** The view determines the bot. */
  lemma ViewInjective(a: Bot, b: Bot)
    requires View(a) == View(b)
    ensures a == b
  {
    assert forall k :: k in a.seeds <==> k in b.seeds;
  }

  /** The ids a bot accounts for: its own and its seeds. */
  function Owned(b: Bot): (s: set<int>)
    ensures b.id in s && b.seeds <= s
    ensures forall k :: k in s ==> k == b.id || k in b.seeds
  {
    {b.id} + b.seeds
  }
}
