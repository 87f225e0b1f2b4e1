/** The nanobot simulation state (`State`): one guarded transition per
    command, energy accounting, the seed partition, and the `step` barrier.
    The JVM `assert`s guarding each command are preconditions here. */
module Simulation {
  import opened Geometry
  import opened Ordered
  import opened Voxels
  import opened Bots
  import opened Commands

  datatype Harmonics = Low | High

  /** The largest bot id: ids and seeds together are 1..20. */
  const MaxId := 20

  /** `bots` maps each id to its bot; the keys of `acted` are the bots that
      acted this round and its values the commands they issued, the round
      handed to the trace writer at `step`. */
  datatype State = State(
    matrix: Matrix,
    bots: map<int, Bot>,
    acted: map<int, Command>,
    expected: int,
    harmonics: Harmonics,
    energy: int)

  /** The resolution is the matrix's; the volume is R^3. */
  function Volume(s: State): int {
    Cube(s.matrix.R)
  }

  /** lo, lo+1, ..., hi. */
  function IdSeq(lo: int, hi: int): (q: seq<int>)
    ensures |q| == if lo <= hi then hi - lo + 1 else 0
    ensures forall i :: 0 <= i < |q| ==> q[i] == lo + i
  {
    seq(if lo <= hi then hi - lo + 1 else 0, i => lo + i)
  }

  function IdRange(lo: int, hi: int): (r: set<int>)
    ensures forall k :: k in r <==> lo <= k <= hi
  {
    var q := IdSeq(lo, hi);
    forall k | lo <= k <= hi
      ensures k in q
    {
      assert q[k - lo] == k;
    }
    set k | k in q
  }

  /** Every id 1..20 belongs to exactly one bot, as its id or as a seed. */
  ghost predicate Partitioned(bots: map<int, Bot>) {
    (forall i | i in bots :: bots[i].id == i && i !in bots[i].seeds)
    && (forall i, j | i in bots && j in bots && i != j :: Owned(bots[i]) !! Owned(bots[j]))
    && (forall i, k | i in bots && k in Owned(bots[i]) :: 1 <= k <= MaxId)
    && (forall k | k in IdRange(1, MaxId) :: exists i :: i in bots && k in Owned(bots[i]))
  }

  /** Same bots, same ids, same seeds; positions may differ. */
  predicate SameCrew(a: map<int, Bot>, b: map<int, Bot>) {
    a.Keys == b.Keys && forall i | i in a :: b[i].id == a[i].id && b[i].seeds == a[i].seeds
  }

  lemma SameCrewKeepsPartition(a: map<int, Bot>, b: map<int, Bot>)
    requires Partitioned(a) && SameCrew(a, b)
    ensures Partitioned(b)
  {
    assert forall i | i in a :: Owned(b[i]) == Owned(a[i]);
    forall k | k in IdRange(1, MaxId)
      ensures exists i :: i in b && k in Owned(b[i])
    {
      var i :| i in a && k in Owned(a[i]);
      assert k in Owned(b[i]);
    }
  }

  /** `loadFrom`: Low harmonics, no energy, bot 1 at the origin holding
      seeds 2..20, one action expected. */
  function LoadFrom(m: Matrix): (s: State)
    ensures s.matrix == m && s.harmonics == Low && s.energy == 0
    ensures s.bots.Keys == {1} && s.expected == |s.bots| == 1 && s.acted == map[]
    ensures s.bots[1].pos == Origin && View(s.bots[1]).seeds == IdSeq(2, MaxId)
    ensures Partitioned(s.bots)
  {
    var b := Bot(1, Origin, IdRange(2, MaxId));
    FirstBotSeeds(b, MaxId);
    SingleBotPartition(b, MaxId);
    State(m, map[1 := b], map[], 1, Low, 0)
  }

  lemma FirstBotSeeds(b: Bot, hi: int)
    requires b.seeds == IdRange(2, hi)
    ensures View(b).seeds == IdSeq(2, hi)
  {
    RangeAscending(2, hi);
  }

  lemma RangeAscending(lo: int, hi: int)
    ensures Ascending(IdRange(lo, hi)) == IdSeq(lo, hi)
  {
    var w := IdSeq(lo, hi);
    forall x | x in IdRange(lo, hi)
      ensures x in w
    {
      assert w[x - lo] == x;
    }
    AscendingUnique(IdRange(lo, hi), w);
  }

  lemma SingleBotPartition(b: Bot, hi: int)
    requires b.id == 1 && b.seeds == IdRange(2, hi) && hi == MaxId
    ensures Partitioned(map[1 := b])
  {
    var bots := map[1 := b];
    forall k | k in IdRange(1, MaxId)
      ensures exists i :: i in bots && k in Owned(bots[i])
    {
      assert 1 in bots && k in Owned(bots[1]);
    }
  }

  /** `halt`: the last bot, at the origin, in Low harmonics, leaves. */
  function Halt(s: State, id: int): (r: State)
    requires id in s.bots && |s.bots| == 1
    requires s.bots[id].pos == Origin && s.harmonics == Low
    ensures r.bots == map[]
    ensures r.acted == s.acted[id := Command.Halt]
    ensures r.energy == s.energy && r.harmonics == s.harmonics && r.matrix == s.matrix
    ensures r.expected == s.expected
  {
    assert s.bots.Keys == {id} by {
      var others := s.bots.Keys - {id};
      assert |others| == 0;
    }
    s.(bots := s.bots - {id}, acted := s.acted[id := Command.Halt])
  }

  /** `wait`: only marks the bot as acted. */
  function Wait(s: State, id: int): (r: State)
    requires id in s.bots
    ensures r.bots == s.bots && r.energy == s.energy && r.harmonics == s.harmonics
    ensures r.acted.Keys == s.acted.Keys + {id} && r.acted[id] == Command.Wait
    ensures r.matrix == s.matrix && r.expected == s.expected
  {
    s.(acted := s.acted[id := Command.Wait])
  }

  function Toggle(h: Harmonics): (g: Harmonics)
    ensures g != h
  {
    if h == Low then High else Low
  }

  /** `flip`: toggles the harmonics and marks the bot as acted. */
  function Flip(s: State, id: int): (r: State)
    requires id in s.bots
    ensures r.harmonics != s.harmonics
    ensures r.bots == s.bots && r.energy == s.energy
    ensures r.acted.Keys == s.acted.Keys + {id} && r.acted[id] == Command.Flip
    ensures r.matrix == s.matrix && r.expected == s.expected
  {
    s.(harmonics := Toggle(s.harmonics), acted := s.acted[id := Command.Flip])
  }

  lemma FlipTwice(s: State, id: int)
    requires id in s.bots
    ensures Flip(Flip(s, id), id).harmonics == s.harmonics
  {
  }

  /** Moves bot `id` to `p`, leaving every other bot as it was. */
  function MoveBot(bots: map<int, Bot>, id: int, p: Coord): (r: map<int, Bot>)
    requires id in bots
    ensures SameCrew(bots, r)
    ensures r[id].pos == p
    ensures forall i | i in bots && i != id :: r[i] == bots[i]
  {
    bots[id := bots[id].(pos := p)]
  }

  /** Moving a bot back to where it was restores the bot map. */
  lemma MoveBotBack(bots: map<int, Bot>, id: int, p: Coord)
    requires id in bots
    ensures MoveBot(MoveBot(bots, id, p), id, bots[id].pos) == bots
  {
    var r := MoveBot(MoveBot(bots, id, p), id, bots[id].pos);
    assert r[id] == bots[id];
  }

  /** `sMove`: a long-linear straight move to an in-bounds cell, costing 2 per step. */
  function SMove(s: State, id: int, d: Delta): (r: State)
    requires id in s.bots && LongLinear(d)
    requires InBounds(Shift(s.bots[id].pos, d), s.matrix.R)
    ensures r.bots == MoveBot(s.bots, id, Shift(s.bots[id].pos, d))
    ensures r.energy == s.energy + 2 * Mlen(d)
    ensures r.acted == s.acted[id := Command.SMove(d)]
    ensures r.harmonics == s.harmonics && r.matrix == s.matrix && r.expected == s.expected
  {
    var p := Shift(s.bots[id].pos, d);
    s.(bots := MoveBot(s.bots, id, p), energy := s.energy + 2 * Mlen(d),
       acted := s.acted[id := Command.SMove(d)])
  }

  /** `lMove`: two short-linear legs, both landing in bounds; the corner costs 2 more. */
  function LMove(s: State, id: int, d0: Delta, d1: Delta): (r: State)
    requires id in s.bots && ShortLinear(d0) && ShortLinear(d1)
    requires InBounds(Shift(s.bots[id].pos, d0), s.matrix.R)
    requires InBounds(Shift(Shift(s.bots[id].pos, d0), d1), s.matrix.R)
    ensures r.bots == MoveBot(s.bots, id, Shift(Shift(s.bots[id].pos, d0), d1))
    ensures r.energy == s.energy + 2 * (Mlen(d0) + 2 + Mlen(d1))
    ensures r.acted == s.acted[id := Command.LMove(d0, d1)]
    ensures r.harmonics == s.harmonics && r.matrix == s.matrix && r.expected == s.expected
  {
    var p := Shift(Shift(s.bots[id].pos, d0), d1);
    s.(bots := MoveBot(s.bots, id, p), energy := s.energy + 2 * (Mlen(d0) + 2 + Mlen(d1)),
       acted := s.acted[id := Command.LMove(d0, d1)])
  }

  /** A straight move and the move back restore every bot and cost twice. */
  lemma SMoveThereAndBack(s: State, id: int, d: Delta)
    requires id in s.bots && LongLinear(d)
    requires InBounds(s.bots[id].pos, s.matrix.R)
    requires InBounds(Shift(s.bots[id].pos, d), s.matrix.R)
    ensures var t := SMove(s, id, d);
      LongLinear(Neg(d)) && InBounds(Shift(t.bots[id].pos, Neg(d)), t.matrix.R)
    ensures var r := SMove(SMove(s, id, d), id, Neg(d));
      r.bots == s.bots && r.energy == s.energy + 4 * Mlen(d)
  {
    var t := SMove(s, id, d);
    assert Shift(t.bots[id].pos, Neg(d)) == s.bots[id].pos;
    MoveBotBack(s.bots, id, Shift(s.bots[id].pos, d));
  }

  /** The legs of an L move, negated and taken in reverse order, form an L
      move again and retrace the same cells. */
  lemma ReverseLegs(p: Coord, d0: Delta, d1: Delta)
    requires ShortLinear(d0) && ShortLinear(d1)
    ensures ShortLinear(Neg(d1)) && ShortLinear(Neg(d0))
    ensures Mlen(Neg(d1)) == Mlen(d1) && Mlen(Neg(d0)) == Mlen(d0)
    ensures Shift(Shift(Shift(p, d0), d1), Neg(d1)) == Shift(p, d0)
    ensures Shift(Shift(Shift(Shift(p, d0), d1), Neg(d1)), Neg(d0)) == p
  {
  }

  /** An L move retraced leg by leg in reverse restores every bot. */
  lemma LMoveThereAndBack(s: State, id: int, d0: Delta, d1: Delta)
    requires id in s.bots && ShortLinear(d0) && ShortLinear(d1)
    requires InBounds(s.bots[id].pos, s.matrix.R)
    requires InBounds(Shift(s.bots[id].pos, d0), s.matrix.R)
    requires InBounds(Shift(Shift(s.bots[id].pos, d0), d1), s.matrix.R)
    ensures var t := LMove(s, id, d0, d1);
      ShortLinear(Neg(d1)) && ShortLinear(Neg(d0))
      && InBounds(Shift(t.bots[id].pos, Neg(d1)), t.matrix.R)
      && InBounds(Shift(Shift(t.bots[id].pos, Neg(d1)), Neg(d0)), t.matrix.R)
    ensures var r := LMove(LMove(s, id, d0, d1), id, Neg(d1), Neg(d0));
      r.bots == s.bots && r.energy == s.energy + 4 * (Mlen(d0) + 2 + Mlen(d1))
  {
    var p := s.bots[id].pos;
    var t := LMove(s, id, d0, d1);
    var e := Shift(Shift(p, d0), d1);
    ReverseLegs(p, d0, d1);
    assert t.bots[id].pos == e;
    var r := LMove(t, id, Neg(d1), Neg(d0));
    assert r.bots == MoveBot(t.bots, id, p);
    MoveBotBack(s.bots, id, e);
  }

  /** `fill`: a near, in-bounds cell; costs 12. No voxel changes. */
  function Fill(s: State, id: int, d: Delta): (r: State)
    requires id in s.bots && Near(d)
    requires InBounds(Shift(s.bots[id].pos, d), s.matrix.R)
    ensures r.bots == s.bots && r.matrix == s.matrix
    ensures r.energy == s.energy + 12
    ensures r.acted.Keys == s.acted.Keys + {id} && r.acted[id] == Command.Fill(d)
    ensures r.harmonics == s.harmonics && r.expected == s.expected
  {
    s.(energy := s.energy + 12, acted := s.acted[id := Command.Fill(d)])
  }

  /** The seeds of a bot, in ascending order. */
  function Sorted(b: Bot): seq<int> {
    Ascending(b.seeds)
  }

  /** How `fission` divides a bot's seeds. */
  datatype Split = Split(newId: int, child: set<int>, parent: set<int>)

  /** The seeds a `fission` with argument m hands over (with the new id):
      `headSet` of the seed after the (m+1)-th smallest. */
  function HeadSeeds(seeds: set<int>, m: int): set<int>
    requires 0 <= m < |seeds|
  {
    set k | k in seeds && k <= Ascending(seeds)[m]
  }

  /** The seeds the parent keeps: `tailSet` of the same pivot. */
  function TailSeeds(seeds: set<int>, m: int): set<int>
    requires 0 <= m < |seeds|
  {
    set k | k in seeds && k > Ascending(seeds)[m]
  }

  /** The new bot's id is the smallest seed, it takes the next m seeds,
      and the parent keeps the rest. The three pieces are disjoint and make
      up the seeds, and every seed handed over is below every seed kept. */
  function SplitSeeds(seeds: set<int>, m: int): (r: Split)
    requires 0 <= m < |seeds|
    ensures r.newId == Least(seeds)
    ensures r.newId !in r.child && r.newId !in r.parent && r.child !! r.parent
    ensures forall k :: k in seeds <==> k == r.newId || k in r.child || k in r.parent
    ensures |r.child| == m
    ensures forall x, y | x in r.child && y in r.parent :: x < y
  {
    var head := HeadSeeds(seeds, m);
    SplitSlices(seeds, m);
    var n := Least(head);
    Split(n, head - {n}, TailSeeds(seeds, m))
  }

  lemma SplitSlices(seeds: set<int>, m: int)
    requires 0 <= m < |seeds|
    ensures HeadSeeds(seeds, m) != {} && Least(HeadSeeds(seeds, m)) == Least(seeds)
    ensures var head := HeadSeeds(seeds, m);
      Ascending(head - {Least(head)}) == Ascending(seeds)[1..m + 1]
    ensures Ascending(TailSeeds(seeds, m)) == Ascending(seeds)[m + 1..]
    ensures var head := HeadSeeds(seeds, m); |head - {Least(head)}| == m
  {
    var q := Ascending(seeds);
    var head := HeadSeeds(seeds, m);
    LowSlice(seeds, m, head);
    HighSlice(seeds, m, TailSeeds(seeds, m));
    AscendingWithoutLeast(head);
    AscendingWithoutLeast(seeds);
    assert q[..m + 1][1..] == q[1..m + 1];
  }

  /** The pieces of the split, enumerated, are consecutive runs of the
      ascending seeds: the new id first, then the child's m seeds, then
      the parent's. */
  lemma SplitSeedsSlices(seeds: set<int>, m: int)
    requires 0 <= m < |seeds|
    ensures var r := SplitSeeds(seeds, m); var q := Ascending(seeds);
      r.newId == q[0] && Ascending(r.child) == q[1..m + 1] && Ascending(r.parent) == q[m + 1..]
  {
    SplitSlices(seeds, m);
    AscendingWithoutLeast(seeds);
  }

  /** `fission`: the new bot takes the smallest seed as its id and the next
      m seeds; the parent keeps the seeds above those. Costs 24. The new
      bot is not marked as acted. */
  function Fission(s: State, id: int, d: Delta, m: int): (r: State)
    requires id in s.bots && Near(d) && s.bots[id].seeds != {}
    requires InBounds(Shift(s.bots[id].pos, d), s.matrix.R)
    requires 0 <= m < |s.bots[id].seeds|
    ensures var b := s.bots[id]; var n := Least(b.seeds);
      && r.bots.Keys == s.bots.Keys + {n}
      && r.bots[n] == Bot(n, Shift(b.pos, d), SplitSeeds(b.seeds, m).child)
      && (n != id ==> r.bots[id] == b.(seeds := SplitSeeds(b.seeds, m).parent))
      && forall i | i in s.bots && i != id && i != n :: r.bots[i] == s.bots[i]
    ensures r.energy == s.energy + 24
    ensures r.acted == s.acted[id := Command.Fission(d, m)]
    ensures r.harmonics == s.harmonics && r.matrix == s.matrix && r.expected == s.expected
  {
    var b := s.bots[id];
    var sp := SplitSeeds(b.seeds, m);
    var child := Bot(sp.newId, Shift(b.pos, d), sp.child);
    s.(bots := s.bots[id := b.(seeds := sp.parent)][sp.newId := child],
       energy := s.energy + 24,
       acted := s.acted[id := Command.Fission(d, m)])
  }

  /** After `fission` the new bot's seeds, enumerated, are the m seeds after
      the smallest, and the parent's are the rest: every seed stays with
      exactly one of the three. */
  lemma FissionDividesSeeds(s: State, id: int, d: Delta, m: int)
    requires id in s.bots && Near(d) && s.bots[id].seeds != {}
    requires InBounds(Shift(s.bots[id].pos, d), s.matrix.R)
    requires 0 <= m < |s.bots[id].seeds|
    requires id !in s.bots[id].seeds
    ensures var r := Fission(s, id, d, m); var q := Sorted(s.bots[id]);
      && q[0] != id
      && Sorted(r.bots[q[0]]) == q[1..m + 1]
      && Sorted(r.bots[id]) == q[m + 1..]
      && (forall k :: k in s.bots[id].seeds <==>
            k == q[0] || k in r.bots[q[0]].seeds || k in r.bots[id].seeds)
  {
    var b := s.bots[id];
    SplitSeedsSlices(b.seeds, m);
  }

  /** The seeds up to the (m+1)-th are the first m+1 entries of the
      ascending enumeration. */
  lemma LowSlice(seeds: set<int>, m: int, low: set<int>)
    requires 0 <= m < |seeds|
    requires forall k :: k in low <==> k in seeds && k <= Ascending(seeds)[m]
    ensures Ascending(low) == Ascending(seeds)[..m + 1]
  {
    var q := Ascending(seeds);
    SameMembers(seeds);
    LowOfSequence(q, m, low);
  }

  lemma BelowPivot(q: seq<int>, m: int, low: set<int>)
    requires StrictlyIncreasing(q) && 0 <= m < |q|
    requires forall k :: k in low <==> k in q && k <= q[m]
    ensures forall i :: 0 <= i < m + 1 ==> q[i] in low
    ensures forall x :: x in low ==> x in q[0..m + 1]
  {
    forall i | 0 <= i < m + 1
      ensures q[i] in low
    {
      IndexOrder(q, i, m);
    }
    forall x | x in low
      ensures x in q[0..m + 1]
    {
      var j :| 0 <= j < |q| && q[j] == x;
      IndexOrder(q, m, j);
      assert q[0..m + 1][j] == x;
    }
  }

  lemma LowOfSequence(q: seq<int>, m: int, low: set<int>)
    requires StrictlyIncreasing(q) && 0 <= m < |q|
    requires forall k :: k in low <==> k in q && k <= q[m]
    ensures Ascending(low) == q[..m + 1]
  {
    BelowPivot(q, m, low);
    SliceIsAscending(q, 0, m + 1, low);
    assert q[0..m + 1] == q[..m + 1];
  }

  lemma HighOfSequence(q: seq<int>, m: int, high: set<int>)
    requires StrictlyIncreasing(q) && 0 <= m < |q|
    requires forall k :: k in high <==> k in q && k > q[m]
    ensures Ascending(high) == q[m + 1..]
  {
    AbovePivot(q, m, high);
    SliceIsAscending(q, m + 1, |q|, high);
    assert q[m + 1..|q|] == q[m + 1..];
  }

  /** A set and its ascending enumeration have the same members. */
  lemma SameMembers(s: set<int>)
    ensures forall k :: k in s <==> k in Ascending(s)
  {
    var q := Ascending(s);
    forall k | k in q
      ensures k in s
    {
      var i :| 0 <= i < |q| && q[i] == k;
    }
  }

  /** The seeds above the (m+1)-th are the rest of the ascending enumeration. */
  lemma HighSlice(seeds: set<int>, m: int, high: set<int>)
    requires 0 <= m < |seeds|
    requires forall k :: k in high <==> k in seeds && k > Ascending(seeds)[m]
    ensures Ascending(high) == Ascending(seeds)[m + 1..]
  {
    var q := Ascending(seeds);
    SameMembers(seeds);
    HighOfSequence(q, m, high);
  }

  lemma AbovePivot(q: seq<int>, m: int, high: set<int>)
    requires StrictlyIncreasing(q) && 0 <= m < |q|
    requires forall k :: k in high <==> k in q && k > q[m]
    ensures forall i :: m + 1 <= i < |q| ==> q[i] in high
    ensures forall x :: x in high ==> x in q[m + 1..|q|]
  {
    forall i | m + 1 <= i < |q|
      ensures q[i] in high
    {
      IndexOrder(q, m, i);
    }
    forall x | x in high
      ensures x in q[m + 1..|q|]
    {
      var j :| 0 <= j < |q| && q[j] == x;
      IndexOrder(q, m, j);
      assert q[m + 1..|q|][j - m - 1] == x;
    }
  }

  /** Removing the least element drops the head of the enumeration. */
  lemma AscendingWithoutLeast(s: set<int>)
    requires s != {}
    ensures Ascending(s)[0] == Least(s)
    ensures Ascending(s - {Least(s)}) == Ascending(s)[1..]
  {
  }

  /** The members of `t` are exactly the entries q[a..b] of an ascending
      sequence, so `q[a..b]` is the ascending enumeration of `t`. */
  lemma SliceIsAscending(q: seq<int>, a: int, b: int, t: set<int>)
    requires StrictlyIncreasing(q) && 0 <= a <= b <= |q|
    requires forall i :: a <= i < b ==> q[i] in t
    requires forall x :: x in t ==> x in q[a..b]
    ensures Ascending(t) == q[a..b]
  {
    var w := q[a..b];
    assert forall i :: 0 <= i < |w| ==> w[i] == q[a + i];
    AscendingUnique(t, w);
  }

  /** `fusion`: the secondary bot merges into the primary, which gains its id
      and seeds; 24 energy is recovered and both bots are marked as acted. */
  function Fusion(s: State, p: int, q: int): (r: State)
    requires p in s.bots && q in s.bots
    requires Near(Diff(s.bots[p].pos, s.bots[q].pos))
    ensures s.bots[q].id == q ==>
      && r.bots.Keys == s.bots.Keys - {q}
      && r.bots[p] == s.bots[p].(seeds := s.bots[p].seeds + Owned(s.bots[q]))
      && forall i | i in r.bots && i != p :: r.bots[i] == s.bots[i]
    ensures r.energy == s.energy - 24
    ensures r.acted.Keys == s.acted.Keys + {p, q}
    ensures r.acted[p] == FusionP(Diff(s.bots[q].pos, s.bots[p].pos))
    ensures r.acted[q] == FusionS(Diff(s.bots[p].pos, s.bots[q].pos))
    ensures r.harmonics == s.harmonics && r.matrix == s.matrix && r.expected == s.expected
  {
    var pb := s.bots[p];
    var sb := s.bots[q];
    var removed := s.bots - {sb.id};
    var merged := pb.(seeds := pb.seeds + {sb.id} + sb.seeds);
    var bots := if p in removed then removed[p := merged] else removed;
    assert p != q by {
      assert Diff(pb.pos, sb.pos) != Zero;
    }
    s.(bots := bots, energy := s.energy - 24,
       acted := s.acted[p := FusionP(Diff(sb.pos, pb.pos))][q := FusionS(Diff(pb.pos, sb.pos))])
  }

  /** `step`: every bot expected this round has acted; the next round expects
      one action per bot now present. Each round costs 30 (High) or 3 (Low)
      per voxel of the space. Returns the round's commands for the writer. */
  function Step(s: State): (r: (State, map<int, Command>))
    requires |s.acted.Keys| == s.expected
    ensures r.1 == s.acted
    ensures r.0.acted == map[] && r.0.expected == |s.bots|
    ensures r.0.energy == s.energy + (if s.harmonics == High then 30 else 3) * Volume(s)
    ensures r.0.bots == s.bots && r.0.harmonics == s.harmonics && r.0.matrix == s.matrix
  {
    (s.(expected := |s.bots|, acted := map[],
        energy := s.energy + (if s.harmonics == High then 30 else 3) * Volume(s)), s.acted)
  }

  // ---------------------------------------------------------------------
  // The seed partition

  /** Replacing one bot by two whose ids and seeds divide what it owned
      keeps the partition. */
  lemma DivideKeepsPartition(bots: map<int, Bot>, id: int, a: Bot, n: int, c: Bot)
    requires Partitioned(bots) && id in bots && n !in bots
    requires a.id == id && c.id == n && id !in a.seeds && n !in c.seeds
    requires Owned(a) !! Owned(c)
    requires forall k :: k in Owned(bots[id]) <==> k in Owned(a) || k in Owned(c)
    ensures Partitioned(bots[id := a][n := c])
  {
    var r := bots[id := a][n := c];
    DivideDisjoint(bots, id, a, n, c);
    forall k | k in IdRange(1, MaxId)
      ensures exists i :: i in r && k in Owned(r[i])
    {
      var i :| i in bots && k in Owned(bots[i]);
      if i != id {
        assert i in r && k in Owned(r[i]);
      } else if k in Owned(a) {
        assert id in r && k in Owned(r[id]);
      } else {
        assert n in r && k in Owned(r[n]);
      }
    }
    forall i, k | i in r && k in Owned(r[i])
      ensures 1 <= k <= MaxId
    {
      if i == id || i == n {
        assert k in Owned(bots[id]);
      } else {
        assert k in Owned(bots[i]);
      }
    }
  }

  lemma DivideDisjoint(bots: map<int, Bot>, id: int, a: Bot, n: int, c: Bot)
    requires Partitioned(bots) && id in bots && n !in bots
    requires Owned(a) !! Owned(c)
    requires forall k :: k in Owned(bots[id]) <==> k in Owned(a) || k in Owned(c)
    ensures var r := bots[id := a][n := c];
      forall i, j | i in r && j in r && i != j :: Owned(r[i]) !! Owned(r[j])
  {
    var r := bots[id := a][n := c];
    forall k | k in Owned(a) || k in Owned(c)
      ensures k in Owned(bots[id])
    {
    }
    forall i, j | i in r && j in r && i != j
      ensures Owned(r[i]) !! Owned(r[j])
    {
      if i != id && i != n && j != id && j != n {
        assert Owned(bots[i]) !! Owned(bots[j]);
      } else if i != id && i != n {
        assert Owned(bots[i]) !! Owned(bots[id]);
      } else if j != id && j != n {
        assert Owned(bots[j]) !! Owned(bots[id]);
      } else if i == id {
        assert r[i] == a && r[j] == c;
      } else {
        assert r[i] == c && r[j] == a;
      }
    }
  }

  /** `fission` keeps ids and seeds a partition of 1..20. */
  lemma FissionKeepsPartition(s: State, id: int, d: Delta, m: int)
    requires Partitioned(s.bots)
    requires id in s.bots && Near(d) && s.bots[id].seeds != {}
    requires InBounds(Shift(s.bots[id].pos, d), s.matrix.R)
    requires 0 <= m < |s.bots[id].seeds|
    ensures Partitioned(Fission(s, id, d, m).bots)
  {
    var b := s.bots[id];
    var sp := SplitSeeds(b.seeds, m);
    var n := sp.newId;
    NewIdIsFree(s.bots, id, n);
    var a := b.(seeds := sp.parent);
    var c := Bot(n, Shift(b.pos, d), sp.child);
    SplitDividesOwned(b, m, a, c);
    DivideKeepsPartition(s.bots, id, a, n, c);
  }

  /** A seed of a bot is nobody's id. */
  lemma NewIdIsFree(bots: map<int, Bot>, id: int, n: int)
    requires Partitioned(bots) && id in bots && n in bots[id].seeds
    ensures n !in bots && n != id
  {
    assert n in Owned(bots[id]);
  }

  /** The parent with the kept seeds and the new bot with the handed-over
      seeds own, between them, exactly what the parent owned before. */
  lemma SplitDividesOwned(b: Bot, m: int, a: Bot, c: Bot)
    requires 0 <= m < |b.seeds| && b.id !in b.seeds
    requires a == b.(seeds := SplitSeeds(b.seeds, m).parent)
    requires c.id == SplitSeeds(b.seeds, m).newId && c.seeds == SplitSeeds(b.seeds, m).child
    ensures a.id == b.id && b.id !in a.seeds && c.id !in c.seeds
    ensures Owned(a) !! Owned(c)
    ensures forall k :: k in Owned(b) <==> k in Owned(a) || k in Owned(c)
  {
  }

  /** Merging bot q into bot p, as `fusion` does, keeps the partition. */
  lemma MergeKeepsPartition(bots: map<int, Bot>, p: int, q: int)
    requires Partitioned(bots) && p in bots && q in bots && p != q
    ensures Partitioned((bots - {q})[p := bots[p].(seeds := bots[p].seeds + Owned(bots[q]))])
  {
    var merged := bots[p].(seeds := bots[p].seeds + Owned(bots[q]));
    var r := (bots - {q})[p := merged];
    assert Owned(bots[p]) !! Owned(bots[q]);
    assert forall k :: k in Owned(merged) <==> k in Owned(bots[p]) || k in Owned(bots[q]);
    forall i, j | i in r && j in r && i != j
      ensures Owned(r[i]) !! Owned(r[j])
    {
      if i == p {
        assert Owned(bots[p]) !! Owned(bots[j]) && Owned(bots[q]) !! Owned(bots[j]);
      } else if j == p {
        assert Owned(bots[p]) !! Owned(bots[i]) && Owned(bots[q]) !! Owned(bots[i]);
      } else {
        assert Owned(bots[i]) !! Owned(bots[j]);
      }
    }
    forall k | k in IdRange(1, MaxId)
      ensures exists i :: i in r && k in Owned(r[i])
    {
      var i :| i in bots && k in Owned(bots[i]);
      if i == p || i == q {
        assert p in r && k in Owned(r[p]);
      } else {
        assert i in r && k in Owned(r[i]);
      }
    }
    forall i, k | i in r && k in Owned(r[i])
      ensures 1 <= k <= MaxId
    {
      if i == p {
        assert k in Owned(bots[p]) || k in Owned(bots[q]);
      } else {
        assert k in Owned(bots[i]);
      }
    }
  }

  /** `fusion` keeps ids and seeds a partition of 1..20. */
  lemma FusionKeepsPartition(s: State, p: int, q: int)
    requires Partitioned(s.bots)
    requires p in s.bots && q in s.bots
    requires Near(Diff(s.bots[p].pos, s.bots[q].pos))
    ensures Partitioned(Fusion(s, p, q).bots)
  {
    var r := Fusion(s, p, q);
    var merged := s.bots[p].(seeds := s.bots[p].seeds + Owned(s.bots[q]));
    assert p != q by {
      assert Diff(s.bots[p].pos, s.bots[q].pos) != Zero;
    }
    assert r.bots == (s.bots - {q})[p := merged];
    MergeKeepsPartition(s.bots, p, q);
  }

  /** Fusing the new bot back into its parent right after `fission`
      restores every bot and recovers the 24 energy units. */
  lemma FissionThenFusion(s: State, id: int, d: Delta, m: int)
    requires Partitioned(s.bots)
    requires id in s.bots && Near(d) && s.bots[id].seeds != {}
    requires InBounds(Shift(s.bots[id].pos, d), s.matrix.R)
    requires 0 <= m < |s.bots[id].seeds|
    ensures var t := Fission(s, id, d, m); var n := Least(s.bots[id].seeds);
      && id in t.bots && n in t.bots
      && Near(Diff(t.bots[id].pos, t.bots[n].pos))
      && Fusion(t, id, n).bots == s.bots
      && Fusion(t, id, n).energy == s.energy
  {
    var b := s.bots[id];
    var t := Fission(s, id, d, m);
    var sp := SplitSeeds(b.seeds, m);
    var n := sp.newId;
    NewIdIsFree(s.bots, id, n);
    var a := b.(seeds := sp.parent);
    var c := Bot(n, Shift(b.pos, d), sp.child);
    SplitRejoins(b.seeds, m, c.pos);
    FuseBack(s, t, id, a, n, c, d);
  }

  /** The parent's seeds and everything the new bot owns make up the seeds
      that were split. */
  lemma SplitRejoins(seeds: set<int>, m: int, p: Coord)
    requires 0 <= m < |seeds|
    ensures var sp := SplitSeeds(seeds, m); sp.parent + Owned(Bot(sp.newId, p, sp.child)) == seeds
  {
  }

  /** Fusing the new bot back into its parent restores the bots as they
      were before the split, at the energy the split cost. */
  lemma FuseBack(s: State, t: State, id: int, a: Bot, n: int, c: Bot, d: Delta)
    requires id in s.bots && n !in s.bots && Near(d)
    requires a == s.bots[id].(seeds := a.seeds) && a.seeds + Owned(c) == s.bots[id].seeds
    requires c.id == n && c.pos == Shift(a.pos, d)
    requires t.bots.Keys == s.bots.Keys + {n} && t.bots[n] == c && t.bots[id] == a
    requires forall i | i in s.bots && i != id && i != n :: t.bots[i] == s.bots[i]
    requires t.energy == s.energy + 24
    ensures id in t.bots && n in t.bots && Near(Diff(t.bots[id].pos, t.bots[n].pos))
    ensures Fusion(t, id, n).bots == s.bots && Fusion(t, id, n).energy == s.energy
  {
    forall i | i in t.bots
      ensures t.bots[i] == s.bots[id := a][n := c][i]
    {
    }
    assert t.bots == s.bots[id := a][n := c];
    assert Diff(t.bots[id].pos, t.bots[n].pos) == Neg(d);
    NearIsSymmetric(d);
    DivideThenMerge(s.bots, id, a, n, c);
  }

  /** Splitting a bot in two and merging the second back into the first
      gives back the original bot map. */
  lemma DivideThenMerge(bots: map<int, Bot>, id: int, a: Bot, n: int, c: Bot)
    requires id in bots && n !in bots
    requires a == bots[id].(seeds := a.seeds) && a.seeds + Owned(c) == bots[id].seeds
    ensures var t := bots[id := a][n := c];
      (t - {n})[id := t[id].(seeds := t[id].seeds + Owned(t[n]))] == bots
  {
    var t := bots[id := a][n := c];
    var r := (t - {n})[id := t[id].(seeds := t[id].seeds + Owned(t[n]))];
    assert r[id] == bots[id];
    assert r.Keys == bots.Keys;
  }

  /** With m one less than the number of seeds (the resize step of the
      comb strategy) the parent hands over every seed: it keeps none, and
      the new bot takes all but its own id. */
  lemma FissionHandsOverAll(s: State, id: int, d: Delta)
    requires id in s.bots && Near(d) && s.bots[id].seeds != {}
    requires InBounds(Shift(s.bots[id].pos, d), s.matrix.R)
    ensures var m := |s.bots[id].seeds| - 1; var t := Fission(s, id, d, m);
      var n := Least(s.bots[id].seeds);
      && t.bots[n].seeds == s.bots[id].seeds - {n}
      && (n != id ==> t.bots[id].seeds == {})
  {
    var b := s.bots[id];
    var m := |b.seeds| - 1;
    var sp := SplitSeeds(b.seeds, m);
    SplitSeedsSlices(b.seeds, m);
    assert |Ascending(sp.parent)| == 0;
    assert sp.child == b.seeds - {sp.newId};
  }

  /** Moves change positions only, so they keep the partition. */
  lemma MovesKeepPartition(s: State, id: int, d0: Delta, d1: Delta)
    requires Partitioned(s.bots) && id in s.bots
    ensures LongLinear(d0) && InBounds(Shift(s.bots[id].pos, d0), s.matrix.R) ==>
      Partitioned(SMove(s, id, d0).bots)
    ensures (ShortLinear(d0) && ShortLinear(d1) && InBounds(Shift(s.bots[id].pos, d0), s.matrix.R)
      && InBounds(Shift(Shift(s.bots[id].pos, d0), d1), s.matrix.R)) ==>
      Partitioned(LMove(s, id, d0, d1).bots)
  {
    SameCrewKeepsPartition(s.bots, MoveBot(s.bots, id, Shift(s.bots[id].pos, d0)));
    SameCrewKeepsPartition(s.bots, MoveBot(s.bots, id, Shift(Shift(s.bots[id].pos, d0), d1)));
  }
}
