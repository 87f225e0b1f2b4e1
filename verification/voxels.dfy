/** The bit-packed R*R*R occupancy grid (`Matrix`) and the model-file byte
    layout (`Model.parse`). Voxel (x, y, z) lives at the flattened offset
    x*R*R + y*R + z, stored as bit (offset mod 8) of byte (offset div 8). */
module Voxels {
  import opened Geometry
  import opened Wrappers
  import opened Bytes

  datatype Matrix = Matrix(R: int, bytes: seq<Byte>)

  /** Ceiling division by eight (`IntMath.divide(n, 8, CEILING)`). */
  function CeilDiv8(n: int): int {
    -((-n) / 8)
  }

  lemma CeilDiv8Bounds(n: int)
    ensures n <= 8 * CeilDiv8(n) < n + 8
  {
  }

  function Cube(R: int): int {
    R * R * R
  }

  /** The byte array holds exactly ceil(R^3 / 8) bytes. */
  predicate WellSized(m: Matrix) {
    m.R >= 0 && |m.bytes| == CeilDiv8(Cube(m.R))
  }

  /** x*R*R + y*R + z, written in Horner form. */
  function Offset(R: int, c: Coord): int {
    (c.x * R + c.y) * R + c.z
  }

  lemma MulMono(a: int, b: int, R: int)
    requires a <= b && 0 <= R
    ensures a * R <= b * R
  {
    assert (b - a) * R >= 0;
  }

  /** a*R + b determines a and b when 0 <= b < R. */
  lemma MixedRadixUnique(R: int, a: int, b: int, a': int, b': int)
    requires 0 <= b < R && 0 <= b' < R
    requires a * R + b == a' * R + b'
    ensures a == a' && b == b'
  {
    if a < a' {
      MulMono(a + 1, a', R);
    } else if a' < a {
      MulMono(a' + 1, a, R);
    }
  }

  lemma MulBelow(a: int, b: int, R: int)
    requires 0 <= a < R && 0 <= b < R
    ensures 0 <= a * R + b < R * R
  {
    MulMono(a + 1, R, R);
    assert (a + 1) * R == a * R + R;
    MulMono(0, a, R);
  }

  /** Distinct in-bounds voxels have distinct offsets inside [0, R^3). */
  lemma OffsetInRange(R: int, c: Coord)
    requires InBounds(c, R)
    ensures 0 <= Offset(R, c) < Cube(R)
  {
    MulBelow(c.x, c.y, R);
    var xy := c.x * R + c.y;
    MulMono(xy + 1, R * R, R);
    assert (xy + 1) * R == xy * R + R;
    MulMono(0, xy, R);
  }

  lemma OffsetInjective(R: int, a: Coord, b: Coord)
    requires InBounds(a, R) && InBounds(b, R)
    requires Offset(R, a) == Offset(R, b)
    ensures a == b
  {
    MixedRadixUnique(R, a.x * R + a.y, a.z, b.x * R + b.y, b.z);
    MixedRadixUnique(R, a.x, a.y, b.x, b.y);
  }

  /** Byte index and bit index of an in-bounds voxel are valid. */
  lemma Addressable(m: Matrix, c: Coord)
    requires WellSized(m) && InBounds(c, m.R)
    ensures 0 <= Offset(m.R, c) / 8 < |m.bytes|
  {
    OffsetInRange(m.R, c);
    CeilDiv8Bounds(Cube(m.R));
  }

  /** The byte holding voxel `c`. */
  function ByteOf(m: Matrix, c: Coord): Byte
    requires WellSized(m) && InBounds(c, m.R)
  {
    Addressable(m, c);
    m.bytes[Offset(m.R, c) / 8]
  }

  /** The position of voxel `c` inside its byte. */
  function BitIndex(m: Matrix, c: Coord): (k: int)
    ensures 0 <= k < 8
  {
    Offset(m.R, c) % 8
  }

  /** Whether the voxel is Full: the addressed bit of the addressed byte. */
  function Get(m: Matrix, c: Coord): (full: bool)
    requires WellSized(m) && InBounds(c, m.R)
    ensures full <==> Ushr(ByteOf(m, c), BitIndex(m, c)) % 2 == 1
  {
    var b, k := ByteOf(m, c), BitIndex(m, c);
    assert b[k..][0] == b[k];
    b[k]
  }

  /** Stores `v` at voxel `c` (`b or mask` / `b and mask.inv()`); no other voxel changes. */
  function Set(m: Matrix, c: Coord, v: bool): (r: Matrix)
    requires WellSized(m) && InBounds(c, m.R)
    ensures WellSized(r) && r.R == m.R
    ensures Get(r, c) == v
    ensures forall c' :: InBounds(c', m.R) && c' != c ==> Get(r, c') == Get(m, c')
  {
    Addressable(m, c);
    var o := Offset(m.R, c);
    var b := m.bytes[o / 8];
    var nb := if v then Or(b, Mask(o % 8)) else And(b, Inv(Mask(o % 8)));
    var r := Matrix(m.R, m.bytes[o / 8 := nb]);
    assert forall c' :: InBounds(c', m.R) && c' != c ==> Get(r, c') == Get(m, c') by {
      forall c' | InBounds(c', m.R) && c' != c
        ensures Get(r, c') == Get(m, c')
      {
        Addressable(m, c');
        var o' := Offset(m.R, c');
        if o' == o {
          OffsetInjective(m.R, c, c');
        }
      }
    }
    r
  }

  /** The all-empty matrix of resolution R (`ByteArray(ceil(R^3/8))`). */
  function Zeros(R: nat): (m: Matrix)
    ensures WellSized(m) && m.R == R
    ensures forall c :: InBounds(c, R) ==> !Get(m, c)
  {
    var m := Matrix(R, seq(CeilDiv8(Cube(R)), _ => ZeroByte));
    assert forall c :: InBounds(c, R) ==> !Get(m, c) by {
      forall c | InBounds(c, R)
        ensures !Get(m, c)
      {
        Addressable(m, c);
        var i := Offset(R, c) / 8;
        assert m.bytes[i] == ZeroByte;
        assert ByteOf(m, c) == m.bytes[i];
      }
    }
    m
  }

  /** Sets each listed voxel to Full, in order. */
  function SetAll(m: Matrix, cs: seq<Coord>): (r: Matrix)
    requires WellSized(m)
    requires forall i :: 0 <= i < |cs| ==> InBounds(cs[i], m.R)
    ensures WellSized(r) && r.R == m.R
    decreases |cs|
  {
    if |cs| == 0 then m else SetAll(Set(m, cs[0], true), cs[1..])
  }

  /** Setting voxels one by one on a zeroed matrix: exactly the set voxels
      read back Full, and voxels not yet set still read empty. */
  lemma {:induction false} SetAllReadsBack(m: Matrix, cs: seq<Coord>, c: Coord)
    requires WellSized(m)
    requires forall i :: 0 <= i < |cs| ==> InBounds(cs[i], m.R)
    requires InBounds(c, m.R)
    ensures Get(SetAll(m, cs), c) <==> Get(m, c) || c in cs
    decreases |cs|
  {
    if |cs| > 0 {
      SetAllReadsBack(Set(m, cs[0], true), cs[1..], c);
      assert c in cs <==> c == cs[0] || c in cs[1..];
    }
  }

  // ---------------------------------------------------------------------
  // Structural bounds

  /** The region a Full voxel may occupy in a contest model. */
  predicate InContestBounds(c: Coord, R: int) {
    1 <= c.x <= R - 2 && 0 <= c.y <= R - 2 && 1 <= c.z <= R - 2
  }

  ghost predicate WellFormed(m: Matrix)
    requires WellSized(m)
  {
    forall c :: InBounds(c, m.R) && Get(m, c) ==> InContestBounds(c, m.R)
  }

  /** Scans every voxel in x, y, z order and rejects the first Full voxel
      outside the contest bounds. */
  method IsWellFormed(m: Matrix) returns (ok: bool)
    requires WellSized(m)
    ensures ok <==> WellFormed(m)
  {
    var R := m.R;
    var x := 0;
    while x < R
      invariant 0 <= x <= R
      invariant forall c :: InBounds(c, R) && c.x < x && Get(m, c) ==> InContestBounds(c, R)
    {
      var y := 0;
      while y < R
        invariant 0 <= y <= R
        invariant forall c :: InBounds(c, R) && c.x < x && Get(m, c) ==> InContestBounds(c, R)
        invariant forall c :: InBounds(c, R) && c.x == x && c.y < y && Get(m, c) ==> InContestBounds(c, R)
      {
        var z := 0;
        while z < R
          invariant 0 <= z <= R
          invariant forall c :: InBounds(c, R) && c.x < x && Get(m, c) ==> InContestBounds(c, R)
          invariant forall c :: InBounds(c, R) && c.x == x && c.y < y && Get(m, c) ==> InContestBounds(c, R)
          invariant forall c :: InBounds(c, R) && c.x == x && c.y == y && c.z < z && Get(m, c) ==> InContestBounds(c, R)
        {
          var c := Coord(x, y, z);
          if Get(m, c) && !(x >= 1 && x <= R - 2 && y >= 0 && y <= R - 2 && z >= 1 && z <= R - 2) {
            return false;
          }
          z := z + 1;
        }
        y := y + 1;
      }
      x := x + 1;
    }
    return true;
  }

  lemma WellFormedEmpty()
    ensures WellFormed(Zeros(2))
  {
  }

  lemma WellFormedSingle()
    ensures WellFormed(Set(Zeros(3), Coord(1, 0, 1), true))
  {
  }

  lemma WellFormedStacked()
    ensures var m := Set(Zeros(3), Coord(1, 0, 1), true);
      WellFormed(Set(m, Coord(1, 1, 1), true))
  {
  }

  // ---------------------------------------------------------------------
  // Equality

  /** Structural equality: same resolution and same bytes. */
  predicate Equals(a: Matrix, b: Matrix) {
    a.R == b.R && a.bytes == b.bytes
  }

  lemma EqualsIsValueEquality(a: Matrix, b: Matrix)
    ensures Equals(a, b) <==> a == b
  {
  }

  lemma EqualMatricesAgree(a: Matrix, b: Matrix, c: Coord)
    requires WellSized(a) && InBounds(c, a.R)
    requires Equals(a, b)
    ensures WellSized(b) && Get(a, c) == Get(b, c)
  {
  }

  // ---------------------------------------------------------------------
  // Model file

  datatype ParseError = BufferUnderflow | NegativeArraySize

  /** One resolution byte, read unsigned, then ceil(R^3/8) bitset bytes;
      trailing bytes are ignored. */
  function Parse(bs: seq<Byte>): (r: Result<Matrix, ParseError>)
    ensures r.Ok? <==> |bs| > 0 && |bs| - 1 >= CeilDiv8(Cube(Unsigned(bs[0])))
    ensures r.Err? ==> r.error == BufferUnderflow
    ensures r.Ok? ==> WellSized(r.value) && r.value.R == Unsigned(bs[0])
    ensures r.Ok? ==> r.value.bytes == bs[1..1 + |r.value.bytes|]
  {
    if |bs| == 0 then Err(BufferUnderflow)
    else
      var R := Unsigned(bs[0]);
      var shape := CeilDiv8(Cube(R));
      if |bs| - 1 < shape then Err(BufferUnderflow)
      else Ok(Matrix(R, bs[1..1 + shape]))
  }

  /** The model file of a matrix: its resolution byte, then its bitset. */
  function Serialize(m: Matrix): (bs: seq<Byte>)
    requires WellSized(m) && m.R < 256
    ensures |bs| == 1 + |m.bytes| && bs[1..] == m.bytes
  {
    [FromUnsigned(m.R)] + m.bytes
  }

  /** Parsing a serialized matrix, whatever follows it, gives the matrix back. */
  lemma ParseSerialize(m: Matrix, trailing: seq<Byte>)
    requires WellSized(m) && m.R < 256
    ensures Parse(Serialize(m) + trailing) == Ok(m)
  {
    var bs := Serialize(m) + trailing;
    assert Unsigned(bs[0]) == m.R;
    assert bs[1..1 + |m.bytes|] == m.bytes;
  }

  // ---------------------------------------------------------------------
  // The source as written (see README, Findings)

  /** `get` as written: `(b ushr (offset % 8)) == 1`. */
  function GetAsWritten(m: Matrix, c: Coord): (full: bool)
    requires WellSized(m) && InBounds(c, m.R)
    ensures full ==> Get(m, c)
  {
    Ushr(ByteOf(m, c), BitIndex(m, c)) == 1
  }

  /** The literal reading agrees with `Get` only when every higher voxel of
      the same byte is empty. */
  lemma GetAsWrittenIsStricter(m: Matrix, c: Coord)
    requires WellSized(m) && InBounds(c, m.R)
    ensures GetAsWritten(m, c) <==>
      Get(m, c) && forall j :: BitIndex(m, c) < j < 8 ==> !ByteOf(m, c)[j]
  {
    UshrIsOne(ByteOf(m, c), BitIndex(m, c));
  }

  /** With voxels (0,0,0) and (0,0,1) Full, in a grid of any resolution
      R >= 2, the literal reading reports (0,0,0) as empty. */
  lemma GetAsWrittenMissesLowerVoxel(R: nat)
    requires R >= 2
    ensures var m := Set(Set(Zeros(R), Coord(0, 0, 0), true), Coord(0, 0, 1), true);
      Get(m, Coord(0, 0, 0)) && !GetAsWritten(m, Coord(0, 0, 0))
  {
    var m := Set(Set(Zeros(R), Coord(0, 0, 0), true), Coord(0, 0, 1), true);
    var c, c' := Coord(0, 0, 0), Coord(0, 0, 1);
    OffsetsOfFirstByte(R);
    assert Get(m, c') && Get(m, c);
    assert ByteOf(m, c) == ByteOf(m, c');
    assert ByteOf(m, c)[1];
    GetAsWrittenIsStricter(m, c);
  }

  /** `isWellFormed` as written: the same scan, reading each voxel with the
      literal `get`. */
  ghost predicate WellFormedAsWritten(m: Matrix)
    requires WellSized(m)
  {
    forall c :: InBounds(c, m.R) && GetAsWritten(m, c) ==> InContestBounds(c, m.R)
  }

  /** With R = 3, (0,2,2) and (1,0,1) share byte 1 (bits 0 and 2). The
      literal scan misses (0,2,2), which lies outside the contest bounds, and
      accepts a matrix that is not well-formed. */
  lemma ScanAsWrittenAcceptsIllFormed()
    ensures var m := Set(Set(Zeros(3), Coord(0, 2, 2), true), Coord(1, 0, 1), true);
      WellFormedAsWritten(m) && !WellFormed(m)
  {
    var out, inside := Coord(0, 2, 2), Coord(1, 0, 1);
    var m := Set(Set(Zeros(3), out, true), inside, true);
    forall c | InBounds(c, 3)
      ensures Get(m, c) <==> c == out || c == inside
    {
      OnlyTwoFull(out, inside, c);
    }
    TwoFullScans(m, out, inside);
  }

  /** A resolution-3 matrix whose only Full voxels are (0,2,2) and (1,0,1). */
  lemma TwoFullScans(m: Matrix, out: Coord, inside: Coord)
    requires WellSized(m) && m.R == 3
    requires out == Coord(0, 2, 2) && inside == Coord(1, 0, 1)
    requires forall c | InBounds(c, 3) :: Get(m, c) <==> c == out || c == inside
    ensures WellFormedAsWritten(m) && !WellFormed(m)
  {
    SharedByte(m, out, inside);
    assert !InContestBounds(out, 3);
    GetAsWrittenIsStricter(m, out);
  }

  /** (0,2,2) and (1,0,1) are bits 0 and 2 of the same byte when R = 3. */
  lemma SharedByte(m: Matrix, out: Coord, inside: Coord)
    requires WellSized(m) && m.R == 3
    requires out == Coord(0, 2, 2) && inside == Coord(1, 0, 1)
    requires Get(m, out) && Get(m, inside)
    ensures BitIndex(m, out) == 0 && ByteOf(m, out)[2]
  {
    assert Offset(3, out) == 8 && Offset(3, inside) == 10;
    assert ByteOf(m, out) == ByteOf(m, inside);
  }

  /** Setting two voxels of an empty grid makes exactly those two Full. */
  lemma OnlyTwoFull(a: Coord, b: Coord, c: Coord)
    requires InBounds(a, 3) && InBounds(b, 3) && InBounds(c, 3)
    ensures Get(Set(Set(Zeros(3), a, true), b, true), c) <==> c == a || c == b
  {
  }

  lemma OffsetsOfFirstByte(R: int)
    ensures Offset(R, Coord(0, 0, 0)) == 0 && Offset(R, Coord(0, 0, 1)) == 1
  {
  }

  /** `set` as written: `b or mask` for true, `(b and mask).inv()` for false. */
  function SetAsWritten(m: Matrix, c: Coord, v: bool): (r: Matrix)
    requires WellSized(m) && InBounds(c, m.R)
    ensures WellSized(r) && r.R == m.R
  {
    Addressable(m, c);
    var b := ByteOf(m, c);
    var mask := Mask(BitIndex(m, c));
    Matrix(m.R, m.bytes[Offset(m.R, c) / 8 := if v then Or(b, mask) else Inv(And(b, mask))])
  }

  /** Storing true as written is the intended single-voxel update. */
  lemma SetAsWrittenTrueIsSet(m: Matrix, c: Coord)
    requires WellSized(m) && InBounds(c, m.R)
    ensures SetAsWritten(m, c, true) == Set(m, c, true)
  {
  }

  /** Clearing a voxel as written flips it, and turns every other voxel that
      shares its byte Full. */
  lemma ClearAsWrittenFillsByte(m: Matrix, c: Coord, c': Coord)
    requires WellSized(m) && InBounds(c, m.R) && InBounds(c', m.R)
    requires Offset(m.R, c') / 8 == Offset(m.R, c) / 8
    ensures c' == c ==> Get(SetAsWritten(m, c, false), c') == !Get(m, c)
    ensures c' != c ==> Get(SetAsWritten(m, c, false), c')
  {
    Addressable(m, c);
    var r := SetAsWritten(m, c, false);
    var b := ByteOf(m, c);
    var k := BitIndex(m, c);
    var k' := BitIndex(m, c');
    var nb := Inv(And(b, Mask(k)));
    assert ByteOf(r, c') == nb;
    if c' != c {
      if k' == k {
        OffsetInjective(m.R, c, c');
      }
      assert nb[k'];
    } else {
      assert nb[k] == !b[k];
    }
  }

  /** In an empty grid of any resolution R >= 2, clearing (0,0,0) as
      written makes (0,0,1) Full. */
  lemma SetAsWrittenFillsNeighbour(R: nat)
    requires R >= 2
    ensures !Get(Zeros(R), Coord(0, 0, 1))
    ensures Get(SetAsWritten(Zeros(R), Coord(0, 0, 0), false), Coord(0, 0, 1))
  {
    var c, c' := Coord(0, 0, 0), Coord(0, 0, 1);
    OffsetsOfFirstByte(R);
    ClearAsWrittenFillsByte(Zeros(R), c, c');
  }

  /** `equals` as written: object identity, or a DIFFERENT resolution with equal bytes. */
  predicate EqualsAsWritten(a: Matrix, b: Matrix, sameObject: bool)
    ensures EqualsAsWritten(a, b, sameObject) && !sameObject ==> a != b
  {
    sameObject || (a.R != b.R && a.bytes == b.bytes)
  }

  /** A copy of a matrix is never equal to it as written, and equal matrices
      of different resolution never exist as values. */
  lemma EqualsAsWrittenRejectsCopies(a: Matrix, b: Matrix)
    ensures !EqualsAsWritten(a, a, false) && Equals(a, a)
    ensures EqualsAsWritten(a, b, false) ==> !Equals(a, b)
  {
  }

  /** `parse` as written: `buf.get().toInt()` sign-extends the resolution byte. */
  function ParseAsWritten(bs: seq<Byte>): (r: Result<Matrix, ParseError>)
    ensures |bs| > 0 && Signed(bs[0]) >= 0 ==> r == Parse(bs)
  {
    if |bs| == 0 then Err(BufferUnderflow)
    else
      var R := Signed(bs[0]);
      var shape := CeilDiv8(Cube(R));
      if shape < 0 then Err(NegativeArraySize)
      else if |bs| - 1 < shape then Err(BufferUnderflow)
      else Ok(Matrix(R, bs[1..1 + shape]))
  }

  /** A resolution byte of 128 or more is read as a negative resolution. */
  lemma ParseAsWrittenLosesLargeResolution(bs: seq<Byte>)
    requires |bs| > 0 && Unsigned(bs[0]) >= 128
    ensures ParseAsWritten(bs).Err? || ParseAsWritten(bs).value.R < 0
  {
  }

  /** A well-sized R = 200 matrix survives the corrected round trip but not
      the literal one, which asks for a negative-size array. */
  lemma ParseAsWrittenRejectsResolution200(m: Matrix)
    requires WellSized(m) && m.R == 200
    ensures Parse(Serialize(m)) == Ok(m)
    ensures ParseAsWritten(Serialize(m)) == Err(NegativeArraySize)
  {
    ParseSerialize(m, []);
    assert Serialize(m) + [] == Serialize(m);
    assert Signed(Serialize(m)[0]) == -56;
    assert Cube(-56) == -175616;
  }
}
