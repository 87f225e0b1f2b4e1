/** A byte as its eight bits, least significant first: bit k is the bit of
    value `1 shl k`. The bitwise operators of the source act bit by bit. */
module Bytes {

  type Byte = b: seq<bool> | |b| == 8 witness [false, false, false, false, false, false, false, false]

  const ZeroByte: Byte := [false, false, false, false, false, false, false, false]

  /** `1 shl k`. */
  function Mask(k: int): (b: Byte)
    requires 0 <= k < 8
    ensures b[k] && forall j :: 0 <= j < 8 && j != k ==> !b[j]
  {
    seq(8, j => j == k)
  }

  function Or(a: Byte, b: Byte): (r: Byte)
    ensures forall j :: 0 <= j < 8 ==> r[j] == (a[j] || b[j])
  {
    seq(8, j requires 0 <= j < 8 => a[j] || b[j])
  }

  function And(a: Byte, b: Byte): (r: Byte)
    ensures forall j :: 0 <= j < 8 ==> r[j] == (a[j] && b[j])
  {
    seq(8, j requires 0 <= j < 8 => a[j] && b[j])
  }

  function Inv(a: Byte): (r: Byte)
    ensures forall j :: 0 <= j < 8 ==> r[j] == !a[j]
  {
    seq(8, j requires 0 <= j < 8 => !a[j])
  }

  function Pow2(n: nat): (p: nat)
    ensures p >= 1
  {
    if n == 0 then 1 else 2 * Pow2(n - 1)
  }

  /** The unsigned value of a little-endian bit string. */
  function Value(b: seq<bool>): (v: nat)
    ensures v < Pow2(|b|)
  {
    if |b| == 0 then 0 else (if b[0] then 1 else 0) + 2 * Value(b[1..])
  }

  /** The `w` low bits of `n`, least significant first. */
  function ToBits(n: nat, w: nat): (b: seq<bool>)
    ensures |b| == w
  {
    if w == 0 then [] else [n % 2 == 1] + ToBits(n / 2, w - 1)
  }

  lemma {:induction false} ValueOfToBits(n: nat, w: nat)
    requires n < Pow2(w)
    ensures Value(ToBits(n, w)) == n
  {
    if w > 0 {
      ValueOfToBits(n / 2, w - 1);
      assert ToBits(n, w)[1..] == ToBits(n / 2, w - 1);
    }
  }

  lemma {:induction false} ToBitsOfValue(b: seq<bool>)
    ensures ToBits(Value(b), |b|) == b
  {
    if |b| > 0 {
      ToBitsOfValue(b[1..]);
      var v := Value(b);
      assert v / 2 == Value(b[1..]);
      assert (v % 2 == 1) == b[0];
    }
  }

  /** The byte with unsigned value n (`n.toByte()` for 0 <= n < 256). */
  function FromUnsigned(n: int): (b: Byte)
    requires 0 <= n < 256
    ensures Unsigned(b) == n
  {
    assert Pow2(8) == 256;
    ValueOfToBits(n, 8);
    ToBits(n, 8)
  }

  /** `b.toInt() and 0xff`. */
  function Unsigned(b: Byte): (n: int)
    ensures 0 <= n < 256
  {
    assert Pow2(8) == 256;
    Value(b)
  }

  /** `b.toInt()`: two's complement, bit 7 is the sign. */
  function Signed(b: Byte): (n: int)
    ensures -128 <= n < 128
    ensures n == if b[7] then Unsigned(b) - 256 else Unsigned(b)
  {
    assert Value(b) == Value(b[..7]) + 128 * (if b[7] then 1 else 0) by {
      ValueSplit(b, 7);
    }
    assert Pow2(7) == 128;
    if b[7] then Unsigned(b) - 256 else Unsigned(b)
  }

  /** Splitting a bit string after its `k` low bits. */
  lemma {:induction false} ValueSplit(b: seq<bool>, k: nat)
    requires k <= |b|
    ensures Value(b) == Value(b[..k]) + Pow2(k) * Value(b[k..])
  {
    if k > 0 {
      ValueSplit(b[1..], k - 1);
      assert b[1..][..k - 1] == b[..k][1..];
      assert b[1..][k - 1..] == b[k..];
      var lo := Value(b[..k][1..]);
      var hi := Value(b[k..]);
      var bit := if b[0] then 1 else 0;
      assert Value(b[1..]) == lo + Pow2(k - 1) * hi;
      assert Value(b[..k]) == bit + 2 * lo;
      calc {
        Value(b);
        bit + 2 * (lo + Pow2(k - 1) * hi);
        { DoubleProduct(Pow2(k - 1), hi); }
        bit + 2 * lo + Pow2(k) * hi;
      }
    } else {
      assert b[k..] == b;
    }
  }

  lemma DoubleProduct(p: int, h: int)
    ensures 2 * (p * h) == (2 * p) * h
  {
  }

  /** `(b.toInt() and 0xff) ushr k`. */
  function Ushr(b: Byte, k: int): (n: nat)
    requires 0 <= k < 8
  {
    Value(b[k..])
  }

  /** The value is zero exactly when no bit is set. */
  lemma {:induction false} ValueZero(b: seq<bool>)
    ensures Value(b) == 0 <==> forall j :: 0 <= j < |b| ==> !b[j]
  {
    if |b| > 0 {
      ValueZero(b[1..]);
      assert forall j :: 0 <= j < |b| - 1 ==> b[1..][j] == b[j + 1];
    }
  }

  /** Shifting right by k leaves 1 exactly when bit k is set and every
      higher bit is clear. */
  lemma UshrIsOne(b: Byte, k: int)
    requires 0 <= k < 8
    ensures Ushr(b, k) == 1 <==> b[k] && forall j :: k < j < 8 ==> !b[j]
  {
    var t := b[k..];
    ValueZero(t[1..]);
    assert forall j :: k < j < 8 ==> t[1..][j - k - 1] == b[j];
  }
}
