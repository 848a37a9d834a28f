/** Packing a greyscale row into one bit a pixel, the leftmost pixel in the highest bit. */
module Threshold {
  import opened CArith

  /** 0x80 >> k */
  function SetMask(k: nat): bv8
    requires k < 8
  {
    if k == 0 then 0x80 else SetMask(k - 1) >> 1
  }

  /** 0xFF7F >> k */
  function Shifted(k: nat): bv16
    requires k < 8
  {
    if k == 0 then 0xFF7F else Shifted(k - 1) >> 1
  }

  /** What is left of 0xFF7F >> k in a byte. */
  function ClearMask(k: nat): bv8
    requires k < 8
  {
    (Shifted(k) & 0xFF) as bv8
  }

  /** Pixel k of a byte. */
  predicate Bit(b: bv8, k: nat)
    requires k < 8
  {
    b & SetMask(k) != 0
  }

  /** The masks, shift by shift. */
  lemma Masks()
    ensures SetMask(0) == 0x80 && SetMask(1) == 0x40 && SetMask(2) == 0x20 && SetMask(3) == 0x10
    ensures SetMask(4) == 0x08 && SetMask(5) == 0x04 && SetMask(6) == 0x02 && SetMask(7) == 0x01
    ensures ClearMask(0) == 0x7F && ClearMask(1) == 0xBF && ClearMask(2) == 0xDF && ClearMask(3) == 0xEF
    ensures ClearMask(4) == 0xF7 && ClearMask(5) == 0xFB && ClearMask(6) == 0xFD && ClearMask(7) == 0xFE
  {
    assert Shifted(1) == 0x7FBF && Shifted(2) == 0x3FDF && Shifted(3) == 0x1FEF && Shifted(4) == 0x0FF7;
    assert Shifted(5) == 0x07FB && Shifted(6) == 0x03FD && Shifted(7) == 0x01FE;
    assert SetMask(1) == 0x40 && SetMask(2) == 0x20 && SetMask(3) == 0x10 && SetMask(4) == 0x08;
  }

  /** Two pixels never share a bit. */
  lemma MaskPair(k: nat, j: nat)
    requires k < 8 && j < 8
    ensures SetMask(k) != 0 && ClearMask(k) == !SetMask(k)
    ensures k != j ==> SetMask(k) & SetMask(j) == 0
  {
    hide SetMask, ClearMask;
    Masks();
    assert k == 0 || k == 1 || k == 2 || k == 3 || k == 4 || k == 5 || k == 6 || k == 7;
    assert j == 0 || j == 1 || j == 2 || j == 3 || j == 4 || j == 5 || j == 6 || j == 7;
  }

  /** Setting a pixel touches that pixel only. */
  lemma SetBits(b: bv8, k: nat, j: nat)
    requires k < 8 && j < 8
    ensures Bit(b | SetMask(k), j) <==> j == k || Bit(b, j)
  {
    hide SetMask, ClearMask;
    MaskPair(k, j);
    OrBits(b, SetMask(k), SetMask(j));
  }

  lemma OrBits(b: bv8, m: bv8, n: bv8)
    ensures (b | m) & n == (b & n) | (m & n)
    ensures m != 0 ==> (b | m) & m != 0
  {
  }

  /** Clearing a pixel touches that pixel only. */
  lemma ClearBits(b: bv8, k: nat, j: nat)
    requires k < 8 && j < 8
    ensures Bit(b & ClearMask(k), j) <==> j != k && Bit(b, j)
  {
    hide SetMask, ClearMask;
    MaskPair(k, j);
    AndBits(b, SetMask(k), SetMask(j));
  }

  lemma AndBits(b: bv8, m: bv8, n: bv8)
    ensures m & n == 0 ==> b & !m & n == b & n
    ensures b & !m & m == 0
  {
  }

  /** Pixel x of a packed row. */
  predicate PixelOf(row: seq<bv8>, x: nat)
    requires x < 8 * |row|
  {
    Bit(row[x / 8], x % 8)
  }

  /** Byte b is byte c with pixel k set to a value. */
  predicate BitSet(b: bv8, c: bv8, k: nat, on: bool)
    requires k < 8
  {
    forall j :: 0 <= j < 8 ==> (Bit(b, j) <==> if j == k then on else Bit(c, j))
  }

  lemma SetAndClear(c: bv8, k: nat, on: bool)
    requires k < 8
    ensures BitSet(if on then c | SetMask(k) else c & ClearMask(k), c, k, on)
  {
    hide SetMask, ClearMask, Bit;
    var b := if on then c | SetMask(k) else c & ClearMask(k);
    forall j | 0 <= j < 8
      ensures Bit(b, j) <==> if j == k then on else Bit(c, j)
    {
      SetBits(c, k, j);
      ClearBits(c, k, j);
    }
  }

  lemma OnePixel(row: seq<bv8>, x: nat, b: bv8, on: bool, i: nat)
    requires x < 8 * |row| && i < 8 * |row| && BitSet(b, row[x / 8], x % 8, on)
    ensures PixelOf(row[x / 8 := b], i) <==> if i == x then on else PixelOf(row, i)
  {
    hide Bit;
  }

  /** The inner loop of FreeImage_Threshold.  Unpacking the row tells for each pixel whether it
      reached the threshold; bits behind the last pixel keep their values. */
  method PackRow(bits8: seq<Byte>, bits1: array<bv8>, t: Byte)
    requires |bits8| <= 8 * bits1.Length
    modifies bits1
    ensures forall x :: 0 <= x < |bits8| ==> (PixelOf(bits1[..], x) <==> bits8[x] >= t)
    ensures forall x :: |bits8| <= x < 8 * bits1.Length ==> (PixelOf(bits1[..], x) <==> PixelOf(old(bits1[..]), x))
  {
    hide SetMask, ClearMask, PixelOf, BitSet;
    var x := 0;
    while x < |bits8|
      invariant 0 <= x <= |bits8|
      invariant forall i :: 0 <= i < 8 * bits1.Length ==>
                  (PixelOf(bits1[..], i) <==> if i < x then bits8[i] >= t else PixelOf(old(bits1[..]), i))
    {
      ghost var before, on := bits1[..], bits8[x] >= t;
      SetAndClear(bits1[x / 8], x % 8, on);
      if bits8[x] < t {
        bits1[x / 8] := bits1[x / 8] & ClearMask(x % 8);
        assert BitSet(bits1[x / 8], before[x / 8], x % 8, on);
      } else {
        bits1[x / 8] := bits1[x / 8] | SetMask(x % 8);
        assert BitSet(bits1[x / 8], before[x / 8], x % 8, on);
      }
      assert bits1[..] == before[x / 8 := bits1[x / 8]];
      forall i | 0 <= i < 8 * bits1.Length
        ensures PixelOf(bits1[..], i) <==> if i == x then on else PixelOf(before, i)
      {
        OnePixel(before, x, bits1[x / 8], on, i);
      }
      x := x + 1;
    }
  }
}
