/** The byte-array bitmap of bitmap.c, and the sequence of bits it stands for. */
module Bitmaps {
  import opened Words

  /** Bit j of a byte array, least significant bit first. */
  predicate TestBit(s: seq<Byte>, j: nat)
    requires j < 8 * |s|
  {
    Bit(s[j / 8], j % 8)
  }

  ghost function BitsOf(s: seq<Byte>): (bits: seq<bool>)
    ensures |bits| == 8 * |s|
  {
    seq(8 * |s|, j requires 0 <= j < 8 * |s| => TestBit(s, j))
  }

  /** The bits determine the bytes: equal bit sequences come from equal byte arrays. */
  lemma BytesFromBits(s: seq<Byte>, t: seq<Byte>)
    requires BitsOf(s) == BitsOf(t)
    ensures s == t
  {
    assert |s| == |t|;
    forall k | 0 <= k < |s| ensures s[k] == t[k] {
      forall i: nat ensures Bit(s[k], i) == Bit(t[k], i) {
        if i < 8 {
          assert BitsOf(s)[8 * k + i] == BitsOf(t)[8 * k + i];
          assert (8 * k + i) / 8 == k && (8 * k + i) % 8 == i;
        } else {
          ByteHasEightBits(s[k], i);
          ByteHasEightBits(t[k], i);
        }
      }
      SameBits(s[k], t[k]);
    }
  }

  /** `byte |= 1 << k` sets bit k, changes no other, and keeps the value a byte. */
  lemma ByteSet(b: Byte, k: nat)
    requires k < 8
    ensures BitOr(b, Pow2(k)) < 256
    ensures forall i: nat :: Bit(BitOr(b, Pow2(k)), i) == (i == k || Bit(b, i))
  {
    assert Pow2(8) == 256;
    Pow2Mono(k, 8);
    OrBound(b, Pow2(k), 8);
    forall i: nat ensures Bit(BitOr(b, Pow2(k)), i) == (i == k || Bit(b, i)) {
      BitOfOr(b, Pow2(k), i);
      BitOfPow2(k, i);
    }
  }

  /** `byte &= ~(1 << k)` clears bit k and changes no other; ~ works on a 32-bit int. */
  lemma ByteUnset(b: Byte, k: nat, m: nat)
    requires k < 8 && m == 0xFFFF_FFFF - Pow2(k)
    ensures BitAnd(b, m) < 256
    ensures forall i: nat :: Bit(BitAnd(b, m), i) == (i != k && Bit(b, i))
  {
    AndBound(b, m);
    Pow2Word();
    forall i: nat ensures Bit(BitAnd(b, m), i) == (i != k && Bit(b, i)) {
      BitOfAnd(b, m, i);
      BitOfPow2Complement(32, k, i);
      if i >= 8 { ByteHasEightBits(b, i); }
    }
  }

  lemma ByteMask(k: nat)
    requires k < 8
    ensures Pow2(k) <= 128
  {
    assert Pow2(7) == 128;
    if k < 7 { Pow2Mono(k, 7); }
  }

  lemma ByteHasEightBits(b: Byte, i: nat)
    requires i >= 8
    ensures !Bit(b, i)
  {
    assert Pow2(8) == 256;
    BitAboveIsClear(b, 8, i);
  }

  /** Bit j is the bit that the mask `1 << (j % 8)` selects in byte j / 8. */
  lemma BitPlace(s: seq<Byte>, j: nat)
    requires j < 8 * |s|
    ensures TestBit(s, j) <==> BitAnd(s[j / 8], Pow2(j % 8)) != 0
    ensures TestBit(s, j) <==> s[j / 8] / Pow2(j % 8) % 2 == 1
  {
    MaskTest(s[j / 8], j % 8);
    BitIs(s[j / 8], j % 8);
  }

  /** bitmap_t: the byte array is allocated once, its bytes are changed in place. */
  class Bitmap {
    const bytes: array<Byte>

    /** A bitmap of `size` bytes after memset(map, 0xFF, size). */
    constructor (size: nat)
      ensures fresh(bytes) && bytes.Length == size
      ensures Bits() == seq(8 * size, _ => true)
    {
      bytes := new Byte[size](_ => 0xFF);
      new;
      forall j | 0 <= j < 8 * size ensures TestBit(bytes[..], j) {
        assert Pow2(8) - 1 == 0xFF;
        BitOfOnes(8, j % 8);
      }
    }

    ghost function Bits(): (bits: seq<bool>)
      reads bytes
      ensures |bits| == 8 * bytes.Length
    {
      BitsOf(bytes[..])
    }

    method SetBit(bit: nat)
      requires bit < 8 * bytes.Length
      modifies bytes
      ensures Bits() == old(Bits())[bit := true]
    {
      var b := bytes[bit / 8];
      ByteSet(b, bit % 8);
      bytes[bit / 8] := BitOr(b, Pow2(bit % 8));
      forall j | 0 <= j < 8 * bytes.Length ensures Bits()[j] == (j == bit || old(Bits())[j]) {
        if j / 8 == bit / 8 { assert j % 8 == bit % 8 <==> j == bit; }
      }
    }

    method UnsetBit(bit: nat)
      requires bit < 8 * bytes.Length
      modifies bytes
      ensures Bits() == old(Bits())[bit := false]
    {
      var b := bytes[bit / 8];
      ByteMask(bit % 8);
      var mask := 0xFFFF_FFFF - Pow2(bit % 8);
      ByteUnset(b, bit % 8, mask);
      bytes[bit / 8] := BitAnd(b, mask);
      forall j | 0 <= j < 8 * bytes.Length ensures Bits()[j] == (j != bit && old(Bits())[j]) {
        if j / 8 == bit / 8 { assert j % 8 == bit % 8 <==> j == bit; }
      }
    }

    /** Non-zero exactly when the bit is set. */
    method CheckBit(bit: nat) returns (r: Byte)
      requires bit < 8 * bytes.Length
      ensures r != 0 <==> Bits()[bit]
    {
      var b := bytes[bit / 8];
      MaskTest(b, bit % 8);
      AndBound(b, Pow2(bit % 8));
      r := BitAnd(b, Pow2(bit % 8));
    }
  }
}
