/** bit_packed_atomic_flags of src/cuckoocache.h: eight flags to a byte. */
module BitFlags {

  type uint32 = x: int | 0 <= x < 0x1_0000_0000

  /** 1 << k as a byte. */
  function Mask(k: nat): bv8
    requires k < 8
  {
    if k == 0 then 1 else if k == 1 then 2 else if k == 2 then 4 else if k == 3 then 8
    else if k == 4 then 16 else if k == 5 then 32 else if k == 6 then 64 else 128
  }

  predicate HasBit(x: bv8, k: nat)
    requires k < 8
  {
    Mask(k) & x != 0
  }

  function WithBit(x: bv8, k: nat): bv8
    requires k < 8
  {
    x | Mask(k)
  }

  function WithoutBit(x: bv8, k: nat): bv8
    requires k < 8
  {
    x & !Mask(k)
  }

  lemma BitsOfByte(x: bv8, k: nat, j: nat)
    requires k < 8 && j < 8
    ensures HasBit(WithBit(x, k), j) <==> j == k || HasBit(x, j)
    ensures HasBit(WithoutBit(x, k), j) <==> j != k && HasBit(x, j)
    ensures HasBit(0xFF, j)
  {
  }

  /** The number of bytes allocated for `size` flags: the sum is a 32-bit one. */
  function ByteCount(size: uint32): (n: uint32)
  {
    ((size + 7) % 0x1_0000_0000) / 8
  }

  /**
   * The padding is enough exactly up to 2**32 - 8 flags; beyond, size + 7 wraps around and
   * almost nothing is allocated.
   */
  lemma EnoughBytes(size: uint32)
    ensures size <= 8 * ByteCount(size) <==> size <= 0xFFFF_FFF8
  {
  }

  /** Where flag s is stored: its byte and its bit. */
  function Byte(s: nat): nat { s / 8 }
  function Bit(s: nat): (k: nat)
    ensures k < 8
  {
    s % 8
  }

  lemma Coordinates(s: nat, t: nat, bytes: nat)
    ensures s == t <==> Byte(s) == Byte(t) && Bit(s) == Bit(t)
    ensures s < 8 * bytes <==> Byte(s) < bytes
  {
  }

  class Flags {
    const mem: array<bv8>

    predicate IsSet(s: nat)
      requires Byte(s) < mem.Length
      reads mem
    {
      HasBit(mem[Byte(s)], Bit(s))
    }

    constructor (size: uint32)
      ensures fresh(mem) && mem.Length == ByteCount(size)
      ensures forall s: nat :: Byte(s) < mem.Length ==> IsSet(s)
    {
      var n := ByteCount(size);
      mem := new bv8[n](_ => 0xFF);
      new;
      forall s: nat | Byte(s) < mem.Length ensures IsSet(s) {
        BitsOfByte(0, 0, Bit(s));
      }
    }

    method BitSet(s: nat)
      requires Byte(s) < mem.Length
      modifies mem
      ensures forall t: nat :: Byte(t) < mem.Length ==> (IsSet(t) <==> t == s || old(IsSet(t)))
    {
      hide HasBit, WithBit, WithoutBit, Byte, Bit;
      mem[Byte(s)] := WithBit(mem[Byte(s)], Bit(s));
      forall t: nat | Byte(t) < mem.Length ensures IsSet(t) <==> t == s || old(IsSet(t)) {
        Coordinates(s, t, mem.Length);
        BitsOfByte(old(mem[Byte(s)]), Bit(s), Bit(t));
      }
    }

    method BitUnset(s: nat)
      requires Byte(s) < mem.Length
      modifies mem
      ensures forall t: nat :: Byte(t) < mem.Length ==> (IsSet(t) <==> t != s && old(IsSet(t)))
    {
      hide HasBit, WithBit, WithoutBit, Byte, Bit;
      mem[Byte(s)] := WithoutBit(mem[Byte(s)], Bit(s));
      forall t: nat | Byte(t) < mem.Length ensures IsSet(t) <==> t != s && old(IsSet(t)) {
        Coordinates(s, t, mem.Length);
        BitsOfByte(old(mem[Byte(s)]), Bit(s), Bit(t));
      }
    }
  }
}
