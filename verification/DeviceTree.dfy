/**
  lab2/kern/driver/dtb.c: numbers in a flattened device tree are big-endian, the processor is little-endian, and
  fdt32_to_cpu and fdt64_to_cpu translate.  Unsigned integers are naturals below a power of two: a shift is a
  product or a quotient, and a mask of low bits a remainder.
 */
module DeviceTree {
  import opened Bits

  type Octet = x: int | 0 <= x < 256
  type Bytes = seq<Octet>

  const M8: int := 0x100
  const M16: int := 0x1_0000
  const M24: int := 0x100_0000
  const M32: int := 0x1_0000_0000
  const M64: int := 0x1_0000_0000_0000_0000

  // ------------------------------------------------------- byte order

  /** Left shifts by multiplication with a power of two, cut to the width of the type. */
  function Shift32(x: nat, m: nat): nat { x * m % M32 }

  function Shift64(x: nat, m: nat): nat { x * m % M64 }

  /** The octets `b0` to `b3` shifted to their places and put together. */
  function Placed(b0: nat, b1: nat, b2: nat, b3: nat): nat {
    Or(Or(Or(Shift32(b0, M24), Shift32(b1, M16)), Shift32(b2, M8)), b3)
  }

  function Fdt32ToCpu(x: nat): nat {
    Placed(x % M8, x / M8 % M8, x / M16 % M8, x / M24 % M8)
  }

  function Fdt64ToCpu(x: nat): nat {
    Or(Shift64(Fdt32ToCpu(x % M32), M32), Fdt32ToCpu(x / M32))
  }

  /** Four octets as a number, the first or the last of them weighing most. */
  function Big(b0: Octet, b1: Octet, b2: Octet, b3: Octet): (x: nat)
    ensures x < M32
  {
    b0 * M24 + b1 * M16 + b2 * M8 + b3
  }

  function Little(b0: Octet, b1: Octet, b2: Octet, b3: Octet): (x: nat)
    ensures x < M32
  {
    Big(b3, b2, b1, b0)
  }

  /** A word as the processor loads it. */
  function Load32(b: Bytes, p: nat): nat
    requires p + 4 <= |b|
  {
    Little(b[p], b[p + 1], b[p + 2], b[p + 3])
  }

  function Load64(b: Bytes, p: nat): nat
    requires p + 8 <= |b|
  {
    Load32(b, p + 4) * M32 + Load32(b, p)
  }

  /** A word as the blob holds it. */
  function Big32(b: Bytes, p: nat): (x: nat)
    requires p + 4 <= |b|
    ensures x < M32
  {
    Big(b[p], b[p + 1], b[p + 2], b[p + 3])
  }

  function Big64(b: Bytes, p: nat): nat
    requires p + 8 <= |b|
  {
    Big32(b, p) * M32 + Big32(b, p + 4)
  }

  lemma {:induction false} Octets(b0: Octet, b1: Octet, b2: Octet, b3: Octet)
    ensures var x := Little(b0, b1, b2, b3);
            x % M8 == b0 && x / M8 % M8 == b1 && x / M16 % M8 == b2 && x / M24 % M8 == b3
  {
    var x := Little(b0, b1, b2, b3);
    assert x / M8 == b1 + b2 * M8 + b3 * M16;
    assert x / M16 == b2 + b3 * M8;
    assert x / M24 == b3;
  }

  lemma {:induction false} OrAt24(x: nat, y: nat)
    requires y < M24
    ensures Or(x * M24, y) == x * M24 + y
  {
    Powers();
    OrShifted(x, y, 24);
  }

  lemma {:induction false} OrAt16(x: nat, y: nat)
    requires y < M16
    ensures Or(x * M16, y) == x * M16 + y
  {
    Powers();
    OrShifted(x, y, 16);
  }

  lemma {:induction false} OrAt8(x: nat, y: nat)
    requires y < M8
    ensures Or(x * M8, y) == x * M8 + y
  {
    Powers();
    OrShifted(x, y, 8);
  }

  lemma {:induction false} OrOctets(b0: Octet, b1: Octet, b2: Octet, b3: Octet)
    ensures Or(Or(Or(b0 * M24, b1 * M16), b2 * M8), b3) == Big(b0, b1, b2, b3)
  {
    var x := b0 * M8 + b1;
    var y := x * M8 + b2;
    OrAt24(b0, b1 * M16);
    assert b0 * M24 + b1 * M16 == x * M16;
    OrAt16(x, b2 * M8);
    assert x * M16 + b2 * M8 == y * M8;
    OrAt8(y, b3);
  }

  lemma {:induction false} ShiftsFit(b: Octet)
    ensures Shift32(b, M24) == b * M24 && Shift32(b, M16) == b * M16 && Shift32(b, M8) == b * M8
  {
  }

  lemma {:induction false} PlacedOctets(b0: Octet, b1: Octet, b2: Octet, b3: Octet)
    ensures Placed(b0, b1, b2, b3) == Big(b0, b1, b2, b3)
  {
    ShiftsFit(b0);
    ShiftsFit(b1);
    ShiftsFit(b2);
    OrOctets(b0, b1, b2, b3);
  }

  /** The swapped load of a word is the number the blob holds. */
  lemma {:induction false} Swapped(b0: Octet, b1: Octet, b2: Octet, b3: Octet)
    ensures Fdt32ToCpu(Little(b0, b1, b2, b3)) == Big(b0, b1, b2, b3)
  {
    Octets(b0, b1, b2, b3);
    PlacedOctets(b0, b1, b2, b3);
  }

  lemma {:induction false} Swapped32(b: Bytes, p: nat)
    requires p + 4 <= |b|
    ensures Fdt32ToCpu(Load32(b, p)) == Big32(b, p)
  {
    Swapped(b[p], b[p + 1], b[p + 2], b[p + 3]);
  }

  lemma {:induction false} Halves(hi: nat, lo: nat)
    requires lo < M32
    ensures (hi * M32 + lo) % M32 == lo && (hi * M32 + lo) / M32 == hi
  {
  }

  lemma {:induction false} ShiftHigh(v: nat)
    requires v < M32
    ensures Shift64(v, M32) == v * M32
  {
  }

  lemma {:induction false} OrHalves(hi: nat, lo: nat)
    requires lo < M32
    ensures Or(hi * M32, lo) == hi * M32 + lo
  {
    Powers();
    OrShifted(hi, lo, 32);
  }

  /** Swapping the bytes of a double word swaps its halves and the bytes of each. */
  lemma {:induction false} SwapJoined(hi: nat, lo: nat)
    requires hi < M32 && lo < M32 && Fdt32ToCpu(hi) < M32 && Fdt32ToCpu(lo) < M32
    ensures Fdt64ToCpu(hi * M32 + lo) == Fdt32ToCpu(lo) * M32 + Fdt32ToCpu(hi)
  {
    Halves(hi, lo);
    ShiftHigh(Fdt32ToCpu(lo));
    OrHalves(Fdt32ToCpu(lo), Fdt32ToCpu(hi));
  }

  /** Likewise for a double word. */
  lemma {:induction false} Swapped64(b: Bytes, p: nat)
    requires p + 8 <= |b|
    ensures Fdt64ToCpu(Load64(b, p)) == Big64(b, p)
  {
    Swapped32(b, p);
    Swapped32(b, p + 4);
    SwapJoined(Load32(b, p + 4), Load32(b, p));
  }

  /** Every 32-bit number is four octets. */
  lemma {:induction false} AsOctets(x: nat) returns (b0: Octet, b1: Octet, b2: Octet, b3: Octet)
    requires x < M32
    ensures x == Little(b0, b1, b2, b3)
  {
    var q1 := x / M8;
    var q2 := q1 / M8;
    b0, b1, b2, b3 := x % M8, q1 % M8, q2 % M8, q2 / M8;
    assert x == q1 * M8 + b0 && q1 == q2 * M8 + b1 && q2 == b3 * M8 + b2;
  }

  /** Swapping twice changes nothing. */
  lemma {:induction false} SwapTwice(x: nat)
    requires x < M32
    ensures Fdt32ToCpu(Fdt32ToCpu(x)) == x
  {
    var b0, b1, b2, b3 := AsOctets(x);
    Swapped(b0, b1, b2, b3);
    Swapped(b3, b2, b1, b0);
  }
}
