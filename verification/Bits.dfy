/**
  Bits of unsigned integers, which are naturals: the operations behind `|` and `<<` in lab8/tools/mksfs.c and
  lab2/kern/driver/dtb.c.
 */
module Bits {

  function Pow2(t: nat): (p: nat)
    ensures p > 0
  {
    if t == 0 then 1 else 2 * Pow2(t - 1)
  }

  /** Bit `t` of a number. */
  predicate Bit(x: nat, t: nat) {
    if t == 0 then x % 2 == 1 else Bit(x / 2, t - 1)
  }

  /** `x | y` */
  function Or(x: nat, y: nat): nat
    decreases x + y
  {
    if x == 0 then y
    else if y == 0 then x
    else 2 * Or(x / 2, y / 2) + if x % 2 == 1 || y % 2 == 1 then 1 else 0
  }

  /** `w | (1 << t)` */
  function SetBit(w: nat, t: nat): nat {
    Or(w, Pow2(t))
  }

  lemma {:induction false} Powers()
    ensures Pow2(8) == 0x100 && Pow2(16) == 0x1_0000 && Pow2(24) == 0x100_0000 && Pow2(32) == 0x1_0000_0000
  {
    assert Pow2(4) == 0x10;
    assert Pow2(8) == 0x100;
    assert Pow2(12) == 0x1000;
    assert Pow2(16) == 0x1_0000;
    assert Pow2(20) == 0x10_0000;
    assert Pow2(24) == 0x100_0000;
    assert Pow2(28) == 0x1000_0000;
  }

  // ------------------------------------------------------- single bits

  lemma {:induction false} NoBits(t: nat)
    ensures !Bit(0, t)
  {
    if t > 0 { NoBits(t - 1); }
  }

  lemma {:induction false} PowerBit(t: nat, u: nat)
    ensures Bit(Pow2(t), u) <==> u == t
  {
    if t == 0 {
      if u > 0 { NoBits(u - 1); }
    } else {
      assert Pow2(t) == 2 * Pow2(t - 1);
      if u > 0 { PowerBit(t - 1, u - 1); }
    }
  }

  lemma {:induction false} HalfSum(q: nat, r: nat, k: nat)
    requires k > 0
    ensures (q * Pow2(k) + r) / 2 == q * Pow2(k - 1) + r / 2 && (q * Pow2(k) + r) % 2 == r % 2
  {
    var m := q * Pow2(k - 1);
    assert q * Pow2(k) == 2 * m;
  }

  lemma {:induction false} LowBits(q: nat, r: nat, k: nat, t: nat)
    requires t < k
    ensures Bit(q * Pow2(k) + r, t) == Bit(r, t)
  {
    HalfSum(q, r, k);
    if t > 0 { LowBits(q, r / 2, k - 1, t - 1); }
  }

  lemma {:induction false} HighBits(q: nat, r: nat, k: nat, t: nat)
    requires r < Pow2(k)
    ensures Bit(q * Pow2(k) + r, k + t) == Bit(q, t)
  {
    if k > 0 {
      HalfSum(q, r, k);
      HighBits(q, r / 2, k - 1, t);
    }
  }

  // ------------------------------------------------------- or

  /** The operation works on each bit by itself. */
  lemma {:induction false} OrBit(x: nat, y: nat, t: nat)
    ensures Bit(Or(x, y), t) <==> Bit(x, t) || Bit(y, t)
  {
    NoBits(t);
    if x > 0 && y > 0 && t > 0 { OrBit(x / 2, y / 2, t - 1); }
  }

  lemma {:induction false} OrBound(x: nat, y: nat, k: nat)
    requires x < Pow2(k) && y < Pow2(k)
    ensures Or(x, y) < Pow2(k)
  {
    if x > 0 && y > 0 {
      var half := Pow2(k - 1);
      assert Pow2(k) == 2 * half && x / 2 < half && y / 2 < half;
      OrBound(x / 2, y / 2, k - 1);
    }
  }

  lemma {:induction false} SetBitBit(w: nat, t: nat, u: nat)
    ensures Bit(SetBit(w, t), u) <==> u == t || Bit(w, u)
  {
    OrBit(w, Pow2(t), u);
    PowerBit(t, u);
  }

  lemma {:induction false} PowerBelow(t: nat, k: nat)
    requires t < k
    ensures Pow2(t) < Pow2(k)
  {
    if t + 1 < k { PowerBelow(t, k - 1); }
  }

  lemma {:induction false} SetBitBound(w: nat, t: nat, k: nat)
    requires w < Pow2(k) && t < k
    ensures SetBit(w, t) < Pow2(k)
  {
    PowerBelow(t, k);
    OrBound(w, Pow2(t), k);
  }

  ghost predicate Shared(x: nat, y: nat, t: nat) { Bit(x, t) && Bit(y, t) }

  /** No bit is set in both. */
  ghost predicate Apart(x: nat, y: nat) {
    forall t: nat :: !Shared(x, y, t)
  }

  lemma {:induction false} ApartHalves(x: nat, y: nat)
    ensures Apart(x, y) <==> !(x % 2 == 1 && y % 2 == 1) && Apart(x / 2, y / 2)
  {
    assert Shared(x, y, 0) <==> x % 2 == 1 && y % 2 == 1;
    forall t: nat ensures Shared(x / 2, y / 2, t) == Shared(x, y, t + 1) {}
    if !Apart(x, y) {
      var t: nat :| Shared(x, y, t);
      assert t > 0 ==> Shared(x / 2, y / 2, t - 1);
    }
  }

  lemma {:induction false} OrAtMost(x: nat, y: nat)
    ensures Or(x, y) <= x + y
    decreases x + y
  {
    if x > 0 && y > 0 { OrAtMost(x / 2, y / 2); }
  }

  /** The operation is addition exactly where no bit is set in both. */
  lemma {:induction false} OrDisjoint(x: nat, y: nat)
    ensures Or(x, y) == x + y <==> Apart(x, y)
    decreases x + y
  {
    if x == 0 || y == 0 {
      forall t: nat ensures !Shared(x, y, t) { NoBits(t); }
    } else {
      OrDisjoint(x / 2, y / 2);
      OrAtMost(x / 2, y / 2);
      ApartHalves(x, y);
    }
  }

  /** So it is for a number and one shifted past it. */
  lemma {:induction false} OrShifted(x: nat, y: nat, k: nat)
    requires y < Pow2(k)
    ensures Or(x * Pow2(k), y) == x * Pow2(k) + y
  {
    forall t: nat ensures !Shared(x * Pow2(k), y, t) {
      if t < k {
        LowBits(x, 0, k, t);
        NoBits(t);
      } else {
        HighBits(0, y, k, t - k);
        NoBits(t - k);
      }
    }
    OrDisjoint(x * Pow2(k), y);
  }

  /** Bit `t` of the number `q` is bit `k + t` of a number whose quotient by `Pow2(k)` it is. */
  lemma {:induction false} QuotientBit(w: nat, k: nat, q: nat, t: nat)
    requires q == w / Pow2(k)
    ensures Bit(q, t) == Bit(w, k + t)
  {
    assert w == q * Pow2(k) + w % Pow2(k);
    HighBits(q, w % Pow2(k), k, t);
  }

  lemma {:induction false} ByteBit(q: nat, t: nat)
    requires t < 8
    ensures Bit(q % 256, t) == Bit(q, t)
  {
    Powers();
    LowBits(q / 256, q % 256, 8, t);
  }
}
