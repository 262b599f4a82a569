/** Strings that end at their first NUL, and the integer widths of the machine. */
module CStrings {

  type CString = s: string | '\0' !in s

  /** The character a pointer to position `i` sees; the terminator is past the last one. */
  function At(s: CString, i: nat): char
    requires i <= |s|
  {
    if i < |s| then s[i] else '\0'
  }

  const H32: int := 0x8000_0000
  const H64: int := 0x8000_0000_0000_0000

  function Abs(v: int): nat { if v < 0 then -v else v }

  /** The number in [-half, half) that differs from `x` by a multiple of 2 * half. */
  function Wrap(x: int, half: int): (r: int)
    requires half > 0
    ensures -half <= r < half && (r == x <==> -half <= x < half)
    decreases Abs(2 * x + 1)
  {
    if x >= half then Wrap(x - 2 * half, half) else if x < -half then Wrap(x + 2 * half, half) else x
  }

  /** The value of the low 32 bits as an int, and of the low 64 bits as a long. */
  function Wrap32(x: int): (r: int)
    ensures -H32 <= r < H32 && (r == x <==> -H32 <= x < H32)
  {
    Wrap(x, H32)
  }

  function Wrap64(x: int): (r: int)
    ensures -H64 <= r < H64 && (r == x <==> -H64 <= x < H64)
  {
    Wrap(x, H64)
  }

  lemma {:induction false} WrapShift(x: int, half: int)
    requires half > 0
    ensures Wrap(x + 2 * half, half) == Wrap(x, half)
    decreases Abs(2 * x + 1)
  {
    if x < -half { WrapShift(x + 2 * half, half); }
  }

  lemma {:induction false} OneTurn(k: int, m: int)
    ensures (k + 1) * m == k * m + m
  {
  }

  /** Numbers that differ by a multiple of the modulus have the same low bits. */
  lemma {:induction false} WrapCongruent(x: int, half: int, k: int)
    requires half > 0
    ensures Wrap(x + k * (2 * half), half) == Wrap(x, half)
    decreases Abs(k)
  {
    if k > 0 {
      OneTurn(k - 1, 2 * half);
      WrapShift(x + (k - 1) * (2 * half), half);
      WrapCongruent(x, half, k - 1);
    } else if k < 0 {
      OneTurn(k, 2 * half);
      WrapShift(x + k * (2 * half), half);
      WrapCongruent(x, half, k + 1);
    }
  }

  lemma {:induction false} WrapTurns(x: int, half: int) returns (k: int)
    requires half > 0
    ensures Wrap(x, half) == x + k * (2 * half)
    decreases Abs(2 * x + 1)
  {
    if x >= half {
      k := WrapTurns(x - 2 * half, half);
      OneTurn(k - 1, 2 * half);
      k := k - 1;
    } else if x < -half {
      k := WrapTurns(x + 2 * half, half);
      OneTurn(k, 2 * half);
      k := k + 1;
    } else {
      k := 0;
    }
  }

  lemma {:induction false} Distribute(x: int, k: int, m: int, b: int, d: int)
    ensures (x + k * m) * b + d == (x * b + d) + (k * b) * m
  {
    assert (k * m) * b == (k * b) * m;
  }

  /** Arithmetic on the low bits gives the low bits of the result. */
  lemma {:induction false} WrapStep(x: int, b: int, d: int, half: int)
    requires half > 0
    ensures Wrap(Wrap(x, half) * b + d, half) == Wrap(x * b + d, half)
  {
    var k := WrapTurns(x, half);
    Distribute(x, k, 2 * half, b, d);
    WrapCongruent(x * b + d, half, k * b);
  }

  lemma {:induction false} WrapNegate(x: int, half: int)
    requires half > 0
    ensures Wrap(-Wrap(x, half), half) == Wrap(-x, half)
  {
    WrapStep(x, -1, 0, half);
  }
}
