/**
  Printing a number (printnum of lab8/libs/printfmt.c) and reading one (strtol of lab8/libs/string.c): what the
  two compute, and exactly when the second undoes the first.
 */
module Numerals {
  import opened CStrings

  // ------------------------------------------------------- digits

  function DigitChar(d: nat): char
    requires d < 16
  {
    "0123456789abcdef"[d]
  }

  /** The value of a letter or digit, and -1 for any other character. */
  function DigitValue(c: char): int {
    if '0' <= c <= '9' then c as int - '0' as int
    else if 'a' <= c <= 'z' then c as int - 'a' as int + 10
    else if 'A' <= c <= 'Z' then c as int - 'A' as int + 10
    else -1
  }

  predicate IsDigit(c: char, base: int) {
    0 <= DigitValue(c) < base
  }

  predicate AllDigits(t: string, base: int) {
    forall i :: 0 <= i < |t| ==> IsDigit(t[i], base)
  }

  /** What a string of digits stands for. */
  function Value(t: string, base: int): int {
    if t == "" then 0 else Value(t[..|t| - 1], base) * base + DigitValue(t[|t| - 1])
  }

  /** `n` in the given base, without leading zeros. */
  function Digits(n: nat, base: nat): (t: string)
    requires 2 <= base <= 16
    ensures |t| > 0
  {
    if n < base then [DigitChar(n)] else Digits(n / base, base) + [DigitChar(n % base)]
  }

  function Fill(c: char, n: int): (t: string)
    ensures |t| == (if n > 0 then n else 0) && forall i :: 0 <= i < |t| ==> t[i] == c
  {
    if n <= 0 then "" else seq(n, _ => c)
  }

  /** What printnum emits. */
  function Padded(n: nat, base: nat, width: int, padc: char): (t: string)
    requires 2 <= base <= 16
  {
    Fill(padc, width - |Digits(n, base)|) + Digits(n, base)
  }

  function Pow(base: nat, k: nat): nat {
    if k == 0 then 1 else base * Pow(base, k - 1)
  }

  lemma {:induction false} ValueSnoc(t: string, c: char, base: int)
    ensures Value(t + [c], base) == Value(t, base) * base + DigitValue(c)
  {
    assert (t + [c])[..|t|] == t;
  }

  lemma {:induction false} DigitCharValue(d: nat)
    requires d < 16
    ensures DigitValue(DigitChar(d)) == d && (DigitChar(d) == '0' <==> d == 0)
  {
  }

  lemma {:induction false} ReadSnoc(t: string, q: nat, r: nat, base: nat)
    requires 2 <= base <= 16 && r < base && AllDigits(t, base) && Value(t, base) == q
    ensures AllDigits(t + [DigitChar(r)], base) && Value(t + [DigitChar(r)], base) == q * base + r
  {
    DigitCharValue(r);
    ValueSnoc(t, DigitChar(r), base);
  }

  /** The digits of `n` are digits, they stand for `n`, and there is no leading zero. */
  lemma {:induction false} DigitsRead(n: nat, base: nat)
    requires 2 <= base <= 16
    ensures AllDigits(Digits(n, base), base) && Value(Digits(n, base), base) == n
    ensures Digits(n, base)[0] == '0' ==> n == 0 && Digits(n, base) == "0"
    decreases n
  {
    if n < base {
      DigitCharValue(n);
      ReadSnoc("", 0, n, base);
      assert "" + [DigitChar(n)] == [DigitChar(n)];
    } else {
      QuotientPositive(n, base);
      var q, r := n / base, n % base;
      DigitsRead(q, base);
      ReadSnoc(Digits(q, base), q, r, base);
    }
  }

  lemma {:induction false} DoubleAtLeast(q: nat, base: nat)
    requires base >= 2
    ensures q * base >= 2 * q
  {
  }

  lemma {:induction false} QuotientPositive(n: nat, base: nat)
    requires n >= base > 1
    ensures 0 < n / base < n && n == (n / base) * base + n % base && n % base < base
  {
    var q, r := n / base, n % base;
    assert n == q * base + r && 0 <= r < base;
    DoubleAtLeast(q, base);
  }

  lemma {:induction false} BelowProduct(q: nat, r: nat, base: nat, p: nat)
    requires r < base
    ensures q < p <==> q * base + r < base * p
  {
    if q < p {
      assert (q + 1) * base <= p * base;
    } else {
      assert p * base <= q * base;
    }
  }

  /** The number of digits is the least that suffices. */
  lemma {:induction false} DigitsLength(n: nat, base: nat)
    requires 2 <= base <= 16
    ensures n < Pow(base, |Digits(n, base)|)
    ensures n > 0 ==> Pow(base, |Digits(n, base)| - 1) <= n
    decreases n
  {
    if n < base {
      assert Pow(base, 1) == base * Pow(base, 0);
    } else {
      QuotientPositive(n, base);
      var q, r := n / base, n % base;
      var k := |Digits(q, base)|;
      DigitsLength(q, base);
      BelowProduct(q, r, base, Pow(base, k));
      BelowProduct(q, r, base, Pow(base, k - 1));
    }
  }

  /** printnum emits as many characters as the larger of the width and the number of digits. */
  lemma {:induction false} PaddedShape(n: nat, base: nat, width: int, padc: char)
    requires 2 <= base <= 16
    ensures var t, k := Padded(n, base, width, padc), |Digits(n, base)|;
            && |t| == (if width > k then width else k)
            && t[|t| - k..] == Digits(n, base) && (forall i :: 0 <= i < |t| - k ==> t[i] == padc)
            && n < Pow(base, k) && (n > 0 ==> Pow(base, k - 1) <= n)
  {
    DigitsLength(n, base);
  }

  /** The recursion of printnum. */
  lemma {:induction false} PaddedStep(n: nat, base: nat, width: int, padc: char)
    requires 2 <= base <= 16 && n >= base
    ensures Padded(n, base, width, padc) == Padded(n / base, base, width - 1, padc) + [DigitChar(n % base)]
  {
  }

  // ------------------------------------------------------- what strtol computes

  function Blanks(s: CString, i: nat): (r: nat)
    requires i <= |s|
    ensures i <= r <= |s| && At(s, r) != ' ' && At(s, r) != '\t'
    ensures forall k :: i <= k < r ==> s[k] == ' ' || s[k] == '\t'
    decreases |s| - i
  {
    if At(s, i) == ' ' || At(s, i) == '\t' then Blanks(s, i + 1) else i
  }

  /** The end of the longest run of digits from `i` on. */
  function RunEnd(s: CString, i: nat, base: int): (r: nat)
    requires i <= |s|
    ensures i <= r <= |s| && !IsDigit(At(s, r), base)
    ensures forall k :: i <= k < r ==> IsDigit(s[k], base)
    decreases |s| - i
  {
    if IsDigit(At(s, i), base) then RunEnd(s, i + 1, base) else i
  }

  predicate HexPrefix(s: CString, i: nat, base: int)
    requires i <= |s|
  {
    (base == 0 || base == 16) && i + 1 < |s| && s[i] == '0' && s[i + 1] == 'x'
  }

  function AfterPrefix(s: CString, i: nat, base: int): (r: nat)
    requires i <= |s|
    ensures i <= r <= |s|
  {
    if HexPrefix(s, i, base) then i + 2 else if base == 0 && At(s, i) == '0' then i + 1 else i
  }

  function PrefixBase(s: CString, i: nat, base: int): int
    requires i <= |s|
  {
    if HexPrefix(s, i, base) then 16 else if base != 0 then base else if At(s, i) == '0' then 8 else 10
  }

  datatype Parse = Parse(val: int, end: nat)

  /** The digits from `k` on, as many as there are; the value is cut to a long. */
  function Run(s: CString, k: nat, neg: bool, base: int): (p: Parse)
    requires k <= |s|
    ensures k <= p.end <= |s|
  {
    var v := Value(s[k..RunEnd(s, k, base)], base);
    Parse(Wrap64(if neg then -v else v), RunEnd(s, k, base))
  }

  /** A prefix and the digits that follow. */
  function Number(s: CString, j: nat, neg: bool, base: int): (p: Parse)
    requires j <= |s|
    ensures j <= p.end <= |s|
  {
    Run(s, AfterPrefix(s, j, base), neg, PrefixBase(s, j, base))
  }

  /** Blanks, a sign and a number. */
  function Parsed(s: CString, base: int): (p: Parse)
    ensures p.end <= |s|
  {
    var i := Blanks(s, 0);
    if At(s, i) == '+' then Number(s, i + 1, false, base)
    else if At(s, i) == '-' then Number(s, i + 1, true, base)
    else Number(s, i, false, base)
  }

  // ------------------------------------------------------- strtol

  method SkipBlanks(s: CString) returns (i: nat)
    ensures i == Blanks(s, 0)
  {
    i := 0;
    while At(s, i) == ' ' || At(s, i) == '\t'
      invariant i <= |s| && Blanks(s, i) == Blanks(s, 0)
      decreases |s| - i
    {
      i := i + 1;
    }
  }

  lemma {:induction false} ValueExtend(s: string, k: nat, i: nat, base: int)
    requires k <= i < |s|
    ensures Value(s[k..i + 1], base) == Value(s[k..i], base) * base + DigitValue(s[i])
  {
    assert s[k..i + 1] == s[k..i] + [s[i]];
    ValueSnoc(s[k..i], s[i], base);
  }

  /** The digit loop of strtol; there is no check for overflow. */
  method ReadDigits(s: CString, k: nat, base: int) returns (val: int, i: nat)
    requires k <= |s|
    ensures i == RunEnd(s, k, base) && val == Wrap64(Value(s[k..i], base))
  {
    i, val := k, 0;
    assert s[k..k] == "";
    while true
      invariant k <= i <= |s| && RunEnd(s, i, base) == RunEnd(s, k, base)
      invariant val == Wrap64(Value(s[k..i], base))
      decreases |s| - i
    {
      var c, dig := At(s, i), 0;
      if '0' <= c <= '9' {
        dig := c as int - '0' as int;
      } else if 'a' <= c <= 'z' {
        dig := c as int - 'a' as int + 10;
      } else if 'A' <= c <= 'Z' {
        dig := c as int - 'A' as int + 10;
      } else {
        break;
      }
      if dig >= base { break; }
      WrapStep(Value(s[k..i], base), base, dig, H64);
      ValueExtend(s, k, i, base);
      i, val := i + 1, Wrap64(val * base + dig);
    }
  }

  /** The digits and, in the end, the sign. */
  method ReadRun(s: CString, k: nat, neg: bool, base: int) returns (val: int, end: nat)
    requires k <= |s|
    ensures Parse(val, end) == Run(s, k, neg, base)
  {
    val, end := ReadDigits(s, k, base);
    if neg {
      WrapNegate(Value(s[k..end], base), H64);
      val := Wrap64(-val);
    }
  }

  /** strtol behind the sign. */
  method ReadNumber(s: CString, j: nat, neg: bool, base: int) returns (val: int, end: nat)
    requires j <= |s|
    ensures Parse(val, end) == Number(s, j, neg, base)
  {
    var i, b := j, base;
    if (b == 0 || b == 16) && At(s, i) == '0' && At(s, i + 1) == 'x' {
      i, b := i + 2, 16;
    } else if b == 0 && At(s, i) == '0' {
      i, b := i + 1, 8;
    } else if b == 0 {
      b := 10;
    }
    val, end := ReadRun(s, i, neg, b);
  }

  /** strtol */
  method Strtol(s: CString, base: int) returns (val: int, end: nat)
    ensures Parse(val, end) == Parsed(s, base)
  {
    var i := SkipBlanks(s);
    var neg := false;
    if At(s, i) == '+' {
      i := i + 1;
    } else if At(s, i) == '-' {
      i, neg := i + 1, true;
    }
    val, end := ReadNumber(s, i, neg, base);
  }

  // ------------------------------------------------------- reading back what was printed

  function Sign(v: int): string { if v < 0 then "-" else "" }

  /** A number as %d prints it (and %u, %o and %x, which never see a negative one). */
  function Numeral(v: int, base: nat, width: int, padc: char): string
    requires 2 <= base <= 16
  {
    Sign(v) + Padded(Abs(v), base, width, padc)
  }

  /** The number of pad characters. */
  function Pads(v: int, base: nat, width: int): nat
    requires 2 <= base <= 16
  {
    var k := width - |Digits(Abs(v), base)|;
    if k > 0 then k else 0
  }

  /** A continuation that would be taken for part of the number `t`. */
  predicate Clings(t: string, base: nat, rest: string) {
    rest != "" && (IsDigit(rest[0], base) || (base == 16 && t == "0" && rest[0] == 'x'))
  }

  /** When reading undoes printing `v` as `d` behind `k` pad characters. */
  predicate Recoverable(v: int, base: nat, k: nat, d: string, padc: char, rest: string) {
    && -H64 <= v < H64
    && match padc
       case '0' => !Clings(Fill('0', k) + d, base, rest)
       case ' ' => !Clings(d, base, rest) && (k == 0 || v >= 0)
       case _ => !Clings(d, base, rest) && (k == 0 || (k == 1 && v == 0))
  }

  predicate Readable(v: int, base: nat, width: int, padc: char, rest: string)
    requires 2 <= base <= 16
  {
    Recoverable(v, base, Pads(v, base, width), Digits(Abs(v), base), padc, rest)
  }

  lemma {:induction false} BlanksAre(s: CString, i: nat, j: nat)
    requires i <= j <= |s| && At(s, j) != ' ' && At(s, j) != '\t'
    requires forall k :: i <= k < j ==> s[k] == ' ' || s[k] == '\t'
    ensures Blanks(s, i) == j
  {
  }

  lemma {:induction false} RunFrom(s: CString, i: nat, j: nat, base: int)
    requires i <= j <= |s| && forall k :: i <= k < j ==> IsDigit(s[k], base)
    ensures RunEnd(s, i, base) >= j
    ensures RunEnd(s, i, base) == j <==> !IsDigit(At(s, j), base)
  {
  }

  lemma {:induction false} DigitsAt(s: CString, j: nat, body: string, base: nat)
    requires j + |body| <= |s| && s[j..j + |body|] == body && AllDigits(body, base)
    ensures forall k :: j <= k < j + |body| ==> IsDigit(s[k], base)
  {
    forall k | j <= k < j + |body| ensures IsDigit(s[k], base) {
      assert s[k] == body[k - j];
    }
  }

  /** What reading the digits `body`, which end at `n`, comes to. */
  ghost predicate Taken(p: Parse, neg: bool, body: string, base: nat, n: nat, rest: string) {
    if Clings(body, base, rest) then p.end > n
    else p == Parse(Wrap64(if neg then -Value(body, base) else Value(body, base)), n)
  }

  /** A number at position `j`. */
  lemma {:induction false} NumberAt(s: CString, j: nat, neg: bool, body: string, base: nat)
    requires 2 <= base <= 16 && body != "" && AllDigits(body, base)
    requires j + |body| <= |s| && s[j..j + |body|] == body
    ensures Taken(Number(s, j, neg, base), neg, body, base, j + |body|, s[j + |body|..])
  {
    var n := j + |body|;
    DigitsAt(s, j, body, base);
    assert n < |s| ==> s[n..][0] == s[n];
    assert body[0] == s[j];
    if HexPrefix(s, j, base) {
      assert !IsDigit('x', base);
      assert body == "0";
    } else {
      RunFrom(s, j, n, base);
    }
  }

  /** What strtol skips: a blank lead and at most one sign. */
  lemma {:induction false} LeadSkipped(lead: string, sign: string, s: CString, base: nat)
    requires (forall k :: 0 <= k < |lead| ==> lead[k] == ' ') && (sign == "" || sign == "-")
    requires |lead| + |sign| < |s| && s[..|lead|] == lead && s[|lead|..|lead| + |sign|] == sign
    requires IsDigit(s[|lead| + |sign|], base)
    ensures Parsed(s, base) == Number(s, |lead| + |sign|, sign == "-", base)
  {
    var i := |lead|;
    forall k | 0 <= k < i ensures s[k] == ' ' { assert s[..i][k] == lead[k]; }
    if sign == "-" { assert s[i..i + 1][0] == s[i]; }
    BlanksAre(s, 0, i);
  }

  /** What stands in `s` from `j` on. */
  ghost predicate Behind(j: nat, body: string, rest: string, s: string) {
    j + |body| <= |s| && s[j..j + |body|] == body && s[j + |body|..] == rest
  }

  /** The number behind what was skipped. */
  lemma {:induction false} NumberTaken(p: Parse, j: nat, neg: bool, body: string, rest: string, s: CString, base: nat)
    requires 2 <= base <= 16 && body != "" && AllDigits(body, base)
    requires Behind(j, body, rest, s) && p == Number(s, j, neg, base)
    ensures Taken(p, neg, body, base, j + |body|, rest)
  {
    NumberAt(s, j, neg, body, base);
  }

  /** Four stretches of `s`, one behind the other. */
  ghost predicate Cut(lead: string, sign: string, body: string, rest: string, s: string) {
    && |lead| + |sign| + |body| <= |s| && s[..|lead|] == lead && s[|lead|..|lead| + |sign|] == sign
    && Behind(|lead| + |sign|, body, rest, s)
  }

  lemma {:induction false} Slices(lead: string, sign: string, body: string, rest: string, s: string)
    requires s == lead + sign + body + rest
    ensures Cut(lead, sign, body, rest, s)
  {
  }

  lemma {:induction false} CutSkipped(lead: string, sign: string, body: string, rest: string, s: CString, base: nat)
    requires Cut(lead, sign, body, rest, s) && |body| > 0 && AllDigits(body, base)
    requires (forall k :: 0 <= k < |lead| ==> lead[k] == ' ') && (sign == "" || sign == "-")
    ensures Parsed(s, base) == Number(s, |lead| + |sign|, sign == "-", base)
  {
    var j := |lead| + |sign|;
    assert s[j..j + |body|][0] == s[j];
    LeadSkipped(lead, sign, s, base);
  }

  /** A blank lead, at most one sign, and digits. */
  lemma {:induction false} ParsedNumber(lead: string, sign: string, body: string, rest: string, s: CString, base: nat)
    requires 2 <= base <= 16 && s == lead + sign + body + rest
    requires (forall k :: 0 <= k < |lead| ==> lead[k] == ' ') && (sign == "" || sign == "-")
    requires body != "" && AllDigits(body, base)
    ensures Taken(Parsed(s, base), sign == "-", body, base, |lead| + |sign| + |body|, rest)
  {
    Slices(lead, sign, body, rest, s);
    CutSkipped(lead, sign, body, rest, s, base);
    if sign == "-" {
      NumberTaken(Parsed(s, base), |lead| + 1, true, body, rest, s, base);
    } else {
      NumberTaken(Parsed(s, base), |lead|, false, body, rest, s, base);
    }
  }

  /** Whatever follows a sign and is neither a digit nor a blank lead's end stops the reading at once. */
  lemma {:induction false} ParsedBareSign(t: CString, base: nat)
    requires 2 <= base <= 16 && |t| >= 2 && t[0] == '-' && !IsDigit(t[1], base) && t[1] != '0'
    ensures Parsed(t, base) == Parse(0, 1)
  {
    BlanksAre(t, 0, 0);
    RunFrom(t, 1, 1, base);
    assert t[1..1] == "";
  }

  lemma {:induction false} ZerosAlone(k: nat, base: nat)
    requires 2 <= base <= 16
    ensures Value(Fill('0', k), base) == 0
  {
    if k > 0 {
      ZerosAlone(k - 1, base);
      assert Fill('0', k) == Fill('0', k - 1) + ['0'];
      ValueSnoc(Fill('0', k - 1), '0', base);
    }
  }

  lemma {:induction false} ZerosBefore(z: string, t: string, base: nat)
    requires 2 <= base <= 16 && Value(z, base) == 0
    ensures Value(z + t, base) == Value(t, base)
  {
    if t == "" {
      assert z + t == z;
    } else {
      var u, c := t[..|t| - 1], t[|t| - 1];
      ZerosBefore(z, u, base);
      assert t == u + [c] && z + t == (z + u) + [c];
      ValueSnoc(z + u, c, base);
      ValueSnoc(u, c, base);
    }
  }

  lemma {:induction false} ZerosValue(k: nat, t: string, base: nat)
    requires 2 <= base <= 16
    ensures Value(Fill('0', k) + t, base) == Value(t, base)
  {
    ZerosAlone(k, base);
    ZerosBefore(Fill('0', k), t, base);
  }

  /** The digits `d` of `v` behind its sign and `k` pad characters, and what follows them. */
  ghost predicate Laid(v: int, base: nat, k: nat, d: string, padc: char, rest: string, s: string) {
    && 2 <= base <= 16 && d != "" && AllDigits(d, base) && Value(d, base) == Abs(v)
    && '\0' !in s && s == Sign(v) + Fill(padc, k) + d + rest
  }

  lemma {:induction false} UnpaddedBack(v: int, base: nat, d: string, padc: char, rest: string, s: string)
    requires Laid(v, base, 0, d, padc, rest, s) && (padc == ' ' || padc == '-')
    ensures Parsed(s, base) == Parse(v, |s| - |rest|) <==> Recoverable(v, base, 0, d, padc, rest)
  {
    if v < 0 {
      assert s == "" + "-" + d + rest;
      ParsedNumber("", "-", d, rest, s, base);
    } else {
      assert s == "" + "" + d + rest;
      ParsedNumber("", "", d, rest, s, base);
    }
  }

  /** Zeros in front of the digits are digits themselves. */
  lemma {:induction false} ZerosAreDigits(v: int, base: nat, k: nat, d: string, rest: string, s: string)
    requires Laid(v, base, k, d, '0', rest, s)
    ensures Laid(v, base, 0, Fill('0', k) + d, ' ', rest, s)
  {
    ZerosValue(k, d, base);
    assert Sign(v) + Fill(' ', 0) + (Fill('0', k) + d) + rest == s;
  }

  lemma {:induction false} ZeroPaddedBack(v: int, base: nat, k: nat, d: string, rest: string, s: string)
    requires Laid(v, base, k, d, '0', rest, s)
    ensures Parsed(s, base) == Parse(v, |s| - |rest|) <==> Recoverable(v, base, k, d, '0', rest)
  {
    ZerosAreDigits(v, base, k, d, rest, s);
    UnpaddedBack(v, base, Fill('0', k) + d, ' ', rest, s);
  }

  lemma {:induction false} SpacePaddedBack(v: int, base: nat, k: nat, d: string, rest: string, s: string)
    requires Laid(v, base, k, d, ' ', rest, s) && k > 0
    ensures Parsed(s, base) == Parse(v, |s| - |rest|) <==> Recoverable(v, base, k, d, ' ', rest)
  {
    if v < 0 {
      assert s[0] == '-' && s[1] == ' ';
      ParsedBareSign(s, base);
    } else {
      assert s == Fill(' ', k) + "" + d + rest;
      ParsedNumber(Fill(' ', k), "", d, rest, s, base);
    }
  }

  lemma {:induction false} DashPaddedBack(v: int, base: nat, k: nat, d: string, rest: string, s: string)
    requires Laid(v, base, k, d, '-', rest, s) && k > 0
    ensures Parsed(s, base) == Parse(v, |s| - |rest|) <==> Recoverable(v, base, k, d, '-', rest)
  {
    if v >= 0 && k == 1 {
      assert s == "" + "-" + d + rest;
      ParsedNumber("", "-", d, rest, s, base);
    } else {
      assert s[0] == '-' && s[1] == '-';
      ParsedBareSign(s, base);
    }
  }

  lemma {:induction false} LaidBack(v: int, base: nat, k: nat, d: string, padc: char, rest: string, s: string)
    requires Laid(v, base, k, d, padc, rest, s) && padc in " 0-"
    ensures Parsed(s, base) == Parse(v, |s| - |rest|) <==> Recoverable(v, base, k, d, padc, rest)
  {
    if padc == '0' {
      ZeroPaddedBack(v, base, k, d, rest, s);
    } else if k == 0 {
      UnpaddedBack(v, base, d, padc, rest, s);
    } else if padc == ' ' {
      SpacePaddedBack(v, base, k, d, rest, s);
    } else {
      DashPaddedBack(v, base, k, d, rest, s);
    }
  }

  lemma {:induction false} DigitsNotNul(d: string, base: nat)
    requires AllDigits(d, base)
    ensures '\0' !in d
  {
  }

  lemma {:induction false} FourParts(a: string, b: string, c: string, r: string)
    requires '\0' !in a && '\0' !in b && '\0' !in c && '\0' !in r
    ensures a + (b + c) + r == a + b + c + r && '\0' !in a + b + c + r
  {
  }

  lemma {:induction false} NumeralLaid(v: int, base: nat, width: int, padc: char, rest: string)
    requires 2 <= base <= 16 && padc in " 0-" && '\0' !in rest
    ensures Laid(v, base, Pads(v, base, width), Digits(Abs(v), base), padc, rest, Numeral(v, base, width, padc) + rest)
  {
    var k, d := Pads(v, base, width), Digits(Abs(v), base);
    DigitsRead(Abs(v), base);
    DigitsNotNul(d, base);
    assert Fill(padc, width - |d|) == Fill(padc, k);
    FourParts(Sign(v), Fill(padc, k), d, rest);
  }

  /**
    Reading undoes printing, and ends just behind the number, exactly when the number fits a long, what follows
    cannot be taken for part of it, and the padding is one that strtol can get past.
   */
  lemma {:induction false} NumberReadBack(v: int, base: nat, width: int, padc: char, rest: string)
    requires 2 <= base <= 16 && padc in " 0-" && '\0' !in rest
    ensures var t := Numeral(v, base, width, padc);
            '\0' !in t + rest && (Parsed(t + rest, base) == Parse(v, |t|) <==> Readable(v, base, width, padc, rest))
  {
    NumeralLaid(v, base, width, padc, rest);
    LaidBack(v, base, Pads(v, base, width), Digits(Abs(v), base), padc, rest, Numeral(v, base, width, padc) + rest);
  }

  /** Every negative number padded with blanks is lost: strtol stops behind the sign and returns 0. */
  lemma {:induction false} PaddedNegativeLost(v: int, base: nat, width: int, rest: string)
    requires 2 <= base <= 16 && v < 0 && Pads(v, base, width) > 0 && '\0' !in rest
    ensures var s := Numeral(v, base, width, ' ') + rest;
            '\0' !in s && Parsed(s, base) == Parse(0, 1)
  {
    NumeralLaid(v, base, width, ' ', rest);
    var s := Numeral(v, base, width, ' ') + rest;
    assert s[0] == '-' && s[1] == Fill(' ', Pads(v, base, width))[0];
    ParsedBareSign(s, base);
  }

  /** The prefix "0X" is not taken for one: the reading ends behind its zero, in base 16 and in base 0. */
  lemma {:induction false} CapitalPrefixIgnored(rest: string)
    requires '\0' !in rest
    ensures var s := "0X" + rest;
            '\0' !in s && Parsed(s, 16) == Parse(0, 1) && Parsed(s, 0) == Parse(0, 1)
  {
    var s: CString := "0X" + rest;
    assert s[0] == '0' && s[1] == 'X';
    BlanksAre(s, 0, 0);
    RunFrom(s, 0, 1, 16);
    RunFrom(s, 1, 1, 8);
    assert s[0..1] == "" + ['0'] && s[1..1] == "";
    ValueSnoc("", '0', 16);
  }
}
