/**
  What printnum writes and what strtol reads, in terms of character codes and powers of the base: laws that do not
  mention the functions the code is described with.
 */
module NumeralLaws {
  import opened CStrings
  import opened Numerals

  // ------------------------------------------------------- digits

  /** `c` is how the digit `d` is written: 0 to 9, then the letters, small or capital. */
  predicate Denotes(c: char, d: nat) {
    if d < 10 then c as int == 48 + d else d < 36 && (c as int == 87 + d || c as int == 55 + d)
  }

  lemma {:induction false} DigitDenoted(c: char, d: nat)
    ensures Denotes(c, d) <==> DigitValue(c) == d
  {
  }

  lemma {:induction false} OneMore(a: nat, b: nat, m: nat)
    ensures a < b ==> a * m + m <= b * m
  {
    if a < b { assert (a + 1) * m <= b * m; }
  }

  lemma {:induction false} QuotientIs(n: nat, m: nat, q: nat, r: nat)
    requires n == q * m + r && r < m
    ensures n / m == q
  {
    assert n == (n / m) * m + n % m;
    OneMore(n / m, q, m);
    OneMore(q, n / m, m);
  }

  lemma {:induction false} Regrouped(a: nat, c: nat, b: nat, p: nat, r: nat)
    requires c < p && r < b
    ensures (a * p + c) * b + r == a * (b * p) + (c * b + r) && c * b + r < b * p
  {
    OneMore(c, p, b);
    assert (a * p + c) * b == (a * p) * b + c * b;
    assert (a * p) * b == a * (b * p);
  }

  lemma {:induction false} QuotientOfParts(n: nat, b: nat, p: nat, q: nat, r: nat, a: nat, c: nat)
    requires n == q * b + r && r < b && q == a * p + c && c < p
    ensures b * p > 0 && n / (b * p) == a
  {
    Regrouped(a, c, b, p, r);
    QuotientIs(n, b * p, a, c * b + r);
  }

  lemma {:induction false} DivMod(n: nat, m: nat) returns (q: nat, r: nat)
    requires m > 0
    ensures q == n / m && n == q * m + r && r < m
  {
    q, r := n / m, n % m;
  }

  lemma {:induction false} QuotientTwice(n: nat, b: nat, p: nat)
    requires b > 0 && p > 0
    ensures b * p > 0 && n / b / p == n / (b * p)
  {
    var q, r := DivMod(n, b);
    var a, c := DivMod(q, p);
    QuotientOfParts(n, b, p, q, r, a, c);
  }

  predicate WrittenAs(c: char, d: int) { c as int == if d < 10 then 48 + d else 87 + d }

  lemma {:induction false} DigitCharIs(d: nat)
    requires d < 16
    ensures WrittenAs(DigitChar(d), d)
  {
  }

  /** Character `i` of `t` is the digit of `n` it stands for, in small letters. */
  ghost predicate SpeltAt(t: string, n: nat, base: nat, i: nat)
    requires i < |t|
  {
    var p := Pow(base, |t| - 1 - i);
    p > 0 && base > 0 && WrittenAs(t[i], n / p % base)
  }

  lemma {:induction false} LastSpelt(t: string, n: nat, base: nat)
    requires 2 <= base <= 16 && |t| > 0 && t[|t| - 1] == DigitChar(n % base)
    ensures SpeltAt(t, n, base, |t| - 1)
  {
    DigitCharIs(n % base);
    assert Pow(base, 0) == 1;
  }

  lemma {:induction false} SpeltSnoc(t: string, c: char, n: nat, base: nat, i: nat)
    requires 2 <= base <= 16 && i < |t| && SpeltAt(t, n / base, base, i)
    ensures SpeltAt(t + [c], n, base, i)
  {
    var p := Pow(base, |t| - 1 - i);
    QuotientTwice(n, base, p);
    assert Pow(base, |t| - i) == base * p;
  }

  /** Character by character: each digit is the quotient by its power of the base, reduced by the base. */
  lemma {:induction false} DigitsSpelt(n: nat, base: nat, i: nat)
    requires 2 <= base <= 16 && i < |Digits(n, base)|
    ensures SpeltAt(Digits(n, base), n, base, i)
    decreases n
  {
    var t := Digits(n, base);
    if i == |t| - 1 {
      LastSpelt(t, n, base);
    } else {
      QuotientPositive(n, base);
      DigitsSpelt(n / base, base, i);
      SpeltSnoc(Digits(n / base, base), DigitChar(n % base), n, base, i);
    }
  }

  // ------------------------------------------------------- what a string of digits stands for

  /** The digits `ds` in positional notation. */
  function Weigh(ds: seq<nat>, b: nat): int {
    if |ds| == 0 then 0 else ds[0] * Pow(b, |ds| - 1) + Weigh(ds[1..], b)
  }

  lemma {:induction false} OneDigit(d: nat, p: nat, w: int, e: nat, b: nat)
    ensures d * (b * p) + (w * b + e) == (d * p + w) * b + e
  {
    assert d * (b * p) == (d * p) * b;
  }

  lemma {:induction false} WeighSnoc(ds: seq<nat>, d: nat, b: nat)
    ensures Weigh(ds + [d], b) == Weigh(ds, b) * b + d
  {
    if |ds| == 0 {
      assert ds + [d] == [d] && Pow(b, 0) == 1;
    } else {
      WeighSnoc(ds[1..], d, b);
      assert (ds + [d])[1..] == ds[1..] + [d];
      OneDigit(ds[0], Pow(b, |ds| - 1), Weigh(ds[1..], b), d, b);
    }
  }

  ghost predicate Spelt(t: string, ds: seq<nat>, b: nat) {
    |t| == |ds| && forall i :: 0 <= i < |t| ==> ds[i] < b && Denotes(t[i], ds[i])
  }

  lemma {:induction false} SpeltValue(t: string, ds: seq<nat>, b: nat)
    requires Spelt(t, ds, b)
    ensures AllDigits(t, b) && Value(t, b) == Weigh(ds, b)
    decreases |t|
  {
    forall i | 0 <= i < |t| ensures IsDigit(t[i], b) { DigitDenoted(t[i], ds[i]); }
    if |t| > 0 {
      var k := |t| - 1;
      SpeltValue(t[..k], ds[..k], b);
      WeighSnoc(ds[..k], ds[k], b);
      assert ds == ds[..k] + [ds[k]];
      DigitDenoted(t[k], ds[k]);
    }
  }

  // ------------------------------------------------------- strtol

  predicate Begins(t: string, c: char) { |t| > 0 && t[0] == c }

  /** What follows a run of digits of base `b`. */
  ghost predicate Stops(rest: string, b: nat) {
    |rest| > 0 ==> forall d: nat :: d < b ==> !Denotes(rest[0], d)
  }

  /** What strtol passes before it looks for a prefix: blanks, tabs and at most one sign. */
  predicate Lead(lead: string, sign: string, number: string) {
    && (forall k :: 0 <= k < |lead| ==> lead[k] == ' ' || lead[k] == '\t')
    && (sign == "+" || sign == "-" || (sign == "" && !Begins(number, '+') && !Begins(number, '-')
                                       && !Begins(number, ' ') && !Begins(number, '\t')))
  }

  /** The prefix strtol takes in front of `body` and `rest` when called with `base`, and the base it goes on with. */
  predicate Prefixed(base: nat, prefix: string, body: string, rest: string, b: nat) {
    if prefix == "0x" then (base == 0 || base == 16) && b == 16
    else if prefix == "0" then base == 0 && b == 8 && !(body == "" && Begins(rest, 'x'))
    else prefix == "" && (if base == 0 then b == 10 && !Begins(body, '0')
                          else 2 <= base <= 36 && b == base && !(b == 16 && body == "0" && Begins(rest, 'x')))
  }

  /** `t` stands in `s` at position `i`. */
  ghost predicate Stands(s: string, i: nat, t: string) {
    i + |t| <= |s| && forall k :: 0 <= k < |t| ==> s[i + k] == t[k]
  }

  ghost predicate Parts(s: string, lead: string, sign: string, prefix: string, body: string, rest: string) {
    var i := |lead|;
    var j := i + |sign|;
    var k := j + |prefix|;
    && |s| == k + |body| + |rest| && Stands(s, 0, lead) && Stands(s, i, sign) && Stands(s, j, prefix)
    && Stands(s, k, body) && Stands(s, k + |body|, rest)
  }

  lemma {:induction false} PartsOf(s: string, lead: string, sign: string, prefix: string, body: string, rest: string)
    requires s == lead + sign + prefix + body + rest
    ensures Parts(s, lead, sign, prefix, body, rest)
  {
  }

  lemma {:induction false} FirstOf(s: CString, j: nat, prefix: string, body: string, rest: string, c: char)
    requires |s| == j + |prefix| + |body| + |rest|
    requires Stands(s, j, prefix) && Stands(s, j + |prefix|, body) && Stands(s, j + |prefix| + |body|, rest)
    ensures c != '\0' ==> (At(s, j) == c <==> Begins(prefix + body + rest, c))
  {
    if |prefix| > 0 {
      assert s[j + 0] == prefix[0];
    } else if |body| > 0 {
      assert s[j + 0] == body[0];
    } else if |rest| > 0 {
      assert s[j + 0] == rest[0];
    }
  }

  /** No character that strtol would pass or take for a sign comes first behind an absent sign. */
  lemma {:induction false} NoneFirst(s: CString, i: nat, prefix: string, body: string, rest: string)
    requires |s| == i + |prefix| + |body| + |rest|
    requires Stands(s, i, prefix) && Stands(s, i + |prefix|, body) && Stands(s, i + |prefix| + |body|, rest)
    requires Lead("", "", prefix + body + rest)
    ensures At(s, i) != ' ' && At(s, i) != '\t' && At(s, i) != '+' && At(s, i) != '-'
  {
    FirstOf(s, i, prefix, body, rest, ' ');
    FirstOf(s, i, prefix, body, rest, '\t');
    FirstOf(s, i, prefix, body, rest, '+');
    FirstOf(s, i, prefix, body, rest, '-');
  }

  lemma {:induction false} BlanksPassed(s: CString, lead: string)
    requires Stands(s, 0, lead) && forall k :: 0 <= k < |lead| ==> lead[k] == ' ' || lead[k] == '\t'
    requires At(s, |lead|) != ' ' && At(s, |lead|) != '\t'
    ensures Blanks(s, 0) == |lead|
  {
    forall k | 0 <= k < |lead| ensures s[k] == ' ' || s[k] == '\t' { assert s[0 + k] == lead[k]; }
    BlanksAre(s, 0, |lead|);
  }

  lemma {:induction false} LeadPassed(s: CString, base: nat, lead: string, sign: string, neg: bool, prefix: string,
                                      body: string, rest: string)
    requires Parts(s, lead, sign, prefix, body, rest) && Lead(lead, sign, prefix + body + rest)
    requires neg == (sign == "-")
    ensures Parsed(s, base) == Number(s, |lead| + |sign|, neg, base)
  {
    if sign == "" {
      NoneFirst(s, |lead|, prefix, body, rest);
    } else {
      assert s[|lead| + 0] == sign[0];
    }
    BlanksPassed(s, lead);
  }

  lemma {:induction false} NotHex(s: CString, j: nat, body: string, rest: string, base: nat)
    requires |s| == j + |body| + |rest| && Stands(s, j, body) && Stands(s, j + |body|, rest)
    requires forall k :: 0 <= k < |body| ==> IsDigit(body[k], 16)
    requires Begins(body, '0') ==> !(body == "0" && Begins(rest, 'x'))
    requires body == "" ==> !Begins(rest, '0')
    ensures !HexPrefix(s, j, base)
  {
    if |body| > 0 { assert s[j + 0] == body[0]; }
    if |body| > 1 { assert s[j + 1] == body[1]; }
    if |body| == 1 && |rest| > 0 { assert s[j + 1 + 0] == rest[0]; }
    if |body| == 0 && |rest| > 0 { assert s[j + 0] == rest[0]; }
  }

  lemma {:induction false} PrefixPassed(s: CString, base: nat, j: nat, prefix: string, body: string, rest: string,
                                        b: nat)
    requires |s| == j + |prefix| + |body| + |rest| && Prefixed(base, prefix, body, rest, b)
    requires Stands(s, j, prefix) && Stands(s, j + |prefix|, body) && Stands(s, j + |prefix| + |body|, rest)
    requires AllDigits(body, b) && Stops(rest, b)
    ensures AfterPrefix(s, j, base) == j + |prefix| && PrefixBase(s, j, base) == b
  {
    if prefix == "0x" {
      assert s[j + 0] == prefix[0] && s[j + 1] == prefix[1];
    } else if prefix == "0" {
      assert s[j + 0] == prefix[0];
      if |body| > 0 { assert s[j + 1 + 0] == body[0]; }
      if |rest| > 0 { assert s[j + 1 + |body| + 0] == rest[0]; }
    } else if base == 0 || base == 16 {
      assert Denotes('0', 0);
      NotHex(s, j, body, rest, base);
      FirstOf(s, j, "", body, rest, '0');
    }
  }

  lemma {:induction false} RunStops(s: CString, k: nat, body: string, rest: string, b: nat)
    requires |s| == k + |body| + |rest| && Stands(s, k, body) && Stands(s, k + |body|, rest)
    requires AllDigits(body, b) && Stops(rest, b)
    ensures RunEnd(s, k, b) == k + |body| && s[k..k + |body|] == body
  {
    forall i | k <= i < k + |body| ensures IsDigit(s[i], b) { assert s[k + (i - k)] == body[i - k]; }
    if |rest| > 0 {
      assert s[k + |body| + 0] == rest[0];
      var v := DigitValue(rest[0]);
      if 0 <= v < b { DigitDenoted(rest[0], v); }
    }
    RunFrom(s, k, k + |body|, b);
  }

  /** The reading ends at `end`, with the residue of `v` modulo 2^64 that lies between -2^63 and 2^63. */
  ghost predicate Reads(p: Parse, v: int, end: int) {
    && p.end == end && -0x8000_0000_0000_0000 <= p.val < 0x8000_0000_0000_0000
    && (p.val - v) % 0x1_0000_0000_0000_0000 == 0
  }

  lemma {:induction false} LongResidue(v: int, end: nat)
    ensures Reads(Parse(Wrap64(v), end), v, end)
  {
    var k := WrapTurns(v, H64);
  }

  /** What the digits of `body` come to behind a sign. */
  function Meant(neg: bool, ds: seq<nat>, b: nat): int { if neg then -Weigh(ds, b) else Weigh(ds, b) }

  lemma {:induction false} RunIs(s: CString, k: nat, neg: bool, body: string, ds: seq<nat>, rest: string, b: nat)
    requires |s| == k + |body| + |rest| && Stands(s, k, body) && Stands(s, k + |body|, rest)
    requires Spelt(body, ds, b) && Stops(rest, b)
    ensures Run(s, k, neg, b) == Parse(Wrap64(Meant(neg, ds, b)), k + |body|)
  {
    SpeltValue(body, ds, b);
    RunStops(s, k, body, rest, b);
  }

  lemma {:induction false} NumberIs(s: CString, base: nat, j: nat, neg: bool, prefix: string, body: string,
                                    ds: seq<nat>, rest: string, b: nat)
    requires |s| == j + |prefix| + |body| + |rest| && Prefixed(base, prefix, body, rest, b)
    requires Stands(s, j, prefix) && Stands(s, j + |prefix|, body) && Stands(s, j + |prefix| + |body|, rest)
    requires Spelt(body, ds, b) && Stops(rest, b)
    ensures Number(s, j, neg, base) == Run(s, j + |prefix|, neg, b)
  {
    SpeltValue(body, ds, b);
    PrefixPassed(s, base, j, prefix, body, rest, b);
  }

  lemma {:induction false} NumberRead(s: CString, base: nat, j: nat, neg: bool, prefix: string, body: string,
                                      ds: seq<nat>, rest: string, b: nat)
    requires |s| == j + |prefix| + |body| + |rest| && Prefixed(base, prefix, body, rest, b)
    requires Stands(s, j, prefix) && Stands(s, j + |prefix|, body) && Stands(s, j + |prefix| + |body|, rest)
    requires Spelt(body, ds, b) && Stops(rest, b)
    ensures Reads(Number(s, j, neg, base), Meant(neg, ds, b), |s| - |rest|)
  {
    NumberIs(s, base, j, neg, prefix, body, ds, rest, b);
    RunIs(s, j + |prefix|, neg, body, ds, rest, b);
    LongResidue(Meant(neg, ds, b), |s| - |rest|);
  }

  lemma {:induction false} PartsRead(s: CString, base: nat, lead: string, sign: string, neg: bool, prefix: string,
                                     body: string, ds: seq<nat>, rest: string, b: nat)
    requires Parts(s, lead, sign, prefix, body, rest) && Lead(lead, sign, prefix + body + rest)
    requires Prefixed(base, prefix, body, rest, b) && Spelt(body, ds, b) && Stops(rest, b) && neg == (sign == "-")
    ensures Reads(Parsed(s, base), Meant(neg, ds, b), |s| - |rest|)
  {
    NumberRead(s, base, |lead| + |sign|, neg, prefix, body, ds, rest, b);
    LeadPassed(s, base, lead, sign, neg, prefix, body, rest);
  }

  /**
    strtol, whatever it is given: behind blanks, tabs, a sign and a prefix it takes digits up to the first character
    that is none, stops there, and returns what they stand for, modulo 2^64.
   */
  lemma {:induction false} StrtolReads(s: CString, base: nat, lead: string, sign: string, prefix: string,
                                       body: string, ds: seq<nat>, rest: string, b: nat)
    requires s == lead + sign + prefix + body + rest && Lead(lead, sign, prefix + body + rest)
    requires Prefixed(base, prefix, body, rest, b) && Spelt(body, ds, b) && Stops(rest, b)
    ensures Reads(Parsed(s, base), Meant(sign == "-", ds, b), |s| - |rest|)
  {
    PartsOf(s, lead, sign, prefix, body, rest);
    PartsRead(s, base, lead, sign, sign == "-", prefix, body, ds, rest, b);
  }

  /** A number that fits is the only one with its residue. */
  lemma {:induction false} ReadsExactly(s: CString, base: int, v: int, end: int)
    requires Reads(Parsed(s, base), v, end) && -0x8000_0000_0000_0000 <= v < 0x8000_0000_0000_0000
    ensures end >= 0 && Parsed(s, base) == Parse(v, end)
  {
  }

  lemma {:induction false} DigitsWeighed(n: nat, base: nat) returns (ds: seq<nat>)
    requires 2 <= base <= 16
    ensures Spelt(Digits(n, base), ds, base) && Weigh(ds, base) == n
  {
    var t := Digits(n, base);
    DigitsRead(n, base);
    ds := seq(|t|, i requires 0 <= i < |t| => if DigitValue(t[i]) >= 0 then DigitValue(t[i]) else 0);
    forall i | 0 <= i < |t| ensures ds[i] < base && Denotes(t[i], ds[i]) {
      assert IsDigit(t[i], base);
      DigitDenoted(t[i], ds[i]);
    }
    SpeltValue(t, ds, base);
  }

  lemma {:induction false} FirstWritten(n: nat, base: nat)
    requires 2 <= base <= 16
    ensures Digits(n, base)[0] !in " \t+-" && (Digits(n, base)[0] == '0' ==> n == 0 && Digits(n, base) == "0")
  {
    DigitsRead(n, base);
  }

  lemma {:induction false} NumberLeads(sign: string, prefix: string, body: string, rest: string)
    requires (sign == "" || sign == "-") && |body| > 0 && body[0] !in " \t+-"
    requires prefix == "" || prefix == "0" || prefix == "0x"
    ensures Lead("", sign, prefix + body + rest)
  {
    assert (prefix + body + rest)[0] == if prefix == "" then body[0] else '0';
  }

  lemma {:induction false} PrefixedRead(s: CString, sign: string, prefix: string, body: string, ds: seq<nat>,
                                        rest: string, b: nat)
    requires s == "" + sign + prefix + body + rest && (sign == "" || sign == "-")
    requires |body| > 0 && body[0] !in " \t+-"
    requires Prefixed(0, prefix, body, rest, b) && Spelt(body, ds, b) && Stops(rest, b)
    ensures Reads(Parsed(s, 0), Meant(sign == "-", ds, b), |s| - |rest|)
  {
    NumberLeads(sign, prefix, body, rest);
    StrtolReads(s, 0, "", sign, prefix, body, ds, rest, b);
  }

  /** The digit 0 alone is taken for the prefix of an octal number without digits. */
  lemma {:induction false} ZeroRead(s: CString, sign: string, body: string, rest: string)
    requires s == "" + sign + "" + body + rest && (sign == "" || sign == "-") && body == "0"
    requires Stops(rest, 10) && !Begins(rest, 'x')
    ensures Reads(Parsed(s, 0), 0, |s| - |rest|)
  {
    assert ("0" + "" + rest)[0] == '0';
    assert s == "" + sign + "0" + "" + rest;
    StrtolReads(s, 0, "", sign, "0", "", [], rest, 8);
  }

  lemma {:induction false} WrittenRead(s: CString, sign: string, n: nat, b: nat, prefix: string, body: string,
                                       rest: string) returns (ds: seq<nat>)
    requires s == "" + sign + prefix + body + rest && (sign == "" || sign == "-")
    requires (b == 8 && prefix == "0") || (b == 10 && prefix == "") || (b == 16 && prefix == "0x")
    requires body == Digits(n, b) && Stops(rest, b) && (n == 0 && b == 10 ==> !Begins(rest, 'x'))
    ensures Weigh(ds, b) == n && Reads(Parsed(s, 0), Meant(sign == "-", ds, b), |s| - |rest|)
  {
    FirstWritten(n, b);
    if n == 0 && b == 10 {
      ds := [];
      ZeroRead(s, sign, body, rest);
    } else {
      ds := DigitsWeighed(n, b);
      PrefixedRead(s, sign, prefix, body, ds, rest, b);
    }
  }

  lemma {:induction false} MeantIs(sign: string, ds: seq<nat>, b: nat, v: int)
    requires (sign == "" && v == Weigh(ds, b)) || (sign == "-" && v + Weigh(ds, b) == 0)
    ensures Meant(sign == "-", ds, b) == v
  {
  }

  /** In base 0 a number is read back in decimal, and in hexadecimal and octal behind the prefix of the base. */
  lemma {:induction false} BaseZeroReadBack(s: CString, sign: string, n: nat, b: nat, prefix: string, body: string,
                                            rest: string, v: int)
    requires (sign == "" && v == n) || (sign == "-" && v + n == 0)
    requires (b == 8 && prefix == "0") || (b == 10 && prefix == "") || (b == 16 && prefix == "0x")
    requires s == "" + sign + prefix + body + rest && body == Digits(n, b) && Stops(rest, b)
    requires n == 0 && b == 10 ==> !Begins(rest, 'x')
    requires -0x8000_0000_0000_0000 <= v < 0x8000_0000_0000_0000
    ensures Parsed(s, 0) == Parse(v, |s| - |rest|)
  {
    var ds := WrittenRead(s, sign, n, b, prefix, body, rest);
    MeantIs(sign, ds, b, v);
    ReadsExactly(s, 0, v, |s| - |rest|);
  }

  // ------------------------------------------------------- a plus sign

  lemma {:induction false} RunEndShifted(s: CString, t: CString, i: nat, base: int)
    requires s == "+" + t && i <= |t|
    ensures RunEnd(s, i + 1, base) == RunEnd(t, i, base) + 1
  {
    var j := RunEnd(t, i, base);
    assert At(s, j + 1) == At(t, j);
    forall k | i + 1 <= k < j + 1 ensures IsDigit(s[k], base) { assert s[k] == t[k - 1]; }
    RunFrom(s, i + 1, j + 1, base);
  }

  lemma {:induction false} RunShifted(s: CString, t: CString, k: nat, base: int)
    requires s == "+" + t && k <= |t|
    ensures Run(s, k + 1, false, base) == Parse(Run(t, k, false, base).val, Run(t, k, false, base).end + 1)
  {
    RunEndShifted(s, t, k, base);
    assert s[k + 1..RunEnd(t, k, base) + 1] == t[k..RunEnd(t, k, base)];
  }

  /** A plus sign in front of a number changes nothing but the place where the reading ends. */
  lemma {:induction false} PlusIgnored(s: CString, t: CString, base: int)
    requires s == "+" + t && !Begins(t, ' ') && !Begins(t, '\t') && !Begins(t, '+') && !Begins(t, '-')
    ensures Parsed(s, base) == Parse(Parsed(t, base).val, Parsed(t, base).end + 1)
  {
    BlanksAre(s, 0, 0);
    BlanksAre(t, 0, 0);
    assert At(s, 1) == At(t, 0) && (|t| > 0 ==> At(s, 2) == At(t, 1));
    RunShifted(s, t, AfterPrefix(t, 0, base), PrefixBase(t, 0, base));
  }
}
