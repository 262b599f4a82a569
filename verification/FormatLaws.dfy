/**
  Laws of the formatter: a width or a precision written in decimal is taken at its value, %e is what the formats
  it is printed with give, and strtol reads back what a format for a long printed.
 */
module FormatLaws {
  import opened CStrings
  import opened Numerals
  import opened Formats
  import opened Conversions

  /** Some modifiers, a number in decimal, more modifiers, and a conversion. */
  ghost predicate Spells(fmt: CString, k: nat, n: nat) {
    && k + |Digits(n, 10)| < |fmt| && fmt[k..k + |Digits(n, 10)|] == Digits(n, 10)
    && !IsDigit(fmt[k + |Digits(n, 10)|], 10)
  }

  lemma {:induction false} FirstDigit(fmt: CString, k: nat, n: nat)
    requires Spells(fmt, k, n) && n > 0
    ensures '1' <= fmt[k] <= '9'
  {
    var d := Digits(n, 10);
    DigitsRead(n, 10);
    assert fmt[k] == d[0] && IsDigit(d[0], 10);
  }

  /** A number in the format is taken at its value. */
  lemma {:induction false} NumberSpelt(fmt: CString, k: nat, n: nat)
    requires Spells(fmt, k, n) && 0 < n < H32
    ensures '1' <= fmt[k] <= '9' && FieldNumber(fmt, k) == (n, k + |Digits(n, 10)|)
  {
    var d := Digits(n, 10);
    FirstDigit(fmt, k, n);
    DigitsRead(n, 10);
    DigitsAt(fmt, k, d, 10);
    RunFrom(fmt, k, k + |d|, 10);
  }

  // ------------------------------------------------------- numbers

  /** The format of a number in a field `n` wide (0 for no width), with as many 'l' as given. */
  function NumberFormat(padc: char, n: nat, longs: nat, conv: char): (fmt: string) {
    (if padc == ' ' then "%" else ['%', padc]) + (if n == 0 then "" else Digits(n, 10)) + Fill('l', longs) + [conv]
  }

  /** The field such a format opens. */
  function NumberField(padc: char, n: nat, longs: nat, arg: nat): Field {
    Field(padc, if n == 0 then -1 else n, -1, longs, false, arg)
  }

  /** From position `m` on: as many 'l' as given, and a conversion. */
  ghost predicate Longs(fmt: CString, m: nat, longs: nat, conv: char) {
    |fmt| == m + longs + 1 && fmt[m + longs] == conv && forall i :: m <= i < m + longs ==> fmt[i] == 'l'
  }

  /** From position `k` on: a width, and the rest as above. */
  ghost predicate Ending(fmt: CString, k: nat, n: nat, longs: nat, conv: char) {
    var m := k + if n == 0 then 0 else |Digits(n, 10)|;
    Longs(fmt, m, longs, conv) && (n > 0 ==> fmt[k..m] == Digits(n, 10))
  }

  lemma {:induction false} WidthNotNul(n: nat)
    ensures '\0' !in Digits(n, 10)
  {
    DigitsRead(n, 10);
    DigitsNotNul(Digits(n, 10), 10);
  }

  lemma {:induction false} EndingOf(fmt: string, head: string, n: nat, longs: nat, conv: char)
    requires '\0' !in head && conv != '\0'
    requires fmt == head + (if n == 0 then "" else Digits(n, 10)) + Fill('l', longs) + [conv]
    ensures '\0' !in fmt && Ending(fmt, |head|, n, longs, conv) && fmt[..|head|] == head
  {
    WidthNotNul(n);
  }

  lemma {:induction false} LongFlags(fmt: CString, i: nat, longs: nat, conv: char, f: Field, env: Env)
    requires Longs(fmt, i, longs, conv) && IsConversion(conv)
    ensures Modifiers(fmt, i, f, env) == Escape(f.(longs := f.longs + longs), |fmt| - 1)
    decreases longs
  {
    if longs > 0 {
      assert Modified(fmt, i, f, env) == Escape(f.(longs := f.longs + 1), i + 1);
      LongFlags(fmt, i + 1, longs - 1, conv, f.(longs := f.longs + 1), env);
    }
  }

  lemma {:induction false} EndingSpells(fmt: CString, k: nat, n: nat, longs: nat, conv: char)
    requires Ending(fmt, k, n, longs, conv) && IsConversion(conv) && n > 0
    ensures Spells(fmt, k, n)
  {
  }

  lemma {:induction false} WidthTaken(fmt: CString, k: nat, n: nat, j: nat, f: Field, g: Field, env: Env)
    requires Spells(fmt, k, n) && j == k + |Digits(n, 10)| && 0 < n < H32
    requires f.width < 0 && g == f.(width := n, precision := -1)
    ensures Modifiers(fmt, k, f, env) == Modifiers(fmt, j, g, env)
  {
    NumberSpelt(fmt, k, n);
    assert Modified(fmt, k, f, env) == Escape(g, j);
  }

  lemma {:induction false} WideTaken(fmt: CString, k: nat, n: nat, longs: nat, conv: char, f: Field, env: Env)
    requires Ending(fmt, k, n, longs, conv) && IsConversion(conv) && 0 < n < H32 && f.width < 0
    ensures Modifiers(fmt, k, f, env) == Escape(f.(width := n, precision := -1, longs := f.longs + longs), |fmt| - 1)
  {
    var m := k + |Digits(n, 10)|;
    var g := f.(width := n, precision := -1);
    EndingSpells(fmt, k, n, longs, conv);
    LongFlags(fmt, m, longs, conv, g, env);
    WidthTaken(fmt, k, n, m, f, g, env);
  }

  lemma {:induction false} EndingTaken(fmt: CString, k: nat, n: nat, longs: nat, conv: char, f: Field, env: Env)
    requires Ending(fmt, k, n, longs, conv) && IsConversion(conv) && n < H32 && f.width < 0 && f.precision == -1
    ensures Modifiers(fmt, k, f, env)
         == Escape(f.(width := if n == 0 then f.width else n, longs := f.longs + longs), |fmt| - 1)
  {
    if n > 0 {
      WideTaken(fmt, k, n, longs, conv, f, env);
    } else {
      LongFlags(fmt, k, longs, conv, f, env);
    }
  }

  lemma {:induction false} LastPiece(fmt: CString, env: Env, e: Escape)
    requires |fmt| > 1 && fmt[0] == '%' && Modifiers(fmt, 1, Start(0), env) == e && e.at == |fmt| - 1
    requires IsConversion(fmt[e.at])
    ensures Output(fmt, 0, env, 0) == env.text(fmt[e.at], e.field)
  {
    assert Output(fmt, |fmt|, env, ArgsAfter(fmt[e.at], e.field)) == "";
  }

  lemma {:induction false} NumberFormatIs(padc: char, n: nat, longs: nat, conv: char)
    requires padc in " 0-" && IsConversion(conv)
    ensures var fmt := NumberFormat(padc, n, longs, conv);
            && '\0' !in fmt && fmt[0] == '%' && (padc != ' ' ==> |fmt| > 1 && fmt[1] == padc)
            && Ending(fmt, if padc == ' ' then 1 else 2, n, longs, conv)
  {
    var head := if padc == ' ' then "%" else ['%', padc];
    var fmt := NumberFormat(padc, n, longs, conv);
    EndingOf(fmt, head, n, longs, conv);
    assert fmt[0] == fmt[..|head|][0];
    if padc != ' ' { assert fmt[1] == fmt[..|head|][1]; }
  }

  lemma {:induction false} NumberEscape(padc: char, n: nat, longs: nat, conv: char, env: Env)
    requires padc in " 0-" && IsConversion(conv) && n < H32
    ensures var fmt := NumberFormat(padc, n, longs, conv);
            && '\0' !in fmt && |fmt| > 1
            && Modifiers(fmt, 1, Start(0), env) == Escape(NumberField(padc, n, longs, 0), |fmt| - 1)
  {
    NumberFormatIs(padc, n, longs, conv);
    var fmt: CString, f := NumberFormat(padc, n, longs, conv), Start(0).(padc := padc);
    EndingTaken(fmt, if padc == ' ' then 1 else 2, n, longs, conv, f, env);
    if padc != ' ' {
      assert Modified(fmt, 1, Start(0), env) == Escape(f, 2);
    }
  }

  /** Pad character, width and size are those written in the format. */
  lemma {:induction false} NumberFormatPrints(padc: char, n: nat, longs: nat, conv: char, args: Args)
    requires padc in " 0-" && IsConversion(conv) && n < 0x8000_0000
    ensures var fmt := NumberFormat(padc, n, longs, conv);
            && '\0' !in fmt
            && Output(fmt, 0, Standard(args), 0) == Rendered(conv, NumberField(padc, n, longs, 0), args(0))
  {
    NumberFormatIs(padc, n, longs, conv);
    NumberEscape(padc, n, longs, conv, Standard(args));
    var fmt: CString := NumberFormat(padc, n, longs, conv);
    LastPiece(fmt, Standard(args), Escape(NumberField(padc, n, longs, 0), |fmt| - 1));
  }

  predicate IsNumeric(conv: char) { conv == 'd' || conv == 'u' || conv == 'o' || conv == 'x' }

  function BaseOf(conv: char): nat { if conv == 'o' then 8 else if conv == 'd' || conv == 'u' then 10 else 16 }

  /** The conversion takes the machine word `bits` for `v`: 32 bits of it, or 64 with an 'l' and for a pointer. */
  ghost predicate TakenFor(conv: char, longs: nat, bits: int, v: int) {
    var h := if longs == 0 && conv != 'p' then 0x8000_0000 else 0x8000_0000_0000_0000;
    (bits - v) % (2 * h) == 0 && if conv == 'd' then -h <= v < h else 0 <= v < 2 * h
  }

  lemma {:induction false} WrapResidue(x: int, v: int, half: int)
    requires half > 0 && (x - v) % (2 * half) == 0
    ensures Wrap(x, half) == Wrap(v, half)
  {
    var k := (x - v) / (2 * half);
    assert x == v + k * (2 * half);
    WrapCongruent(v, half, k);
  }

  lemma {:induction false} WrapHigh(v: int, half: int)
    requires half > 0 && half <= v < 2 * half
    ensures Wrap(v, half) == v - 2 * half
  {
    assert Wrap(v - 2 * half, half) == v - 2 * half;
  }

  lemma {:induction false} SignedIs(x: Arg, longs: nat, v: int)
    requires TakenFor('d', longs, x.bits, v)
    ensures Signed(x, longs) == v
  {
    WrapResidue(x.bits, v, if longs == 0 then H32 else H64);
  }

  lemma {:induction false} UnsignedIs(x: Arg, conv: char, longs: nat, v: int)
    requires conv != 'd' && TakenFor(conv, longs, x.bits, v)
    ensures Unsigned(x, if conv == 'p' then 1 else longs) == v
  {
    var half := if longs == 0 && conv != 'p' then H32 else H64;
    WrapResidue(x.bits, v, half);
    if v >= half { WrapHigh(v, half); }
  }

  lemma {:induction false} NumberRendered(conv: char, f: Field, x: Arg, v: int)
    requires IsNumeric(conv) && TakenFor(conv, f.longs, x.bits, v)
    ensures Rendered(conv, f, x) == Numeral(v, BaseOf(conv), f.width, f.padc)
  {
    if conv == 'd' {
      SignedIs(x, f.longs, v);
    } else {
      UnsignedIs(x, conv, f.longs, v);
      assert Sign(v) + Padded(Abs(v), BaseOf(conv), f.width, f.padc) == Padded(v, BaseOf(conv), f.width, f.padc);
    }
  }

  lemma {:induction false} NoWidth(v: int, base: nat, padc: char)
    requires 2 <= base <= 16
    ensures Numeral(v, base, -1, padc) == Numeral(v, base, 0, padc)
  {
  }

  /** A number is printed with its sign in front of padding and digits. */
  lemma {:induction false} NumberPrints(conv: char, padc: char, n: nat, longs: nat, args: Args, v: int)
    requires IsNumeric(conv) && padc in " 0-" && n < 0x8000_0000 && TakenFor(conv, longs, args(0).bits, v)
    ensures var fmt := NumberFormat(padc, n, longs, conv);
            '\0' !in fmt && Output(fmt, 0, Standard(args), 0) == Numeral(v, BaseOf(conv), n, padc)
  {
    NumberFormatPrints(padc, n, longs, conv, args);
    NumberRendered(conv, NumberField(padc, n, longs, 0), args(0), v);
    NoWidth(v, BaseOf(conv), padc);
  }

  lemma {:induction false} PointerRendered(padc: char, n: nat, longs: nat, x: Arg, v: nat)
    requires TakenFor('p', longs, x.bits, v)
    ensures Rendered('p', NumberField(padc, n, longs, 0), x) == "0x" + Padded(v, 16, n, padc)
  {
    UnsignedIs(x, 'p', longs, v);
    assert Padded(v, 16, -1, padc) == Padded(v, 16, 0, padc);
  }

  /** A pointer is printed in hexadecimal, its prefix in front of the padding. */
  lemma {:induction false} PointerPrints(fmt: CString, padc: char, n: nat, longs: nat, args: Args, v: nat)
    requires padc in " 0-" && n < 0x8000_0000 && TakenFor('p', longs, args(0).bits, v)
    requires fmt == NumberFormat(padc, n, longs, 'p')
    ensures Output(fmt, 0, Standard(args), 0) == "0x" + Padded(v, 16, n, padc)
  {
    NumberFormatPrints(padc, n, longs, 'p', args);
    PointerRendered(padc, n, longs, args(0), v);
  }

  /**
    strtol reads back the argument as the conversion took it, whatever size, flag and width the format gives, exactly
    when the number, the padding and the text that follows allow it.
   */
  lemma {:induction false} NumberBack(conv: char, padc: char, n: nat, longs: nat, rest: string, args: Args, v: int)
    requires IsNumeric(conv) && padc in " 0-" && n < 0x8000_0000 && '\0' !in rest
    requires TakenFor(conv, longs, args(0).bits, v)
    ensures var fmt := NumberFormat(padc, n, longs, conv);
            && '\0' !in fmt
            && var t := Output(fmt, 0, Standard(args), 0);
               && '\0' !in t + rest
               && (Parsed(t + rest, BaseOf(conv)) == Parse(v, |t|) <==> Readable(v, BaseOf(conv), n, padc, rest))
  {
    NumberPrints(conv, padc, n, longs, args, v);
    NumberReadBack(v, BaseOf(conv), n, padc, rest);
  }

  /** With neither flag nor width every number that fits a long comes back, and no other. */
  lemma {:induction false} PlainNumberBack(conv: char, longs: nat, args: Args, v: int)
    requires IsNumeric(conv) && TakenFor(conv, longs, args(0).bits, v)
    ensures var fmt := NumberFormat(' ', 0, longs, conv);
            && '\0' !in fmt
            && var t := Output(fmt, 0, Standard(args), 0);
               '\0' !in t && (Parsed(t, BaseOf(conv)) == Parse(v, |t|) <==> v < 0x8000_0000_0000_0000)
  {
    NumberBack(conv, ' ', 0, longs, "", args, v);
    var t := Output(NumberFormat(' ', 0, longs, conv), 0, Standard(args), 0);
    assert t + "" == t;
  }

  // ------------------------------------------------------- arguments

  /** The arguments behind the first `k`. */
  function Dropped(args: Args, k: nat): Args { (a: nat) => args(a + k) }

  function Moved(f: Field, k: nat): Field { f.(arg := f.arg + k) }

  /** `late` is `env` with the first `k` arguments taken away. */
  ghost predicate Behind(env: Env, late: Env, k: nat) {
    && (forall a: nat :: late.number(a) == env.number(a + k))
    && (forall c: char, f: Field :: late.text(c, f) == env.text(c, Moved(f, k)))
  }

  lemma {:induction false} ModifiedMoved(fmt: CString, i: nat, f: Field, env: Env, late: Env, k: nat)
    requires i < |fmt| && IsModifier(fmt[i]) && Behind(env, late, k)
    ensures var m := Modified(fmt, i, f, late);
            Modified(fmt, i, Moved(f, k), env) == Escape(Moved(m.field, k), m.at)
  {
  }

  lemma {:induction false} ModifiersMoved(fmt: CString, i: nat, f: Field, env: Env, late: Env, k: nat)
    requires i <= |fmt| && Behind(env, late, k)
    ensures var e := Modifiers(fmt, i, f, late);
            Modifiers(fmt, i, Moved(f, k), env) == Escape(Moved(e.field, k), e.at)
    decreases |fmt| - i
  {
    if IsModifier(At(fmt, i)) {
      var m := Modified(fmt, i, f, late);
      ModifiedMoved(fmt, i, f, env, late, k);
      ModifiersMoved(fmt, m.at, m.field, env, late, k);
    }
  }

  lemma {:induction false} PieceMoved(fmt: CString, i: nat, env: Env, late: Env, a: nat, k: nat)
    requires i < |fmt| && Behind(env, late, k)
    ensures var p := PieceAt(fmt, i, late, a);
            PieceAt(fmt, i, env, a + k) == p.(arg := p.arg + k)
  {
    if fmt[i] == '%' {
      var e := EscapeAt(fmt, i, late, a);
      ModifiersMoved(fmt, i + 1, Start(a), env, late, k);
      assert late.text(At(fmt, e.at), e.field) == env.text(At(fmt, e.at), Moved(e.field, k));
    }
  }

  lemma {:induction false} OutputStep(fmt: CString, i: nat, env: Env, a: nat, p: Piece)
    requires i < |fmt| && PieceAt(fmt, i, env, a) == p
    ensures Output(fmt, i, env, a) == p.text + Output(fmt, p.next, env, p.arg)
  {
  }

  lemma {:induction false} PiecesAgree(fmt: CString, i: nat, env: Env, late: Env, a: nat, k: nat)
    returns (p: Piece, q: Piece)
    requires i < |fmt| && Behind(env, late, k)
    ensures p.text == q.text && p.next == q.next && q.arg == p.arg + k && i < p.next <= |fmt|
    ensures Output(fmt, i, late, a) == p.text + Output(fmt, p.next, late, p.arg)
    ensures Output(fmt, i, env, a + k) == q.text + Output(fmt, q.next, env, q.arg)
  {
    p := PieceAt(fmt, i, late, a);
    q := p.(arg := p.arg + k);
    PieceMoved(fmt, i, env, late, a, k);
    OutputStep(fmt, i, late, a, p);
    OutputStep(fmt, i, env, a + k, q);
  }

  lemma {:induction false} OutputMoved(fmt: CString, i: nat, env: Env, late: Env, a: nat, b: nat, k: nat)
    requires i <= |fmt| && Behind(env, late, k) && b == a + k
    ensures Output(fmt, i, env, b) == Output(fmt, i, late, a)
    decreases |fmt| - i
  {
    if i < |fmt| {
      var p, q := PiecesAgree(fmt, i, env, late, a, k);
      OutputMoved(fmt, p.next, env, late, p.arg, q.arg, k);
    }
  }

  lemma {:induction false} RenderedMoved(c: char, f: Field, k: nat, x: Arg)
    ensures Rendered(c, Moved(f, k), x) == Rendered(c, f, x)
  {
  }

  lemma {:induction false} TextMoved(args: Args, k: nat, c: char, f: Field)
    ensures Standard(Dropped(args, k)).text(c, f) == Standard(args).text(c, Moved(f, k))
  {
    RenderedMoved(c, f, k, args(f.arg + k));
  }

  lemma {:induction false} StandardMoved(args: Args, k: nat)
    ensures Behind(Standard(args), Standard(Dropped(args, k)), k)
  {
    forall c: char, f: Field ensures Standard(Dropped(args, k)).text(c, f) == Standard(args).text(c, Moved(f, k)) {
      TextMoved(args, k, c, f);
    }
  }

  /** What a format prints from the argument `k` on is what it prints with the arguments behind the first `k`. */
  lemma {:induction false} OutputDropped(fmt: CString, args: Args, k: nat)
    ensures Output(fmt, 0, Standard(args), k) == Output(fmt, 0, Standard(Dropped(args, k)), 0)
  {
    StandardMoved(args, k);
    OutputMoved(fmt, 0, Standard(args), Standard(Dropped(args, k)), 0, k, k);
  }

  lemma {:induction false} NumberFormatWhole(padc: char, n: nat, longs: nat, conv: char, args: Args)
    requires padc in " 0-" && IsConversion(conv) && n < 0x8000_0000
    ensures var fmt := NumberFormat(padc, n, longs, conv);
            && '\0' !in fmt && Whole(fmt, 0, Standard(args), 0)
            && Used(fmt, 0, Standard(args), 0) == if conv == '%' then 0 else 1
  {
    NumberFormatIs(padc, n, longs, conv);
    NumberEscape(padc, n, longs, conv, Standard(args));
    var fmt: CString := NumberFormat(padc, n, longs, conv);
    assert PieceAt(fmt, 0, Standard(args), 0).next == |fmt|;
  }

  lemma {:induction false} ConversionFirst(fmt: CString, padc: char, n: nat, longs: nat, conv: char, rest: CString,
                                           args: Args, k: nat)
    requires padc in " 0-" && IsConversion(conv) && n < 0x8000_0000
    requires fmt == NumberFormat(padc, n, longs, conv) && k == if conv == '%' then 0 else 1
    ensures Output(fmt + rest, 0, Standard(args), 0)
         == Output(fmt, 0, Standard(args), 0) + Output(rest, 0, Standard(args), k)
  {
    NumberFormatWhole(padc, n, longs, conv, args);
    FormatsCompose(fmt, rest, Standard(args), 0);
  }

  /** Every conversion takes one argument, and %% takes none; what follows it finds the arguments behind. */
  lemma {:induction false} ConversionThenRest(fmt: CString, padc: char, n: nat, longs: nat, conv: char, rest: CString,
                                              args: Args, k: nat)
    requires padc in " 0-" && IsConversion(conv) && n < 0x8000_0000
    requires fmt == NumberFormat(padc, n, longs, conv) && k == if conv == '%' then 0 else 1
    ensures Output(fmt + rest, 0, Standard(args), 0)
         == Output(fmt, 0, Standard(args), 0) + Output(rest, 0, Standard(Dropped(args, k)), 0)
  {
    ConversionFirst(fmt, padc, n, longs, conv, rest, args, k);
    OutputDropped(rest, args, k);
  }

  /** The format that takes the width from an argument. */
  function StarFormat(padc: char, longs: nat, conv: char): (fmt: string) {
    (if padc == ' ' then "%" else ['%', padc]) + "*" + Fill('l', longs) + [conv]
  }

  lemma {:induction false} StarFormatIs(padc: char, longs: nat, conv: char)
    requires padc in " 0-" && IsConversion(conv)
    ensures var fmt, k := StarFormat(padc, longs, conv), if padc == ' ' then 1 else 2;
            && '\0' !in fmt && |fmt| > k && fmt[0] == '%' && (padc != ' ' ==> fmt[1] == padc) && fmt[k] == '*'
            && Longs(fmt, k + 1, longs, conv)
  {
  }

  lemma {:induction false} StarEscape(padc: char, longs: nat, conv: char, args: Args, w: int)
    requires padc in " 0-" && IsConversion(conv) && IntOf(args(0)) == w
    ensures var fmt := StarFormat(padc, longs, conv);
            && '\0' !in fmt && |fmt| > 1
            && Modifiers(fmt, 1, Start(0), Standard(args)) == Escape(Field(padc, w, -1, longs, false, 1), |fmt| - 1)
  {
    StarFormatIs(padc, longs, conv);
    var fmt: CString, env := StarFormat(padc, longs, conv), Standard(args);
    var k, f := if padc == ' ' then 1 else 2, Start(0).(padc := padc);
    var g := f.(width := w, arg := 1);
    LongFlags(fmt, k + 1, longs, conv, g, env);
    assert Modified(fmt, k, f, env) == Escape(g, k + 1);
    if padc != ' ' { assert Modified(fmt, 1, Start(0), env) == Escape(f, 2); }
  }

  lemma {:induction false} WidthOnly(conv: char, padc: char, w: int, n: nat, longs: nat, x: Arg)
    requires IsConversion(conv) && padc in " 0-" && n == if w > 0 then w else 0
    ensures Rendered(conv, Field(padc, w, -1, longs, false, 1), x) == Rendered(conv, NumberField(padc, n, longs, 0), x)
  {
  }

  lemma {:induction false} StarRendered(fmt: CString, padc: char, longs: nat, conv: char, args: Args, w: int)
    requires padc in " 0-" && IsConversion(conv) && IntOf(args(0)) == w && fmt == StarFormat(padc, longs, conv)
    ensures Output(fmt, 0, Standard(args), 0) == Rendered(conv, Field(padc, w, -1, longs, false, 1), args(1))
  {
    StarFormatIs(padc, longs, conv);
    StarEscape(padc, longs, conv, args, w);
    LastPiece(fmt, Standard(args), Escape(Field(padc, w, -1, longs, false, 1), |fmt| - 1));
  }

  lemma {:induction false} PlainRendered(plain: CString, padc: char, n: nat, longs: nat, conv: char, args: Args)
    requires padc in " 0-" && IsConversion(conv) && n < 0x8000_0000 && plain == NumberFormat(padc, n, longs, conv)
    ensures Output(plain, 0, Standard(Dropped(args, 1)), 0) == Rendered(conv, NumberField(padc, n, longs, 0), args(1))
  {
    NumberFormatPrints(padc, n, longs, conv, Dropped(args, 1));
  }

  /** A width given by '*' is the next argument, cut to an int; if it is not positive there is no width. */
  lemma {:induction false} StarPrints(fmt: CString, plain: CString, padc: char, longs: nat, conv: char, args: Args,
                                      w: int, n: nat)
    requires padc in " 0-" && IsConversion(conv) && TakenFor('d', 0, args(0).bits, w) && n == if w > 0 then w else 0
    requires fmt == StarFormat(padc, longs, conv) && plain == NumberFormat(padc, n, longs, conv)
    ensures Output(fmt, 0, Standard(args), 0) == Output(plain, 0, Standard(Dropped(args, 1)), 0)
  {
    SignedIs(args(0), 0, w);
    StarRendered(fmt, padc, longs, conv, args, w);
    PlainRendered(plain, padc, n, longs, conv, args);
    WidthOnly(conv, padc, w, n, longs, args(1));
  }
}
