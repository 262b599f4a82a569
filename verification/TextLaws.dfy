/**
  Laws of the conversions that print text: characters, strings and their fields, error messages, and escapes that
  are none.
 */
module TextLaws {
  import opened Options
  import opened CStrings
  import opened Numerals
  import opened Formats
  import opened Conversions
  import opened FormatLaws

  // ------------------------------------------------------- one character

  lemma {:induction false} CharacterRendered(f: Field, x: Arg, k: nat)
    requires k < 256 && (x.bits - k) % 256 == 0
    ensures Rendered('c', f, x) == [k as char]
  {
  }

  /** %c prints the low byte of its argument, whatever flags and width say. */
  lemma {:induction false} CharacterPrints(fmt: CString, padc: char, n: nat, longs: nat, args: Args, k: nat)
    requires padc in " 0-" && n < 0x8000_0000 && k < 256 && (args(0).bits - k) % 256 == 0
    requires fmt == NumberFormat(padc, n, longs, 'c')
    ensures Output(fmt, 0, Standard(args), 0) == [k as char]
  {
    NumberFormatPrints(padc, n, longs, 'c', args);
    CharacterRendered(NumberField(padc, n, longs, 0), args(0), k);
  }

  lemma {:induction false} PercentRendered(f: Field, x: Arg)
    ensures Rendered('%', f, x) == ['%']
  {
  }

  /** %% prints a percent sign, whatever flags and width say. */
  lemma {:induction false} PercentPrints(fmt: CString, padc: char, n: nat, longs: nat, args: Args)
    requires padc in " 0-" && n < 0x8000_0000 && fmt == NumberFormat(padc, n, longs, '%')
    ensures Output(fmt, 0, Standard(args), 0) == ['%']
  {
    NumberFormatPrints(padc, n, longs, '%', args);
    PercentRendered(NumberField(padc, n, longs, 0), args(0));
  }

  /** An escape with any other character is printed as it stands and takes no argument. */
  lemma {:induction false} UnknownPrints(c: char, rest: CString, args: Args)
    requires c != '\0' && c !in "cesduopx%" && c !in "0123456789-*.#l"
    ensures Output(['%', c] + rest, 0, Standard(args), 0) == ['%', c] + Output(rest, 0, Standard(args), 0)
  {
    var fmt: CString := ['%', c] + rest;
    NoModifier(c);
    LiteralFallback(fmt, 0, Standard(args), 0);
    assert fmt[0..2] == ['%', c];
    OutputTail(fmt, 2, rest, 0, Standard(args), 0);
  }

  lemma {:induction false} NoModifier(c: char)
    requires c !in "cesduopx%" && c !in "0123456789-*.#l"
    ensures !IsModifier(c) && !IsConversion(c)
  {
  }

  // ------------------------------------------------------- strings

  /** A precision, if it is not 0, and the conversion. */
  function CutFormat(cut: nat): string { (if cut == 0 then "" else "." + Digits(cut, 10)) + "s" }

  function WidthFormat(n: nat, g: string): string { (if n == 0 then "" else Digits(n, 10)) + g }

  function PadFormat(padc: char, g: string): string { (if padc == ' ' then "" else [padc]) + g }

  function AltFormat(alt: bool, g: string): string { (if alt then "#" else "") + g }

  /** The format of a string with flags, width and precision. */
  function StringFormat(alt: bool, padc: char, n: nat, cut: nat): string {
    "%" + AltFormat(alt, PadFormat(padc, WidthFormat(n, CutFormat(cut))))
  }

  /** One modifier in front of the rest. */
  lemma {:induction false} ModifierThen(s: CString, t: string, g: CString, f: Field, f1: Field, env: Env)
    requires s == t + g && |t| > 0 && IsModifier(s[0]) && Modified(s, 0, f, env) == Escape(f1, |t|)
    ensures Modifiers(s, 0, f, env) == Later(Modifiers(g, 0, f1, env), |t|)
  {
    FirstModifier(s, f, Escape(f1, |t|), env);
    ModifiersTail(s, |t|, g, 0, f1, env);
  }

  lemma {:induction false} FirstModifier(s: CString, f: Field, e: Escape, env: Env)
    requires |s| > 0 && IsModifier(s[0]) && Modified(s, 0, f, env) == e
    ensures Modifiers(s, 0, f, env) == Modifiers(s, e.at, e.field, env)
  {
  }

  lemma {:induction false} NumberThen(s: CString, n: nat, g: CString, f: Field, env: Env)
    requires 0 < n < H32 && s == Digits(n, 10) + g && |g| > 0 && !IsDigit(g[0], 10)
    ensures Modifiers(s, 0, f, env) == Later(Modifiers(g, 0, WithNumber(f, n), env), |Digits(n, 10)|)
  {
    NumberSpelt(s, 0, n);
    ModifierThen(s, Digits(n, 10), g, f, WithNumber(f, n), env);
  }

  /** What a precision does to a field: it makes up for a missing width. */
  function CutField(f: Field, cut: nat): Field {
    if cut == 0 then f else f.(width := if f.width < 0 then 0 else f.width, precision := cut)
  }

  lemma {:induction false} ConversionAlone(f: Field, env: Env)
    ensures Modifiers("s", 0, f, env) == Escape(f, 0)
  {
  }

  lemma {:induction false} CutTaken(cut: nat, f: Field, env: Env)
    requires cut < H32
    ensures var g := CutFormat(cut);
            '\0' !in g && |g| > 0 && g[|g| - 1] == 's' && !IsDigit(g[0], 10)
            && Modifiers(g, 0, f, env) == Escape(CutField(f, cut), |g| - 1)
  {
    ConversionAlone(CutField(f, cut), env);
    if cut > 0 {
      WidthNotNul(cut);
      var d, f1 := Digits(cut, 10), f.(width := if f.width < 0 then 0 else f.width);
      NumberThen(d + "s", cut, "s", f1, env);
      assert CutFormat(cut) == "." + (d + "s");
      ModifierThen(CutFormat(cut), ".", d + "s", f, f1, env);
    }
  }

  lemma {:induction false} WidthThen(s: CString, n: nat, g: CString, f: Field, f1: Field, env: Env)
    requires n < H32 && |g| > 0 && !IsDigit(g[0], 10) && f.width < 0 && f.precision == -1 && s == WidthFormat(n, g)
    requires f1 == f.(width := if n == 0 then f.width else n)
    ensures Modifiers(s, 0, f, env) == Later(Modifiers(g, 0, f1, env), |s| - |g|)
  {
    if n > 0 {
      NumberThen(s, n, g, f, env);
    } else {
      assert s == g;
    }
  }

  lemma {:induction false} PadThen(s: CString, padc: char, g: CString, f: Field, env: Env)
    requires padc in " 0-" && f.padc == ' ' && s == PadFormat(padc, g)
    ensures Modifiers(s, 0, f, env) == Later(Modifiers(g, 0, f.(padc := padc), env), |s| - |g|)
  {
    if padc == ' ' {
      assert s == g;
    } else {
      ModifierThen(s, [padc], g, f, f.(padc := padc), env);
    }
  }

  lemma {:induction false} AltThen(s: CString, alt: bool, g: CString, f: Field, env: Env)
    requires !f.alt && s == AltFormat(alt, g)
    ensures Modifiers(s, 0, f, env) == Later(Modifiers(g, 0, f.(alt := alt), env), |s| - |g|)
  {
    if alt {
      ModifierThen(s, "#", g, f, f.(alt := true), env);
    } else {
      assert s == g;
    }
  }

  /** The field that such a format opens. */
  function StringFieldOf(alt: bool, padc: char, n: nat, cut: nat): Field {
    CutField(Field(padc, if n == 0 then -1 else n, -1, 0, alt, 0), cut)
  }

  lemma {:induction false} FlagsTaken(alt: bool, padc: char, n: nat, cut: nat, env: Env)
    requires padc in " 0-" && n < H32 && cut < H32
    ensures var s := AltFormat(alt, PadFormat(padc, WidthFormat(n, CutFormat(cut))));
            && '\0' !in s && |s| > 0 && s[|s| - 1] == 's'
            && Modifiers(s, 0, Start(0), env) == Escape(StringFieldOf(alt, padc, n, cut), |s| - 1)
  {
    WidthNotNul(n);
    var f := Start(0).(alt := alt);
    var f1 := f.(padc := padc);
    var f2 := f1.(width := if n == 0 then -1 else n);
    CutTaken(cut, f2, env);
    var g := CutFormat(cut);
    var w := WidthFormat(n, g);
    WidthThen(w, n, g, f1, f2, env);
    PadThen(PadFormat(padc, w), padc, w, f, env);
    AltThen(AltFormat(alt, PadFormat(padc, w)), alt, PadFormat(padc, w), Start(0), env);
  }

  lemma {:induction false} StringEscape(fmt: CString, s: CString, f: Field, env: Env)
    requires fmt == "%" + s && |s| > 0 && s[|s| - 1] == 's' && Modifiers(s, 0, Start(0), env) == Escape(f, |s| - 1)
    ensures Output(fmt, 0, env, 0) == env.text('s', f)
  {
    ModifiersTail(fmt, 1, s, 0, Start(0), env);
    assert fmt[|fmt| - 1] == s[|s| - 1];
    LastPiece(fmt, env, Escape(f, |fmt| - 1));
  }

  lemma {:induction false} StringRendered(fmt: CString, s: CString, f: Field, args: Args)
    requires fmt == "%" + s && |s| > 0 && s[|s| - 1] == 's'
    requires Modifiers(s, 0, Start(0), Standard(args)) == Escape(f, |s| - 1) && f.arg == 0
    ensures Output(fmt, 0, Standard(args), 0) == StringField(TextOf(args(0)), f)
  {
    StringEscape(fmt, s, f, Standard(args));
  }

  /** What '#' leaves of a character. */
  function Visible(c: char, alt: bool): char { if alt && (c as int < 32 || c as int > 126) then '?' else c }

  /** `t` is the first `k` characters of `p` in a field `n` wide. */
  ghost predicate FieldText(t: string, p: string, k: nat, alt: bool, padc: char, n: nat)
    requires k <= |p|
  {
    && |t| == (if n > k then n else k)
    && if padc == '-' then (forall i :: 0 <= i < |t| ==> t[i] == if i < k then Visible(p[i], alt) else ' ')
       else (forall i :: 0 <= i < |t| ==> t[i] == if i < |t| - k then padc else Visible(p[i - (|t| - k)], alt))
  }

  lemma {:induction false} FieldTextLeft(p: string, k: nat, f: Field, n: nat)
    requires k == Shortened(|p|, f.precision) && f.padc == '-' && (f.width == n || (n == 0 && f.width < 0))
    ensures FieldText(StringField(p, f), p, k, f.alt, '-', n)
  {
  }

  lemma {:induction false} FieldTextRight(p: string, k: nat, f: Field, n: nat)
    requires k == Shortened(|p|, f.precision) && f.padc != '-' && (f.width == n || (n == 0 && f.width < 0))
    ensures FieldText(StringField(p, f), p, k, f.alt, f.padc, n)
  {
  }

  lemma {:induction false} FieldTextIs(p: string, alt: bool, padc: char, n: nat, cut: nat, k: nat)
    requires padc in " 0-" && k == if 0 < cut < |p| then cut else |p|
    ensures FieldText(StringField(p, StringFieldOf(alt, padc, n, cut)), p, k, alt, padc, n)
  {
    var f := StringFieldOf(alt, padc, n, cut);
    if padc == '-' {
      FieldTextLeft(p, k, f, n);
    } else {
      FieldTextRight(p, k, f, n);
    }
  }

  /**
    A string is printed up to the precision, or "(null)" for a null pointer: at the right of its field behind the pad
    character, or at the left before blanks; with '#', question marks stand for what is not printable.
   */
  lemma {:induction false} StringPrints(alt: bool, padc: char, n: nat, cut: nat, args: Args, p: string, k: nat)
    requires padc in " 0-" && n < 0x8000_0000 && cut < 0x8000_0000
    requires p == if args(0).text.None? then "(null)" else args(0).text.value
    requires k == if 0 < cut < |p| then cut else |p|
    ensures var fmt := StringFormat(alt, padc, n, cut);
            '\0' !in fmt && FieldText(Output(fmt, 0, Standard(args), 0), p, k, alt, padc, n)
  {
    FlagsTaken(alt, padc, n, cut, Standard(args));
    var s := AltFormat(alt, PadFormat(padc, WidthFormat(n, CutFormat(cut))));
    StringRendered(StringFormat(alt, padc, n, cut), s, StringFieldOf(alt, padc, n, cut), args);
    FieldTextIs(p, alt, padc, n, cut, k);
  }

  /** A precision of zero cuts nothing: its digit is taken for the flag that pads with zeros. */
  lemma {:induction false} ZeroPrecisionIgnored(args: Args, p: string)
    requires if args(0).text.None? then p == "(null)" else p == args(0).text.value
    ensures Output("%.0s", 0, Standard(args), 0) == p
  {
    var fmt: CString, env := "%.0s", Standard(args);
    var f := Start(0).(width := 0);
    var f1 := f.(padc := '0');
    assert Modified(fmt, 1, Start(0), env) == Escape(f, 2);
    assert Modified(fmt, 2, f, env) == Escape(f1, 3);
    assert Modifiers(fmt, 3, f1, env) == Escape(f1, 3);
    LastPiece(fmt, env, Escape(f1, 3));
    StringPlain(p, f1);
  }

  lemma {:induction false} StringPlain(p: string, f: Field)
    requires f.width <= 0 && f.padc != '-' && !f.alt
    ensures StringField(p, f) == p[..Shortened(|p|, f.precision)]
  {
  }

  lemma {:induction false} StarCut(args: Args, w: int)
    requires IntOf(args(0)) == w
    ensures Output("%.*s", 0, Standard(args), 0) == StringField(TextOf(args(1)), Field(' ', 0, w, 0, false, 1))
  {
    var fmt: CString, env := "%.*s", Standard(args);
    var f, f1 := Start(0).(width := 0), Field(' ', 0, w, 0, false, 1);
    assert Modified(fmt, 1, Start(0), env) == Escape(f, 2);
    assert Modified(fmt, 2, f, env) == Escape(f1, 3);
    assert Modifiers(fmt, 3, f1, env) == Escape(f1, 3);
    LastPiece(fmt, env, Escape(f1, 3));
  }

  /** A precision given by '*' is the next argument, cut to an int; zero cuts everything and a negative one nothing. */
  lemma {:induction false} StarPrecision(args: Args, w: int, p: string)
    requires TakenFor('d', 0, args(0).bits, w)
    requires if args(1).text.None? then p == "(null)" else p == args(1).text.value
    ensures Output("%.*s", 0, Standard(args), 0) == if 0 <= w < |p| then p[..w] else p
  {
    SignedIs(args(0), 0, w);
    StarCut(args, w);
    StringPlain(p, Field(' ', 0, w, 0, false, 1));
  }

  // ------------------------------------------------------- error messages

  /** The machine word `bits` holds the code `e` or its negative. */
  ghost predicate Holds(bits: int, e: nat) {
    e < 0x8000_0000 && ((bits - e) % 0x1_0000_0000 == 0 || (bits + e) % 0x1_0000_0000 == 0)
  }

  lemma {:induction false} CodeHeld(x: Arg, e: nat)
    requires Holds(x.bits, e)
    ensures Abs(IntOf(x)) == e
  {
    if (x.bits - e) % 0x1_0000_0000 == 0 {
      SignedIs(x, 0, e);
    } else {
      SignedIs(x, 0, 0 - e);
    }
  }

  lemma {:induction false} BareFormat(conv: char, args: Args)
    requires IsConversion(conv)
    ensures Output(['%', conv], 0, Standard(args), 0) == Rendered(conv, Start(0), args(0))
  {
    LastPiece(['%', conv], Standard(args), Escape(Start(0), 1));
  }

  lemma {:induction false} ErrorTextPrinted(e: nat, args: Args)
    requires Holds(args(0).bits, e)
    ensures Output("%e", 0, Standard(args), 0) == ErrorText(e)
  {
    CodeHeld(args(0), e);
    assert ['%', 'e'] == "%e";
    BareFormat('e', args);
  }

  /** What is printed for a code; a code and its negative are the same. */
  lemma {:induction false} ErrorPrints(e: nat, args: Args)
    requires Holds(args(0).bits, e)
    ensures var t := Output("%e", 0, Standard(args), 0);
            match e
            case 1 => t == "unspecified error"
            case 2 => t == "bad process"
            case 3 => t == "invalid parameter"
            case 4 => t == "out of memory"
            case 5 => t == "out of processes"
            case 6 => t == "segmentation fault"
            case 8 => t == "invalid elf file"
            case 9 => t == "process is killed"
            case 10 => t == "panic failure"
            case 13 => t == "no such device"
            case 14 => t == "device not available"
            case 15 => t == "device/file is busy"
            case 16 => t == "no such file or directory"
            case 17 => t == "is a directory"
            case 18 => t == "not a directory"
            case 19 => t == "cross device link"
            case 20 => t == "unimplemented feature"
            case 21 => t == "illegal seek"
            case 22 => t == "too many files are open"
            case 23 => t == "file or directory already exists"
            case 24 => t == "directory is not empty"
            case _ => t == "error " + Digits(e, 10)
  {
    ErrorTextPrinted(e, args);
  }

  lemma {:induction false} KnownError(e: nat, inner: Args)
    requires ErrorString(e).Some? && inner(0).text == ErrorString(e)
    ensures Output("%s", 0, Standard(inner), 0) == ErrorText(e)
  {
    assert ['%', 's'] == "%s";
    BareFormat('s', inner);
    StringPlain(ErrorString(e).value, Start(0));
  }

  lemma {:induction false} UnknownText(e: nat, x: Arg)
    requires ErrorString(e).None? && TakenFor('d', 0, x.bits, e)
    ensures ErrorText(e) == "error " + Rendered('d', Start(0), x)
  {
    SignedIs(x, 0, e);
  }

  lemma {:induction false} UnknownFormat(args: Args)
    ensures Output("error %d", 0, Standard(args), 0) == "error " + Rendered('d', Start(0), args(0))
  {
    PlainPrefix("error ", "%d", Standard(args));
    assert "error " + "%d" == "error %d";
    assert ['%', 'd'] == "%d";
    BareFormat('d', args);
  }

  lemma {:induction false} UnknownError(e: nat, inner: Args)
    requires ErrorString(e).None? && TakenFor('d', 0, inner(0).bits, e)
    ensures Output("error %d", 0, Standard(inner), 0) == ErrorText(e)
  {
    UnknownText(e, inner(0));
    UnknownFormat(inner);
  }

  /** %e prints what "%s" prints for the message of a known code, and what "error %d" prints for any other code. */
  lemma {:induction false} ErrorByFormats(e: nat, args: Args, inner: Args)
    requires Holds(args(0).bits, e)
    ensures ErrorString(e).Some? && inner(0).text == ErrorString(e) ==>
              Output("%e", 0, Standard(args), 0) == Output("%s", 0, Standard(inner), 0)
    ensures ErrorString(e).None? && TakenFor('d', 0, inner(0).bits, e) ==>
              Output("%e", 0, Standard(args), 0) == Output("error %d", 0, Standard(inner), 0)
  {
    ErrorTextPrinted(e, args);
    if ErrorString(e).Some? && inner(0).text == ErrorString(e) { KnownError(e, inner); }
    if ErrorString(e).None? && TakenFor('d', 0, inner(0).bits, e) { UnknownError(e, inner); }
  }

  /** Text in front of a format is printed in front of what the format prints. */
  lemma {:induction false} PlainPrefix(f: CString, g: CString, env: Env)
    requires forall k :: 0 <= k < |f| ==> f[k] != '%'
    ensures Output(f + g, 0, env, 0) == f + Output(g, 0, env, 0)
  {
    assert (f + g)[0..|f|] == f;
    PlainText(f + g, 0, |f|, env, 0);
    OutputTail(f + g, |f|, g, 0, env, 0);
  }
}
