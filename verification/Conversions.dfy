/**
  The conversions of lab8/libs/printfmt.c: what each of them prints, given its argument and its field.
 */
module Conversions {
  import opened Options
  import opened CStrings
  import opened Numerals
  import opened Formats

  /** An argument slot: the machine word in it and, if it is taken for a pointer, the string it points to. */
  datatype Arg = Arg(bits: int, text: Option<string>)

  /** The argument list; what is found behind the last argument passed is arbitrary. */
  type Args = nat -> Arg

  function IntOf(x: Arg): int { Wrap32(x.bits) }

  function Signed(x: Arg, longs: nat): int {
    if longs == 0 then Wrap32(x.bits) else Wrap64(x.bits)
  }

  function Unsigned(x: Arg, longs: nat): nat {
    var v, half := Signed(x, longs), if longs == 0 then H32 else H64;
    if v < 0 then v + 2 * half else v
  }

  function Shown(c: char, alt: bool): char {
    if alt && (c < ' ' || c > '~') then '?' else c
  }

  /** How much of the string a precision lets through. */
  function Shortened(n: nat, precision: int): nat {
    if precision < 0 || n <= precision then n else precision
  }

  function Body(p: string, n: nat, alt: bool): (t: string)
    requires n <= |p|
    ensures |t| == n && forall i :: 0 <= i < n ==> t[i] == Shown(p[i], alt)
  {
    seq(n, i requires 0 <= i < n => Shown(p[i], alt))
  }

  lemma {:induction false} BodyNext(p: string, i: nat, alt: bool)
    requires i < |p|
    ensures Body(p, i + 1, alt) == Body(p, i, alt) + [Shown(p[i], alt)]
  {
  }

  /** Padding in front of `n` characters, and behind them. */
  function LeftPad(f: Field, n: nat): string {
    if f.width > 0 && f.padc != '-' then Fill(f.padc, f.width - n) else ""
  }

  function RightPad(f: Field, n: nat): string {
    if f.padc == '-' then Fill(' ', f.width - n) else ""
  }

  function StringField(p: string, f: Field): string {
    var n := Shortened(|p|, f.precision);
    LeftPad(f, n) + Body(p, n, f.alt) + RightPad(f, n)
  }

  function ErrorString(e: nat): Option<string> {
    match e
    case 1 => Some("unspecified error")
    case 2 => Some("bad process")
    case 3 => Some("invalid parameter")
    case 4 => Some("out of memory")
    case 5 => Some("out of processes")
    case 6 => Some("segmentation fault")
    case 8 => Some("invalid elf file")
    case 9 => Some("process is killed")
    case 10 => Some("panic failure")
    case 13 => Some("no such device")
    case 14 => Some("device not available")
    case 15 => Some("device/file is busy")
    case 16 => Some("no such file or directory")
    case 17 => Some("is a directory")
    case 18 => Some("not a directory")
    case 19 => Some("cross device link")
    case 20 => Some("unimplemented feature")
    case 21 => Some("illegal seek")
    case 22 => Some("too many files are open")
    case 23 => Some("file or directory already exists")
    case 24 => Some("directory is not empty")
    case _ => None
  }

  function ErrorText(e: nat): string {
    if ErrorString(e).Some? then ErrorString(e).value else "error " + Digits(e, 10)
  }

  function CharOf(x: Arg): char { (x.bits % 256) as char }

  function TextOf(x: Arg): string {
    if x.text.None? then "(null)" else x.text.value
  }

  /** What a conversion prints; `x` is the next argument. */
  function Rendered(c: char, f: Field, x: Arg): string {
    match c
    case 'c' => [CharOf(x)]
    case 'e' => ErrorText(Abs(IntOf(x)))
    case 's' => StringField(TextOf(x), f)
    case 'd' => Numeral(Signed(x, f.longs), 10, f.width, f.padc)
    case 'u' => Padded(Unsigned(x, f.longs), 10, f.width, f.padc)
    case 'o' => Padded(Unsigned(x, f.longs), 8, f.width, f.padc)
    case 'p' => "0x" + Padded(Unsigned(x, 1), 16, f.width, f.padc)
    case 'x' => Padded(Unsigned(x, f.longs), 16, f.width, f.padc)
    case _ => [c]
  }

  /** The arguments as the conversions see them. */
  function Standard(args: Args): Env {
    Env((a: nat) => IntOf(args(a)), (c, f: Field) => Rendered(c, f, args(f.arg)))
  }

  /** A string field is as wide as the larger of its width and the text let through. */
  lemma {:induction false} StringFieldShape(p: string, f: Field)
    ensures var t, n := StringField(p, f), Shortened(|p|, f.precision);
            && |t| == (if f.width > n then f.width else n)
            && (if f.padc == '-' then t[..n] == Body(p, n, f.alt) else t[|t| - n..] == Body(p, n, f.alt))
  {
  }

}
