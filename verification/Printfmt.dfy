/**
  lab8/libs/printfmt.c: the formatter as it runs, with its moving pointer, and the bounded buffer it prints into.
 */
module Printfmt {
  import opened CStrings
  import opened Numerals
  import opened Formats
  import opened Conversions

  const E_INVAL := 3

  // ------------------------------------------------------- struct sprintbuf

  /** A buffer of which positions up to `end` may be written; `out` is everything that was put. */
  class Sink {
    const buf: array<char>
    const end: nat
    var next: nat
    var cnt: nat
    ghost var out: string
    ghost const before: seq<char>

    ghost predicate Valid()
      reads this, buf
    {
      && end < buf.Length && |before| == buf.Length
      && cnt == |out| && next == (if cnt < end then cnt else end)
      && buf[..] == out[..next] + before[next..]
    }

    constructor (str: array<char>, size: nat)
      requires 1 <= size <= str.Length
      ensures Valid() && buf == str && end == size - 1 && out == "" && before == str[..]
    {
      buf, end, next, cnt, out, before := str, size - 1, 0, 0, "", str[..];
    }

    /** sprintputch */
    method Put(c: char)
      requires Valid()
      modifies this, buf
      ensures Valid() && out == old(out) + [c]
    {
      cnt, out := cnt + 1, out + [c];
      if next < end {
        buf[next] := c;
        next := next + 1;
      }
    }

    /** `n` times the same character. */
    method PutFill(c: char, n: int)
      requires Valid()
      modifies this, buf
      ensures Valid() && out == old(out) + Fill(c, n)
    {
      var left := n;
      while left > 0
        invariant Valid() && left <= n && (left >= 0 || left == n)
        invariant out == old(out) + Fill(c, n - (if left > 0 then left else 0))
      {
        Put(c);
        left := left - 1;
      }
    }

    /** `p` up to its end, or `n` characters of it. */
    method PutBody(p: string, precision: int, alt: bool)
      requires Valid()
      modifies this, buf
      ensures Valid() && out == old(out) + Body(p, Shortened(|p|, precision), alt)
    {
      var i, left := 0, precision;
      while i < |p| && (precision < 0 || left - 1 >= 0)
        invariant Valid() && 0 <= i <= Shortened(|p|, precision) && (precision >= 0 ==> left == precision - i)
        invariant out == old(out) + Body(p, i, alt)
      {
        if alt && (p[i] < ' ' || p[i] > '~') {
          Put('?');
        } else {
          Put(p[i]);
        }
        BodyNext(p, i, alt);
        i, left := i + 1, left - 1;
      }
    }

    /** The NUL behind what was put. */
    method Terminate()
      requires Valid()
      modifies buf
      ensures buf[next] == '\0' && (forall i :: 0 <= i < next ==> buf[i] == out[i])
      ensures forall i :: next < i < buf.Length ==> buf[i] == before[i]
    {
      assert buf[..next] == out[..next] && buf[next..] == before[next..];
      buf[next] := '\0';
    }
  }

  // ------------------------------------------------------- conversions

  /** strnlen; a negative precision becomes a length that no string has. */
  method Strnlen(p: string, len: int) returns (n: nat)
    ensures n == Shortened(|p|, len)
  {
    n := 0;
    while (len < 0 || n < len) && n < |p|
      invariant n <= Shortened(|p|, len)
    {
      n := n + 1;
    }
  }

  /** printnum: the digits are found from the last to the first and put from the first to the last. */
  method PrintNum(sink: Sink, num: nat, base: nat, width: int, padc: char)
    requires sink.Valid() && 2 <= base <= 16
    modifies sink, sink.buf
    ensures sink.Valid() && sink.out == old(sink.out) + Padded(num, base, width, padc)
    decreases num
  {
    if num >= base {
      QuotientPositive(num, base);
      PaddedStep(num, base, width, padc);
      ghost var was, high := sink.out, Padded(num / base, base, width - 1, padc);
      PrintNum(sink, num / base, base, width - 1, padc);
      sink.Put(DigitChar(num % base));
      Regroup(was, high, [DigitChar(num % base)], was + high);
    } else {
      sink.PutFill(padc, width - 1);
      sink.Put(DigitChar(num));
    }
  }

  /** The padding of %s in front of the text; what is left of the width may call for more behind it. */
  method PutLeft(sink: Sink, p: string, f: Field) returns (width: int)
    requires sink.Valid()
    modifies sink, sink.buf
    ensures sink.Valid() && sink.out == old(sink.out) + LeftPad(f, Shortened(|p|, f.precision))
    ensures Fill(' ', width - Shortened(|p|, f.precision)) == RightPad(f, Shortened(|p|, f.precision))
  {
    width := f.width;
    if width > 0 && f.padc != '-' {
      var n := Strnlen(p, f.precision);
      width := width - n;
      sink.PutFill(f.padc, width);
      if width > 0 { width := 0; }
    }
  }

  /** The case of %s. */
  method PutString(sink: Sink, p: string, f: Field)
    requires sink.Valid()
    modifies sink, sink.buf
    ensures sink.Valid() && sink.out == old(sink.out) + StringField(p, f)
  {
    ghost var was, n := sink.out, Shortened(|p|, f.precision);
    var width := PutLeft(sink, p, f);
    sink.PutBody(p, f.precision, f.alt);
    sink.PutFill(' ', width - Shortened(|p|, f.precision));
    ThreeParts(was, LeftPad(f, n), Body(p, n, f.alt), RightPad(f, n));
  }

  lemma {:induction false} ThreeParts(was: string, l: string, b: string, r: string)
    ensures was + l + b + r == was + (l + b + r)
  {
  }

  /** A signed number: the sign stands in front of the padding. */
  method PutSigned(sink: Sink, v: int, f: Field)
    requires sink.Valid()
    modifies sink, sink.buf
    ensures sink.Valid() && sink.out == old(sink.out) + Numeral(v, 10, f.width, f.padc)
  {
    var num := v;
    ghost var was, digits := sink.out, Padded(Abs(v), 10, f.width, f.padc);
    if num < 0 {
      sink.Put('-');
      num := -num;
    }
    PrintNum(sink, num, 10, f.width, f.padc);
    Regroup(was, Sign(v), digits, was + Sign(v));
  }

  /** The case of %e. */
  method PutError(sink: Sink, code: int)
    requires sink.Valid()
    modifies sink, sink.buf
    ensures sink.Valid() && sink.out == old(sink.out) + ErrorText(Abs(code))
  {
    var err: nat := Abs(code);
    var p := ErrorString(err);
    if p.None? {
      sink.PutBody("error ", -1, false);
      PrintNum(sink, err, 10, -1, ' ');
    } else {
      sink.PutBody(p.value, -1, false);
    }
  }

  /** The conversion `c`; the result is the position of the next argument. */
  method Convert(sink: Sink, c: char, f: Field, args: Args) returns (arg: nat)
    requires sink.Valid() && IsConversion(c)
    modifies sink, sink.buf
    ensures sink.Valid() && sink.out == old(sink.out) + Rendered(c, f, args(f.arg)) && arg == ArgsAfter(c, f)
  {
    var x := args(f.arg);
    arg := f.arg + 1;
    if c == 'c' {
      sink.Put(CharOf(x));
    } else if c == 'e' {
      PutError(sink, IntOf(x));
    } else if c == 's' {
      PutString(sink, TextOf(x), f);
    } else if c == 'd' {
      PutSigned(sink, Signed(x, f.longs), f);
    } else if c == 'u' {
      PrintNum(sink, Unsigned(x, f.longs), 10, f.width, f.padc);
    } else if c == 'o' {
      PrintNum(sink, Unsigned(x, f.longs), 8, f.width, f.padc);
    } else if c == 'p' {
      sink.Put('0');
      sink.Put('x');
      PrintNum(sink, Unsigned(x, 1), 16, f.width, f.padc);
    } else if c == 'x' {
      PrintNum(sink, Unsigned(x, f.longs), 16, f.width, f.padc);
    } else {
      sink.Put(c);
      arg := f.arg;
    }
  }

  // ------------------------------------------------------- reading the format

  /** The loop that reads a width or a precision. */
  method ReadWidth(fmt: CString, i: nat) returns (n: int, j: nat)
    requires i < |fmt| && '1' <= fmt[i] <= '9'
    ensures (n, j) == FieldNumber(fmt, i)
  {
    n, j := 0, i;
    assert fmt[i..i] == "";
    while '0' <= At(fmt, j) <= '9'
      invariant i <= j <= |fmt| && RunEnd(fmt, j, 10) == RunEnd(fmt, i, 10)
      invariant n == Wrap32(Value(fmt[i..j], 10))
      decreases |fmt| - j
    {
      var dig := fmt[j] as int - '0' as int;
      WrapStep(Value(fmt[i..j], 10), 10, dig, H32);
      ValueExtend(fmt, i, j, 10);
      n, j := Wrap32(n * 10 + dig), j + 1;
    }
  }

  /** The cases that jump back to the switch: one modifier. */
  method ReadModifier(fmt: CString, i: nat, f: Field, args: Args) returns (f': Field, at: nat)
    requires i < |fmt| && IsModifier(fmt[i])
    ensures Escape(f', at) == Modified(fmt, i, f, Standard(args))
  {
    var c := fmt[i];
    at, f' := i + 1, f;
    if c == '-' {
      f' := f'.(padc := '-');
    } else if c == '0' {
      f' := f'.(padc := '0');
    } else if c == '.' {
      if f'.width < 0 { f' := f'.(width := 0); }
    } else if c == '#' {
      f' := f'.(alt := true);
    } else if c == 'l' {
      f' := f'.(longs := f'.longs + 1);
    } else {
      if c == '*' {
        f' := f'.(precision := IntOf(args(f'.arg)), arg := f'.arg + 1);
      } else {
        var n;
        n, at := ReadWidth(fmt, i);
        f' := f'.(precision := n);
      }
      if f'.width < 0 { f' := f'.(width := f'.precision, precision := -1); }
    }
  }

  /** All modifiers, up to the first character that is none. */
  method ReadModifiers(fmt: CString, i: nat, args: Args, a: nat) returns (f: Field, at: nat)
    requires i <= |fmt|
    ensures Escape(f, at) == Modifiers(fmt, i, Start(a), Standard(args))
  {
    f, at := Start(a), i;
    while IsModifier(At(fmt, at))
      invariant i <= at <= |fmt|
      invariant Modifiers(fmt, at, f, Standard(args)) == Modifiers(fmt, i, Start(a), Standard(args))
      decreases |fmt| - at
    {
      f, at := ReadModifier(fmt, at, f, args);
    }
  }

  /** The default case: the pointer goes back to just behind the '%' of this escape, and no further. */
  method Rewind(fmt: CString, open: nat, at: nat) returns (pos: nat)
    requires open < at <= |fmt| && fmt[open] == '%' && forall k :: open < k < at ==> fmt[k] != '%'
    ensures pos == open + 1
  {
    pos := at;
    while fmt[pos - 1] != '%'
      invariant open < pos <= at
      decreases pos
    {
      pos := pos - 1;
    }
  }

  /** Text up to the next '%' or the end. */
  method PutLiteral(sink: Sink, fmt: CString, i: nat) returns (pos: nat)
    requires sink.Valid() && i <= |fmt|
    modifies sink, sink.buf
    ensures sink.Valid() && i <= pos <= |fmt| && sink.out == old(sink.out) + fmt[i..pos]
    ensures (pos < |fmt| ==> fmt[pos] == '%') && forall k :: i <= k < pos ==> fmt[k] != '%'
  {
    pos := i;
    while At(fmt, pos) != '%' && At(fmt, pos) != '\0'
      invariant sink.Valid() && i <= pos <= |fmt| && sink.out == old(sink.out) + fmt[i..pos]
      invariant forall k :: i <= k < pos ==> fmt[k] != '%'
      decreases |fmt| - pos
    {
      sink.Put(fmt[pos]);
      SliceSnoc(fmt, i, pos);
      pos := pos + 1;
    }
  }

  /** One escape, from its '%' on: either a conversion, or a '%' and a way back. */
  method PutEscape(sink: Sink, fmt: CString, open: nat, args: Args, a: nat) returns (pos: nat, arg: nat)
    requires sink.Valid() && open < |fmt| && fmt[open] == '%'
    modifies sink, sink.buf
    ensures sink.Valid() && open < pos <= |fmt|
    ensures exists t :: sink.out == old(sink.out) + t
              && Output(fmt, open, Standard(args), a) == t + Output(fmt, pos, Standard(args), arg)
  {
    var f, at := ReadModifiers(fmt, open + 1, args, a);
    ghost var e := EscapeAt(fmt, open, Standard(args), a);
    if IsConversion(At(fmt, at)) {
      arg := Convert(sink, At(fmt, at), f, args);
      pos := at + 1;
      assert Output(fmt, open, Standard(args), a)
          == Rendered(At(fmt, at), f, args(f.arg)) + Output(fmt, pos, Standard(args), arg);
    } else {
      RewindHarmless(fmt, open, Standard(args), a);
      sink.Put('%');
      pos := Rewind(fmt, open, at);
      arg := f.arg;
    }
  }

  /** vprintfmt: whatever the format, it ends, and it puts what the format stands for. */
  method VPrintfmt(sink: Sink, fmt: CString, args: Args)
    requires sink.Valid()
    modifies sink, sink.buf
    ensures sink.Valid() && sink.out == old(sink.out) + Output(fmt, 0, Standard(args), 0)
  {
    var pos, a := 0, 0;
    while true
      invariant sink.Valid() && pos <= |fmt|
      invariant sink.out + Output(fmt, pos, Standard(args), a) == old(sink.out) + Output(fmt, 0, Standard(args), 0)
      decreases |fmt| - pos
    {
      ghost var was := sink.out;
      var open := PutLiteral(sink, fmt, pos);
      PlainText(fmt, pos, open, Standard(args), a);
      Regroup(was, fmt[pos..open], Output(fmt, open, Standard(args), a), sink.out);
      if open == |fmt| { return; }
      was := sink.out;
      ghost var a0 := a;
      pos, a := PutEscape(sink, fmt, open, args, a);
      ghost var t :| sink.out == was + t
        && Output(fmt, open, Standard(args), a0) == t + Output(fmt, pos, Standard(args), a);
      Regroup(was, t, Output(fmt, pos, Standard(args), a), sink.out);
    }
  }

  // ------------------------------------------------------- vsnprintf

  lemma {:induction false} NothingBefore(t: string)
    ensures "" + t == t
  {
  }

  /** vsnprintf with a buffer. */
  method PrintInto(str: array<char>, size: nat, fmt: CString, args: Args) returns (r: int)
    requires 1 <= size <= str.Length
    modifies str
    ensures r == |Output(fmt, 0, Standard(args), 0)|
    ensures var n := if r < size then r else size - 1;
            && str[n] == '\0' && (forall i :: 0 <= i < n ==> str[i] == Output(fmt, 0, Standard(args), 0)[i])
            && forall i :: n < i < str.Length ==> str[i] == old(str[i])
  {
    var sink := new Sink(str, size);
    VPrintfmt(sink, fmt, args);
    NothingBefore(Output(fmt, 0, Standard(args), 0));
    sink.Terminate();
    r := sink.cnt;
  }

  /**
    vsnprintf.  The buffer ends up with as much of the text as fits before a NUL, bytes behind the NUL and behind
    `size` are untouched, and the length of the whole text is returned.
   */
  method Vsnprintf(str: array?<char>, size: nat, fmt: CString, args: Args) returns (r: int)
    requires str != null ==> size <= str.Length
    modifies if str != null then {str} else {}
    ensures str == null || size == 0 ==> r == -3 && (str != null ==> str[..] == old(str[..]))
    ensures str != null && size > 0 ==>
              && r == |Output(fmt, 0, Standard(args), 0)|
              && var n := if r < size then r else size - 1;
                 && str[n] == '\0' && (forall i :: 0 <= i < n ==> str[i] == Output(fmt, 0, Standard(args), 0)[i])
                 && forall i :: n < i < str.Length ==> str[i] == old(str[i])
  {
    if str == null || size == 0 { return -E_INVAL; }
    r := PrintInto(str, size, fmt, args);
  }
}
