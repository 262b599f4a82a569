/**
  What a format string stands for (lab8/libs/printfmt.c): a reading of formats from left to right, without the
  pointer that the code moves back.
 */
module Formats {
  import opened CStrings
  import opened Numerals

  // ------------------------------------------------------- what stands between '%' and the conversion

  /** What an escape has set so far, and the next argument. */
  datatype Field = Field(padc: char, width: int, precision: int, longs: nat, alt: bool, arg: nat)

  function Start(a: nat): Field { Field(' ', -1, -1, 0, false, a) }

  /** A number is the width unless there is one already; then it is the precision. */
  function WithNumber(f: Field, n: int): Field {
    if f.width < 0 then f.(width := n, precision := -1) else f.(precision := n)
  }

  /** What the arguments give: a number for '*' by position, and the text of a conversion in a field. */
  datatype Env = Env(number: nat -> int, text: (char, Field) -> string)

  datatype Escape = Escape(field: Field, at: nat)

  predicate IsModifier(c: char) {
    '0' <= c <= '9' || c == '-' || c == '*' || c == '.' || c == '#' || c == 'l'
  }

  /** The decimal number at `i`, cut to an int, and the position behind it. */
  function FieldNumber(fmt: CString, i: nat): (r: (int, nat))
    requires i < |fmt| && '1' <= fmt[i] <= '9'
    ensures i < r.1 <= |fmt| && forall k :: i <= k < r.1 ==> fmt[k] != '%'
  {
    assert IsDigit(At(fmt, i), 10);
    assert forall k :: i <= k < RunEnd(fmt, i, 10) ==> IsDigit(fmt[k], 10);
    (Wrap32(Value(fmt[i..RunEnd(fmt, i, 10)], 10)), RunEnd(fmt, i, 10))
  }

  /** What one modifier does, and the position behind it. */
  function Modified(fmt: CString, i: nat, f: Field, env: Env): (e: Escape)
    requires i < |fmt| && IsModifier(fmt[i])
    ensures i < e.at <= |fmt| && forall k :: i <= k < e.at ==> fmt[k] != '%'
  {
    match fmt[i]
    case '-' => Escape(f.(padc := '-'), i + 1)
    case '0' => Escape(f.(padc := '0'), i + 1)
    case '*' => Escape(WithNumber(f.(arg := f.arg + 1), env.number(f.arg)), i + 1)
    case '.' => Escape(if f.width < 0 then f.(width := 0) else f, i + 1)
    case '#' => Escape(f.(alt := true), i + 1)
    case 'l' => Escape(f.(longs := f.longs + 1), i + 1)
    case _ => var (n, j) := FieldNumber(fmt, i); Escape(WithNumber(f, n), j)
  }

  /** The modifiers from `i` on, and the position of the first character that is none. */
  function Modifiers(fmt: CString, i: nat, f: Field, env: Env): (e: Escape)
    requires i <= |fmt|
    ensures i <= e.at <= |fmt| && (forall k :: i <= k < e.at ==> fmt[k] != '%') && !IsModifier(At(fmt, e.at))
    decreases |fmt| - i
  {
    if IsModifier(At(fmt, i)) then
      var m := Modified(fmt, i, f, env);
      Modifiers(fmt, m.at, m.field, env)
    else Escape(f, i)
  }

  // ------------------------------------------------------- conversions

  predicate IsConversion(c: char) {
    || c == 'c' || c == 'e' || c == 's' || c == 'd' || c == 'u' || c == 'o' || c == 'p' || c == 'x' || c == '%'
  }

  function ArgsAfter(c: char, f: Field): nat {
    if c == '%' then f.arg else f.arg + 1
  }

  // ------------------------------------------------------- formats

  /** What one character or one escape gives: text, where to go on, and the next argument; `open` if it is cut off. */
  datatype Piece = Piece(text: string, next: nat, arg: nat, open: bool)

  /** An escape that ends in no conversion is emitted as it stands; the arguments its '*' took are gone all the same. */
  function EscapePiece(fmt: CString, i: nat, e: Escape, env: Env): (p: Piece)
    requires i < e.at <= |fmt|
    ensures i < p.next <= |fmt|
  {
    var c := At(fmt, e.at);
    if IsConversion(c) then Piece(env.text(c, e.field), e.at + 1, ArgsAfter(c, e.field), false)
    else Piece(fmt[i..e.at], e.at, e.field.arg, e.at == |fmt|)
  }

  function PieceAt(fmt: CString, i: nat, env: Env, a: nat): (p: Piece)
    requires i < |fmt|
    ensures i < p.next <= |fmt|
  {
    if fmt[i] != '%' then Piece([fmt[i]], i + 1, a, false)
    else EscapePiece(fmt, i, Modifiers(fmt, i + 1, Start(a), env), env)
  }

  /** The text for the format from `i` on, with the arguments from `a` on. */
  function Output(fmt: CString, i: nat, env: Env, a: nat): string
    requires i <= |fmt|
    decreases |fmt| - i
  {
    if i == |fmt| then ""
    else
      var p := PieceAt(fmt, i, env, a);
      p.text + Output(fmt, p.next, env, p.arg)
  }

  lemma {:induction false} PlainStep(fmt: CString, i: nat, env: Env, a: nat)
    requires i < |fmt| && fmt[i] != '%'
    ensures Output(fmt, i, env, a) == [fmt[i]] + Output(fmt, i + 1, env, a)
  {
  }

  lemma {:induction false} Regroup(t: string, u: string, v: string, tu: string)
    requires tu == t + u
    ensures t + (u + v) == tu + v
  {
  }

  /** Text without '%' is emitted as it stands. */
  lemma {:induction false} PlainText(fmt: CString, i: nat, j: nat, env: Env, a: nat)
    requires i <= j <= |fmt| && forall k :: i <= k < j ==> fmt[k] != '%'
    ensures Output(fmt, i, env, a) == fmt[i..j] + Output(fmt, j, env, a)
    decreases j - i
  {
    if i < j {
      PlainStep(fmt, i, env, a);
      PlainText(fmt, i + 1, j, env, a);
      assert fmt[i..j] == [fmt[i]] + fmt[i + 1..j];
      Regroup([fmt[i]], fmt[i + 1..j], Output(fmt, j, env, a), fmt[i..j]);
    } else {
      assert fmt[i..j] == "";
    }
  }

  /** The escape that '%' at `i` opens. */
  function EscapeAt(fmt: CString, i: nat, env: Env, a: nat): (e: Escape)
    requires i < |fmt|
    ensures i < e.at <= |fmt| && forall k :: i < k < e.at ==> fmt[k] != '%'
  {
    Modifiers(fmt, i + 1, Start(a), env)
  }

  lemma {:induction false} BrokenStep(fmt: CString, i: nat, env: Env, a: nat)
    requires i < |fmt| && fmt[i] == '%' && !IsConversion(At(fmt, EscapeAt(fmt, i, env, a).at))
    ensures var e := EscapeAt(fmt, i, env, a);
            Output(fmt, i, env, a) == fmt[i..e.at] + Output(fmt, e.at, env, e.field.arg)
  {
  }

  lemma {:induction false} TailOf(fmt: string, i: nat)
    requires i <= |fmt|
    ensures fmt[i..|fmt|] + "" == fmt[i..]
  {
  }

  lemma {:induction false} SliceSnoc(fmt: string, i: nat, j: nat)
    requires i <= j < |fmt|
    ensures fmt[i..j + 1] == fmt[i..j] + [fmt[j]]
  {
  }

  lemma {:induction false} Truncated(fmt: CString, i: nat, env: Env, a: nat)
    requires i < |fmt| && fmt[i] == '%' && EscapeAt(fmt, i, env, a).at == |fmt|
    ensures Output(fmt, i, env, a) == fmt[i..]
  {
    BrokenStep(fmt, i, env, a);
    TailOf(fmt, i);
  }

  lemma {:induction false} Unrecognised(fmt: CString, i: nat, env: Env, a: nat, e: Escape)
    requires i < |fmt| && fmt[i] == '%' && e == EscapeAt(fmt, i, env, a) && e.at < |fmt| && !IsConversion(fmt[e.at])
    ensures Output(fmt, i, env, a) == fmt[i..e.at + 1] + Output(fmt, e.at + 1, env, e.field.arg)
  {
    BrokenStep(fmt, i, env, a);
    PlainStep(fmt, e.at, env, e.field.arg);
    var t, u, v := fmt[i..e.at], [fmt[e.at]], Output(fmt, e.at + 1, env, e.field.arg);
    SliceSnoc(fmt, i, e.at);
    assert Output(fmt, i, env, a) == t + (u + v);
    Regroup(t, u, v, fmt[i..e.at + 1]);
  }

  /**
    An unrecognised escape is emitted character for character, the offending character included; a truncated one
    is emitted up to the end of the format.
   */
  lemma {:induction false} LiteralFallback(fmt: CString, i: nat, env: Env, a: nat)
    requires i < |fmt| && fmt[i] == '%' && !IsConversion(At(fmt, EscapeAt(fmt, i, env, a).at))
    ensures var e := EscapeAt(fmt, i, env, a);
            && (e.at == |fmt| ==> Output(fmt, i, env, a) == fmt[i..])
            && (e.at < |fmt| ==> Output(fmt, i, env, a) == fmt[i..e.at + 1] + Output(fmt, e.at + 1, env, e.field.arg))
  {
    var e := EscapeAt(fmt, i, env, a);
    if e.at == |fmt| {
      Truncated(fmt, i, env, a);
    } else {
      Unrecognised(fmt, i, env, a, e);
    }
  }

  /** Moving back to just behind the '%' and reading on gives the same as going on from where the escape broke off. */
  lemma {:induction false} RewindHarmless(fmt: CString, i: nat, env: Env, a: nat)
    requires i < |fmt| && fmt[i] == '%' && !IsConversion(At(fmt, EscapeAt(fmt, i, env, a).at))
    ensures Output(fmt, i, env, a) == ['%'] + Output(fmt, i + 1, env, EscapeAt(fmt, i, env, a).field.arg)
  {
    var e := EscapeAt(fmt, i, env, a);
    var tail := Output(fmt, e.at, env, e.field.arg);
    BrokenStep(fmt, i, env, a);
    PlainText(fmt, i + 1, e.at, env, e.field.arg);
    assert fmt[i..e.at] == ['%'] + fmt[i + 1..e.at];
    Regroup(['%'], fmt[i + 1..e.at], tail, fmt[i..e.at]);
  }

  // ------------------------------------------------------- formats one after the other

  /** The next argument after the format from `i` on. */
  function Used(fmt: CString, i: nat, env: Env, a: nat): nat
    requires i <= |fmt|
    decreases |fmt| - i
  {
    if i == |fmt| then a
    else
      var p := PieceAt(fmt, i, env, a);
      Used(fmt, p.next, env, p.arg)
  }

  /** No escape is open at the end of the format. */
  predicate Whole(fmt: CString, i: nat, env: Env, a: nat)
    requires i <= |fmt|
    decreases |fmt| - i
  {
    if i == |fmt| then true
    else
      var p := PieceAt(fmt, i, env, a);
      !p.open && Whole(fmt, p.next, env, p.arg)
  }

  /** `s` begins with `f`. */
  ghost predicate Head(s: CString, f: CString) {
    |f| <= |s| && forall k :: 0 <= k < |f| ==> s[k] == f[k]
  }

  lemma {:induction false} RunEndHead(s: CString, f: CString, i: nat, base: int)
    requires Head(s, f) && i <= |f| && RunEnd(f, i, base) < |f|
    ensures RunEnd(s, i, base) == RunEnd(f, i, base)
  {
    RunFrom(s, i, RunEnd(f, i, base), base);
  }

  lemma {:induction false} HeadSlice(s: CString, f: CString, i: nat, j: nat)
    requires Head(s, f) && i <= j <= |f|
    ensures s[i..j] == f[i..j]
  {
  }

  lemma {:induction false} ModifiedHead(s: CString, f: CString, i: nat, st: Field, env: Env)
    requires Head(s, f) && i < |f| && IsModifier(f[i]) && Modified(f, i, st, env).at < |f|
    ensures Modified(s, i, st, env) == Modified(f, i, st, env)
  {
    if '1' <= f[i] <= '9' {
      RunEndHead(s, f, i, 10);
      HeadSlice(s, f, i, RunEnd(f, i, 10));
    }
  }

  /** Modifiers that end before the end of `f` are the same in any format that begins with `f`. */
  lemma {:induction false} ModifiersHead(s: CString, f: CString, i: nat, st: Field, env: Env)
    requires Head(s, f) && i <= |f| && Modifiers(f, i, st, env).at < |f|
    ensures Modifiers(s, i, st, env) == Modifiers(f, i, st, env)
    decreases |f| - i
  {
    if i < |f| && IsModifier(f[i]) {
      var m := Modified(f, i, st, env);
      ModifiedHead(s, f, i, st, env);
      ModifiersHead(s, f, m.at, m.field, env);
    }
  }

  lemma {:induction false} PieceHead(s: CString, f: CString, i: nat, env: Env, a: nat)
    requires Head(s, f) && i < |f| && !PieceAt(f, i, env, a).open
    ensures PieceAt(s, i, env, a) == PieceAt(f, i, env, a)
  {
    if f[i] == '%' {
      var e := EscapeAt(f, i, env, a);
      ModifiersHead(s, f, i + 1, Start(a), env);
      HeadSlice(s, f, i, e.at);
    }
  }

  /** A format that leaves no escape open does not care about what follows it. */
  lemma {:induction false} OutputHead(s: CString, f: CString, i: nat, env: Env, a: nat)
    requires Head(s, f) && i <= |f| && Whole(f, i, env, a)
    ensures Output(s, i, env, a) == Output(f, i, env, a) + Output(s, |f|, env, Used(f, i, env, a))
    decreases |f| - i
  {
    if i < |f| {
      var p := PieceAt(f, i, env, a);
      PieceHead(s, f, i, env, a);
      OutputHead(s, f, p.next, env, p.arg);
      Regroup(p.text, Output(f, p.next, env, p.arg), Output(s, |f|, env, Used(f, i, env, a)), Output(f, i, env, a));
    }
  }

  /** `g` is what is left of `s` behind the first `n` characters. */
  ghost predicate Tail(s: CString, n: nat, g: CString) {
    |s| == n + |g| && forall k :: 0 <= k < |g| ==> s[n + k] == g[k]
  }

  lemma {:induction false} TailSlice(s: CString, n: nat, g: CString, i: nat, j: nat)
    requires Tail(s, n, g) && i <= j <= |g|
    ensures s[n + i..n + j] == g[i..j]
  {
  }

  lemma {:induction false} RunEndTail(s: CString, n: nat, g: CString, i: nat, base: int)
    requires Tail(s, n, g) && i <= |g|
    ensures RunEnd(s, n + i, base) == n + RunEnd(g, i, base)
  {
    var j := RunEnd(g, i, base);
    assert At(s, n + j) == At(g, j);
    forall k | n + i <= k < n + j ensures IsDigit(s[k], base) {
      assert s[n + (k - n)] == g[k - n];
    }
    RunFrom(s, n + i, n + j, base);
  }

  function Later(e: Escape, n: nat): Escape { e.(at := e.at + n) }

  lemma {:induction false} ModifiedTail(s: CString, n: nat, g: CString, i: nat, st: Field, env: Env)
    requires Tail(s, n, g) && i < |g| && IsModifier(g[i])
    ensures s[n + i] == g[i] && Modified(s, n + i, st, env) == Later(Modified(g, i, st, env), n)
  {
    if '1' <= g[i] <= '9' {
      RunEndTail(s, n, g, i, 10);
      TailSlice(s, n, g, i, RunEnd(g, i, 10));
    }
  }

  lemma {:induction false} ModifiersTail(s: CString, n: nat, g: CString, i: nat, st: Field, env: Env)
    requires Tail(s, n, g) && i <= |g|
    ensures Modifiers(s, n + i, st, env) == Later(Modifiers(g, i, st, env), n)
    decreases |g| - i
  {
    assert At(s, n + i) == At(g, i);
    if IsModifier(At(g, i)) {
      var m := Modified(g, i, st, env);
      ModifiedTail(s, n, g, i, st, env);
      ModifiersTail(s, n, g, m.at, m.field, env);
    }
  }

  lemma {:induction false} EscapePieceTail(s: CString, n: nat, g: CString, i: nat, e: Escape, env: Env)
    requires Tail(s, n, g) && i < e.at <= |g|
    ensures var p := EscapePiece(g, i, e, env);
            EscapePiece(s, n + i, Later(e, n), env) == p.(next := p.next + n)
  {
    assert At(s, n + e.at) == At(g, e.at);
    TailSlice(s, n, g, i, e.at);
  }

  lemma {:induction false} PieceTail(s: CString, n: nat, g: CString, i: nat, env: Env, a: nat)
    requires Tail(s, n, g) && i < |g|
    ensures var p := PieceAt(g, i, env, a);
            PieceAt(s, n + i, env, a) == p.(next := p.next + n)
  {
    assert s[n + i] == g[i];
    if g[i] == '%' {
      ModifiersTail(s, n, g, i + 1, Start(a), env);
      EscapePieceTail(s, n, g, i, EscapeAt(g, i, env, a), env);
    }
  }

  lemma {:induction false} OutputTail(s: CString, n: nat, g: CString, i: nat, env: Env, a: nat)
    requires Tail(s, n, g) && i <= |g|
    ensures Output(s, n + i, env, a) == Output(g, i, env, a)
    decreases |g| - i
  {
    if i < |g| {
      var p := PieceAt(g, i, env, a);
      PieceTail(s, n, g, i, env, a);
      OutputTail(s, n, g, p.next, env, p.arg);
    }
  }

  /** Two formats one after the other print what each prints, if the first leaves no escape open. */
  lemma {:induction false} FormatsCompose(f: CString, g: CString, env: Env, a: nat)
    requires Whole(f, 0, env, a)
    ensures Output(f + g, 0, env, a) == Output(f, 0, env, a) + Output(g, 0, env, Used(f, 0, env, a))
  {
    OutputHead(f + g, f, 0, env, a);
    OutputTail(f + g, |f|, g, 0, env, Used(f, 0, env, a));
  }
}
