/**
  lab2/kern/driver/dtb.c, extract_memory_info: bytes are read as tokens, tokens as a tree, and what the walk
  returns is said in terms of the tree.
 */
module DeviceTreeWalk {
  import opened Options
  import opened DeviceTree

  const BEGIN_NODE: nat := 1
  const END_NODE: nat := 2
  const PROP: nat := 3
  const NOP: nat := 4
  const END: nat := 9

  const NUL: Octet := 0
  const REG: Bytes := [0x72, 0x65, 0x67]
  const MEMORY: Bytes := [0x6d, 0x65, 0x6d, 0x6f, 0x72, 0x79]

  datatype Token = Begin(name: Bytes) | EndNode | Property(name: Bytes, data: Bytes) | Nop | End | Unknown

  // ------------------------------------------------------- tokens in the blob

  /** A NUL-terminated string. */
  ghost predicate TextAt(b: Bytes, p: nat, s: Bytes) {
    && p + |s| < |b| && (forall i :: 0 <= i < |s| ==> b[p + i] == s[i] && s[i] != NUL) && b[p + |s|] == NUL
  }

  function Aligned(n: nat): (r: nat)
    ensures n <= r < n + 4 && r % 4 == 0
  {
    (n + 3) / 4 * 4
  }

  /** The bytes a token takes, padding included. */
  function Span(t: Token): (n: nat)
    ensures n >= 4 && n % 4 == 0
  {
    match t
    case Begin(name) => 4 + Aligned(|name| + 1)
    case Property(_, data) => 12 + Aligned(|data|)
    case _ => 4
  }

  predicate Known(w: nat) {
    w == BEGIN_NODE || w == END_NODE || w == PROP || w == NOP || w == END
  }

  /** The body of a property; its name is in the strings block. */
  ghost predicate PropertyAt(b: Bytes, strings: nat, p: nat, name: Bytes, data: Bytes) {
    && p + 8 + |data| <= |b| && Big32(b, p) == |data|
    && TextAt(b, strings + Big32(b, p + 4), name)
    && b[p + 8..p + 8 + |data|] == data
  }

  /** Token `t` at position `p`. */
  ghost predicate TokenAt(b: Bytes, strings: nat, p: nat, t: Token) {
    && p + Span(t) <= |b|
    && match t
       case Begin(name) => Big32(b, p) == BEGIN_NODE && TextAt(b, p + 4, name)
       case EndNode => Big32(b, p) == END_NODE
       case Property(name, data) => Big32(b, p) == PROP && PropertyAt(b, strings, p + 4, name, data)
       case Nop => Big32(b, p) == NOP
       case End => Big32(b, p) == END
       case Unknown => !Known(Big32(b, p))
  }

  ghost predicate Laid(b: Bytes, strings: nat, p: nat, ts: seq<Token>)
    decreases |ts|
  {
    |ts| == 0 || (TokenAt(b, strings, p, ts[0]) && Laid(b, strings, p + Span(ts[0]), ts[1..]))
  }

  // ------------------------------------------------------- the walk over tokens

  type Range = (nat, nat)

  predicate IsMemory(name: Bytes) { |name| >= 6 && name[..6] == MEMORY }

  predicate IsReg(t: Token) { t.Property? && t.name == REG && |t.data| >= 16 }

  function RegOf(t: Token): Range
    requires IsReg(t)
  {
    (Big64(t.data, 0), Big64(t.data, 8))
  }

  /** What one token does to the walk: it goes on, inside a memory node or not, or it ends. */
  datatype Outcome = Go(inMemory: bool) | Done(found: Option<Range>)

  function After(t: Token, inMemory: bool): Outcome {
    match t
    case Begin(name) => Go(inMemory || IsMemory(name))
    case EndNode => Go(false)
    case Property(_, _) => if inMemory && IsReg(t) then Done(Some(RegOf(t))) else Go(inMemory)
    case Nop => Go(inMemory)
    case _ => Done(None)
  }

  /** The range the walk finds. */
  function Scan(ts: seq<Token>, inMemory: bool): Option<Range> {
    if ts == [] then None
    else match After(ts[0], inMemory)
      case Go(flag) => Scan(ts[1..], flag)
      case Done(r) => r
  }

  predicate Stops(t: Token) { t.End? || t.Unknown? }

  // ------------------------------------------------------- the walk over bytes

  /** The load of a word, its bytes swapped. */
  method ReadWord(b: Bytes, p: nat) returns (w: nat)
    requires p + 4 <= |b|
    ensures w == Big32(b, p)
  {
    Swapped32(b, p);
    w := Fdt32ToCpu(Load32(b, p));
  }

  lemma {:induction false} TextChar(b: Bytes, p: nat, s: Bytes, n: nat)
    requires TextAt(b, p, s) && n <= |s|
    ensures b[p + n] == (if n < |s| then s[n] else NUL) && (b[p + n] == NUL <==> n == |s|)
  {
  }

  /** strlen */
  method StrLen(b: Bytes, p: nat, ghost s: Bytes) returns (n: nat)
    requires TextAt(b, p, s)
    ensures n == |s|
  {
    n := 0;
    TextChar(b, p, s, 0);
    while b[p + n] != NUL
      invariant n <= |s| && (b[p + n] == NUL <==> n == |s|)
      decreases |s| - n
    {
      n := n + 1;
      TextChar(b, p, s, n);
    }
  }

  /** The text at `p` begins with `lit`: strncmp with the length of `lit`. */
  method StartsWith(b: Bytes, p: nat, lit: Bytes, ghost s: Bytes) returns (same: bool)
    requires TextAt(b, p, s) && forall i :: 0 <= i < |lit| ==> lit[i] != NUL
    ensures same <==> |s| >= |lit| && s[..|lit|] == lit
  {
    var n := 0;
    while n < |lit| && b[p + n] != NUL && b[p + n] == lit[n]
      invariant n <= |lit| && n <= |s| && forall i :: 0 <= i < n ==> s[i] == lit[i]
    {
      n := n + 1;
    }
    TextChar(b, p, s, n);
    same := n == |lit|;
    assert |lit| <= |s| ==> forall i :: 0 <= i < |lit| ==> s[..|lit|][i] == s[i];
  }

  /** The text at `p` is `lit`: strcmp. */
  method Equal(b: Bytes, p: nat, lit: Bytes, ghost s: Bytes) returns (same: bool)
    requires TextAt(b, p, s) && forall i :: 0 <= i < |lit| ==> lit[i] != NUL
    ensures same <==> s == lit
  {
    var n := 0;
    while n < |lit| && b[p + n] != NUL && b[p + n] == lit[n]
      invariant n <= |lit| && n <= |s| && forall i :: 0 <= i < n ==> s[i] == lit[i]
    {
      n := n + 1;
    }
    TextChar(b, p, s, n);
    same := b[p + n] == (if n < |lit| then lit[n] else NUL);
  }

  lemma {:induction false} QuarterSum(k: nat, n: nat)
    ensures (4 * k + n) / 4 == k + n / 4
  {
  }

  lemma {:induction false} NextStart(p: nat, n: nat)
    requires p % 4 == 0
    ensures (p + n + 3) / 4 * 4 == p + Aligned(n)
  {
    QuarterSum(p / 4, n + 3);
  }

  /** The case of a node: the flag and the position behind the name. */
  method EnterNode(b: Bytes, p: nat, inMemory: bool, ghost name: Bytes) returns (flag: bool, next: nat)
    requires p % 4 == 0 && TextAt(b, p, name)
    ensures flag == (inMemory || (|name| >= 6 && name[..6] == [109, 101, 109, 111, 114, 121]))
    ensures next == p + Aligned(|name| + 1)
  {
    var n := StrLen(b, p, name);
    var same := StartsWith(b, p, MEMORY, name);
    flag := inMemory || same;
    NextStart(p, n + 1);
    next := (p + n + 4) / 4 * 4;
  }

  /** The load of a double word, its bytes swapped. */
  method ReadDouble(b: Bytes, p: nat) returns (w: nat)
    requires p + 8 <= |b|
    ensures w == Big64(b, p)
  {
    Swapped64(b, p);
    w := Fdt64ToCpu(Load64(b, p));
  }

  /** Two double words. */
  method ReadRange(b: Bytes, p: nat, ghost data: Bytes) returns (r: Range)
    requires |data| >= 16 && p + |data| <= |b| && b[p..p + |data|] == data
    ensures r == (Big64(data, 0), Big64(data, 8))
  {
    var base := ReadDouble(b, p);
    var size := ReadDouble(b, p + 8);
    Big64Slice(b, p, |data|, 0);
    Big64Slice(b, p, |data|, 8);
    r := (base, size);
  }

  /** The case of a property: either the range, or the position behind the value. */
  method ReadProperty(b: Bytes, strings: nat, p: nat, inMemory: bool, ghost name: Bytes, ghost data: Bytes)
    returns (r: Option<Range>, next: nat)
    requires p % 4 == 0 && PropertyAt(b, strings, p, name, data)
    ensures var t := Property(name, data);
            r == (if inMemory && IsReg(t) then Some(RegOf(t)) else None) && next == p + 8 + Aligned(|data|)
  {
    var len := ReadWord(b, p);
    var off := ReadWord(b, p + 4);
    NextStart(p + 8, len);
    next := (p + 8 + len + 3) / 4 * 4;
    r := None;
    if inMemory {
      var same := Equal(b, strings + off, REG, name);
      if same && len >= 16 {
        var range := ReadRange(b, p + 8, data);
        r := Some(range);
      }
    }
  }

  lemma {:induction false} Big64Slice(b: Bytes, p: nat, n: nat, k: nat)
    requires p + n <= |b| && k + 8 <= n
    ensures Big64(b[p..p + n], k) == Big64(b, p + k)
  {
  }

  /** One turn of the loop. */
  method Step(b: Bytes, strings: nat, p: nat, inMemory: bool, ghost t: Token) returns (o: Outcome, next: nat)
    requires p % 4 == 0 && TokenAt(b, strings, p, t)
    ensures o == After(t, inMemory) && (o.Go? ==> next == p + Span(t))
  {
    var token := ReadWord(b, p);
    next := p + 4;
    if token == BEGIN_NODE {
      var flag;
      flag, next := EnterNode(b, next, inMemory, t.name);
      o := Go(flag);
    } else if token == END_NODE {
      o := Go(false);
    } else if token == PROP {
      var r;
      r, next := ReadProperty(b, strings, next, inMemory, t.name, t.data);
      o := if r.Some? then Done(r) else Go(inMemory);
    } else if token == NOP {
      o := Go(inMemory);
    } else {
      o := Done(None);
    }
  }

  /** What the walk keeps: it is at the start of a token, and the tokens that follow come to a stop. */
  ghost predicate OnTokens(b: Bytes, strings: nat, p: nat, rest: seq<Token>) {
    p % 4 == 0 && Laid(b, strings, p, rest) && rest != [] && Stops(rest[|rest| - 1])
  }

  lemma {:induction false} SumAligned(p: nat, n: nat)
    requires p % 4 == 0 && n % 4 == 0
    ensures (p + n) % 4 == 0
  {
    QuarterSum(p / 4, n);
  }

  lemma {:induction false} StillAligned(p: nat, t: Token)
    requires p % 4 == 0
    ensures (p + Span(t)) % 4 == 0
  {
    SumAligned(p, Span(t));
  }

  lemma {:induction false} OnwardTokens(b: Bytes, strings: nat, p: nat, rest: seq<Token>)
    requires OnTokens(b, strings, p, rest)
    ensures TokenAt(b, strings, p, rest[0])
    ensures !Stops(rest[0]) ==> OnTokens(b, strings, p + Span(rest[0]), rest[1..])
  {
    StillAligned(p, rest[0]);
  }

  lemma {:induction false} OnwardScan(rest: seq<Token>, inMemory: bool)
    requires rest != []
    ensures var o := After(rest[0], inMemory);
            Scan(rest, inMemory) == (if o.Done? then o.found else Scan(rest[1..], o.inMemory)) && (Stops(rest[0]) ==> o.Done?)
  {
  }

  /** One turn of the loop on the tokens that are left. */
  method Turn(b: Bytes, strings: nat, p: nat, inMemory: bool, ghost rest: seq<Token>)
    returns (o: Outcome, next: nat, ghost rest': seq<Token>)
    requires OnTokens(b, strings, p, rest)
    ensures rest' == rest[1..]
    ensures o.Done? ==> o.found == Scan(rest, inMemory)
    ensures o.Go? ==> OnTokens(b, strings, next, rest') && Scan(rest', o.inMemory) == Scan(rest, inMemory)
  {
    OnwardTokens(b, strings, p, rest);
    OnwardScan(rest, inMemory);
    o, next := Step(b, strings, p, inMemory, rest[0]);
    rest' := rest[1..];
  }

  /**
    extract_memory_info.  The pointer stays on the tokens of the structure block, the loop ends, and the result is
    that of the scan of the tokens.
   */
  method ExtractMemoryInfo(b: Bytes, ghost ts: seq<Token>) returns (r: Option<Range>)
    requires |b| >= 16 && Big32(b, 8) % 4 == 0
    requires Laid(b, Big32(b, 12), Big32(b, 8), ts) && ts != [] && Stops(ts[|ts| - 1])
    ensures r == Scan(ts, false)
  {
    var p := ReadWord(b, 8);
    var strings := ReadWord(b, 12);
    var inMemory := false;
    ghost var rest := ts;
    while true
      invariant OnTokens(b, strings, p, rest)
      invariant Scan(rest, inMemory) == Scan(ts, false)
      decreases |rest|
    {
      var o;
      o, p, rest := Turn(b, strings, p, inMemory, rest);
      if o.Done? { return o.found; }
      inMemory := o.inMemory;
    }
  }

  // ------------------------------------------------------- trees

  /** What stands between the tokens of a node: properties, nodes and NOPs, in any order. */
  datatype Item = Gap | Prop(name: Bytes, data: Bytes) | Sub(name: Bytes, items: seq<Item>)

  /** Section 5.4.2: a node is its begin token, what is in it, and its end token. */
  function TokensOf(items: seq<Item>): seq<Token> {
    if items == [] then [] else ItemTokens(items[0]) + TokensOf(items[1..])
  }

  function ItemTokens(item: Item): seq<Token> {
    match item
    case Gap => [Nop]
    case Prop(name, data) => [Property(name, data)]
    case Sub(name, items) => [Begin(name)] + TokensOf(items) + [EndNode]
  }

  /** The ranges of all `reg` properties long enough, in nodes whose name begins "memory", in pre-order. */
  function Regs(items: seq<Item>, inMemory: bool): seq<Range> {
    if items == [] then [] else ItemRegs(items[0], inMemory) + Regs(items[1..], inMemory)
  }

  function ItemRegs(item: Item, inMemory: bool): seq<Range> {
    match item
    case Gap => []
    case Prop(name, data) =>
      if inMemory && name == REG && |data| >= 16 then [(Big64(data, 0), Big64(data, 8))] else []
    case Sub(name, items) => Regs(items, IsMemory(name))
  }

  function First(s: seq<Range>, otherwise: Option<Range>): Option<Range> {
    if s == [] then otherwise else Some(s[0])
  }

  // ------------------------------------------------------- what the walk takes, and what it should take

  /** A `reg` long enough: its range, the flag of the walk when it gets there, and whether it is a memory node's own. */
  datatype Mark = Mark(range: Range, flag: bool, own: bool)

  /** The marks of a part of the tree in pre-order, and the flag behind it. */
  datatype Trace = Trace(marks: seq<Mark>, flag: bool)

  function Marks(items: seq<Item>, flag: bool, own: bool): Trace {
    if items == [] then Trace([], flag)
    else
      var a := ItemMarks(items[0], flag, own);
      var b := Marks(items[1..], a.flag, own);
      Trace(a.marks + b.marks, b.flag)
  }

  /** A node raises the flag if its name says so, and its end clears the flag whatever node is around it. */
  function ItemMarks(item: Item, flag: bool, own: bool): Trace {
    match item
    case Gap => Trace([], flag)
    case Prop(name, data) =>
      Trace(if name == REG && |data| >= 16 then [Mark((Big64(data, 0), Big64(data, 8)), flag, own)] else [], flag)
    case Sub(name, items) => Trace(Marks(items, flag || IsMemory(name), IsMemory(name)).marks, false)
  }

  function Flagged(ms: seq<Mark>): seq<Range> {
    if ms == [] then [] else (if ms[0].flag then [ms[0].range] else []) + Flagged(ms[1..])
  }

  function Owned(ms: seq<Mark>): seq<Range> {
    if ms == [] then [] else (if ms[0].own then [ms[0].range] else []) + Owned(ms[1..])
  }

  lemma {:induction false} Regroup(a: seq<Range>, b: seq<Range>, c: seq<Range>)
    ensures a + (b + c) == (a + b) + c
  {
  }

  lemma {:induction false} TailConcat(a: seq<Mark>, b: seq<Mark>)
    requires a != []
    ensures (a + b)[0] == a[0] && (a + b)[1..] == a[1..] + b
  {
  }

  lemma {:induction false} FlaggedConcat(a: seq<Mark>, b: seq<Mark>)
    ensures Flagged(a + b) == Flagged(a) + Flagged(b)
    decreases |a|
  {
    if a == [] {
      assert a + b == b;
    } else {
      TailConcat(a, b);
      FlaggedConcat(a[1..], b);
      Regroup(if a[0].flag then [a[0].range] else [], Flagged(a[1..]), Flagged(b));
    }
  }

  lemma {:induction false} OwnedConcat(a: seq<Mark>, b: seq<Mark>)
    ensures Owned(a + b) == Owned(a) + Owned(b)
    decreases |a|
  {
    if a == [] {
      assert a + b == b;
    } else {
      TailConcat(a, b);
      OwnedConcat(a[1..], b);
      Regroup(if a[0].own then [a[0].range] else [], Owned(a[1..]), Owned(b));
    }
  }

  lemma {:induction false} ScanItem(item: Item, tail: seq<Token>, flag: bool, own: bool)
    ensures var t := ItemMarks(item, flag, own);
            Scan(ItemTokens(item) + tail, flag) == First(Flagged(t.marks), Scan(tail, t.flag))
    decreases item, 0
  {
    var ts := ItemTokens(item) + tail;
    match item
    case Gap => assert ts[1..] == tail;
    case Prop(name, data) =>
      assert ts[1..] == tail;
      assert Flagged([]) == [];
    case Sub(name, items) =>
      assert ts[0] == Begin(name) && ts[1..] == TokensOf(items) + ([EndNode] + tail);
      ScanItems(items, [EndNode] + tail, flag || IsMemory(name), IsMemory(name));
      assert ([EndNode] + tail)[1..] == tail;
  }

  /** On the tokens of any forest the scan gives the first range whose mark is flagged. */
  lemma {:induction false} ScanItems(items: seq<Item>, tail: seq<Token>, flag: bool, own: bool)
    ensures var t := Marks(items, flag, own);
            Scan(TokensOf(items) + tail, flag) == First(Flagged(t.marks), Scan(tail, t.flag))
    decreases items, 1
  {
    if items == [] {
      assert TokensOf(items) + tail == tail;
    } else {
      var rest := TokensOf(items[1..]) + tail;
      var a := ItemMarks(items[0], flag, own);
      assert TokensOf(items) + tail == ItemTokens(items[0]) + rest;
      ScanItem(items[0], rest, flag, own);
      ScanItems(items[1..], tail, a.flag, own);
      FlaggedConcat(a.marks, Marks(items[1..], a.flag, own).marks);
    }
  }

  lemma {:induction false} ItemRegsOwned(item: Item, flag: bool, own: bool)
    ensures ItemRegs(item, own) == Owned(ItemMarks(item, flag, own).marks)
    decreases item, 0
  {
    match item
    case Gap =>
    case Prop(_, _) => assert Owned([]) == [];
    case Sub(name, items) => RegsOwned(items, flag || IsMemory(name), IsMemory(name));
  }

  /** The ranges that memory nodes have of their own are those whose marks say so, whatever the flag. */
  lemma {:induction false} RegsOwned(items: seq<Item>, flag: bool, own: bool)
    ensures Regs(items, own) == Owned(Marks(items, flag, own).marks)
    decreases items, 1
  {
    if items != [] {
      var a := ItemMarks(items[0], flag, own);
      ItemRegsOwned(items[0], flag, own);
      RegsOwned(items[1..], a.flag, own);
      OwnedConcat(a.marks, Marks(items[1..], a.flag, own).marks);
    }
  }

  // ------------------------------------------------------- when the two agree

  function FirstFlag(ms: seq<Mark>): (i: nat)
    ensures i <= |ms| && (i < |ms| ==> ms[i].flag) && forall j :: 0 <= j < i ==> !ms[j].flag
  {
    if ms == [] || ms[0].flag then 0 else 1 + FirstFlag(ms[1..])
  }

  function FirstOwn(ms: seq<Mark>): (i: nat)
    ensures i <= |ms| && (i < |ms| ==> ms[i].own) && forall j :: 0 <= j < i ==> !ms[j].own
  {
    if ms == [] || ms[0].own then 0 else 1 + FirstOwn(ms[1..])
  }

  /** Before every `reg` on which the flag and the name of the node disagree there is one on which both say memory. */
  ghost predicate Settled(ms: seq<Mark>) {
    forall i :: 0 <= i < |ms| && ms[i].flag != ms[i].own ==> exists j :: 0 <= j < i && ms[j].flag && ms[j].own
  }

  /** The walk stops at the right property exactly when the disagreements come too late to matter. */
  lemma {:induction false} SamePlace(ms: seq<Mark>)
    ensures FirstFlag(ms) == FirstOwn(ms) <==> Settled(ms)
  {
    var f, o := FirstFlag(ms), FirstOwn(ms);
    if f == o {
      forall i | 0 <= i < |ms| && ms[i].flag != ms[i].own ensures exists j :: 0 <= j < i && ms[j].flag && ms[j].own {
        assert f < i && ms[f].flag && ms[f].own;
      }
    } else {
      var i := if f < o then f else o;
      assert ms[i].flag != ms[i].own;
      assert forall j :: 0 <= j < i ==> !ms[j].flag;
    }
  }

  lemma {:induction false} FirstFlagged(ms: seq<Mark>)
    ensures First(Flagged(ms), None) == if FirstFlag(ms) < |ms| then Some(ms[FirstFlag(ms)].range) else None
  {
    if ms != [] && !ms[0].flag { FirstFlagged(ms[1..]); }
  }

  lemma {:induction false} FirstOwned(ms: seq<Mark>)
    ensures First(Owned(ms), None) == if FirstOwn(ms) < |ms| then Some(ms[FirstOwn(ms)].range) else None
  {
    if ms != [] && !ms[0].own { FirstOwned(ms[1..]); }
  }

  /** Two different properties that hold the same range hide the mistake. */
  predicate SameRange(ms: seq<Mark>) {
    FirstFlag(ms) < |ms| && FirstOwn(ms) < |ms| && ms[FirstFlag(ms)].range == ms[FirstOwn(ms)].range
  }

  /**
    For every tree: the walk gives the first range, in pre-order, that a memory node has of its own, if and only if
    every earlier disagreement of flag and name is settled, or the range taken by mistake is the same.
   */
  lemma {:induction false} WalkRight(items: seq<Item>)
    ensures var ms := Marks(items, false, false).marks;
            && Scan(TokensOf(items) + [End], false) == First(Flagged(ms), None)
            && (Scan(TokensOf(items) + [End], false) == First(Regs(items, false), None) <==> Settled(ms) || SameRange(ms))
  {
    var ms := Marks(items, false, false).marks;
    ScanItems(items, [End], false, false);
    RegsOwned(items, false, false);
    FirstFlagged(ms);
    FirstOwned(ms);
    SamePlace(ms);
  }

  /** No node lies in a memory node. */
  predicate Childless(items: seq<Item>, inMemory: bool) {
    forall i :: 0 <= i < |items| ==> items[i].Sub? ==> !inMemory && Childless(items[i].items, IsMemory(items[i].name))
  }

  ghost predicate Agreeing(ms: seq<Mark>) {
    forall i :: 0 <= i < |ms| ==> ms[i].flag == ms[i].own
  }

  /** If no node lies in a memory node, flag and name never disagree. */
  lemma {:induction false} ChildlessAgrees(items: seq<Item>, inMemory: bool)
    requires Childless(items, inMemory)
    ensures var t := Marks(items, inMemory, inMemory);
            Agreeing(t.marks) && t.flag == inMemory
  {
    if items != [] {
      var item := items[0];
      if item.Sub? { ChildlessAgrees(item.items, IsMemory(item.name)); }
      var a := ItemMarks(item, inMemory, inMemory);
      assert Agreeing(a.marks) && a.flag == inMemory;
      ChildlessAgrees(items[1..], inMemory);
    }
  }

  lemma {:induction false} Single(item: Item, flag: bool, own: bool)
    ensures TokensOf([item]) == ItemTokens(item)
    ensures Marks([item], flag, own).marks == ItemMarks(item, flag, own).marks
    ensures Marks([item], flag, own).flag == ItemMarks(item, flag, own).flag
  {
    assert [item][1..] == [];
    assert Marks([], ItemMarks(item, flag, own).flag, own) == Trace([], ItemMarks(item, flag, own).flag);
  }

  /** A node inside a memory node is taken for one: its `reg` is returned although no memory node has one. */
  lemma {:induction false} NestedNodeTaken(memory: Bytes, child: Bytes, data: Bytes)
    requires IsMemory(memory) && !IsMemory(child) && |data| >= 16
    ensures var items := [Sub(memory, [Sub(child, [Prop(REG, data)])])];
            && Regs(items, false) == []
            && Scan(TokensOf(items) + [End], false) == Some((Big64(data, 0), Big64(data, 8)))
  {
    var prop := Prop(REG, data);
    var node := Sub(child, [prop]);
    var top := Sub(memory, [node]);
    Single(prop, true, false);
    Single(node, true, true);
    Single(top, false, false);
    var ms := Marks([top], false, false).marks;
    assert ms == [Mark((Big64(data, 0), Big64(data, 8)), true, false)];
    assert ms[1..] == [];
    WalkRight([top]);
    RegsOwned([top], false, false);
  }

  /** A `reg` behind a node inside its memory node is lost: the end of that node has cleared the flag. */
  lemma {:induction false} RegBehindNodeLost(memory: Bytes, child: Bytes, data: Bytes)
    requires IsMemory(memory) && |data| >= 16
    ensures var items := [Sub(memory, [Sub(child, []), Prop(REG, data)])];
            && Regs(items, false) == [(Big64(data, 0), Big64(data, 8))]
            && Scan(TokensOf(items) + [End], false) == None
  {
    var prop, node := Prop(REG, data), Sub(child, []);
    var inner := [node, prop];
    var top := Sub(memory, inner);
    assert inner[1..] == [prop];
    Single(prop, false, true);
    Single(top, false, false);
    var ms := Marks([top], false, false).marks;
    assert Marks([], true, IsMemory(child)) == Trace([], true);
    assert ItemMarks(node, true, true) == Trace([], false);
    assert Marks(inner, true, true).marks == [] + Marks([prop], false, true).marks;
    assert ms == [Mark((Big64(data, 0), Big64(data, 8)), false, true)];
    assert ms[1..] == [];
    WalkRight([top]);
    RegsOwned([top], false, false);
  }

  // ------------------------------------------------------- the answer, octet by octet

  /** "memory", and "reg" with room for two numbers. */
  predicate NamedMemory(name: Bytes) {
    && |name| >= 6 && name[0] == 109 && name[1] == 101 && name[2] == 109 && name[3] == 111 && name[4] == 114
    && name[5] == 121
  }

  predicate LongReg(item: Item) { item.Prop? && item.name == [114, 101, 103] && |item.data| >= 16 }

  /** Nothing but properties, none of them the one looked for. */
  predicate NoReg(items: seq<Item>) {
    forall i :: 0 <= i < |items| ==> !items[i].Sub? && !LongReg(items[i])
  }

  /** If it is a memory node, there is nothing else in it; if it is another node, the same holds of all in it. */
  predicate QuietItem(item: Item) {
    item.Sub? ==> if NamedMemory(item.name) then NoReg(item.items) else Quiet(item.items)
  }

  predicate Quiet(items: seq<Item>) {
    forall i :: 0 <= i < |items| ==> QuietItem(items[i])
  }

  /** `data` is the first such property in a node, and no node comes before it. */
  predicate FirstReg(items: seq<Item>, data: Bytes) {
    |items| > 0 && !items[0].Sub? && if LongReg(items[0]) then items[0].data == data else FirstReg(items[1..], data)
  }

  /** `data` is that of the first memory node which has one, in pre-order. */
  predicate FirstMemory(items: seq<Item>, data: Bytes) {
    && |items| > 0
    && if QuietItem(items[0]) then FirstMemory(items[1..], data)
       else if NamedMemory(items[0].name) then FirstReg(items[0].items, data)
       else FirstMemory(items[0].items, data)
  }

  lemma {:induction false} NameOctets(name: Bytes)
    ensures NamedMemory(name) <==> IsMemory(name)
  {
    if |name| >= 6 {
      assert name[..6] == [name[0], name[1], name[2], name[3], name[4], name[5]];
    }
  }

  lemma {:induction false} MarksStep(items: seq<Item>, flag: bool, own: bool)
    requires |items| > 0
    ensures var a, t := ItemMarks(items[0], flag, own), Marks(items, flag, own);
            && Flagged(t.marks) == Flagged(a.marks) + Flagged(Marks(items[1..], a.flag, own).marks)
            && t.flag == Marks(items[1..], a.flag, own).flag
  {
    var a := ItemMarks(items[0], flag, own);
    FlaggedConcat(a.marks, Marks(items[1..], a.flag, own).marks);
  }

  /** The walk takes nothing from these items, and its flag is the same behind them. */
  ghost predicate Passes(items: seq<Item>, flag: bool, own: bool) {
    var t := Marks(items, flag, own);
    Flagged(t.marks) == [] && t.flag == flag
  }

  ghost predicate PassesItem(item: Item, flag: bool, own: bool) {
    var t := ItemMarks(item, flag, own);
    Flagged(t.marks) == [] && t.flag == flag
  }

  lemma {:induction false} PassesStep(items: seq<Item>, flag: bool, own: bool)
    requires |items| > 0 && PassesItem(items[0], flag, own)
    ensures Flagged(Marks(items, flag, own).marks) == Flagged(Marks(items[1..], flag, own).marks)
    ensures Passes(items[1..], flag, own) ==> Passes(items, flag, own)
  {
    MarksStep(items, flag, own);
  }

  lemma {:induction false} ShortPasses(item: Item, flag: bool, own: bool)
    requires !item.Sub? && (flag ==> !LongReg(item))
    ensures PassesItem(item, flag, own)
  {
    var t := ItemMarks(item, flag, own);
    assert t.marks == [] || (!flag && t.marks == [Mark(t.marks[0].range, false, own)] && t.marks[1..] == []);
  }

  lemma {:induction false} NoRegPasses(items: seq<Item>, flag: bool, own: bool)
    requires NoReg(items)
    ensures Passes(items, flag, own)
  {
    if |items| > 0 {
      ShortPasses(items[0], flag, own);
      NoRegPasses(items[1..], flag, own);
      PassesStep(items, flag, own);
    }
  }

  lemma {:induction false} QuietItemPasses(item: Item, own: bool)
    requires QuietItem(item)
    ensures PassesItem(item, false, own)
    decreases item, 0
  {
    if item.Sub? {
      NameOctets(item.name);
      if NamedMemory(item.name) {
        NoRegPasses(item.items, true, true);
      } else {
        QuietPasses(item.items, false);
      }
    } else {
      ShortPasses(item, false, own);
    }
  }

  lemma {:induction false} QuietPasses(items: seq<Item>, own: bool)
    requires Quiet(items)
    ensures Passes(items, false, own)
    decreases items, 1
  {
    if |items| > 0 {
      QuietItemPasses(items[0], own);
      QuietPasses(items[1..], own);
      PassesStep(items, false, own);
    }
  }

  /** The first range the walk takes is that in `data`. */
  ghost predicate Takes(ms: seq<Mark>, data: Bytes) {
    |data| >= 16 && First(Flagged(ms), None) == Some((Big64(data, 0), Big64(data, 8)))
  }

  lemma {:induction false} TakesFirst(items: seq<Item>, flag: bool, own: bool, data: Bytes)
    requires |items| > 0 && Takes(ItemMarks(items[0], flag, own).marks, data)
    ensures Takes(Marks(items, flag, own).marks, data)
  {
    MarksStep(items, flag, own);
  }

  lemma {:induction false} FirstRegTaken(items: seq<Item>, own: bool, data: Bytes)
    requires FirstReg(items, data)
    ensures Takes(Marks(items, true, own).marks, data)
  {
    if LongReg(items[0]) {
      var m := Mark((Big64(data, 0), Big64(data, 8)), true, own);
      assert ItemMarks(items[0], true, own).marks == [m];
      assert Flagged([m]) == [m.range] + Flagged([]);
      TakesFirst(items, true, own, data);
    } else {
      ShortPasses(items[0], true, own);
      FirstRegTaken(items[1..], own, data);
      PassesStep(items, true, own);
    }
  }

  lemma {:induction false} FirstMemoryTaken(items: seq<Item>, own: bool, data: Bytes)
    requires FirstMemory(items, data)
    ensures Takes(Marks(items, false, own).marks, data)
    decreases items
  {
    if QuietItem(items[0]) {
      QuietItemPasses(items[0], own);
      FirstMemoryTaken(items[1..], own, data);
      PassesStep(items, false, own);
    } else {
      NameOctets(items[0].name);
      if NamedMemory(items[0].name) {
        FirstRegTaken(items[0].items, true, data);
      } else {
        FirstMemoryTaken(items[0].items, false, data);
      }
      TakesFirst(items, false, own, data);
    }
  }

  /** The answer for a tree without a memory range, and for one with. */
  lemma {:induction false} MemoryAnswer(items: seq<Item>)
    ensures var r := First(Flagged(Marks(items, false, false).marks), None);
            && (Quiet(items) ==> r == None)
            && forall data :: FirstMemory(items, data) ==> |data| >= 16 && r == Some((Big64(data, 0), Big64(data, 8)))
  {
    if Quiet(items) { QuietPasses(items, false); }
    forall data | FirstMemory(items, data) ensures Takes(Marks(items, false, false).marks, data) {
      FirstMemoryTaken(items, false, data);
    }
  }

  /** Whatever stands behind "memory" in its name, a node with the property alone is found behind quiet items. */
  lemma {:induction false} MemoryNodeFound(before: seq<Item>, suffix: Bytes, behind: seq<Item>, data: Bytes)
    requires Quiet(before) && |data| >= 16
    ensures var node := Sub([109, 101, 109, 111, 114, 121] + suffix, [Prop([114, 101, 103], data)]);
            FirstMemory(before + [node] + behind, data)
    decreases |before|
  {
    var node := Sub([109, 101, 109, 111, 114, 121] + suffix, [Prop([114, 101, 103], data)]);
    var items := before + [node] + behind;
    if |before| == 0 {
      assert items[0] == node && LongReg(node.items[0]);
    } else {
      MemoryNodeFound(before[1..], suffix, behind, data);
      assert items[0] == before[0] && items[1..] == before[1..] + [node] + behind;
    }
  }

  /**
    extract_memory_info on the tokens of any tree: the first flagged range or -1, and exactly when that is the first
    `reg` of at least 16 bytes, in pre-order, of a node whose name begins "memory".
   */
  method FindMemory(b: Bytes, ghost items: seq<Item>) returns (r: Option<Range>)
    requires |b| >= 16 && Big32(b, 8) % 4 == 0
    requires Laid(b, Big32(b, 12), Big32(b, 8), TokensOf(items) + [End])
    ensures var ms := Marks(items, false, false).marks;
            r == First(Flagged(ms), None) && (r == First(Regs(items, false), None) <==> Settled(ms) || SameRange(ms))
    ensures Childless(items, false) ==> r == First(Regs(items, false), None)
    ensures Quiet(items) ==> r == None
    ensures forall data :: FirstMemory(items, data) ==> |data| >= 16 && r == Some((Big64(data, 0), Big64(data, 8)))
  {
    WalkRight(items);
    MemoryAnswer(items);
    if Childless(items, false) { ChildlessAgrees(items, false); }
    r := ExtractMemoryInfo(b, TokensOf(items) + [End]);
  }
}
