/** Writing a structure block as section 5.4 of the Devicetree Specification says, and walking over it. */
module DeviceTreeBlob {
  import opened Options
  import opened DeviceTree
  import opened DeviceTreeWalk

  /** The octet of a word that stands at place `i` in big-endian order. */
  function OctetAt(w: nat, i: nat): Octet
    requires w < M32 && i < 4
    decreases 4 - i
  {
    if i == 3 then w % M8 else OctetAt(w / M8, i + 1)
  }

  /** A word in big-endian order. */
  function Bytes32(w: nat): (s: Bytes)
    requires w < M32
    ensures |s| == 4
  {
    seq(4, i requires 0 <= i < 4 => OctetAt(w, i))
  }

  lemma {:induction false} Big32Back(w: nat)
    requires w < M32
    ensures Big32(Bytes32(w), 0) == w
  {
    var q1 := w / M8;
    var q2 := q1 / M8;
    var q3 := q2 / M8;
    assert OctetAt(w, 3) == w % M8 && OctetAt(w, 2) == OctetAt(q1, 3) == q1 % M8;
    assert OctetAt(w, 1) == OctetAt(q1, 2) == OctetAt(q2, 3) == q2 % M8;
    assert OctetAt(w, 0) == OctetAt(q1, 1) == OctetAt(q2, 2) == OctetAt(q3, 3) == q3 % M8;
    assert w == q1 * M8 + w % M8 && q1 == q2 * M8 + q1 % M8 && q2 == q3 * M8 + q2 % M8;
  }

  /** `b` holds `x` at `p`. */
  ghost predicate Holds(b: Bytes, p: nat, x: Bytes) {
    p + |x| <= |b| && b[p..p + |x|] == x
  }

  lemma {:induction false} HoldsParts(b: Bytes, p: nat, x: Bytes, y: Bytes)
    requires Holds(b, p, x + y)
    ensures Holds(b, p, x) && Holds(b, p + |x|, y)
  {
    var s := b[p..p + |x + y|];
    assert s[..|x|] == x && s[|x|..] == y;
    assert b[p..p + |x|] == s[..|x|] && b[p + |x|..p + |x| + |y|] == s[|x|..];
  }

  /** A word written at `p` is read there. */
  lemma {:induction false} WordRead(b: Bytes, p: nat, w: nat)
    requires w < M32 && Holds(b, p, Bytes32(w))
    ensures Big32(b, p) == w
  {
    HoldsFour(b, p, Bytes32(w));
    Big32Back(w);
  }

  lemma {:induction false} HoldsFour(b: Bytes, p: nat, c: Bytes)
    requires |c| == 4 && Holds(b, p, c)
    ensures Big32(b, p) == Big32(c, 0)
  {
    var s := b[p..p + 4];
    assert s[0] == b[p] && s[1] == b[p + 1] && s[2] == b[p + 2] && s[3] == b[p + 3];
  }

  function Zeros(n: nat): (s: Bytes)
    ensures |s| == n
  {
    seq(n, _ => NUL)
  }

  /** Where the name of a property is in the strings block. */
  type Offsets = Bytes -> nat

  function CodeOf(t: Token): (w: nat)
    ensures w < M32
  {
    match t
    case Begin(_) => BEGIN_NODE
    case EndNode => END_NODE
    case Property(_, _) => PROP
    case Nop => NOP
    case _ => END
  }

  /** A token that says what is there: a name without NUL, and the name of a property where its offset says. */
  ghost predicate Writable(b: Bytes, strings: nat, t: Token, offsets: Offsets) {
    match t
    case Begin(name) => NUL !in name
    case Property(name, data) => TextAt(b, strings + offsets(name), name)
    case Unknown => false
    case _ => true
  }

  /** Length and offset are 32 bits wide. */
  predicate Fits(t: Token, offsets: Offsets) {
    t.Property? ==> |t.data| < M32 && offsets(t.name) < M32
  }

  predicate AllFit(ts: seq<Token>, offsets: Offsets) {
    forall i :: 0 <= i < |ts| ==> Fits(ts[i], offsets)
  }

  ghost predicate AllWritable(b: Bytes, strings: nat, ts: seq<Token>, offsets: Offsets) {
    forall i :: 0 <= i < |ts| ==> Writable(b, strings, ts[i], offsets)
  }

  /** What follows the token word. */
  function Rest(t: Token, offsets: Offsets): (s: Bytes)
    requires Fits(t, offsets)
    ensures |s| == Span(t) - 4
  {
    match t
    case Begin(name) => name + Zeros(Aligned(|name| + 1) - |name|)
    case Property(name, data) => Bytes32(|data|) + (Bytes32(offsets(name)) + (data + Zeros(Aligned(|data|) - |data|)))
    case _ => []
  }

  function Encoded(ts: seq<Token>, offsets: Offsets): Bytes
    requires AllFit(ts, offsets)
  {
    if |ts| == 0 then [] else Bytes32(CodeOf(ts[0])) + (Rest(ts[0], offsets) + Encoded(ts[1..], offsets))
  }

  lemma {:induction false} NameWritten(b: Bytes, p: nat, name: Bytes, n: nat)
    requires n > 0 && Holds(b, p, name + Zeros(n)) && NUL !in name
    ensures TextAt(b, p, name)
  {
    HoldsParts(b, p, name, Zeros(n));
    forall i | 0 <= i < |name| ensures name[i] != NUL && b[p + i] == name[i] { assert name[i] in name && b[p..p + |name|][i] == name[i]; }
    assert b[p + |name|..p + |name| + n][0] == Zeros(n)[0];
  }

  lemma {:induction false} TwoParts(b: Bytes, p: nat, q: nat, r: nat, x: Bytes, y: Bytes, z: Bytes)
    requires Holds(b, p, x + (y + z)) && q == p + |x| && r == q + |y|
    ensures Holds(b, p, x) && Holds(b, q, y) && Holds(b, r, z)
  {
    HoldsParts(b, p, x, y + z);
    HoldsParts(b, q, y, z);
  }

  lemma {:induction false} PropertyWritten(b: Bytes, strings: nat, p: nat, name: Bytes, data: Bytes,
                                           len: nat, off: nat, pad: Bytes)
    requires len < M32 && off < M32
    requires Holds(b, p, Bytes32(len) + (Bytes32(off) + (data + pad)))
    requires len == |data| && TextAt(b, strings + off, name)
    ensures PropertyAt(b, strings, p, name, data)
  {
    TwoParts(b, p, p + 4, p + 8, Bytes32(len), Bytes32(off), data + pad);
    HoldsParts(b, p + 8, data, pad);
    WordRead(b, p, len);
    WordRead(b, p + 4, off);
  }

  lemma {:induction false} BeginWritten(b: Bytes, strings: nat, p: nat, name: Bytes)
    requires NUL !in name && Holds(b, p, Bytes32(BEGIN_NODE))
    requires Holds(b, p + 4, name + Zeros(Aligned(|name| + 1) - |name|))
    ensures TokenAt(b, strings, p, Begin(name))
  {
    WordRead(b, p, BEGIN_NODE);
    NameWritten(b, p + 4, name, Aligned(|name| + 1) - |name|);
  }

  lemma {:induction false} PropertyTokenWritten(b: Bytes, strings: nat, p: nat, name: Bytes, data: Bytes, len: nat, off: nat)
    requires len < M32 && off < M32
    requires len == |data| && TextAt(b, strings + off, name) && Holds(b, p, Bytes32(PROP))
    requires Holds(b, p + 4, Bytes32(len) + (Bytes32(off) + (data + Zeros(Aligned(|data|) - |data|))))
    ensures TokenAt(b, strings, p, Property(name, data))
  {
    WordRead(b, p, PROP);
    PropertyWritten(b, strings, p + 4, name, data, len, off, Zeros(Aligned(|data|) - |data|));
  }

  lemma {:induction false} TokenWritten(b: Bytes, strings: nat, p: nat, t: Token, offsets: Offsets)
    requires Writable(b, strings, t, offsets) && Fits(t, offsets)
    requires Holds(b, p, Bytes32(CodeOf(t))) && Holds(b, p + 4, Rest(t, offsets))
    ensures TokenAt(b, strings, p, t)
  {
    match t
    case Begin(name) => BeginWritten(b, strings, p, name);
    case Property(name, data) => PropertyTokenWritten(b, strings, p, name, data, |data|, offsets(name));
    case _ => WordRead(b, p, CodeOf(t));
  }

  lemma {:induction false} TailWritable(b: Bytes, strings: nat, ts: seq<Token>, offsets: Offsets)
    requires |ts| > 0 && AllFit(ts, offsets) && AllWritable(b, strings, ts, offsets)
    ensures Fits(ts[0], offsets) && Writable(b, strings, ts[0], offsets)
    ensures AllFit(ts[1..], offsets) && AllWritable(b, strings, ts[1..], offsets)
  {
    var rest := ts[1..];
    forall i | 0 <= i < |rest| ensures Fits(rest[i], offsets) && Writable(b, strings, rest[i], offsets) {
      assert rest[i] == ts[i + 1];
    }
  }

  /** Three stretches, one behind the other. */
  ghost predicate HoldsThree(b: Bytes, p: nat, x: Bytes, y: Bytes, z: Bytes) {
    Holds(b, p, x) && Holds(b, p + |x|, y) && Holds(b, p + |x| + |y|, z)
  }

  lemma {:induction false} ThreeHeld(b: Bytes, p: nat, x: Bytes, y: Bytes, z: Bytes)
    requires Holds(b, p, x + (y + z))
    ensures HoldsThree(b, p, x, y, z)
  {
    HoldsParts(b, p, x, y + z);
    HoldsParts(b, p + |x|, y, z);
  }

  /** The first token and, behind it, the others. */
  lemma {:induction false} FirstEncoded(b: Bytes, p: nat, ts: seq<Token>, offsets: Offsets) returns (x: Bytes, y: Bytes, z: Bytes)
    requires |ts| > 0 && AllFit(ts, offsets) && AllFit(ts[1..], offsets) && Holds(b, p, Encoded(ts, offsets))
    ensures x == Bytes32(CodeOf(ts[0])) && y == Rest(ts[0], offsets) && z == Encoded(ts[1..], offsets)
    ensures HoldsThree(b, p, x, y, z)
  {
    x, y, z := Bytes32(CodeOf(ts[0])), Rest(ts[0], offsets), Encoded(ts[1..], offsets);
    ThreeHeld(b, p, x, y, z);
  }

  lemma {:induction false} RestHeld(b: Bytes, p: nat, ts: seq<Token>, offsets: Offsets)
    requires |ts| > 0 && AllFit(ts, offsets) && AllFit(ts[1..], offsets) && Holds(b, p, Encoded(ts, offsets))
    ensures Holds(b, p + Span(ts[0]), Encoded(ts[1..], offsets))
  {
    var x, y, z := FirstEncoded(b, p, ts, offsets);
    assert p + |x| + |y| == p + Span(ts[0]);
  }

  /** Names and widths are in order, and the structure block of `ts` is at `p`. */
  ghost predicate Written(b: Bytes, strings: nat, p: nat, ts: seq<Token>, offsets: Offsets) {
    AllFit(ts, offsets) && AllWritable(b, strings, ts, offsets) && Holds(b, p, Encoded(ts, offsets))
  }

  lemma {:induction false} FirstWritten(b: Bytes, strings: nat, p: nat, ts: seq<Token>, offsets: Offsets)
    requires |ts| > 0 && Written(b, strings, p, ts, offsets)
    ensures TokenAt(b, strings, p, ts[0])
  {
    TailWritable(b, strings, ts, offsets);
    var x, y, z := FirstEncoded(b, p, ts, offsets);
    TokenWritten(b, strings, p, ts[0], offsets);
  }

  type Inv = (nat, seq<Token>) -> bool

  /** Whatever `inv` says, if it gives the first token and goes on to hold of the others, all are there. */
  lemma {:induction false} LaidWhile(b: Bytes, strings: nat, p: nat, ts: seq<Token>, inv: Inv)
    requires forall q: nat, us :: inv(q, us) && |us| > 0 ==> TokenAt(b, strings, q, us[0])
    requires forall q: nat, us :: inv(q, us) && |us| > 0 ==> inv(q + Span(us[0]), us[1..])
    requires inv(p, ts)
    ensures Laid(b, strings, p, ts)
    decreases |ts|
  {
    if |ts| > 0 { LaidWhile(b, strings, p + Span(ts[0]), ts[1..], inv); }
  }

  ghost function WrittenInv(b: Bytes, strings: nat, offsets: Offsets): Inv {
    (q: nat, us: seq<Token>) => Written(b, strings, q, us, offsets)
  }

  lemma {:induction false} InvFirst(b: Bytes, strings: nat, offsets: Offsets, q: nat, us: seq<Token>)
    requires WrittenInv(b, strings, offsets)(q, us) && |us| > 0
    ensures TokenAt(b, strings, q, us[0])
  {
    FirstWritten(b, strings, q, us, offsets);
  }

  lemma {:induction false} InvRest(b: Bytes, strings: nat, offsets: Offsets, q: nat, us: seq<Token>)
    requires WrittenInv(b, strings, offsets)(q, us) && |us| > 0
    ensures WrittenInv(b, strings, offsets)(q + Span(us[0]), us[1..])
  {
    TailWritable(b, strings, us, offsets);
    RestHeld(b, q, us, offsets);
  }

  /** What was written token by token is laid out token by token. */
  lemma {:induction false} EncodedLaid(b: Bytes, strings: nat, p: nat, ts: seq<Token>, offsets: Offsets)
    requires Written(b, strings, p, ts, offsets)
    ensures Laid(b, strings, p, ts)
  {
    var inv := WrittenInv(b, strings, offsets);
    forall q: nat, us: seq<Token> | inv(q, us) && |us| > 0
      ensures TokenAt(b, strings, q, us[0]) && inv(q + Span(us[0]), us[1..])
    {
      InvFirst(b, strings, offsets, q, us);
      InvRest(b, strings, offsets, q, us);
    }
    LaidWhile(b, strings, p, ts, inv);
  }

  /** The walk over the structure block written for any tree. */
  method WalkEncoded(b: Bytes, ghost items: seq<Item>, ghost offsets: Offsets) returns (r: Option<Range>)
    requires |b| >= 16 && Big32(b, 8) % 4 == 0
    requires Written(b, Big32(b, 12), Big32(b, 8), TokensOf(items) + [End], offsets)
    ensures var ms := Marks(items, false, false).marks;
            r == First(Flagged(ms), None) && (r == First(Regs(items, false), None) <==> Settled(ms) || SameRange(ms))
    ensures Childless(items, false) ==> r == First(Regs(items, false), None)
    ensures Quiet(items) ==> r == None
    ensures forall data :: FirstMemory(items, data) ==> |data| >= 16 && r == Some((Big64(data, 0), Big64(data, 8)))
  {
    EncodedLaid(b, Big32(b, 12), Big32(b, 8), TokensOf(items) + [End], offsets);
    r := FindMemory(b, items);
  }
}
