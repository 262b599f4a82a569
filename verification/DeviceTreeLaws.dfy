/** The octets of a flattened device tree, section 5.4 of the Devicetree Specification, written out. */
module DeviceTreeLaws {
  import opened DeviceTree
  import opened DeviceTreeWalk

  /** Four octets, the first weighing most. */
  function Weighed(b0: nat, b1: nat, b2: nat, b3: nat): nat {
    0x100_0000 * b0 + 0x1_0000 * b1 + 0x100 * b2 + b3
  }

  function Word(b: Bytes, p: nat): nat
    requires p + 4 <= |b|
  {
    Weighed(b[p], b[p + 1], b[p + 2], b[p + 3])
  }

  lemma {:induction false} WordIs(b: Bytes, p: nat)
    requires p + 4 <= |b|
    ensures Word(b, p) == Big32(b, p)
  {
  }

  ghost predicate NameAt(b: Bytes, p: nat, name: Bytes) {
    && p + |name| < |b| && b[p + |name|] == 0 && forall i :: 0 <= i < |name| ==> b[p + i] == name[i] && name[i] != 0
  }

  lemma {:induction false} NameIs(b: Bytes, p: nat, name: Bytes)
    ensures TextAt(b, p, name) <==> NameAt(b, p, name)
  {
  }

  ghost predicate PropertyOctets(b: Bytes, strings: nat, p: nat, name: Bytes, data: Bytes) {
    && p + 8 + |data| <= |b| && Word(b, p) == |data| && NameAt(b, strings + Word(b, p + 4), name)
    && b[p + 8..p + 8 + |data|] == data
  }

  lemma {:induction false} PropertyIs(b: Bytes, strings: nat, p: nat, name: Bytes, data: Bytes)
    ensures PropertyAt(b, strings, p, name, data) <==> PropertyOctets(b, strings, p, name, data)
  {
    if p + 8 + |data| <= |b| {
      WordIs(b, p);
      WordIs(b, p + 4);
      NameIs(b, strings + Word(b, p + 4), name);
    }
  }

  /** The words that open each token, and what stands behind them. */
  lemma {:induction false} TokenOctets(b: Bytes, strings: nat, p: nat, t: Token)
    requires p + Span(t) <= |b|
    ensures TokenAt(b, strings, p, t) <==>
      match t
      case Begin(name) => Word(b, p) == 1 && NameAt(b, p + 4, name)
      case EndNode => Word(b, p) == 2
      case Property(name, data) => Word(b, p) == 3 && PropertyOctets(b, strings, p + 4, name, data)
      case Nop => Word(b, p) == 4
      case End => Word(b, p) == 9
      case Unknown => Word(b, p) != 1 && Word(b, p) != 2 && Word(b, p) != 3 && Word(b, p) != 4 && Word(b, p) != 9
  {
    WordIs(b, p);
    match t
    case Begin(name) => NameIs(b, p + 4, name);
    case Property(name, data) => PropertyIs(b, strings, p + 4, name, data);
    case _ =>
  }

  /** A number in a `reg`: eight octets, the first weighing most. */
  lemma {:induction false} NumberOctets(d: Bytes, k: nat)
    requires k + 8 <= |d|
    ensures Big64(d, k) == 0x1_0000_0000 * Word(d, k) + Word(d, k + 4)
  {
    WordIs(d, k);
    WordIs(d, k + 4);
  }

  /** A word that is no token ends the walk as FDT_END does. */
  lemma {:induction false} UnknownEnds(ts: seq<Token>, flag: bool)
    ensures Scan(ts + [Unknown], flag) == Scan(ts + [End], flag)
    decreases |ts|
  {
    if |ts| > 0 {
      assert (ts + [Unknown])[1..] == ts[1..] + [Unknown] && (ts + [End])[1..] == ts[1..] + [End];
      if After(ts[0], flag).Go? { UnknownEnds(ts[1..], After(ts[0], flag).inMemory); }
    }
  }
}
