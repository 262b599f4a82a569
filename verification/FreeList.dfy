/**
  The free list of the page allocators as a value: a sequence of blocks in address order.
  It is the specification that the linked list of lab2/kern/mm/best_fit_pmm.c and default_pmm.c is proved against.
 */
module FreeList {

  datatype Block = Block(start: nat, size: nat) {
    function End(): nat { start + size }
  }

  predicate Within(p: nat, base: nat, n: nat) {
    base <= p < base + n
  }

  /** `n` pages from page `base` on. */
  function Range(base: nat, n: nat): set<nat> {
    set p: nat | p < base + n && Within(p, base, n)
  }

  ghost function PagesOf(b: Block): set<nat> {
    Range(b.start, b.size)
  }

  /** Block `i + 1` starts at least `gap` pages behind block `i`. */
  ghost predicate Spaced(fl: seq<Block>, i: nat, gap: nat) {
    i + 1 < |fl| && fl[i].End() + gap <= fl[i + 1].start
  }

  /** Nonempty blocks in address order, with at least `gap` pages between neighbours. */
  ghost predicate Chain(fl: seq<Block>, gap: nat) {
    && (forall i :: 0 <= i < |fl| ==> fl[i].size > 0)
    && (forall i :: 0 <= i < |fl| - 1 ==> Spaced(fl, i, gap))
  }

  /** Blocks are in address order and do not overlap. */
  ghost predicate Sorted(fl: seq<Block>) {
    Chain(fl, 0)
  }

  /** Moreover no two neighbours touch: nothing is left to merge. */
  ghost predicate Canonical(fl: seq<Block>) {
    Chain(fl, 1)
  }

  lemma {:induction false} ChainSorted(fl: seq<Block>, gap: nat)
    requires Chain(fl, gap)
    ensures Sorted(fl)
  {
    forall i | 0 <= i < |fl| - 1 ensures Spaced(fl, i, 0) { assert Spaced(fl, i, gap); }
  }

  ghost function Pages(fl: seq<Block>): set<nat> {
    if fl == [] then {} else PagesOf(fl[0]) + Pages(fl[1..])
  }

  function Total(fl: seq<Block>): nat {
    if fl == [] then 0 else fl[0].size + Total(fl[1..])
  }

  // ------------------------------------------------------- lists put together

  /** The last block of `f` keeps `gap` pages from the first block of `g`. */
  ghost predicate Clear(f: seq<Block>, g: seq<Block>, gap: nat) {
    |f| > 0 && |g| > 0 ==> f[|f| - 1].End() + gap <= g[0].start
  }

  lemma {:induction false} ChainConcat(f: seq<Block>, g: seq<Block>, gap: nat)
    ensures Chain(f + g, gap) <==> Chain(f, gap) && Chain(g, gap) && Clear(f, g, gap)
  {
    var t := f + g;
    if Chain(t, gap) {
      assert forall i :: 0 <= i < |f| ==> f[i] == t[i];
      forall i | 0 <= i < |g| ensures g[i].size > 0 { assert t[|f| + i].size > 0; }
      forall i | 0 <= i < |f| - 1 ensures Spaced(f, i, gap) { assert Spaced(t, i, gap); }
      forall i | 0 <= i < |g| - 1 ensures Spaced(g, i, gap) { assert Spaced(t, |f| + i, gap); }
      if f != [] && g != [] { assert Spaced(t, |f| - 1, gap); }
    }
    if Chain(f, gap) && Chain(g, gap) && Clear(f, g, gap) {
      forall i | 0 <= i < |t| - 1 ensures Spaced(t, i, gap) {
        if i < |f| - 1 { assert Spaced(f, i, gap); }
        if i >= |f| { assert Spaced(g, i - |f|, gap); }
      }
    }
  }

  /** A list cut around one of its blocks. */
  lemma {:induction false} ChainCut(f: seq<Block>, b: Block, g: seq<Block>, gap: nat)
    ensures Chain(f + [b] + g, gap) <==>
              Chain(f, gap) && b.size > 0 && Chain(g, gap) && Clear(f, [b], gap) && Clear([b], g, gap)
  {
    ChainConcat(f + [b], g, gap);
    ChainConcat(f, [b], gap);
    assert Clear(f + [b], g, gap) <==> Clear([b], g, gap) by { assert (f + [b])[|f|] == b; }
  }

  lemma {:induction false} PagesConcat(f: seq<Block>, g: seq<Block>)
    ensures Pages(f + g) == Pages(f) + Pages(g)
    ensures Total(f + g) == Total(f) + Total(g)
  {
    if f == [] {
      assert f + g == g;
    } else {
      assert (f + g)[1..] == f[1..] + g;
      PagesConcat(f[1..], g);
    }
  }

  lemma {:induction false} PagesCut(f: seq<Block>, b: Block, g: seq<Block>)
    ensures Pages(f + [b] + g) == Pages(f) + PagesOf(b) + Pages(g)
    ensures Total(f + [b] + g) == Total(f) + b.size + Total(g)
  {
    PagesConcat(f + [b], g);
    PagesConcat(f, [b]);
    assert [b][1..] == [];
  }

  /** No block is larger than all together. */
  lemma {:induction false} SizesTotal(bs: seq<Block>)
    ensures forall i :: 0 <= i < |bs| ==> bs[i].size <= Total(bs)
  {
    forall i | 0 <= i < |bs| ensures bs[i].size <= Total(bs) {
      assert bs == bs[..i] + [bs[i]] + bs[i + 1..];
      PagesCut(bs[..i], bs[i], bs[i + 1..]);
    }
  }

  lemma {:induction false} PagesAbove(fl: seq<Block>, gap: nat, p: nat)
    requires Chain(fl, gap) && p in Pages(fl)
    ensures fl[0].start <= p
  {
    if p !in PagesOf(fl[0]) {
      ChainTail(fl, gap);
      PagesAbove(fl[1..], gap, p);
    }
  }

  lemma {:induction false} ChainTail(fl: seq<Block>, gap: nat)
    requires Chain(fl, gap) && fl != []
    ensures Chain(fl[1..], gap) && Clear([fl[0]], fl[1..], gap)
  {
    assert fl == [fl[0]] + fl[1..];
    ChainConcat([fl[0]], fl[1..], gap);
  }

  lemma {:induction false} PagesBelow(fl: seq<Block>, p: nat)
    requires Sorted(fl) && p in Pages(fl)
    ensures p < fl[|fl| - 1].End()
  {
    if |fl| > 1 {
      ChainTail(fl, 0);
      if p in PagesOf(fl[0]) {
        assert fl[1].start in PagesOf(fl[1]) && fl[1..][0] == fl[1];
        PagesBelow(fl[1..], fl[1].start);
      } else {
        PagesBelow(fl[1..], p);
      }
    }
  }

  /** The blocks on either side keep clear of the pages of `b`. */
  lemma {:induction false} OthersOutside(f: seq<Block>, b: Block, g: seq<Block>)
    requires Sorted(f + [b] + g)
    ensures PagesOf(b) !! Pages(f) && PagesOf(b) !! Pages(g) && Pages(f) !! Pages(g)
  {
    ChainCut(f, b, g, 0);
    forall p: nat | p in Pages(f) ensures p < b.start { PagesBelow(f, p); }
    forall p: nat | p in Pages(g) ensures p >= b.End() { PagesAbove(g, 0, p); }
  }

  lemma {:induction false} RangeSize(base: nat, n: nat)
    ensures |Range(base, n)| == n
  {
    if n > 0 {
      RangeSize(base, n - 1);
      assert Range(base, n) == Range(base, n - 1) + {base + n - 1};
    }
  }

  /** The cached counter is meant to be this number: the sum of the sizes counts the free pages. */
  lemma {:induction false} TotalCountsPages(fl: seq<Block>)
    requires Sorted(fl)
    ensures |Pages(fl)| == Total(fl)
  {
    if fl != [] {
      ChainTail(fl, 0);
      TotalCountsPages(fl[1..]);
      RangeSize(fl[0].start, fl[0].size);
      assert [] + [fl[0]] + fl[1..] == fl;
      OthersOutside([], fl[0], fl[1..]);
    }
  }

  // ------------------------------------------------------- one list for each free set

  /** In a canonical list the first block starts at the least free page and ends at the first gap. */
  lemma {:induction false} FirstBlock(fl: seq<Block>)
    requires Canonical(fl) && fl != []
    ensures fl[0].start in Pages(fl)
    ensures forall p: nat :: p in Pages(fl) ==> fl[0].start <= p
    ensures fl[0].End() !in Pages(fl)
    ensures Pages(fl[1..]) == Pages(fl) - PagesOf(fl[0])
  {
    ChainTail(fl, 1);
    forall p: nat | p in Pages(fl[1..]) ensures p > fl[0].End() { PagesAbove(fl[1..], 1, p); }
    assert fl[0].start in PagesOf(fl[0]);
  }

  lemma {:induction false} SameFirst(f: seq<Block>, g: seq<Block>)
    requires Canonical(f) && Canonical(g) && Pages(f) == Pages(g) && f != [] && g != []
    ensures f[0] == g[0]
  {
    FirstBlock(f);
    FirstBlock(g);
    var x, y := f[0].End(), g[0].End();
    assert x in PagesOf(g[0]) <==> x < y;
    assert y in PagesOf(f[0]) <==> y < x;
  }

  /** A canonical list is determined by the set of free pages alone. */
  lemma {:induction false} CanonicalUnique(f: seq<Block>, g: seq<Block>)
    requires Canonical(f) && Canonical(g) && Pages(f) == Pages(g)
    ensures f == g
  {
    if f == [] || g == [] {
      if f != [] { FirstBlock(f); }
      if g != [] { FirstBlock(g); }
    } else {
      SameFirst(f, g);
      FirstBlock(f);
      FirstBlock(g);
      ChainTail(f, 1);
      ChainTail(g, 1);
      CanonicalUnique(f[1..], g[1..]);
      assert f == [f[0]] + f[1..] && g == [g[0]] + g[1..];
    }
  }

  // ------------------------------------------------------- allocation

  datatype Policy = BestFit | FirstFit

  /** Block `k` is the one the policy hands out for `n` pages. */
  ghost predicate Chosen(policy: Policy, fl: seq<Block>, n: nat, k: nat) {
    && k < |fl| && fl[k].size >= n
    && match policy
       case FirstFit => forall j :: 0 <= j < k ==> fl[j].size < n
       case BestFit => forall j :: 0 <= j < |fl| && fl[j].size >= n ==>
                         fl[k].size <= fl[j].size && (j < k ==> fl[k].size < fl[j].size)
  }

  ghost predicate Satisfiable(fl: seq<Block>, n: nat) {
    exists j :: 0 <= j < |fl| && fl[j].size >= n
  }

  /** The block a policy chooses is unique. */
  lemma ChosenUnique(policy: Policy, fl: seq<Block>, n: nat, k: nat, k': nat)
    requires Chosen(policy, fl, n, k) && Chosen(policy, fl, n, k')
    ensures k == k'
  {
  }

  /** Either policy chooses a block if there is one that is large enough. */
  lemma {:induction false} ChosenExists(policy: Policy, fl: seq<Block>, n: nat)
    requires Satisfiable(fl, n)
    ensures exists k: nat :: Chosen(policy, fl, n, k)
    decreases |fl|
  {
    var m := |fl| - 1;
    var before := fl[..m];
    if Satisfiable(before, n) {
      ChosenExists(policy, before, n);
      var k: nat :| Chosen(policy, before, n, k);
      assert forall j :: 0 <= j < m ==> before[j] == fl[j];
      if policy == BestFit && n <= fl[m].size < fl[k].size {
        assert Chosen(policy, fl, n, m);
      } else {
        assert Chosen(policy, fl, n, k);
      }
    } else {
      assert forall j :: 0 <= j < m ==> before[j] == fl[j];
      assert Chosen(policy, fl, n, m);
    }
  }

  /** What is left of a block once its first `n` pages are handed out. */
  function Rest(b: Block, n: nat): seq<Block>
    requires n <= b.size
  {
    if b.size > n then [Block(b.start + n, b.size - n)] else []
  }

  /** The list once the first `n` pages of block `k` are handed out. */
  function Take(fl: seq<Block>, k: nat, n: nat): seq<Block>
    requires k < |fl| && n <= fl[k].size
  {
    fl[..k] + Rest(fl[k], n) + fl[k + 1..]
  }

  lemma {:induction false} RestPages(f: seq<Block>, b: Block, g: seq<Block>, n: nat)
    requires n <= b.size
    ensures Pages(f + Rest(b, n) + g) == Pages(f) + (PagesOf(b) - Range(b.start, n)) + Pages(g)
    ensures Total(f + Rest(b, n) + g) == Total(f) + (b.size - n) + Total(g)
  {
    if b.size > n {
      var r := Block(b.start + n, b.size - n);
      PagesCut(f, r, g);
      assert PagesOf(r) == PagesOf(b) - Range(b.start, n);
    } else {
      assert f + [] + g == f + g;
      PagesConcat(f, g);
    }
  }

  lemma {:induction false} TakePages(fl: seq<Block>, k: nat, n: nat)
    requires Sorted(fl) && k < |fl| && 0 < n <= fl[k].size
    ensures Pages(Take(fl, k, n)) == Pages(fl) - Range(fl[k].start, n)
    ensures Range(fl[k].start, n) <= Pages(fl)
    ensures Total(Take(fl, k, n)) == Total(fl) - n
  {
    var f, b, g := fl[..k], fl[k], fl[k + 1..];
    assert fl == f + [b] + g;
    PagesCut(f, b, g);
    OthersOutside(f, b, g);
    RestPages(f, b, g, n);
    assert Range(b.start, n) <= PagesOf(b);
  }

  lemma {:induction false} TakeChain(fl: seq<Block>, k: nat, n: nat, gap: nat)
    requires Chain(fl, gap) && k < |fl| && 0 < n <= fl[k].size
    ensures Chain(Take(fl, k, n), gap)
  {
    var f, b, g := fl[..k], fl[k], fl[k + 1..];
    assert fl == f + [b] + g;
    ChainCut(f, b, g, gap);
    if b.size > n {
      ChainCut(f, Rest(b, n)[0], g, gap);
    } else {
      assert f + [] + g == f + g;
      ChainConcat(f, g, gap);
    }
  }

  // ------------------------------------------------------- release

  /** Where a block starting at `base` belongs: before the first block that starts above it. */
  function Position(fl: seq<Block>, base: nat): (k: nat)
    ensures k <= |fl|
    ensures forall i :: 0 <= i < k ==> fl[i].start <= base
    ensures k < |fl| ==> base < fl[k].start
  {
    if fl == [] || base < fl[0].start then 0 else 1 + Position(fl[1..], base)
  }

  /** `b` joined to the first block of `post` if they touch. */
  function JoinNext(b: Block, post: seq<Block>): seq<Block> {
    if post != [] && b.End() == post[0].start then [Block(b.start, b.size + post[0].size)] + post[1..]
    else [b] + post
  }

  /** `b` and the block before it, which it touches, as one. */
  function Joint(last: Block, b: Block): Block { Block(last.start, last.size + b.size) }

  /** Block `b` between `pre` and `post`, joined to its neighbours where they touch. */
  function Coalesce(pre: seq<Block>, b: Block, post: seq<Block>): seq<Block> {
    if pre != [] && pre[|pre| - 1].End() == b.start then
      pre[..|pre| - 1] + JoinNext(Joint(pre[|pre| - 1], b), post)
    else
      pre + JoinNext(b, post)
  }

  /** The list once `n` pages from `base` on are given back. */
  function Give(fl: seq<Block>, base: nat, n: nat): seq<Block> {
    var k := Position(fl, base);
    Coalesce(fl[..k], Block(base, n), fl[k..])
  }

  lemma {:induction false} JoinNextPages(b: Block, post: seq<Block>)
    ensures Pages(JoinNext(b, post)) == PagesOf(b) + Pages(post)
    ensures Total(JoinNext(b, post)) == b.size + Total(post)
  {
    if post != [] && b.End() == post[0].start {
      assert JoinNext(b, post)[1..] == post[1..];
    } else {
      assert JoinNext(b, post)[1..] == post;
    }
  }

  lemma {:induction false} LastPages(pre: seq<Block>)
    requires pre != []
    ensures var init, last := pre[..|pre| - 1], pre[|pre| - 1];
            Pages(pre) == Pages(init) + PagesOf(last) && Total(pre) == Total(init) + last.size
  {
    var init, last := pre[..|pre| - 1], pre[|pre| - 1];
    assert pre == init + [last];
    PagesConcat(init, [last]);
    assert [last][1..] == [];
  }

  lemma {:induction false} JoinPrevPages(pre: seq<Block>, b: Block, post: seq<Block>)
    requires pre != [] && pre[|pre| - 1].End() == b.start
    ensures Pages(Coalesce(pre, b, post)) == Pages(pre) + PagesOf(b) + Pages(post)
    ensures Total(Coalesce(pre, b, post)) == Total(pre) + b.size + Total(post)
  {
    var init, last := pre[..|pre| - 1], pre[|pre| - 1];
    var c := Joint(last, b);
    PagesConcat(init, JoinNext(c, post));
    JoinNextPages(c, post);
    LastPages(pre);
    assert PagesOf(c) == PagesOf(last) + PagesOf(b);
  }

  lemma {:induction false} CoalescePages(pre: seq<Block>, b: Block, post: seq<Block>)
    ensures Pages(Coalesce(pre, b, post)) == Pages(pre) + PagesOf(b) + Pages(post)
    ensures Total(Coalesce(pre, b, post)) == Total(pre) + b.size + Total(post)
  {
    if pre != [] && pre[|pre| - 1].End() == b.start {
      JoinPrevPages(pre, b, post);
    } else {
      PagesConcat(pre, JoinNext(b, post));
      JoinNextPages(b, post);
    }
  }

  lemma {:induction false} GivePages(fl: seq<Block>, base: nat, n: nat)
    ensures Pages(Give(fl, base, n)) == Pages(fl) + Range(base, n)
    ensures Total(Give(fl, base, n)) == Total(fl) + n
  {
    var k := Position(fl, base);
    CutPages(fl, k, Block(base, n));
  }

  lemma {:induction false} CutPages(fl: seq<Block>, k: nat, b: Block)
    requires k <= |fl|
    ensures Pages(Coalesce(fl[..k], b, fl[k..])) == Pages(fl) + PagesOf(b)
    ensures Total(Coalesce(fl[..k], b, fl[k..])) == Total(fl) + b.size
  {
    CoalescePages(fl[..k], b, fl[k..]);
    PagesConcat(fl[..k], fl[k..]);
    Parts(fl, k);
  }

  lemma {:induction false} Parts(fl: seq<Block>, k: nat)
    requires k <= |fl|
    ensures fl[..k] + fl[k..] == fl
  {
  }

  /** A range clear of `f` that starts above its last block starts behind it. */
  lemma {:induction false} FitsBehind(f: seq<Block>, base: nat, n: nat)
    requires n > 0 && f != [] && f[|f| - 1].start <= base && Range(base, n) !! Pages(f)
    ensures f[|f| - 1].End() <= base
  {
    var init, last := f[..|f| - 1], f[|f| - 1];
    assert f == init + [last] + [];
    PagesCut(init, last, []);
    assert base in Range(base, n) && (base in PagesOf(last) <==> base < last.End());
  }

  /** A range clear of `g` that starts below its first block ends before it. */
  lemma {:induction false} FitsBefore(g: seq<Block>, base: nat, n: nat)
    requires g != [] && g[0].size > 0 && base < g[0].start && Range(base, n) !! Pages(g)
    ensures base + n <= g[0].start
  {
    assert g[0].start in PagesOf(g[0]) && (g[0].start in Range(base, n) <==> g[0].start < base + n);
  }

  lemma {:induction false} FitsBetween(f: seq<Block>, g: seq<Block>, base: nat, n: nat)
    requires n > 0 && Range(base, n) !! Pages(f) && Range(base, n) !! Pages(g)
    requires |f| > 0 ==> f[|f| - 1].start <= base
    requires |g| > 0 ==> g[0].size > 0 && base < g[0].start
    ensures Clear(f, [Block(base, n)], 0) && Clear([Block(base, n)], g, 0)
  {
    if |f| > 0 { FitsBehind(f, base, n); }
    if |g| > 0 { FitsBefore(g, base, n); }
  }

  /** A range clear of the list fits between the blocks at its position. */
  lemma {:induction false} GiveFits(fl: seq<Block>, base: nat, n: nat)
    requires Sorted(fl) && n > 0 && Range(base, n) !! Pages(fl)
    ensures var k := Position(fl, base);
            Clear(fl[..k], [Block(base, n)], 0) && Clear([Block(base, n)], fl[k..], 0)
  {
    var k := Position(fl, base);
    var f, g := fl[..k], fl[k..];
    assert fl == f + g;
    PagesConcat(f, g);
    assert k > 0 ==> f[k - 1] == fl[k - 1];
    assert |g| > 0 ==> g[0] == fl[k];
    FitsBetween(f, g, base, n);
  }

  lemma {:induction false} JoinNextChain(pre: seq<Block>, b: Block, post: seq<Block>, gap: nat)
    requires gap <= 1 && b.size > 0 && Chain(pre, gap) && Chain(post, gap)
    requires Clear(pre, [b], gap) && Clear([b], post, 0)
    ensures Chain(pre + JoinNext(b, post), gap)
  {
    if post != [] && b.End() == post[0].start {
      var c := Block(b.start, b.size + post[0].size);
      ChainTail(post, gap);
      ChainCut(pre, c, post[1..], gap);
      assert pre + JoinNext(b, post) == pre + [c] + post[1..];
    } else {
      ChainCut(pre, b, post, gap);
      assert pre + JoinNext(b, post) == pre + [b] + post;
    }
  }

  lemma {:induction false} JoinPrevChain(pre: seq<Block>, b: Block, post: seq<Block>, gap: nat)
    requires gap <= 1 && b.size > 0 && Chain(pre, gap) && Chain(post, gap)
    requires pre != [] && pre[|pre| - 1].End() == b.start && Clear([b], post, 0)
    ensures Chain(Coalesce(pre, b, post), gap)
  {
    var init, last := pre[..|pre| - 1], pre[|pre| - 1];
    assert pre == init + [last];
    ChainConcat(init, [last], gap);
    JoinNextChain(init, Joint(last, b), post, gap);
  }

  /** Coalescing keeps order; and it leaves no touching pair when there was none on either side of `b`. */
  lemma {:induction false} CoalesceChain(pre: seq<Block>, b: Block, post: seq<Block>, gap: nat)
    requires gap <= 1 && b.size > 0 && Chain(pre, gap) && Chain(post, gap)
    requires Clear(pre, [b], 0) && Clear([b], post, 0)
    ensures Chain(Coalesce(pre, b, post), gap)
  {
    if Clear(pre, [b], 1) {
      JoinNextChain(pre, b, post, gap);
    } else {
      JoinPrevChain(pre, b, post, gap);
    }
  }

  /** Giving back a range clear of the list keeps it sorted, and keeps it canonical if it was. */
  lemma {:induction false} GiveChain(fl: seq<Block>, base: nat, n: nat, gap: nat)
    requires gap <= 1 && Chain(fl, gap) && n > 0 && Range(base, n) !! Pages(fl)
    ensures Chain(Give(fl, base, n), gap)
  {
    var k := Position(fl, base);
    ChainSorted(fl, gap);
    GiveFits(fl, base, n);
    assert fl == fl[..k] + fl[k..];
    ChainConcat(fl[..k], fl[k..], gap);
    CoalesceChain(fl[..k], Block(base, n), fl[k..], gap);
  }

  /** Freeing what was just allocated restores the list, whether the block was split or taken whole. */
  lemma {:induction false} TakeGiveRoundTrip(fl: seq<Block>, k: nat, n: nat)
    requires Canonical(fl) && k < |fl| && 0 < n <= fl[k].size
    ensures Give(Take(fl, k, n), fl[k].start, n) == fl
  {
    var t := Take(fl, k, n);
    ChainSorted(fl, 1);
    TakePages(fl, k, n);
    TakeChain(fl, k, n, 1);
    GivePages(t, fl[k].start, n);
    GiveChain(t, fl[k].start, n, 1);
    assert Pages(Give(t, fl[k].start, n)) == Pages(fl);
    CanonicalUnique(Give(t, fl[k].start, n), fl);
  }

  // ------------------------------------------------------- whole runs

  /** The allocator at rest: its list, its counter, and the pages callers hold. */
  datatype State = State(free: seq<Block>, nrFree: int, held: set<nat>)

  /** An allocation hands out the head of block `k`, or fails; a release takes back any pages that are held. */
  datatype Event = Allocated(n: nat, k: nat) | Refused(n: nat) | Released(base: nat, n: nat)

  ghost predicate Next(policy: Policy, s: State, e: Event, s': State) {
    match e
    case Allocated(n, k) =>
      n > 0 && Chosen(policy, s.free, n, k)
      && s' == State(Take(s.free, k, n), s.nrFree - n, s.held + Range(s.free[k].start, n))
    case Refused(n) =>
      n > 0 && !Satisfiable(s.free, n) && s' == s
    case Released(base, n) =>
      n > 0 && Range(base, n) <= s.held
      && s' == State(Give(s.free, base, n), s.nrFree + n, s.held - Range(base, n))
  }

  /** `states` is a run from one `init_memmap` of the range `[base, base + n)`. */
  ghost predicate IsRun(policy: Policy, base: nat, n: nat, states: seq<State>, events: seq<Event>) {
    && |states| == |events| + 1
    && states[0] == State([Block(base, n)], n, {})
    && (forall i :: 0 <= i < |events| ==> Next(policy, states[i], events[i], states[i + 1]))
  }

  /** The list is canonical, the counter is right, and free and held pages split the managed range. */
  ghost predicate Safe(managed: set<nat>, s: State) {
    && Canonical(s.free)
    && s.nrFree == Total(s.free) == |Pages(s.free)|
    && Pages(s.free) !! s.held
    && Pages(s.free) + s.held == managed
  }

  lemma {:induction false} AllocatedSafe(managed: set<nat>, s: State, k: nat, n: nat)
    requires Safe(managed, s) && k < |s.free| && 0 < n <= s.free[k].size
    ensures Safe(managed, State(Take(s.free, k, n), s.nrFree - n, s.held + Range(s.free[k].start, n)))
    ensures Range(s.free[k].start, n) !! s.held && Range(s.free[k].start, n) <= managed
  {
    ChainSorted(s.free, 1);
    TakePages(s.free, k, n);
    TakeChain(s.free, k, n, 1);
    ChainSorted(Take(s.free, k, n), 1);
    TotalCountsPages(Take(s.free, k, n));
  }

  lemma {:induction false} ReleasedSafe(managed: set<nat>, s: State, base: nat, n: nat)
    requires Safe(managed, s) && n > 0 && Range(base, n) <= s.held
    ensures Safe(managed, State(Give(s.free, base, n), s.nrFree + n, s.held - Range(base, n)))
  {
    GivePages(s.free, base, n);
    GiveChain(s.free, base, n, 1);
    ChainSorted(Give(s.free, base, n), 1);
    TotalCountsPages(Give(s.free, base, n));
  }

  lemma {:induction false} NextSafe(policy: Policy, managed: set<nat>, s: State, e: Event, s': State)
    requires Safe(managed, s) && Next(policy, s, e, s')
    ensures Safe(managed, s')
    ensures e.Allocated? ==> Range(s.free[e.k].start, e.n) !! s.held && Range(s.free[e.k].start, e.n) <= managed
  {
    match e
    case Allocated(n, k) => AllocatedSafe(managed, s, k, n);
    case Refused(n) =>
    case Released(base, n) => ReleasedSafe(managed, s, base, n);
  }

  lemma {:induction false} InitialSafe(base: nat, n: nat)
    requires n > 0
    ensures Safe(Range(base, n), State([Block(base, n)], n, {}))
  {
    RangeSize(base, n);
    assert [Block(base, n)][1..] == [];
  }

  lemma {:induction false} RunStepSafe(policy: Policy, base: nat, n: nat, states: seq<State>, events: seq<Event>, i: nat)
    requires IsRun(policy, base, n, states, events) && i < |events| && Safe(Range(base, n), states[i])
    ensures Safe(Range(base, n), states[i + 1])
    ensures events[i].Allocated? ==>
              events[i].k < |states[i].free| &&
              Range(states[i].free[events[i].k].start, events[i].n) !! states[i].held
  {
    NextSafe(policy, Range(base, n), states[i], events[i], states[i + 1]);
  }

  lemma {:induction false} StatesSafe(policy: Policy, base: nat, n: nat, states: seq<State>, events: seq<Event>, i: nat)
    requires n > 0 && IsRun(policy, base, n, states, events) && i < |states|
    ensures Safe(Range(base, n), states[i])
  {
    if i == 0 {
      InitialSafe(base, n);
    } else {
      StatesSafe(policy, base, n, states, events, i - 1);
      RunStepSafe(policy, base, n, states, events, i - 1);
    }
  }

  /** Every state of every run is safe, and no allocation ever hands out a page that is still held. */
  lemma {:induction false} RunSafe(policy: Policy, base: nat, n: nat, states: seq<State>, events: seq<Event>, i: nat)
    requires n > 0 && IsRun(policy, base, n, states, events) && i < |states|
    ensures Safe(Range(base, n), states[i])
    ensures i < |events| && events[i].Allocated? ==>
              events[i].k < |states[i].free| &&
              Range(states[i].free[events[i].k].start, events[i].n) !! states[i].held
  {
    StatesSafe(policy, base, n, states, events, i);
    if i < |events| {
      RunStepSafe(policy, base, n, states, events, i);
    }
  }

  /**
    The list depends on the free pages and not on how they came to be free: two runs over the same range,
    under either policy, that leave the same pages held leave the same list and the same counter.
   */
  lemma {:induction false} HistoryIndependence(p: Policy, q: Policy, base: nat, n: nat,
                                               ss: seq<State>, es: seq<Event>, tt: seq<State>, fs: seq<Event>)
    requires n > 0 && IsRun(p, base, n, ss, es) && IsRun(q, base, n, tt, fs)
    requires ss[|es|].held == tt[|fs|].held
    ensures ss[|es|] == tt[|fs|]
  {
    RunSafe(p, base, n, ss, es, |es|);
    RunSafe(q, base, n, tt, fs, |fs|);
    var s, t := ss[|es|], tt[|fs|];
    assert Pages(s.free) == Range(base, n) - s.held && Pages(t.free) == Range(base, n) - t.held;
    CanonicalUnique(s.free, t.free);
  }
}
