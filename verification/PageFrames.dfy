/**
  The state of the page allocators of lab2/kern/mm/best_fit_pmm.c and default_pmm.c as a value, the exact effect
  of each stretch of their code on it, and the proof that on a well-formed state these effects are the
  operations of `FreeList`.
 */
module PageFrames {
  import opened Options
  import opened FreeList
  import opened LinkRing

  /**
    `property[p]` and `flag[p]` (PG_property) of every page, the links of every page, and the page count.
    The list head is the one entry behind the last page.
   */
  datatype Frames = Frames(links: Links, property: seq<nat>, flag: seq<bool>, nrFree: int) {
    function Head(): nat { |property| }
  }

  ghost predicate Sized(f: Frames) {
    && Bounded(f.links)
    && |f.links.prev| == |f.property| + 1
    && |f.flag| == |f.property|
  }

  ghost function BlockAt(f: Frames, p: nat): Block
    requires p < |f.property|
  {
    Block(p, f.property[p])
  }

  ghost predicate ArePages(f: Frames, order: seq<nat>) {
    forall i :: 0 <= i < |order| ==> order[i] < |f.property|
  }

  /** The blocks whose first pages are `order`. */
  ghost function Blocks(f: Frames, order: seq<nat>): (bs: seq<Block>)
    requires ArePages(f, order)
    ensures |bs| == |order|
    ensures forall i :: 0 <= i < |order| ==> bs[i] == BlockAt(f, order[i])
  {
    seq(|order|, i requires 0 <= i < |order| => BlockAt(f, order[i]))
  }

  ghost predicate Fit(bs: seq<Block>, limit: nat) {
    forall i :: 0 <= i < |bs| ==> bs[i].End() <= limit
  }

  /** The first page of each free block carries PG_property, and no other page does. */
  ghost predicate Flagged(f: Frames, order: seq<nat>) {
    && |f.flag| == |f.property|
    && (forall p :: 0 <= p < |f.flag| ==> (f.flag[p] <==> p in order))
  }

  /** `order` lists the first pages of the free blocks in address order. */
  ghost predicate WellFormed(f: Frames, order: seq<nat>) {
    && Sized(f) && ArePages(f, order)
    && Ring(f.links, f.Head(), order)
    && Sorted(Blocks(f, order)) && Fit(Blocks(f, order), |f.property|)
    && Flagged(f, order)
    && f.nrFree == Total(Blocks(f, order))
  }

  /** The links form the ring of some address-ordered free list. */
  ghost predicate Sound(f: Frames) {
    exists order :: WellFormed(f, order)
  }

  // ------------------------------------------------------- exact effects

  /** The second half of both alloc_pages: `page` is unlinked and what is left of its block takes its place. */
  ghost function Carve(f: Frames, page: nat, n: nat): Frames
    requires Sized(f) && page < |f.property|
    requires f.property[page] > n ==> page + n < |f.property|
  {
    var prev := f.links.prev[page];
    var links := Delete(f.links, page);
    if f.property[page] > n then
      Frames(AddAfter(links, prev, page + n),
             f.property[page + n := f.property[page] - n],
             f.flag[page + n := true][page := false],
             f.nrFree - n)
    else
      Frames(links, f.property, f.flag[page := false], f.nrFree - n)
  }

  /**
    A range becomes one block: its head gets the size and the flag, the other pages lose theirs.
    init_memmap also wipes the sizes of the other pages.
   */
  ghost function Mark(f: Frames, base: nat, n: nat, wipe: bool): (r: Frames)
    requires |f.flag| == |f.property| && 0 < n && base + n <= |f.property|
    ensures |r.property| == |f.property| && |r.flag| == |f.flag|
  {
    Frames(f.links,
           seq(|f.property|, p requires 0 <= p < |f.property| =>
             if p == base then n else if wipe && base < p < base + n then 0 else f.property[p]),
           seq(|f.flag|, p requires 0 <= p < |f.flag| =>
             if base <= p < base + n then p == base else f.flag[p]),
           f.nrFree + n)
  }

  /** free_pages, merging `base` into the entry its `prev` field names. */
  ghost function MergePrev(f: Frames, base: nat): Frames
    requires Sized(f) && base < |f.property|
  {
    var le := f.links.prev[base];
    if le != f.Head() && le + f.property[le] == base then
      f.(property := f.property[le := f.property[le] + f.property[base]],
         flag := f.flag[base := false],
         links := Delete(f.links, base))
    else f
  }

  /** Which page heads the block after `MergePrev`. */
  ghost function MergedBase(f: Frames, base: nat): nat
    requires Sized(f) && base < |f.property|
  {
    var le := f.links.prev[base];
    if le != f.Head() && le + f.property[le] == base then le else base
  }

  /** free_pages, merging the entry that `next` names into `base`. */
  ghost function MergeNext(f: Frames, base: nat): Frames
    requires Sized(f) && base < |f.property|
  {
    var p := f.links.next[base];
    if p != f.Head() && base + f.property[base] == p then
      f.(property := f.property[base := f.property[base] + f.property[p]],
         flag := f.flag[p := false],
         links := Delete(f.links, p))
    else f
  }

  // ------------------------------------------------------- effects on a well-formed state

  lemma {:induction false} HeadInPages(bs: seq<Block>, i: nat)
    requires Sorted(bs) && i < |bs|
    ensures bs[i].start in Pages(bs)
  {
    assert bs == bs[..i] + [bs[i]] + bs[i + 1..];
    PagesCut(bs[..i], bs[i], bs[i + 1..]);
    assert bs[i].start in PagesOf(bs[i]);
  }

  /** The state with `base` marked and linked in at its place. */
  ghost function Linked(f: Frames, order: seq<nat>, base: nat, n: nat, wipe: bool): Frames
    requires WellFormed(f, order) && 0 < n && base + n <= |f.property|
  {
    var k := Position(Blocks(f, order), base);
    Mark(f, base, n, wipe).(links := AddBetween(f.links, base, At(f.Head(), order, k), At(f.Head(), order, k + 1)))
  }

  /** No page of the range is the first of a free block: what the assertions of free_pages check. */
  ghost predicate Headless(order: seq<nat>, base: nat, n: nat) {
    forall i :: 0 <= i < |order| ==> !(base <= order[i] < base + n)
  }

  /** Blocks start outside any range that is clear of them. */
  lemma {:induction false} HeadsOutside(f: Frames, order: seq<nat>, base: nat, n: nat)
    requires ArePages(f, order) && Sorted(Blocks(f, order)) && Range(base, n) !! Pages(Blocks(f, order))
    ensures Headless(order, base, n)
  {
    forall i | 0 <= i < |order| ensures !(base <= order[i] < base + n) {
      HeadInPages(Blocks(f, order), i);
    }
  }

  lemma {:induction false} MarkedBlocks(f: Frames, order: seq<nat>, base: nat, n: nat, wipe: bool, k: nat)
    requires Sized(f) && ArePages(f, order) && 0 < n && base + n <= |f.property| && k <= |order|
    requires Headless(order, base, n)
    ensures ArePages(Mark(f, base, n, wipe), Inserted(order, k, base))
    ensures Blocks(Mark(f, base, n, wipe), Inserted(order, k, base))
            == Blocks(f, order)[..k] + [Block(base, n)] + Blocks(f, order)[k..]
    ensures Fit(Blocks(f, order), |f.property|) ==>
              Fit(Blocks(Mark(f, base, n, wipe), Inserted(order, k, base)), |f.property|)
    ensures Flagged(f, order) ==> Flagged(Mark(f, base, n, wipe), Inserted(order, k, base))
  {
    InsertedMembers(order, k, base);
  }

  /** The list with a clear range put in its place is in order and counts `n` pages more. */
  lemma {:induction false} InsertSorted(bs: seq<Block>, base: nat, n: nat)
    requires Sorted(bs) && n > 0 && Range(base, n) !! Pages(bs)
    ensures var k := Position(bs, base);
            var bs' := bs[..k] + [Block(base, n)] + bs[k..];
            Sorted(bs') && Total(bs') == Total(bs) + n
  {
    var k := Position(bs, base);
    GiveFits(bs, base, n);
    assert bs == bs[..k] + bs[k..];
    ChainConcat(bs[..k], bs[k..], 0);
    ChainCut(bs[..k], Block(base, n), bs[k..], 0);
    PagesCut(bs[..k], Block(base, n), bs[k..]);
    PagesConcat(bs[..k], bs[k..]);
  }

  /** The place found by walking the list is the position of the block in it. */
  lemma {:induction false} PositionFound(bs: seq<Block>, base: nat, k: nat)
    requires Sorted(bs) && k <= |bs|
    requires forall i :: 0 <= i < k ==> bs[i].start <= base
    requires k < |bs| ==> base < bs[k].start
    ensures Position(bs, base) == k
  {
    if k > 0 {
      ChainTail(bs, 0);
      PositionFound(bs[1..], base, k - 1);
    }
  }

  /** Inserting a range that is clear of every free block. */
  lemma {:induction false} LinkedWellFormed(f: Frames, order: seq<nat>, base: nat, n: nat, wipe: bool)
    requires WellFormed(f, order) && 0 < n && base + n <= |f.property|
    requires Range(base, n) !! Pages(Blocks(f, order))
    ensures var bs, k := Blocks(f, order), Position(Blocks(f, order), base);
            var g, order' := Linked(f, order, base, n, wipe), Inserted(order, k, base);
            WellFormed(g, order') && Blocks(g, order') == bs[..k] + [Block(base, n)] + bs[k..]
  {
    var bs, k := Blocks(f, order), Position(Blocks(f, order), base);
    var g, order' := Linked(f, order, base, n, wipe), Inserted(order, k, base);
    HeadsOutside(f, order, base, n);
    MarkedBlocks(f, order, base, n, wipe, k);
    assert base !in order;
    AddRing(f.links, f.Head(), order, k, base);
    InsertSorted(bs, base, n);
    assert Blocks(g, order') == Blocks(Mark(f, base, n, wipe), order');
  }

  /** Block `k` swallows block `k + 1`, which it touches. */
  ghost function Joined(f: Frames, order: seq<nat>, k: nat): Frames
    requires Sized(f) && ArePages(f, order) && k + 1 < |order|
  {
    Frames(Delete(f.links, order[k + 1]),
           f.property[order[k] := f.property[order[k]] + f.property[order[k + 1]]],
           f.flag[order[k + 1] := false],
           f.nrFree)
  }

  ghost function JoinAt(bs: seq<Block>, k: nat): seq<Block>
    requires k + 1 < |bs|
  {
    bs[..k] + [Block(bs[k].start, bs[k].size + bs[k + 1].size)] + bs[k + 2..]
  }

  lemma {:induction false} JoinedSorted(f: seq<Block>, b: Block, c: Block, g: seq<Block>)
    requires Sorted(f + [b] + ([c] + g)) && b.End() == c.start
    ensures Sorted(f + [Block(b.start, b.size + c.size)] + g)
  {
    ChainCut(f, b, [c] + g, 0);
    assert ([c] + g)[1..] == g;
    ChainTail([c] + g, 0);
    ChainCut(f, Block(b.start, b.size + c.size), g, 0);
  }

  lemma {:induction false} JoinedTotal(f: seq<Block>, b: Block, c: Block, g: seq<Block>)
    ensures Total(f + [Block(b.start, b.size + c.size)] + g) == Total(f + [b] + ([c] + g))
  {
    PagesCut(f, b, [c] + g);
    PagesCut([], c, g);
    assert [] + [c] + g == [c] + g;
    PagesCut(f, Block(b.start, b.size + c.size), g);
  }

  lemma {:induction false} JoinAtSorted(bs: seq<Block>, k: nat)
    requires Sorted(bs) && k + 1 < |bs| && bs[k].End() == bs[k + 1].start
    ensures Sorted(JoinAt(bs, k)) && Total(JoinAt(bs, k)) == Total(bs)
  {
    var f, b, c, g := bs[..k], bs[k], bs[k + 1], bs[k + 2..];
    assert bs == f + [b] + ([c] + g);
    JoinedSorted(f, b, c, g);
    JoinedTotal(f, b, c, g);
  }

  lemma {:induction false} JoinAtFit(bs: seq<Block>, k: nat, limit: nat)
    requires Fit(bs, limit) && k + 1 < |bs| && bs[k].End() == bs[k + 1].start
    ensures Fit(JoinAt(bs, k), limit)
  {
    assert bs[k + 1].End() <= limit;
  }

  lemma {:induction false} JoinedBlocks(f: Frames, order: seq<nat>, k: nat)
    requires Sized(f) && ArePages(f, order) && k + 1 < |order| && Members(f.links, f.Head(), order)
    ensures ArePages(Joined(f, order, k), Without(order, k + 1))
    ensures Blocks(Joined(f, order, k), Without(order, k + 1)) == JoinAt(Blocks(f, order), k)
  {
    WithoutMembers(order, k + 1);
  }

  lemma {:induction false} JoinedWellFormed(f: Frames, order: seq<nat>, k: nat)
    requires WellFormed(f, order) && k + 1 < |order|
    requires Blocks(f, order)[k].End() == order[k + 1]
    ensures WellFormed(Joined(f, order, k), Without(order, k + 1))
    ensures Blocks(Joined(f, order, k), Without(order, k + 1)) == JoinAt(Blocks(f, order), k)
  {
    DeleteRing(f.links, f.Head(), order, k + 1);
    JoinedBlocks(f, order, k);
    JoinAtSorted(Blocks(f, order), k);
    JoinAtFit(Blocks(f, order), k, |f.property|);
    WithoutMembers(order, k + 1);
  }

  /** The order after the first `n` pages of block `k` are carved off. */
  ghost function CarvedOrder(f: Frames, order: seq<nat>, k: nat, n: nat): seq<nat>
    requires ArePages(f, order) && k < |order|
  {
    if f.property[order[k]] > n then Inserted(Without(order, k), k, order[k] + n) else Without(order, k)
  }

  /** Where the rest of a block lies. */
  lemma {:induction false} CarvedRest(f: Frames, order: seq<nat>, k: nat, n: nat)
    requires WellFormed(f, order) && k < |order| && 0 < n <= f.property[order[k]]
    ensures order[k] + n <= |f.property|
    ensures f.property[order[k]] > n ==> order[k] + n < |f.property| && order[k] + n !in order
  {
    var bs := Blocks(f, order);
    assert bs[k].End() <= |f.property|;
    if f.property[order[k]] > n { InsideBlock(bs, k, order[k] + n); }
  }

  lemma {:induction false} CarvedWhole(f: Frames, order: seq<nat>, k: nat, n: nat)
    requires Sized(f) && ArePages(f, order) && Members(f.links, f.Head(), order)
    requires k < |order| && n == f.property[order[k]]
    ensures ArePages(Carve(f, order[k], n), Without(order, k))
    ensures Blocks(Carve(f, order[k], n), Without(order, k)) == Take(Blocks(f, order), k, n)
  {
    WithoutMembers(order, k);
  }

  lemma {:induction false} ReplacedAt(order: seq<nat>, k: nat, e: nat)
    requires k < |order|
    ensures Inserted(Without(order, k), k, e) == order[k := e]
  {
  }

  lemma {:induction false} TakeSplit(bs: seq<Block>, k: nat, n: nat)
    requires k < |bs| && n < bs[k].size
    ensures Take(bs, k, n) == bs[k := Block(bs[k].start + n, bs[k].size - n)]
  {
  }

  lemma {:induction false} SplitBlocks(f: Frames, order: seq<nat>, k: nat, n: nat)
    requires Sized(f) && ArePages(f, order) && Members(f.links, f.Head(), order)
    requires k < |order| && 0 < n < f.property[order[k]]
    requires order[k] + n < |f.property| && order[k] + n !in order
    ensures ArePages(Carve(f, order[k], n), order[k := order[k] + n])
    ensures Blocks(Carve(f, order[k], n), order[k := order[k] + n])
            == Blocks(f, order)[k := Block(order[k] + n, f.property[order[k]] - n)]
  {
  }

  lemma {:induction false} CarvedSplit(f: Frames, order: seq<nat>, k: nat, n: nat)
    requires Sized(f) && ArePages(f, order) && Members(f.links, f.Head(), order)
    requires k < |order| && 0 < n < f.property[order[k]]
    requires order[k] + n < |f.property| && order[k] + n !in order
    ensures ArePages(Carve(f, order[k], n), order[k := order[k] + n])
    ensures Blocks(Carve(f, order[k], n), order[k := order[k] + n]) == Take(Blocks(f, order), k, n)
    ensures Inserted(Without(order, k), k, order[k] + n) == order[k := order[k] + n]
  {
    ReplacedAt(order, k, order[k] + n);
    SplitBlocks(f, order, k, n);
    TakeSplit(Blocks(f, order), k, n);
  }

  lemma {:induction false} CarvedBlocks(f: Frames, order: seq<nat>, k: nat, n: nat)
    requires Sized(f) && ArePages(f, order) && Members(f.links, f.Head(), order)
    requires k < |order| && 0 < n <= f.property[order[k]]
    requires f.property[order[k]] > n ==> order[k] + n < |f.property| && order[k] + n !in order
    ensures ArePages(Carve(f, order[k], n), CarvedOrder(f, order, k, n))
    ensures Blocks(Carve(f, order[k], n), CarvedOrder(f, order, k, n)) == Take(Blocks(f, order), k, n)
  {
    if f.property[order[k]] > n {
      CarvedSplit(f, order, k, n);
    } else {
      CarvedWhole(f, order, k, n);
    }
  }

  /** A page strictly inside a block heads no block. */
  lemma {:induction false} InsideBlock(bs: seq<Block>, k: nat, p: nat)
    requires Sorted(bs) && k < |bs| && bs[k].start < p < bs[k].End()
    ensures forall i :: 0 <= i < |bs| ==> bs[i].start != p
  {
    var f, b, g := bs[..k], bs[k], bs[k + 1..];
    assert bs == f + [b] + g;
    OthersOutside(f, b, g);
    ChainCut(f, b, g, 0);
    assert p in PagesOf(b);
    forall i | 0 <= i < |bs| ensures bs[i].start != p {
      if i < k {
        HeadInPages(f, i);
      } else if i > k {
        HeadInPages(g, i - k - 1);
      }
    }
  }

  lemma {:induction false} TakeFit(bs: seq<Block>, k: nat, n: nat, limit: nat)
    requires Fit(bs, limit) && k < |bs| && n <= bs[k].size
    ensures Fit(Take(bs, k, n), limit)
  {
    assert bs[k].End() <= limit;
  }

  lemma {:induction false} CarvedRing(f: Frames, order: seq<nat>, k: nat, n: nat)
    requires WellFormed(f, order) && k < |order| && 0 < n <= f.property[order[k]]
    requires f.property[order[k]] > n ==> order[k] + n < |f.property| && order[k] + n !in order
    ensures Ring(Carve(f, order[k], n).links, f.Head(), CarvedOrder(f, order, k, n))
  {
    var head, e := f.Head(), order[k] + n;
    var l, order1 := Delete(f.links, order[k]), Without(order, k);
    DeleteRing(f.links, head, order, k);
    if f.property[order[k]] > n {
      WithoutMembers(order, k);
      assert PrevOk(f.links, head, order, k);
      AtWithout(head, order, k, k);
      assert NextOk(l, head, order1, k);
      AddRing(l, head, order1, k, e);
    }
  }

  /** Handing out the first `n` pages of block `k` is `Take`, and leaves the state well formed. */
  lemma {:induction false} CarveWellFormed(f: Frames, order: seq<nat>, k: nat, n: nat)
    requires WellFormed(f, order) && k < |order| && 0 < n <= f.property[order[k]]
    ensures order[k] + n <= |f.property|
    ensures f.property[order[k]] > n ==> order[k] + n < |f.property|
    ensures WellFormed(Carve(f, order[k], n), CarvedOrder(f, order, k, n))
    ensures Blocks(Carve(f, order[k], n), CarvedOrder(f, order, k, n)) == Take(Blocks(f, order), k, n)
    ensures Pages(Take(Blocks(f, order), k, n)) <= Pages(Blocks(f, order))
    ensures forall p :: order[k] <= p < order[k] + n ==> p in Pages(Blocks(f, order))
  {
    var bs := Blocks(f, order);
    assert forall p :: order[k] <= p < order[k] + n ==> p in Range(order[k], n);
    CarvedRest(f, order, k, n);
    CarvedBlocks(f, order, k, n);
    CarvedRing(f, order, k, n);
    TakeChain(bs, k, n, 0);
    TakePages(bs, k, n);
    TakeFit(bs, k, n, |f.property|);
    CarvedFlags(f, order, k, n);
  }

  lemma {:induction false} CarvedFlags(f: Frames, order: seq<nat>, k: nat, n: nat)
    requires WellFormed(f, order) && k < |order| && 0 < n <= f.property[order[k]]
    requires f.property[order[k]] > n ==> order[k] + n < |f.property| && order[k] + n !in order
    ensures Flagged(Carve(f, order[k], n), CarvedOrder(f, order, k, n))
  {
    WithoutMembers(order, k);
    if f.property[order[k]] > n { InsertedMembers(Without(order, k), k, order[k] + n); }
  }

  /** On a well-formed state the merge with the predecessor joins block `k - 1` and block `k` if they touch. */
  lemma {:induction false} MergePrevJoins(f: Frames, order: seq<nat>, k: nat)
    requires Sized(f) && ArePages(f, order) && Ring(f.links, f.Head(), order) && k < |order|
    ensures if k > 0 && Blocks(f, order)[k - 1].End() == order[k]
            then MergePrev(f, order[k]) == Joined(f, order, k - 1) && MergedBase(f, order[k]) == order[k - 1]
            else MergePrev(f, order[k]) == f && MergedBase(f, order[k]) == order[k]
  {
    assert PrevOk(f.links, f.Head(), order, k);
  }

  /** Likewise the merge with the successor. */
  lemma {:induction false} MergeNextJoins(f: Frames, order: seq<nat>, k: nat)
    requires Sized(f) && ArePages(f, order) && Ring(f.links, f.Head(), order) && k < |order|
    ensures if k + 1 < |order| && Blocks(f, order)[k].End() == order[k + 1]
            then MergeNext(f, order[k]) == Joined(f, order, k)
            else MergeNext(f, order[k]) == f
  {
    assert NextOk(f.links, f.Head(), order, k + 1);
  }

  lemma {:induction false} CutAround(f: seq<Block>, b: Block, g: seq<Block>)
    ensures (f + [b] + g)[..|f|] == f
    ensures (f + [b] + g)[|f|] == b
    ensures (f + [b] + g)[|f| + 1..] == g
  {
  }

  /** `JoinNext` in the middle of a list, the two blocks touching. */
  lemma {:induction false} JoinNextTouching(f: seq<Block>, b: Block, c: Block, g: seq<Block>)
    requires b.End() == c.start
    ensures f + JoinNext(b, [c] + g) == f + [Block(b.start, b.size + c.size)] + g
  {
    assert ([c] + g)[1..] == g;
  }

  lemma {:induction false} JoinNextAt(bs: seq<Block>, k: nat)
    requires k < |bs|
    ensures bs[..k] + JoinNext(bs[k], bs[k + 1..]) ==
            if k + 1 < |bs| && bs[k].End() == bs[k + 1].start then JoinAt(bs, k) else bs
  {
    if k + 1 < |bs| && bs[k].End() == bs[k + 1].start {
      assert bs[k + 1..] == [bs[k + 1]] + bs[k + 2..];
      JoinNextTouching(bs[..k], bs[k], bs[k + 1], bs[k + 2..]);
    } else {
      CutWhole(bs, k);
    }
  }

  lemma {:induction false} CutWhole(bs: seq<Block>, k: nat)
    requires k < |bs|
    ensures bs[..k] + ([bs[k]] + bs[k + 1..]) == bs
  {
  }

  lemma {:induction false} MergeNextWellFormed(f: Frames, order: seq<nat>, k: nat) returns (order': seq<nat>)
    requires WellFormed(f, order) && k < |order|
    ensures WellFormed(MergeNext(f, order[k]), order')
    ensures var bs := Blocks(f, order);
            Blocks(MergeNext(f, order[k]), order') == bs[..k] + JoinNext(bs[k], bs[k + 1..])
  {
    var bs := Blocks(f, order);
    MergeNextJoins(f, order, k);
    if k + 1 < |order| && bs[k].End() == order[k + 1] {
      JoinedWellFormed(f, order, k);
      order' := Without(order, k + 1);
    } else {
      order' := order;
    }
    JoinNextAt(bs, k);
  }

  /** The list around block `k` after it was joined to the one before it. */
  lemma {:induction false} JoinAtParts(bs: seq<Block>, k: nat)
    requires 0 < k < |bs|
    ensures var t := JoinAt(bs, k - 1);
            t[..k - 1] == bs[..k - 1] && t[k - 1] == Joint(bs[k - 1], bs[k]) && t[k..] == bs[k + 1..]
  {
  }

  /** Joining with the predecessor first and then with the successor is `Coalesce`. */
  lemma {:induction false} CoalesceJoinedAt(bs: seq<Block>, k: nat)
    requires 0 < k < |bs| && bs[k - 1].End() == bs[k].start
    ensures var t := JoinAt(bs, k - 1);
            t[..k - 1] + JoinNext(t[k - 1], t[k..]) == Coalesce(bs[..k], bs[k], bs[k + 1..])
  {
    JoinAtParts(bs, k);
    var pre := bs[..k];
    assert |pre| == k && pre[k - 1] == bs[k - 1] && pre[..k - 1] == bs[..k - 1];
  }

  lemma {:induction false} CoalesceApart(bs: seq<Block>, k: nat)
    requires k < |bs| && (k > 0 ==> bs[k - 1].End() != bs[k].start)
    ensures Coalesce(bs[..k], bs[k], bs[k + 1..]) == bs[..k] + JoinNext(bs[k], bs[k + 1..])
  {
    var pre := bs[..k];
    assert |pre| == k && (k > 0 ==> pre[k - 1] == bs[k - 1]);
  }

  /** Both merges when block `k` touches the one before it. */
  lemma {:induction false} MergesTouching(f: Frames, order: seq<nat>, k: nat) returns (order': seq<nat>)
    requires WellFormed(f, order) && 0 < k < |order| && Blocks(f, order)[k - 1].End() == order[k]
    ensures Sized(Joined(f, order, k - 1)) && order[k - 1] < |Joined(f, order, k - 1).property|
    ensures var g := MergeNext(Joined(f, order, k - 1), order[k - 1]);
            var bs := Blocks(f, order);
            WellFormed(g, order') && Blocks(g, order') == Coalesce(bs[..k], bs[k], bs[k + 1..])
  {
    var bs := Blocks(f, order);
    JoinedWellFormed(f, order, k - 1);
    var order1 := Without(order, k);
    assert order1[k - 1] == order[k - 1];
    order' := MergeNextWellFormed(Joined(f, order, k - 1), order1, k - 1);
    CoalesceJoinedAt(bs, k);
  }

  /** Both merges around block `k` amount to `Coalesce`. */
  lemma {:induction false} MergesWellFormed(f: Frames, order: seq<nat>, k: nat) returns (order': seq<nat>)
    requires WellFormed(f, order) && k < |order|
    ensures Sized(MergePrev(f, order[k])) && MergedBase(f, order[k]) < |MergePrev(f, order[k]).property|
    ensures var g := MergeNext(MergePrev(f, order[k]), MergedBase(f, order[k]));
            var bs := Blocks(f, order);
            WellFormed(g, order') && Blocks(g, order') == Coalesce(bs[..k], bs[k], bs[k + 1..])
  {
    MergePrevJoins(f, order, k);
    if k > 0 && Blocks(f, order)[k - 1].End() == order[k] {
      order' := MergesTouching(f, order, k);
    } else {
      order' := MergeNextWellFormed(f, order, k);
      CoalesceApart(Blocks(f, order), k);
    }
  }

  /** Inserting a clear range and merging it with its neighbours is `Give`, and leaves the state well formed. */
  lemma {:induction false} ReleaseWellFormed(f: Frames, order: seq<nat>, base: nat, n: nat) returns (order': seq<nat>)
    requires WellFormed(f, order) && 0 < n && base + n <= |f.property|
    requires Range(base, n) !! Pages(Blocks(f, order))
    ensures var g := Linked(f, order, base, n, false);
            && Sized(g) && Sized(MergePrev(g, base)) && MergedBase(g, base) < |MergePrev(g, base).property|
            && var h := MergeNext(MergePrev(g, base), MergedBase(g, base));
               WellFormed(h, order') && Blocks(h, order') == Give(Blocks(f, order), base, n)
  {
    var bs := Blocks(f, order);
    var k := Position(bs, base);
    LinkedWellFormed(f, order, base, n, false);
    var order1 := Inserted(order, k, base);
    assert order1[k] == base;
    order' := MergesWellFormed(Linked(f, order, base, n, false), order1, k);
    CutAround(bs[..k], Block(base, n), bs[k..]);
  }

  // ------------------------------------------------------- the insertion loop without a break, at the tail

  /** free_pages as written, when the list is not empty and `base` lies above all of it. */
  ghost function TailRelease(f: Frames, order: seq<nat>, base: nat, n: nat): Frames
    requires WellFormed(f, order) && order != [] && 0 < n && base + n <= |f.property|
  {
    Mark(f, base, n, false).(links := AddTwice(f.links, order[|order| - 1], base))
  }

  /**
    The block is reachable and in order, but its `prev` field names itself.  Neither merge fires, even if the
    block before touches it, and the state is sound for no order at all.
   */
  lemma {:induction false} TailDivergence(f: Frames, order: seq<nat>, base: nat, n: nat)
    requires WellFormed(f, order) && order != [] && 0 < n && base + n <= |f.property|
    requires Range(base, n) !! Pages(Blocks(f, order)) && order[|order| - 1] < base
    ensures var g := TailRelease(f, order, base, n);
            && Sized(g) && ArePages(g, order + [base])
            && Forward(g.links, g.Head(), order + [base])
            && g.links.prev[base] == base
            && Blocks(g, order + [base]) == Blocks(f, order) + [Block(base, n)]
            && Sorted(Blocks(g, order + [base]))
            && MergePrev(g, base) == g && MergedBase(g, base) == base && MergeNext(g, base) == g
            && Delete(g.links, base) == g.links
            && !Sound(g)
  {
    var g, bs := TailRelease(f, order, base, n), Blocks(f, order);
    HeadsOutside(f, order, base, n);
    assert base !in order;
    AddTwiceLinks(f.links, f.Head(), order, base);
    AddTwiceHead(f.links, f.Head(), order, base);
    SelfLinked(g.links, g.Head(), order, base);
    MarkedBlocks(f, order, base, n, false, |order|);
    assert Inserted(order, |order|, base) == order + [base];
    assert bs[..|order|] == bs && bs[|order|..] == [];
    assert Blocks(g, order + [base]) == bs + [Block(base, n)];
    TailPosition(bs, base);
    InsertSorted(bs, base, n);
    assert bs + [Block(base, n)] + [] == bs + [Block(base, n)];
    assert NextOk(g.links, g.Head(), order + [base], |order| + 1);
  }

  lemma {:induction false} AddTwiceHead(l: Links, head: nat, order: seq<nat>, e: nat)
    requires Ring(l, head, order) && order != [] && e < |l.prev| && e != head && e !in order
    ensures AddTwice(l, order[|order| - 1], e).prev[head] == e
    ensures AddTwice(l, order[|order| - 1], e).prev[e] == e
  {
    assert NextOk(l, head, order, |order|);
  }

  lemma {:induction false} TailPosition(bs: seq<Block>, base: nat)
    requires Sorted(bs) && (bs == [] || bs[|bs| - 1].start < base)
    ensures Position(bs, base) == |bs|
  {
    forall i | 0 <= i < |bs| ensures bs[i].start <= base { LastAbove(bs, i); }
    PositionFound(bs, base, |bs|);
  }

  lemma {:induction false} LastAbove(bs: seq<Block>, i: nat)
    requires Sorted(bs) && i < |bs|
    ensures bs[i].start <= bs[|bs| - 1].start
    decreases |bs| - i
  {
    if i + 1 < |bs| {
      assert Spaced(bs, i, 0);
      LastAbove(bs, i + 1);
    }
  }

  /** The scan of alloc_pages finds block `k`; best fit passes over blocks that are larger than the counter says. */
  ghost predicate Found(policy: Policy, f: Frames, order: seq<nat>, n: nat, k: nat)
    requires ArePages(f, order)
  {
    Chosen(policy, Blocks(f, order), n, k) && (policy == BestFit ==> f.property[order[k]] <= f.nrFree)
  }

  /** What alloc_pages returns, on any list whose `next` fields are right: the counter is asked first. */
  ghost predicate Answers(policy: Policy, f: Frames, order: seq<nat>, n: nat, page: Option<nat>)
    requires ArePages(f, order)
  {
    match page
    case None => n > f.nrFree || forall k: nat :: !Found(policy, f, order, n, k)
    case Some(p) => n <= f.nrFree && exists k: nat :: Found(policy, f, order, n, k) && p == order[k]
  }

  /** The answer is unique. */
  lemma {:induction false} AnswersUnique(policy: Policy, f: Frames, order: seq<nat>, n: nat, p: Option<nat>, q: Option<nat>)
    requires ArePages(f, order) && Answers(policy, f, order, n, p) && Answers(policy, f, order, n, q)
    ensures p == q
  {
    if p.Some? && q.Some? {
      var j: nat :| Found(policy, f, order, n, j) && p.value == order[j];
      var k: nat :| Found(policy, f, order, n, k) && q.value == order[k];
      ChosenUnique(policy, Blocks(f, order), n, j, k);
    }
  }

  /**
    Once `base` links to itself, handing out all of it leaves the links and the sizes as they were, and only the
    counter tells the difference.  The same request is answered with the same page again exactly when the counter,
    back at what it was before the release, is large enough; otherwise it is refused.
   */
  lemma {:induction false} TailHandedOutTwice(f: Frames, order: seq<nat>, base: nat, n: nat, policy: Policy)
    requires WellFormed(f, order) && order != [] && 0 < n && base + n <= |f.property|
    requires Range(base, n) !! Pages(Blocks(f, order)) && order[|order| - 1] < base
    requires Chosen(policy, Blocks(f, order) + [Block(base, n)], n, |order|)
    ensures var g := TailRelease(f, order, base, n);
            && Sized(g) && ArePages(g, order + [base]) && g.property[base] == n
            && Answers(policy, g, order + [base], n, Some(base))
            && var h := Carve(g, base, n);
               && Forward(h.links, h.Head(), order + [base])
               && (Answers(policy, h, order + [base], n, Some(base)) <==> n <= Total(Blocks(f, order)))
               && (Answers(policy, h, order + [base], n, None) <==> n > Total(Blocks(f, order)))
  {
    TailDivergence(f, order, base, n);
    var g, order' := TailRelease(f, order, base, n), order + [base];
    var h := Carve(g, base, n);
    assert h.links == g.links && h.property == g.property;
    assert Blocks(h, order') == Blocks(g, order');
    assert Found(policy, g, order', n, |order|) && order'[|order|] == base;
    if n <= h.nrFree {
      assert Found(policy, h, order', n, |order|);
    }
  }

  /** The state after the insertion loop without a break. */
  ghost function LinkedUnbroken(f: Frames, order: seq<nat>, base: nat, n: nat): Frames
    requires WellFormed(f, order) && 0 < n && base + n <= |f.property|
  {
    if order == [] || base < order[|order| - 1] then Linked(f, order, base, n, false)
    else TailRelease(f, order, base, n)
  }

  lemma {:induction false} UnbrokenLinked(f: Frames, order: seq<nat>, base: nat, n: nat, k: nat)
    requires WellFormed(f, order) && 0 < n && base + n <= |f.property| && base !in order
    requires Place(order, base, k)
    ensures Mark(f, base, n, false).(links := UnbrokenLinks(f.links, f.Head(), order, base, k))
            == LinkedUnbroken(f, order, base, n)
  {
    var bs := Blocks(f, order);
    PositionFound(bs, base, k);
    if k < |order| {
      LastAbove(bs, k);
    } else if order != [] {
      assert order[k - 1] <= base && order[k - 1] in order;
    }
  }

  lemma {:induction false} MergeSized(f: Frames, base: nat)
    requires Sized(f) && base < |f.property|
    ensures Sized(MergePrev(f, base)) && MergedBase(f, base) < |MergePrev(f, base).property|
  {
  }

  lemma {:induction false} UnbrokenSized(f: Frames, order: seq<nat>, base: nat, n: nat)
    requires WellFormed(f, order) && 0 < n && base + n <= |f.property|
    ensures var g := LinkedUnbroken(f, order, base, n);
            Sized(g) && base < |g.property| && Sized(MergePrev(g, base)) && MergedBase(g, base) < |MergePrev(g, base).property|
  {
    MergeSized(LinkedUnbroken(f, order, base, n), base);
  }

  /** All that free_pages does, as written. */
  ghost function WrittenRelease(f: Frames, order: seq<nat>, base: nat, n: nat): Frames
    requires WellFormed(f, order) && 0 < n && base + n <= |f.property|
  {
    UnbrokenSized(f, order, base, n);
    var g := LinkedUnbroken(f, order, base, n);
    MergeNext(MergePrev(g, base), MergedBase(g, base))
  }

  /** The list is empty, or a free block lies above `base`. */
  predicate Sheltered(order: seq<nat>, base: nat) {
    order == [] || base < order[|order| - 1]
  }

  /** free_pages as written ends well exactly when the list is empty or a free block lies above `base`. */
  lemma {:induction false} ReleaseAsWritten(f: Frames, order: seq<nat>, base: nat, n: nat) returns (order': seq<nat>)
    requires WellFormed(f, order) && 0 < n && base + n <= |f.property|
    requires Range(base, n) !! Pages(Blocks(f, order))
    ensures var h := WrittenRelease(f, order, base, n);
            && (Sound(h) <==> Sheltered(order, base))
            && if Sheltered(order, base)
               then WellFormed(h, order') && Blocks(h, order') == Give(Blocks(f, order), base, n)
               else order != [] && h == TailRelease(f, order, base, n)
  {
    HeadsOutside(f, order, base, n);
    if Sheltered(order, base) {
      order' := ReleaseWellFormed(f, order, base, n);
    } else {
      order' := order + [base];
      assert order[|order| - 1] != base;
      TailDivergence(f, order, base, n);
    }
  }

  // ------------------------------------------------------- releases that overlap a free block

  /** A range that no block starts in is clear of the list if the block before it ends in time. */
  lemma {:induction false} ClearBetween(bs: seq<Block>, base: nat, n: nat)
    requires Sorted(bs) && forall i :: 0 <= i < |bs| ==> !(base <= bs[i].start < base + n)
    requires var k := Position(bs, base); k > 0 ==> bs[k - 1].End() <= base
    ensures Range(base, n) !! Pages(bs)
  {
    var k := Position(bs, base);
    var f, g := bs[..k], bs[k..];
    assert bs == f + g;
    ChainConcat(f, g, 0);
    PagesConcat(f, g);
    assert k > 0 ==> f[k - 1] == bs[k - 1];
    assert k < |bs| ==> g[0] == bs[k];
    forall p: nat | p in Pages(f) ensures p < base { PagesBelow(f, p); }
    forall p: nat | p in Pages(g) ensures p >= base + n { PagesAbove(g, 0, p); }
  }

  /** A list with overlapping neighbours is no free list, in whatever order. */
  lemma {:induction false} OverlapUnsound(f: Frames, order: seq<nat>, i: nat)
    requires ArePages(f, order) && Forward(f.links, f.Head(), order) && i + 1 < |order|
    requires order[i] + f.property[order[i]] > order[i + 1]
    ensures !Sound(f)
  {
    assert !Spaced(Blocks(f, order), i, 0);
    forall o ensures !WellFormed(f, o) {
      if Forward(f.links, f.Head(), o) { ForwardUnique(f.links, f.Head(), order, o); }
    }
  }

  /** The merge with the successor does not mend an overlap with the predecessor. */
  lemma {:induction false} OverlapStays(g: Frames, order: seq<nat>, k: nat)
    requires Sized(g) && ArePages(g, order) && Ring(g.links, g.Head(), order) && 0 < k < |order|
    requires order[k - 1] + g.property[order[k - 1]] > order[k]
    ensures MergePrev(g, order[k]) == g && MergedBase(g, order[k]) == order[k]
    ensures !Sound(MergeNext(g, order[k]))
  {
    MergePrevJoins(g, order, k);
    MergeNextJoins(g, order, k);
    if MergeNext(g, order[k]) == g {
      OverlapUnsound(g, order, k - 1);
    } else {
      var h, o := Joined(g, order, k), Without(order, k + 1);
      DeleteRing(g.links, g.Head(), order, k + 1);
      assert o[k - 1] == order[k - 1] && o[k] == order[k] && order[k - 1] != order[k];
      OverlapUnsound(h, o, k - 1);
    }
  }

  /** Where the range went in. */
  lemma {:induction false} OverlapLinked(f: Frames, order: seq<nat>, base: nat, n: nat)
    requires WellFormed(f, order) && 0 < n && base + n <= |f.property| && Headless(order, base, n)
    requires !(Range(base, n) !! Pages(Blocks(f, order)))
    ensures var k, g := Position(Blocks(f, order), base), Linked(f, order, base, n, false);
            var o := Inserted(order, k, base);
            && Sized(g) && ArePages(g, o) && Ring(g.links, g.Head(), o)
            && 0 < k < |o| && o[k] == base && o[k - 1] + g.property[o[k - 1]] > base
  {
    var bs, k := Blocks(f, order), Position(Blocks(f, order), base);
    if k == 0 || bs[k - 1].End() <= base { ClearBetween(bs, base, n); }
    assert base !in order;
    AddRing(f.links, f.Head(), order, k, base);
    MarkedBlocks(f, order, base, n, false, k);
  }

  /** A release that overlaps a free block leaves no list, whatever it is merged with. */
  lemma {:induction false} ReleaseOverlapping(f: Frames, order: seq<nat>, base: nat, n: nat)
    requires WellFormed(f, order) && 0 < n && base + n <= |f.property| && Headless(order, base, n)
    requires !(Range(base, n) !! Pages(Blocks(f, order))) && Sheltered(order, base)
    ensures !Sound(WrittenRelease(f, order, base, n))
  {
    OverlapLinked(f, order, base, n);
    var k := Position(Blocks(f, order), base);
    OverlapStays(Linked(f, order, base, n, false), Inserted(order, k, base), k);
  }

  /** A release behind the start of the last block leaves none either. */
  lemma {:induction false} TailUnsound(f: Frames, order: seq<nat>, base: nat, n: nat)
    requires WellFormed(f, order) && 0 < n && base + n <= |f.property| && Headless(order, base, n)
    requires !Sheltered(order, base)
    ensures order != [] && WrittenRelease(f, order, base, n) == TailRelease(f, order, base, n)
    ensures !Sound(TailRelease(f, order, base, n))
  {
    var g := TailRelease(f, order, base, n);
    assert base !in order;
    AddTwiceLinks(f.links, f.Head(), order, base);
    AddTwiceHead(f.links, f.Head(), order, base);
    SelfLinked(g.links, g.Head(), order, base);
    assert NextOk(g.links, g.Head(), order + [base], |order| + 1);
  }

  /**
    On every range that passes the assertions: free_pages as written leaves a free list exactly when the range is
    clear of every free block and the list is empty or a free block lies above.
   */
  lemma {:induction false} WrittenSound(f: Frames, order: seq<nat>, base: nat, n: nat) returns (order': seq<nat>)
    requires WellFormed(f, order) && 0 < n && base + n <= |f.property| && Headless(order, base, n)
    ensures var h := WrittenRelease(f, order, base, n);
            && (Sound(h) <==> Sheltered(order, base) && Range(base, n) !! Pages(Blocks(f, order)))
            && (Sound(h) ==> WellFormed(h, order') && Blocks(h, order') == Give(Blocks(f, order), base, n))
            && (!Sheltered(order, base) ==> order != [] && h == TailRelease(f, order, base, n))
  {
    order' := order;
    if !Sheltered(order, base) {
      TailUnsound(f, order, base, n);
    } else if Range(base, n) !! Pages(Blocks(f, order)) {
      order' := ReleaseAsWritten(f, order, base, n);
    } else {
      ReleaseOverlapping(f, order, base, n);
    }
  }

  // ------------------------------------------------------- the round trip

  /**
    The round trip of the code as written: freeing what was just allocated restores the list exactly when something
    is left of the block, a higher block exists, or the block was the only one; otherwise the links come out unsound.
   */
  lemma {:induction false} RoundTripAsWritten(f: Frames, order: seq<nat>, k: nat, n: nat) returns (order': seq<nat>)
    requires WellFormed(f, order) && Canonical(Blocks(f, order)) && k < |order| && 0 < n <= f.property[order[k]]
    ensures f.property[order[k]] > n ==> order[k] + n < |f.property|
    ensures var c, o := Carve(f, order[k], n), CarvedOrder(f, order, k, n);
            && WellFormed(c, o) && order[k] + n <= |c.property| && Range(order[k], n) !! Pages(Blocks(c, o))
            && var h := WrittenRelease(c, o, order[k], n);
               && (Sound(h) <==> f.property[order[k]] > n || k + 1 < |order| || |order| == 1)
               && (Sound(h) ==> WellFormed(h, order') && Blocks(h, order') == Blocks(f, order))
  {
    var bs := Blocks(f, order);
    CarveWellFormed(f, order, k, n);
    TakePages(bs, k, n);
    TakeGiveRoundTrip(bs, k, n);
    CarvedTail(f, order, k, n);
    order' := ReleaseAsWritten(Carve(f, order[k], n), CarvedOrder(f, order, k, n), order[k], n);
  }

  lemma {:induction false} LastWithout(order: seq<nat>, k: nat)
    requires k < |order| && |order| > 1
    ensures var o := Without(order, k);
            |o| == |order| - 1 && o[|o| - 1] == if k + 1 < |order| then order[|order| - 1] else order[k - 1]
  {
  }

  lemma {:induction false} LastReplaced(order: seq<nat>, k: nat, e: nat)
    requires k < |order|
    ensures var o := Inserted(Without(order, k), k, e);
            |o| == |order| && o[|o| - 1] == if k + 1 < |order| then order[|order| - 1] else e
  {
  }

  lemma {:induction false} StartsRise(bs: seq<Block>, k: nat)
    requires Sorted(bs) && k < |bs|
    ensures k > 0 ==> bs[k - 1].start < bs[k].start
    ensures k + 1 < |bs| ==> bs[k].start < bs[|bs| - 1].start
  {
    if k > 0 { assert Spaced(bs, k - 1, 0); }
    if k + 1 < |bs| {
      assert Spaced(bs, k, 0);
      LastAbove(bs, k + 1);
    }
  }

  /** The same of their first pages. */
  ghost predicate Rises(order: seq<nat>, k: nat)
    requires k < |order|
  {
    (k > 0 ==> order[k - 1] < order[k]) && (k + 1 < |order| ==> order[k] < order[|order| - 1])
  }

  lemma {:induction false} OrderRises(f: Frames, order: seq<nat>, k: nat)
    requires ArePages(f, order) && Sorted(Blocks(f, order)) && k < |order|
    ensures Rises(order, k)
  {
    var bs := Blocks(f, order);
    StartsRise(bs, k);
    assert bs[k].start == order[k] && bs[|bs| - 1].start == order[|order| - 1] && (k > 0 ==> bs[k - 1].start == order[k - 1]);
  }

  /** What lies above entry `k` once it is taken out, or once `order[k] + n` takes its place. */
  lemma {:induction false} ShelterWithout(order: seq<nat>, k: nat)
    requires k < |order| && Rises(order, k)
    ensures Sheltered(Without(order, k), order[k]) <==> k + 1 < |order| || |order| == 1
  {
    var o := Without(order, k);
    if |order| == 1 {
      assert o == [];
    } else {
      LastWithout(order, k);
    }
  }

  lemma {:induction false} ShelterReplaced(order: seq<nat>, k: nat, n: nat)
    requires k < |order| && Rises(order, k) && 0 < n
    ensures Sheltered(Inserted(Without(order, k), k, order[k] + n), order[k])
  {
    LastReplaced(order, k, order[k] + n);
  }

  lemma {:induction false} ShelterLeft(order: seq<nat>, k: nat, split: bool, n: nat)
    requires k < |order| && Rises(order, k) && 0 < n
    ensures Sheltered(if split then Inserted(Without(order, k), k, order[k] + n) else Without(order, k), order[k])
            <==> split || k + 1 < |order| || |order| == 1
  {
    if split {
      ShelterReplaced(order, k, n);
    } else {
      ShelterWithout(order, k);
    }
  }

  /** What lies above the pages carved off. */
  lemma {:induction false} CarvedTail(f: Frames, order: seq<nat>, k: nat, n: nat)
    requires ArePages(f, order) && Sorted(Blocks(f, order)) && k < |order| && 0 < n <= f.property[order[k]]
    ensures Sheltered(CarvedOrder(f, order, k, n), order[k]) <==> f.property[order[k]] > n || k + 1 < |order| || |order| == 1
  {
    OrderRises(f, order, k);
    ShelterLeft(order, k, f.property[order[k]] > n, n);
  }
}
