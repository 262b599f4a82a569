/**
  lab2/kern/mm/best_fit_pmm.c and default_pmm.c: the page array, its free list and its counter, updated in place.
  Every method is proved against the exact effect in `PageFrames`, and through it against `FreeList`.
 */
module PageAllocator {
  import opened Options
  import opened FreeList
  import opened LinkRing
  import opened PageFrames

  class FreeArea {
    const npage: nat
    const prev: array<nat>
    const next: array<nat>
    const property: array<nat>
    const flag: array<bool>       // PG_property
    const reserved: array<bool>   // PG_reserved
    const ref: array<int>
    var nrFree: int
    ghost var order: seq<nat>     // the first pages of the free blocks, as the list has them

    /** The arrays have their sizes and are different arrays. */
    ghost predicate Shaped() {
      && prev.Length == npage + 1 && next.Length == npage + 1
      && property.Length == npage && flag.Length == npage && reserved.Length == npage && ref.Length == npage
      && prev != next && prev != property && next != property && flag != reserved
    }

    ghost function Now(): Frames
      reads this, prev, next, property, flag
    {
      Frames(Links(prev[..], next[..]), property[..], flag[..], nrFree)
    }

    /** The free list as a value. */
    ghost function Free(): seq<Block>
      requires ArePages(Now(), order)
      reads this, prev, next, property, flag
    {
      Blocks(Now(), order)
    }

    ghost predicate Valid()
      reads this, prev, next, property, flag, reserved
    {
      && Shaped()
      && WellFormed(Now(), order)
      && (forall p :: 0 <= p < npage && p in Pages(Free()) ==> !reserved[p])
    }

    /** A page array as page_init leaves it: every page reserved.  The list is not yet initialised. */
    constructor (n: nat)
      ensures Shaped() && npage == n
      ensures Sized(Now())
      ensures forall p :: 0 <= p < n ==> reserved[p] && !flag[p]
      ensures fresh(prev) && fresh(next) && fresh(property) && fresh(flag) && fresh(reserved) && fresh(ref)
    {
      npage := n;
      prev := new nat[n + 1](_ => 0);
      next := new nat[n + 1](_ => 0);
      property := new nat[n](_ => 0);
      flag := new bool[n](_ => false);
      reserved := new bool[n](_ => true);
      ref := new int[n](_ => 0);
      nrFree := 0;
      order := [];
    }

    /** best_fit_init, default_init */
    method Init()
      requires Shaped() && Sized(Now()) && (forall p :: 0 <= p < npage ==> !flag[p])
      modifies this, prev, next
      ensures Valid() && Free() == [] && nrFree == 0
    {
      ListInit(prev, next, npage);
      nrFree := 0;
      order := [];
      assert NextOk(Now().links, npage, order, 0) && PrevOk(Now().links, npage, order, 0);
    }

    // ----------------------------------------------------- pages become a block

    /** The page loop at the start of init_memmap (`wipe`) and of free_pages. */
    method ClearPages(base: nat, n: nat, wipe: bool)
      requires Shaped() && base + n <= npage
      requires forall p :: base <= p < base + n ==> if wipe then reserved[p] else !reserved[p] && !flag[p]
      modifies property, flag, reserved, ref
      ensures forall p :: 0 <= p < npage ==> flag[p] == (old(flag[p]) && !(base <= p < base + n))
      ensures forall p :: 0 <= p < npage ==>
                property[p] == if wipe && base <= p < base + n then 0 else old(property[p])
      ensures forall p :: 0 <= p < npage ==> reserved[p] == (old(reserved[p]) && !(base <= p < base + n))
      ensures forall p :: 0 <= p < npage ==> ref[p] == if base <= p < base + n then 0 else old(ref[p])
    {
      var p := base;
      while p != base + n
        invariant base <= p <= base + n
        invariant forall q :: 0 <= q < npage ==> flag[q] == (old(flag[q]) && !(base <= q < p))
        invariant forall q :: 0 <= q < npage ==>
                    property[q] == if wipe && base <= q < p then 0 else old(property[q])
        invariant forall q :: 0 <= q < npage ==> reserved[q] == (old(reserved[q]) && !(base <= q < p))
        invariant forall q :: 0 <= q < npage ==> ref[q] == if base <= q < p then 0 else old(ref[q])
      {
        assert if wipe then reserved[p] else !reserved[p] && !flag[p];
        flag[p], reserved[p] := false, false;
        ref[p] := 0;
        if wipe { property[p] := 0; }
        p := p + 1;
      }
    }

    method MarkBlock(base: nat, n: nat, wipe: bool)
      requires Shaped() && 0 < n && base + n <= npage
      requires forall p :: base <= p < base + n ==> if wipe then reserved[p] else !reserved[p] && !flag[p]
      modifies this`nrFree, property, flag, reserved, ref
      ensures Now() == Mark(old(Now()), base, n, wipe)
      ensures forall p :: 0 <= p < npage ==> reserved[p] == (old(reserved[p]) && !(base <= p < base + n))
      ensures forall p :: 0 <= p < npage ==> ref[p] == if base <= p < base + n then 0 else old(ref[p])
    {
      ClearPages(base, n, wipe);
      property[base] := n;
      flag[base] := true;
      nrFree := nrFree + n;
      ghost var f := Mark(old(Now()), base, n, wipe);
      assert property[..] == f.property && flag[..] == f.flag;
    }

    // ----------------------------------------------------- insertion

    /** No page of a range that is clear of the free blocks carries PG_property. */
    lemma ClearOfFlags(base: nat, n: nat)
      requires Valid() && base + n <= npage && Range(base, n) !! Pages(Free())
      ensures forall p :: base <= p < base + n ==> !flag[p]
      ensures base !in order || n == 0
    {
      HeadsOutside(Now(), order, base, n);
      assert flag[..] == Now().flag;
    }

    /** A range in which no page carries it is one in which no block starts. */
    lemma FlagsHeadless(base: nat, n: nat)
      requires Valid() && base + n <= npage && forall p :: base <= p < base + n ==> !flag[p]
      ensures Headless(order, base, n) && (base !in order || n == 0)
    {
      assert flag[..] == Now().flag;
      forall i | 0 <= i < |order| ensures !(base <= order[i] < base + n) { assert order[i] in order; }
    }

    /** A clear range is marked as a block and inserted. */
    method LinkBlock(base: nat, n: nat, wipe: bool)
      requires Valid() && 0 < n && base + n <= npage && Range(base, n) !! Pages(Free())
      requires forall p :: base <= p < base + n ==> reserved[p] == wipe
      modifies this`nrFree, prev, next, property, flag, reserved, ref
      ensures Now() == Linked(old(Now()), order, base, n, wipe)
      ensures forall p :: 0 <= p < npage ==> reserved[p] == (old(reserved[p]) && !(base <= p < base + n))
    {
      ghost var bs := Free();
      ClearOfFlags(base, n);
      MarkBlock(base, n, wipe);
      ghost var k := InsertInOrder(prev, next, npage, base, order);
      PositionFound(bs, base, k);
    }

    /** The same with the loop that is not left at the tail. */
    method LinkBlockUnbroken(base: nat, n: nat)
      requires Valid() && 0 < n && base + n <= npage
      requires forall p :: base <= p < base + n ==> !reserved[p] && !flag[p]
      modifies this`nrFree, prev, next, property, flag, reserved, ref
      ensures Now() == LinkedUnbroken(old(Now()), order, base, n)
      ensures forall p :: 0 <= p < npage ==> reserved[p] == (old(reserved[p]) && !(base <= p < base + n))
    {
      FlagsHeadless(base, n);
      MarkBlock(base, n, false);
      ghost var k := InsertUnbroken(prev, next, npage, base, order);
      UnbrokenLinked(old(Now()), order, base, n, k);
    }

    /** best_fit_init_memmap */
    method InitMemmap(base: nat, n: nat)
      requires Valid() && 0 < n && base + n <= npage
      requires forall p :: base <= p < base + n ==> reserved[p]
      modifies this, prev, next, property, flag, reserved, ref
      ensures Valid() && nrFree == old(nrFree) + n
      ensures var k := Position(old(Free()), base);
              Free() == old(Free())[..k] + [Block(base, n)] + old(Free())[k..]
      ensures forall p :: 0 <= p < npage ==> reserved[p] == (old(reserved[p]) && !(base <= p < base + n))
    {
      ghost var f, bs := Now(), Free();
      assert Range(base, n) !! Pages(bs);
      LinkBlock(base, n, true);
      LinkedWellFormed(f, order, base, n, true);
      order := Inserted(order, Position(bs, base), base);
      FreePagesAfter(bs, Position(bs, base), base, n);
    }

    lemma FreePagesAfter(bs: seq<Block>, k: nat, base: nat, n: nat)
      requires k <= |bs|
      ensures Pages(bs[..k] + [Block(base, n)] + bs[k..]) == Pages(bs) + Range(base, n)
    {
      PagesCut(bs[..k], Block(base, n), bs[k..]);
      assert bs == bs[..k] + bs[k..];
      PagesConcat(bs[..k], bs[k..]);
    }

    // ----------------------------------------------------- allocation

    /** The scan of best_fit_alloc_pages. */
    method ScanBest(n: nat) returns (page: Option<nat>, ghost k: nat)
      requires Shaped() && Forward(Now().links, npage, order) && ArePages(Now(), order)
      ensures page.None? ==> forall i :: 0 <= i < |order| ==> Free()[i].size < n || Free()[i].size > nrFree
      ensures page.Some? ==> Found(BestFit, Now(), order, n, k) && page.value == order[k]
    {
      page, k := None, 0;
      var minSize := nrFree + 1;
      ghost var l, bs := Now().links, Free();
      assert NextOk(l, npage, order, 0);
      var le := next[npage];
      ghost var i := 1;
      while le != npage
        invariant 1 <= i <= |order| + 1 && le == At(npage, order, i)
        invariant page.None? ==> minSize == nrFree + 1
        invariant page.None? ==> forall j :: 0 <= j < i - 1 ==> bs[j].size < n || bs[j].size > nrFree
        invariant page.Some? ==> k < i - 1 && page.value == order[k] && n <= bs[k].size <= nrFree && minSize == bs[k].size
        invariant page.Some? ==> forall j :: 0 <= j < i - 1 && bs[j].size >= n ==>
                    bs[k].size <= bs[j].size && (j < k ==> bs[k].size < bs[j].size)
        decreases |order| + 1 - i
      {
        assert NextOk(l, npage, order, i) && bs[i - 1] == BlockAt(Now(), le);
        if property[le] >= n && property[le] < minSize {
          minSize := property[le];
          page, k := Some(le), i - 1;
        }
        le := next[le];
        i := i + 1;
      }
    }

    /** The scan of default_alloc_pages. */
    method ScanFirst(n: nat) returns (page: Option<nat>, ghost k: nat)
      requires Shaped() && Forward(Now().links, npage, order) && ArePages(Now(), order)
      ensures page.None? <==> !Satisfiable(Free(), n)
      ensures page.Some? ==> Chosen(FirstFit, Free(), n, k) && page.value == order[k]
    {
      ghost var l, bs := Now().links, Free();
      assert NextOk(l, npage, order, 0);
      var le := next[npage];
      ghost var i := 1;
      while le != npage
        invariant 1 <= i <= |order| + 1 && le == At(npage, order, i)
        invariant forall j :: 0 <= j < i - 1 ==> bs[j].size < n
        decreases |order| + 1 - i
      {
        assert NextOk(l, npage, order, i) && bs[i - 1] == BlockAt(Now(), le);
        if property[le] >= n {
          return Some(le), i - 1;
        }
        le := next[le];
        i := i + 1;
      }
      return None, 0;
    }

    /** The first half of both alloc_pages, on any list whose `next` fields are right. */
    method Search(policy: Policy, n: nat) returns (page: Option<nat>, ghost k: nat)
      requires Shaped() && Forward(Now().links, npage, order) && ArePages(Now(), order)
      ensures Answers(policy, Now(), order, n, page)
      ensures page.Some? ==> Found(policy, Now(), order, n, k) && page.value == order[k] && n <= nrFree
    {
      if n > nrFree {
        return None, 0;
      }
      if policy == BestFit {
        page, k := ScanBest(n);
      } else {
        page, k := ScanFirst(n);
      }
      forall j: nat | Found(policy, Now(), order, n, j) ensures page.Some? {
        assert Free()[j].size >= n && Free()[j] == BlockAt(Now(), order[j]);
      }
    }

    /** On a well-formed state the counter never decides. */
    lemma FoundChosen(policy: Policy, n: nat)
      requires Valid()
      ensures forall k: nat :: Found(policy, Now(), order, n, k) <==> Chosen(policy, Free(), n, k)
      ensures n > nrFree ==> !Satisfiable(Free(), n)
      ensures Satisfiable(Free(), n) <==> exists k: nat :: Chosen(policy, Free(), n, k)
    {
      SizesTotal(Free());
      if Satisfiable(Free(), n) { ChosenExists(policy, Free(), n); }
    }

    /** The second half of both alloc_pages, whatever the links are. */
    method CarvePages(page: nat, n: nat)
      requires Shaped() && Sized(Now()) && page < npage && 0 < n
      requires property[page] > n ==> page + n < npage
      modifies this`nrFree, prev, next, property, flag
      ensures Now() == Carve(old(Now()), page, n)
    {
      var before := prev[page];
      ListDel(prev, next, page);
      if property[page] > n {
        var p := page + n;
        property[p] := property[page] - n;
        flag[p] := true;
        ListAdd(prev, next, before, p);
      }
      nrFree := nrFree - n;
      flag[page] := false;
    }

    /** What carving the first `n` pages off block `k` will lead to. */
    lemma CarveReady(n: nat, k: nat)
      requires Valid() && k < |order| && 0 < n <= Free()[k].size
      ensures order[k] + n <= npage && (property[order[k]] > n ==> order[k] + n < npage)
      ensures WellFormed(Carve(Now(), order[k], n), CarvedOrder(Now(), order, k, n))
      ensures Blocks(Carve(Now(), order[k], n), CarvedOrder(Now(), order, k, n)) == Take(Free(), k, n)
      ensures forall p :: 0 <= p < npage && p in Pages(Take(Free(), k, n)) ==> !reserved[p]
      ensures forall p :: order[k] <= p < order[k] + n ==> !reserved[p]
    {
      CarveWellFormed(Now(), order, k, n);
    }

    /** What both allocators do with the page their scan found. */
    method Finish(n: nat, page: nat, ghost k: nat)
      requires Valid() && k < |order| && page == order[k] && 0 < n <= Free()[k].size
      modifies this, prev, next, property, flag
      ensures Valid() && nrFree == old(nrFree) - n
      ensures Free() == Take(old(Free()), k, n)
      ensures page + n <= npage && forall p :: page <= p < page + n ==> !reserved[p]
    {
      CarveReady(n, k);
      ghost var order' := CarvedOrder(Now(), order, k, n);
      CarvePages(page, n);
      order := order';
    }

    /** best_fit_alloc_pages: the smallest block that is large enough, the lowest of them on a tie. */
    method BestFitAlloc(n: nat) returns (page: Option<nat>, ghost k: nat)
      requires Valid() && 0 < n
      modifies this, prev, next, property, flag
      ensures Valid()
      ensures page.None? <==> !Satisfiable(old(Free()), n)
      ensures page.None? ==> Now() == old(Now()) && order == old(order)
      ensures page.Some? ==>
                && Chosen(BestFit, old(Free()), n, k) && page.value == old(Free())[k].start
                && Free() == Take(old(Free()), k, n) && nrFree == old(nrFree) - n
                && page.value + n <= npage && forall p :: page.value <= p < page.value + n ==> !reserved[p]
    {
      FoundChosen(BestFit, n);
      page, k := Search(BestFit, n);
      if page.Some? { Finish(n, page.value, k); }
    }

    /** default_alloc_pages: the lowest block that is large enough. */
    method FirstFitAlloc(n: nat) returns (page: Option<nat>, ghost k: nat)
      requires Valid() && 0 < n
      modifies this, prev, next, property, flag
      ensures Valid()
      ensures page.None? <==> !Satisfiable(old(Free()), n)
      ensures page.None? ==> Now() == old(Now()) && order == old(order)
      ensures page.Some? ==>
                && Chosen(FirstFit, old(Free()), n, k) && page.value == old(Free())[k].start
                && Free() == Take(old(Free()), k, n) && nrFree == old(nrFree) - n
                && page.value + n <= npage && forall p :: page.value <= p < page.value + n ==> !reserved[p]
    {
      FoundChosen(FirstFit, n);
      page, k := Search(FirstFit, n);
      if page.Some? { Finish(n, page.value, k); }
    }

    // ----------------------------------------------------- release

    /** free_pages merges `base` into the block its `prev` field names, whatever the links are. */
    method MergeBack(base: nat) returns (merged: nat)
      requires Shaped() && Sized(Now()) && base < npage
      modifies prev, next, property, flag
      ensures merged == MergedBase(old(Now()), base)
      ensures Now() == MergePrev(old(Now()), base)
    {
      var le := prev[base];
      merged := base;
      if le != npage && le + property[le] == base {
        property[le] := property[le] + property[base];
        flag[base] := false;
        ListDel(prev, next, base);
        merged := le;
      }
    }

    /** free_pages merges the block its `next` field names into `base`, whatever the links are. */
    method MergeOn(base: nat)
      requires Shaped() && Sized(Now()) && base < npage
      modifies prev, next, property, flag
      ensures Now() == MergeNext(old(Now()), base)
    {
      var le := next[base];
      if le != npage && base + property[base] == le {
        property[base] := property[base] + property[le];
        flag[le] := false;
        ListDel(prev, next, le);
      }
    }

    /** free_pages with the insertion loop left at the tail as well: the repaired form. */
    method FreePagesRepaired(base: nat, n: nat)
      requires Valid() && 0 < n && base + n <= npage
      requires Range(base, n) !! Pages(Free()) && forall p :: base <= p < base + n ==> !reserved[p]
      modifies this, prev, next, property, flag, reserved, ref
      ensures Valid() && nrFree == old(nrFree) + n
      ensures Free() == Give(old(Free()), base, n)
      ensures forall p :: 0 <= p < npage ==> reserved[p] == (old(reserved[p]) && !(base <= p < base + n))
    {
      ghost var f, bs := Now(), Free();
      LinkBlock(base, n, false);
      ghost var order' := ReleaseWellFormed(f, order, base, n);
      GivePages(bs, base, n);
      var merged := MergeBack(base);
      MergeOn(merged);
      order := order';
    }

    /** The body of free_pages as written: the insertion loop without the break, and the two merges. */
    method Release(base: nat, n: nat)
      requires Valid() && 0 < n && base + n <= npage
      requires forall p :: base <= p < base + n ==> !reserved[p] && !flag[p]
      modifies this`nrFree, prev, next, property, flag, reserved, ref
      ensures Now() == WrittenRelease(old(Now()), order, base, n) && nrFree == old(nrFree) + n
      ensures forall p :: 0 <= p < npage ==> reserved[p] == (old(reserved[p]) && !(base <= p < base + n))
    {
      UnbrokenSized(Now(), order, base, n);
      LinkBlockUnbroken(base, n);
      var merged := MergeBack(base);
      MergeOn(merged);
    }

    /** What free_pages as written will lead to. */
    lemma ReleaseReady(base: nat, n: nat) returns (order': seq<nat>)
      requires Valid() && 0 < n && base + n <= npage
      requires forall p :: base <= p < base + n ==> !reserved[p] && !flag[p]
      ensures var h := WrittenRelease(Now(), order, base, n);
              && (Sound(h) <==> Sheltered(order, base) && Range(base, n) !! Pages(Free()))
              && (Sound(h) ==> WellFormed(h, order') && Blocks(h, order') == Give(Free(), base, n))
              && (!Sheltered(order, base) ==> order != [] && h == TailRelease(Now(), order, base, n))
    {
      FlagsHeadless(base, n);
      order' := WrittenSound(Now(), order, base, n);
    }

    /** The pages free after a release are not reserved. */
    lemma ReleaseUnreserved(base: nat, n: nat)
      requires Valid() && 0 < n && Range(base, n) !! Pages(Free())
      requires base + n <= npage && forall p :: base <= p < base + n ==> !reserved[p]
      ensures forall p :: 0 <= p < npage && p in Pages(Give(Free(), base, n)) ==> !reserved[p]
    {
      GivePages(Free(), base, n);
      assert forall p :: p in Range(base, n) ==> base <= p < base + n;
    }

    /**
      best_fit_free_pages and default_free_pages as written, on every range that passes their assertions.  If the
      range is clear of the free blocks and the list is empty or a free block lies above `base`, they do what the
      repaired form does; otherwise they leave links that form no list.
     */
    method FreePages(base: nat, n: nat)
      requires Valid() && 0 < n && base + n <= npage
      requires forall p :: base <= p < base + n ==> !reserved[p] && !flag[p]
      modifies this, prev, next, property, flag, reserved, ref
      ensures nrFree == old(nrFree) + n && Now() == WrittenRelease(old(Now()), old(order), base, n)
      ensures forall p :: 0 <= p < npage ==> reserved[p] == (old(reserved[p]) && !(base <= p < base + n))
      ensures Sound(Now()) <==> Sheltered(old(order), base) && Range(base, n) !! old(Pages(Free()))
      ensures Sound(Now()) ==> Valid() && Free() == Give(old(Free()), base, n)
      ensures !Sheltered(old(order), base) ==> old(order) != [] && Now() == TailRelease(old(Now()), old(order), base, n)
    {
      ghost var order' := ReleaseReady(base, n);
      if Range(base, n) !! Pages(Free()) { ReleaseUnreserved(base, n); }
      Release(base, n);
      order := order';
    }
  }
}
