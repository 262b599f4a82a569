/**
  From one init_memmap to a page that is handed out twice in six requests, with the release of
  lab2/kern/mm/best_fit_pmm.c and default_pmm.c as written: the four of
  `AllocatorRuns.FourRequestsDiverge`, and two more for the pages given back last.
 */
module DoubleHandout {
  import opened Options
  import opened FreeList
  import opened LinkRing
  import opened PageFrames
  import opened PageAllocator
  import opened AllocatorRuns

  /** alloc_pages on a list whose `next` fields are right and name `order`, when it answers with a page. */
  ghost predicate Served(policy: Policy, f: Frames, order: seq<nat>, n: nat, page: nat, f': Frames) {
    && Sized(f) && ArePages(f, order) && Forward(f.links, f.Head(), order)
    && Answers(policy, f, order, n, Some(page))
    && page < |f.property| && (f.property[page] > n ==> page + n < |f.property|)
    && f' == Carve(f, page, n)
  }

  /** free_pages as written. */
  ghost predicate Returned(f: Frames, order: seq<nat>, base: nat, n: nat, f': Frames) {
    && WellFormed(f, order) && 0 < n && base + n <= |f.property| && Range(base, n) !! Pages(Blocks(f, order))
    && f' == WrittenRelease(f, order, base, n)
  }

  /** The same request, made twice, is answered with the same page. */
  ghost predicate Twice(policy: Policy, f: Frames, order: seq<nat>, n: nat, page: nat) {
    exists g, h :: Served(policy, f, order, n, page, g) && Served(policy, g, order, n, page, h)
  }

  // ------------------------------------------------------- after a release behind the last block

  /** Only the last block starts there. */
  lemma {:induction false} LastAnswered(policy: Policy, f: Frames, order: seq<nat>, base: nat, n: nat)
    requires ArePages(f, order + [base]) && base !in order && Answers(policy, f, order + [base], n, Some(base))
    ensures Chosen(policy, Blocks(f, order + [base]), n, |order|)
  {
    var o := order + [base];
    var k: nat :| Found(policy, f, o, n, k) && base == o[k];
    assert forall i :: 0 <= i < |order| ==> order[i] in order;
  }

  /** The policy takes the pages given back. */
  lemma {:induction false} TailChosen(policy: Policy, f: Frames, order: seq<nat>, base: nat, n: nat)
    requires WellFormed(f, order) && order != [] && 0 < n && base + n <= |f.property|
    requires Range(base, n) !! Pages(Blocks(f, order)) && order[|order| - 1] < base
    requires Chosen(policy, Blocks(f, order) + [Block(base, n)], n, |order|)
    ensures Twice(policy, TailRelease(f, order, base, n), order + [base], n, base) <==> n <= Total(Blocks(f, order))
  {
    var g, o := TailRelease(f, order, base, n), order + [base];
    TailDivergence(f, order, base, n);
    TailHandedOutTwice(f, order, base, n, policy);
    var h := Carve(g, base, n);
    assert Served(policy, g, o, n, base, h);
    if n <= Total(Blocks(f, order)) {
      assert Served(policy, h, o, n, base, Carve(h, base, n));
    }
  }

  /**
    After a release as written behind the last block, a request of its size is twice answered with it exactly when
    the policy takes it and the other free pages are at least as many.
   */
  lemma {:induction false} TailTwice(policy: Policy, f: Frames, order: seq<nat>, base: nat, n: nat)
    requires WellFormed(f, order) && order != [] && 0 < n && base + n <= |f.property|
    requires Range(base, n) !! Pages(Blocks(f, order)) && order[|order| - 1] < base
    ensures Twice(policy, TailRelease(f, order, base, n), order + [base], n, base)
            <==> Chosen(policy, Blocks(f, order) + [Block(base, n)], n, |order|) && n <= Total(Blocks(f, order))
  {
    if Chosen(policy, Blocks(f, order) + [Block(base, n)], n, |order|) {
      TailChosen(policy, f, order, base, n);
    } else {
      TailDivergence(f, order, base, n);
      HeadsOutside(f, order, base, n);
      var g := TailRelease(f, order, base, n);
      if Answers(policy, g, order + [base], n, Some(base)) { LastAnswered(policy, g, order, base, n); }
    }
  }

  // ------------------------------------------------------- from one block

  /** The list has one block. */
  ghost predicate Single(f: Frames, base: nat, n: nat) {
    0 < n && WellFormed(f, [base]) && f.property[base] == n
  }

  lemma {:induction false} OneTotal(base: nat, n: nat)
    ensures Total([Block(base, n)]) == n && Pages([Block(base, n)]) == Range(base, n)
  {
    assert [Block(base, n)][1..] == [];
  }

  lemma {:induction false} SingleBlocks(f: Frames, base: nat, n: nat)
    requires Single(f, base, n)
    ensures Blocks(f, [base]) == [Block(base, n)] && f.nrFree == n && base + n <= |f.property|
  {
    assert Blocks(f, [base])[0] == BlockAt(f, base);
    OneTotal(base, n);
    assert Block(base, n).End() <= |f.property|;
  }

  /** The block answers every request it is large enough for. */
  lemma {:induction false} SingleServes(policy: Policy, f: Frames, base: nat, size: nat, n: nat)
    requires Single(f, base, size) && 0 < n <= size
    ensures n < size ==> base + n < |f.property|
    ensures Served(policy, f, [base], n, base, Carve(f, base, n))
  {
    SingleBlocks(f, base, size);
    assert Found(policy, f, [base], n, 0);
  }

  lemma {:induction false} SingleOrder(f: Frames, base: nat, n: nat)
    requires base < |f.property|
    ensures CarvedOrder(f, [base], 0, n) == if f.property[base] > n then [base + n] else []
  {
    assert Without([base], 0) == [] && Inserted([], 0, base + n) == [base + n];
  }

  /** What is left of it. */
  lemma {:induction false} SingleCarved(f: Frames, base: nat, size: nat, n: nat)
    requires Single(f, base, size) && 0 < n <= size
    ensures n < size ==> base + n < |f.property|
    ensures var g := Carve(f, base, n);
            && |g.property| == |f.property|
            && (n < size ==> Single(g, base + n, size - n))
            && (n == size ==> WellFormed(g, []))
  {
    var order := [base];
    CarveWellFormed(f, order, 0, n);
    SingleOrder(f, base, n);
  }

  /** The block has no neighbour to merge with. */
  lemma {:induction false} LoneMerges(f: Frames, base: nat)
    requires WellFormed(f, [base])
    ensures MergePrev(f, base) == f && MergedBase(f, base) == base && MergeNext(f, base) == f
  {
    assert PrevOk(f.links, f.Head(), [base], 0) && NextOk(f.links, f.Head(), [base], 1);
  }

  /** A release into the empty list makes such a list. */
  lemma {:induction false} EmptyReturned(f: Frames, base: nat, n: nat)
    requires WellFormed(f, []) && 0 < n && base + n <= |f.property|
    ensures Range(base, n) !! Pages(Blocks(f, []))
    ensures var g := WrittenRelease(f, [], base, n);
            Returned(f, [], base, n, g) && |g.property| == |f.property| && Single(g, base, n)
  {
    assert Blocks(f, []) == [];
    LinkedWellFormed(f, [], base, n, false);
    assert Inserted([], 0, base) == [base];
    LoneMerges(Linked(f, [], base, n, false), base);
  }

  /** Which of two blocks a policy takes for a request of the size of the second. */
  lemma {:induction false} SecondChosen(policy: Policy, base: nat, a: nat, b: nat)
    requires 0 < a && 0 < b
    ensures Chosen(policy, [Block(base, a)] + [Block(base + a, b)], b, 1) <==> a < b || (policy == BestFit && a > b)
  {
    var bs := [Block(base, a)] + [Block(base + a, b)];
    assert bs[0].size == a && bs[1].size == b;
  }

  /** What lies right behind the block. */
  lemma {:induction false} BehindClear(f: Frames, base: nat, a: nat, b: nat)
    requires Single(f, base, a)
    ensures Range(base + a, b) !! Pages(Blocks(f, [base])) && Blocks(f, [base]) == [Block(base, a)]
    ensures Total(Blocks(f, [base])) == a
  {
    SingleBlocks(f, base, a);
    OneTotal(base, a);
  }

  lemma {:induction false} TailReturned(f: Frames, order: seq<nat>, base: nat, n: nat)
    requires WellFormed(f, order) && 0 < n && base + n <= |f.property| && Range(base, n) !! Pages(Blocks(f, order))
    requires !Sheltered(order, base)
    ensures Returned(f, order, base, n, TailRelease(f, order, base, n))
  {
    var _ := ReleaseAsWritten(f, order, base, n);
  }

  /** A release right behind the block. */
  lemma {:induction false} SecondReturned(f: Frames, base: nat, a: nat, b: nat)
    requires Single(f, base, a) && 0 < b && base + a + b <= |f.property|
    ensures Returned(f, [base], base + a, b, TailRelease(f, [base], base + a, b))
  {
    BehindClear(f, base, a, b);
    TailReturned(f, [base], base + a, b);
  }

  /** Two requests for what was given back there. */
  lemma {:induction false} SecondTwice(policy: Policy, f: Frames, base: nat, a: nat, b: nat)
    requires Single(f, base, a) && 0 < b && base + a + b <= |f.property|
    ensures Twice(policy, TailRelease(f, [base], base + a, b), [base] + [base + a], b, base + a) <==> policy == BestFit && a > b
  {
    BehindClear(f, base, a, b);
    TailTwice(policy, f, [base], base + a, b);
    SecondChosen(policy, base, a, b);
  }

  /**
    From one block of `a + b` pages, as init_memmap leaves it: two allocations take all of it, two releases give it
    back, the lower part first, and then two requests for `b` pages are both answered with the page given back last
    exactly for best fit and `a > b`.
   */
  lemma {:induction false} HandedOutTwice(policy: Policy, f: Frames, base: nat, a: nat, b: nat)
    returns (f1: Frames, f2: Frames, f3: Frames, f4: Frames)
    requires 0 < a && 0 < b && Single(f, base, a + b)
    ensures Served(policy, f, [base], a, base, f1)
    ensures Served(policy, f1, [base + a], b, base + a, f2)
    ensures Returned(f2, [], base, a, f3)
    ensures Returned(f3, [base], base + a, b, f4)
    ensures Twice(policy, f4, [base] + [base + a], b, base + a) <==> policy == BestFit && a > b
  {
    SingleBlocks(f, base, a + b);
    SingleServes(policy, f, base, a + b, a);
    SingleCarved(f, base, a + b, a);
    f1 := Carve(f, base, a);
    SingleServes(policy, f1, base + a, b, b);
    SingleCarved(f1, base + a, b, b);
    f2 := Carve(f1, base + a, b);
    EmptyReturned(f2, base, a);
    f3 := WrittenRelease(f2, [], base, a);
    SecondReturned(f3, base, a, b);
    SecondTwice(policy, f3, base, a, b);
    f4 := TailRelease(f3, [base], base + a, b);
  }

  // ------------------------------------------------------- on the arrays

  /** The first three of the four requests, and the state before the release that diverges. */
  method ThreeRequests(base: nat, a: nat, b: nat) returns (reqs: seq<Request>, ghost s: State)
    requires 0 < a && 0 < b
    ensures AllHarmless(BestFit, Booted(base, a + b), reqs) && s == Reached(BestFit, Booted(base, a + b), reqs)
    ensures s == State([Block(base, a)], a, Range(base + a, b))
  {
    reqs := [Alloc(a), Alloc(b), Release(base, a)];
    ghost var all := [Alloc(a), Alloc(b), Release(base, a), Release(base + a, b)];
    FourRequestsDiverge(BestFit, base, a, b);
    assert reqs == all[..3];
    s := State([Block(base, a)], a, Range(base + a, b));
  }

  /** A run whose releases are all harmless. */
  method HarmlessRun(npage: nat, base: nat, n: nat, policy: Policy, reqs: seq<Request>, ghost s: State) returns (area: FreeArea)
    requires 0 < n && base + n <= npage && AllHarmless(policy, Booted(base, n), reqs)
    requires s == Reached(policy, Booted(base, n), reqs)
    ensures fresh(area) && fresh(area.prev) && fresh(area.next) && fresh(area.property)
    ensures fresh(area.flag) && fresh(area.reserved) && fresh(area.ref)
    ensures Holding(area, s, base, n)
  {
    var held, done;
    area, held, done := RunAsWritten(npage, base, n, policy, reqs);
  }

  /** The arrays after the first three of the four requests. */
  method LowerReturned(npage: nat, base: nat, a: nat, b: nat) returns (area: FreeArea)
    requires 0 < a && 0 < b && base + a + b <= npage
    ensures fresh(area) && fresh(area.prev) && fresh(area.next) && fresh(area.property)
    ensures fresh(area.flag) && fresh(area.reserved) && fresh(area.ref)
    ensures Holding(area, State([Block(base, a)], a, Range(base + a, b)), base, a + b)
  {
    var reqs;
    ghost var s;
    reqs, s := ThreeRequests(base, a, b);
    area := HarmlessRun(npage, base, a + b, BestFit, reqs, s);
  }

  lemma {:induction false} HoldsSingle(area: FreeArea, base: nat, a: nat, b: nat)
    requires 0 < a && Holding(area, State([Block(base, a)], a, Range(base + a, b)), base, a + b)
    ensures area.order == [base] && Single(area.Now(), base, a)
  {
    assert |area.order| == 1 && Blocks(area.Now(), area.order)[0] == BlockAt(area.Now(), area.order[0]);
  }

  /** alloc_pages of best fit on any list whose `next` fields are right, when it answers with a page. */
  method Reuse(area: FreeArea, n: nat, ghost page: nat, ghost g: Frames) returns (answer: Option<nat>)
    requires area.Shaped() && Served(BestFit, area.Now(), area.order, n, page, g) && 0 < n
    modifies area, area.prev, area.next, area.property, area.flag
    ensures answer == Some(page) && area.Now() == g && area.order == old(area.order)
  {
    ghost var k;
    answer, k := area.Search(BestFit, n);
    AnswersUnique(BestFit, area.Now(), area.order, n, answer, Some(page));
    area.CarvePages(answer.value, n);
  }

  /** The range behind the block passes the assertions, and giving it back makes two requests meet. */
  lemma {:induction false} UpperReady(area: FreeArea, base: nat, a: nat, b: nat)
    requires 0 < b < a && Holding(area, State([Block(base, a)], a, Range(base + a, b)), base, a + b)
    ensures !Sheltered(area.order, base + a)
    ensures forall p :: base + a <= p < base + a + b ==> !area.reserved[p] && !area.flag[p]
    ensures Twice(BestFit, TailRelease(area.Now(), area.order, base + a, b), area.order + [base + a], b, base + a)
  {
    HoldsSingle(area, base, a, b);
    BehindClear(area.Now(), base, a, b);
    area.ClearOfFlags(base + a, b);
    SecondTwice(BestFit, area.Now(), base, a, b);
  }

  /** The fourth. */
  method UpperReturned(area: FreeArea, e: nat, n: nat)
    requires area.Valid() && e + n <= area.npage && 0 < n && !Sheltered(area.order, e)
    requires forall p :: e <= p < e + n ==> !area.reserved[p] && !area.flag[p]
    modifies area, area.prev, area.next, area.property, area.flag, area.reserved, area.ref
    ensures area.Shaped() && area.Now() == TailRelease(old(area.Now()), old(area.order), e, n)
  {
    area.FreePages(e, n);
  }

  /** Then the `next` fields name both blocks. */
  method BothListed(area: FreeArea, base: nat, a: nat, b: nat)
    requires 0 < b < a && Holding(area, State([Block(base, a)], a, Range(base + a, b)), base, a + b)
    modifies area, area.prev, area.next, area.property, area.flag, area.reserved, area.ref
    ensures area.Shaped() && Twice(BestFit, area.Now(), area.order, b, base + a)
  {
    UpperReady(area, base, a, b);
    ghost var order := area.order;
    UpperReturned(area, base + a, b);
    area.order := order + [base + a];
  }

  /** The last two requests. */
  method ServedTwice(area: FreeArea, n: nat, ghost page: nat) returns (first: Option<nat>, second: Option<nat>)
    requires area.Shaped() && Twice(BestFit, area.Now(), area.order, n, page) && 0 < n
    modifies area, area.prev, area.next, area.property, area.flag
    ensures first == second == Some(page)
  {
    ghost var g, h :| Served(BestFit, area.Now(), area.order, n, page, g) && Served(BestFit, g, area.order, n, page, h);
    first := Reuse(area, n, page, g);
    second := Reuse(area, n, page, h);
  }

  /**
    The arrays after one init_memmap and the six requests, best fit, as written: the last two requests get the same
    pages, although nothing was given back in between.
   */
  method SixRequests(npage: nat, base: nat, a: nat, b: nat) returns (first: Option<nat>, second: Option<nat>)
    requires 0 < b < a && base + a + b <= npage
    ensures first == second == Some(base + a)
  {
    var area := LowerReturned(npage, base, a, b);
    BothListed(area, base, a, b);
    first, second := ServedTwice(area, b, base + a);
  }
}
