/**
  Runs of the page allocator on its arrays: one init_memmap and then any sequence of requests.  With the repaired
  release every run follows the abstract allocator of `FreeList`; the code as written follows it exactly as long
  as each release finds an empty list or a free block above it.
 */
module AllocatorRuns {
  import opened Options
  import opened FreeList
  import opened LinkRing
  import opened PageFrames
  import opened PageAllocator

  datatype Request = Alloc(n: nat) | Release(base: nat, n: nat)

  /** What a request does; empty requests and releases of pages that are not all held are not made. */
  ghost predicate Step(policy: Policy, s: State, req: Request, s': State) {
    match req
    case Alloc(n) =>
      if n == 0 then s' == s
      else Next(policy, s, Refused(n), s') || exists k: nat :: Next(policy, s, Allocated(n, k), s')
    case Release(base, n) => if Made(s, req) then Next(policy, s, Released(base, n), s') else s' == s
  }

  /** A release of pages that are held. */
  ghost predicate Made(s: State, req: Request) {
    req.Release? && req.n > 0 && Range(req.base, req.n) <= s.held
  }

  lemma {:induction false} StepSafe(policy: Policy, managed: set<nat>, s: State, req: Request, s': State)
    requires Safe(managed, s) && Step(policy, s, req, s')
    ensures Safe(managed, s')
  {
    if req.Alloc? && req.n > 0 && !Next(policy, s, Refused(req.n), s') {
      var k: nat :| Next(policy, s, Allocated(req.n, k), s');
      NextSafe(policy, managed, s, Allocated(req.n, k), s');
    } else if Made(s, req) {
      NextSafe(policy, managed, s, Released(req.base, req.n), s');
    }
  }

  /** The state after a request. */
  ghost function Outcome(policy: Policy, s: State, req: Request): State {
    match req
    case Alloc(n) =>
      if n > 0 && Satisfiable(s.free, n) then
        ChosenExists(policy, s.free, n);
        var k: nat :| Chosen(policy, s.free, n, k);
        State(Take(s.free, k, n), s.nrFree - n, s.held + Range(s.free[k].start, n))
      else s
    case Release(base, n) =>
      if Made(s, req) then State(Give(s.free, base, n), s.nrFree + n, s.held - Range(base, n)) else s
  }

  /** A request has exactly one outcome. */
  lemma {:induction false} StepDetermined(policy: Policy, s: State, req: Request, s': State)
    ensures Step(policy, s, req, s') <==> s' == Outcome(policy, s, req)
  {
    if req.Alloc? && req.n > 0 && Satisfiable(s.free, req.n) {
      ChosenExists(policy, s.free, req.n);
      var k: nat :| Chosen(policy, s.free, req.n, k) && Outcome(policy, s, req)
        == State(Take(s.free, k, req.n), s.nrFree - req.n, s.held + Range(s.free[k].start, req.n));
      assert Next(policy, s, Allocated(req.n, k), Outcome(policy, s, req));
      if Step(policy, s, req, s') {
        var j: nat :| Next(policy, s, Allocated(req.n, j), s');
        ChosenUnique(policy, s.free, req.n, j, k);
      }
    }
  }

  /** `n` pages from `base` on, all free. */
  function Booted(base: nat, n: nat): State { State([Block(base, n)], n, {}) }

  /** The state after a sequence of requests. */
  ghost function Reached(policy: Policy, s: State, reqs: seq<Request>): State {
    if reqs == [] then s else Outcome(policy, Reached(policy, s, reqs[..|reqs| - 1]), reqs[|reqs| - 1])
  }

  lemma {:induction false} ReachedStep(policy: Policy, s: State, reqs: seq<Request>, i: nat)
    requires i < |reqs|
    ensures Reached(policy, s, reqs[..i + 1]) == Outcome(policy, Reached(policy, s, reqs[..i]), reqs[i])
  {
    assert reqs[..i + 1][..i] == reqs[..i];
  }

  lemma {:induction false} ReachedSafe(policy: Policy, base: nat, n: nat, reqs: seq<Request>)
    requires n > 0
    ensures Safe(Range(base, n), Reached(policy, Booted(base, n), reqs))
    decreases |reqs|
  {
    if reqs == [] {
      InitialSafe(base, n);
    } else {
      var before := reqs[..|reqs| - 1];
      ReachedSafe(policy, base, n, before);
      var s, s' := Reached(policy, Booted(base, n), before), Reached(policy, Booted(base, n), reqs);
      StepDetermined(policy, s, reqs[|reqs| - 1], s');
      StepSafe(policy, Range(base, n), s, reqs[|reqs| - 1], s');
    }
  }

  /** Requests that leave the same pages held leave the same list and counter, whatever they were. */
  lemma {:induction false} ReachedByHeld(p: Policy, q: Policy, base: nat, n: nat, rs: seq<Request>, ts: seq<Request>)
    requires n > 0 && Reached(p, Booted(base, n), rs).held == Reached(q, Booted(base, n), ts).held
    ensures Reached(p, Booted(base, n), rs) == Reached(q, Booted(base, n), ts)
  {
    ReachedSafe(p, base, n, rs);
    ReachedSafe(q, base, n, ts);
    var s, t := Reached(p, Booted(base, n), rs), Reached(q, Booted(base, n), ts);
    assert Pages(s.free) == Range(base, n) - s.held && Pages(t.free) == Range(base, n) - t.held;
    CanonicalUnique(s.free, t.free);
  }

  // ------------------------------------------------------- releases as written

  /** The request is no release, or one that finds an empty list or a free block above it. */
  ghost predicate Harmless(s: State, req: Request) {
    Made(s, req) ==> s.free == [] || req.base < s.free[|s.free| - 1].start
  }

  /** So are all requests of a run. */
  ghost predicate AllHarmless(policy: Policy, s: State, reqs: seq<Request>) {
    reqs == [] ||
    var before := reqs[..|reqs| - 1];
    AllHarmless(policy, s, before) && Harmless(Reached(policy, s, before), reqs[|reqs| - 1])
  }

  lemma {:induction false} HarmlessNext(policy: Policy, s0: State, reqs: seq<Request>, i: nat, s: State)
    requires i < |reqs| && AllHarmless(policy, s0, reqs[..i]) && Reached(policy, s0, reqs[..i]) == s
    ensures AllHarmless(policy, s0, reqs[..i + 1]) <==> Harmless(s, reqs[i])
  {
    assert reqs[..i + 1][..i] == reqs[..i];
  }

  lemma {:induction false} HarmlessPrefix(policy: Policy, s: State, reqs: seq<Request>, i: nat)
    requires i <= |reqs| && AllHarmless(policy, s, reqs)
    ensures AllHarmless(policy, s, reqs[..i])
    decreases |reqs|
  {
    if i == |reqs| {
      assert reqs[..i] == reqs;
    } else {
      var before := reqs[..|reqs| - 1];
      assert before[..i] == reqs[..i];
      HarmlessPrefix(policy, s, before, i);
    }
  }

  /**
    Four requests that end in a release that is not harmless: all pages are taken in two parts, and given back
    the lower part first.
   */
  lemma {:induction false} FourRequestsDiverge(policy: Policy, base: nat, a: nat, b: nat)
    requires a > 0 && b > 0
    ensures var reqs := [Alloc(a), Alloc(b), Release(base, a), Release(base + a, b)];
            var s := Booted(base, a + b);
            && AllHarmless(policy, s, reqs[..3]) && !AllHarmless(policy, s, reqs)
            && Reached(policy, s, reqs[..3]) == State([Block(base, a)], a, Range(base + a, b))
  {
    var reqs := [Alloc(a), Alloc(b), Release(base, a), Release(base + a, b)];
    var s0, s1 := Booted(base, a + b), State([Block(base + a, b)], b, Range(base, a));
    var s2, s3 := State([], 0, Range(base, a) + Range(base + a, b)), State([Block(base, a)], a, Range(base + a, b));
    FourStates(policy, base, a, b, s0, s1, s2, s3);
    FourSteps(policy, reqs, s0, s1, s2, s3);
  }

  lemma {:induction false} FourSteps(policy: Policy, reqs: seq<Request>, s0: State, s1: State, s2: State, s3: State)
    requires |reqs| == 4 && Outcome(policy, s0, reqs[0]) == s1 && Outcome(policy, s1, reqs[1]) == s2
    requires Outcome(policy, s2, reqs[2]) == s3
    requires Harmless(s0, reqs[0]) && Harmless(s1, reqs[1]) && Harmless(s2, reqs[2]) && !Harmless(s3, reqs[3])
    ensures AllHarmless(policy, s0, reqs[..3]) && !AllHarmless(policy, s0, reqs) && Reached(policy, s0, reqs[..3]) == s3
  {
    assert reqs[..0] == [] && reqs[..4] == reqs;
    HarmlessNext(policy, s0, reqs, 0, s0);
    ReachedNext(policy, s0, reqs, 0, s0, s1);
    HarmlessNext(policy, s0, reqs, 1, s1);
    ReachedNext(policy, s0, reqs, 1, s1, s2);
    HarmlessNext(policy, s0, reqs, 2, s2);
    ReachedNext(policy, s0, reqs, 2, s2, s3);
    HarmlessNext(policy, s0, reqs, 3, s3);
  }

  lemma {:induction false} ReachedNext(policy: Policy, s0: State, reqs: seq<Request>, i: nat, s: State, s': State)
    requires i < |reqs| && Reached(policy, s0, reqs[..i]) == s && Outcome(policy, s, reqs[i]) == s'
    ensures Reached(policy, s0, reqs[..i + 1]) == s'
  {
    ReachedStep(policy, s0, reqs, i);
  }

  lemma {:induction false} LowerTaken(policy: Policy, base: nat, a: nat, b: nat)
    requires a > 0 && b > 0
    ensures Outcome(policy, Booted(base, a + b), Alloc(a)) == State([Block(base + a, b)], b, Range(base, a))
  {
    TakesHead(policy, Booted(base, a + b), a);
    assert {} + Range(base, a) == Range(base, a);
  }

  lemma {:induction false} UpperTaken(policy: Policy, base: nat, a: nat, b: nat)
    requires a > 0 && b > 0
    ensures Outcome(policy, State([Block(base + a, b)], b, Range(base, a)), Alloc(b))
            == State([], 0, Range(base, a) + Range(base + a, b))
  {
    TakesHead(policy, State([Block(base + a, b)], b, Range(base, a)), b);
  }

  lemma {:induction false} LowerGiven(policy: Policy, base: nat, a: nat, b: nat)
    requires a > 0 && b > 0
    ensures Outcome(policy, State([], 0, Range(base, a) + Range(base + a, b)), Release(base, a))
            == State([Block(base, a)], a, Range(base + a, b))
  {
    var s := State([], 0, Range(base, a) + Range(base + a, b));
    GivesOnly(policy, s, base, a);
    assert s.held - Range(base, a) == Range(base + a, b);
  }

  lemma {:induction false} UpperHarmful(base: nat, a: nat, b: nat)
    requires a > 0 && b > 0
    ensures Harmless(State([], 0, Range(base, a) + Range(base + a, b)), Release(base, a))
    ensures !Harmless(State([Block(base, a)], a, Range(base + a, b)), Release(base + a, b))
  {
  }

  lemma {:induction false} FourStates(policy: Policy, base: nat, a: nat, b: nat, s0: State, s1: State, s2: State, s3: State)
    requires a > 0 && b > 0
    requires s0 == Booted(base, a + b) && s1 == State([Block(base + a, b)], b, Range(base, a))
    requires s2 == State([], 0, Range(base, a) + Range(base + a, b)) && s3 == State([Block(base, a)], a, Range(base + a, b))
    ensures Outcome(policy, s0, Alloc(a)) == s1 && Outcome(policy, s1, Alloc(b)) == s2
    ensures Outcome(policy, s2, Release(base, a)) == s3
    ensures Harmless(s2, Release(base, a)) && !Harmless(s3, Release(base + a, b))
  {
    LowerTaken(policy, base, a, b);
    UpperTaken(policy, base, a, b);
    LowerGiven(policy, base, a, b);
    UpperHarmful(base, a, b);
  }

  /** An allocation from a list of one block. */
  lemma {:induction false} TakesHead(policy: Policy, s: State, n: nat)
    requires |s.free| == 1 && 0 < n <= s.free[0].size
    ensures Outcome(policy, s, Alloc(n)) ==
            State(Rest(s.free[0], n), s.nrFree - n, s.held + Range(s.free[0].start, n))
  {
    assert Chosen(policy, s.free, n, 0);
    var s' := State(Take(s.free, 0, n), s.nrFree - n, s.held + Range(s.free[0].start, n));
    assert Next(policy, s, Allocated(n, 0), s');
    StepDetermined(policy, s, Alloc(n), s');
    assert Take(s.free, 0, n) == Rest(s.free[0], n);
  }

  /** A release into an empty list. */
  lemma {:induction false} GivesOnly(policy: Policy, s: State, base: nat, n: nat)
    requires s.free == [] && n > 0 && Range(base, n) <= s.held
    ensures Outcome(policy, s, Release(base, n)) == State([Block(base, n)], s.nrFree + n, s.held - Range(base, n))
  {
    assert Position(s.free, base) == 0;
    assert Give(s.free, base, n) == [Block(base, n)];
  }

  // ------------------------------------------------------- the arrays

  /** The arrays hold the state `s`, and the managed pages are not reserved. */
  ghost predicate Holding(area: FreeArea, s: State, base: nat, n: nat)
    reads area, area.prev, area.next, area.property, area.flag, area.reserved
  {
    && area.Valid() && base + n <= area.npage
    && area.Free() == s.free && area.nrFree == s.nrFree
    && forall p :: base <= p < base + n ==> !area.reserved[p]
  }

  /** best_fit_init and one best_fit_init_memmap over fresh pages. */
  method Boot(npage: nat, base: nat, n: nat) returns (area: FreeArea)
    requires 0 < n && base + n <= npage
    ensures fresh(area) && fresh(area.prev) && fresh(area.next) && fresh(area.property)
    ensures fresh(area.flag) && fresh(area.reserved) && fresh(area.ref)
    ensures Holding(area, Booted(base, n), base, n)
  {
    area := new FreeArea(npage);
    area.Init();
    area.InitMemmap(base, n);
  }

  /** The allocation routine of the policy. */
  method Allocate(area: FreeArea, policy: Policy, n: nat) returns (page: Option<nat>, ghost k: nat)
    requires area.Valid() && 0 < n
    modifies area, area.prev, area.next, area.property, area.flag
    ensures area.Valid() && (page.None? <==> !Satisfiable(old(area.Free()), n))
    ensures page.None? ==> area.Free() == old(area.Free()) && area.nrFree == old(area.nrFree)
    ensures page.Some? ==> Chosen(policy, old(area.Free()), n, k) && page.value == old(area.Free())[k].start
    ensures page.Some? ==> area.Free() == Take(old(area.Free()), k, n) && area.nrFree == old(area.nrFree) - n
  {
    if policy == BestFit {
      page, k := area.BestFitAlloc(n);
    } else {
      page, k := area.FirstFitAlloc(n);
    }
  }

  lemma {:induction false} AllocOutcome(policy: Policy, s: State, n: nat, page: Option<nat>, k: nat)
    requires 0 < n && (page.None? <==> !Satisfiable(s.free, n))
    requires page.Some? ==> Chosen(policy, s.free, n, k) && page.value == s.free[k].start
    ensures Outcome(policy, s, Alloc(n)) ==
            if page.None? then s else State(Take(s.free, k, n), s.nrFree - n, s.held + Range(page.value, n))
  {
    if page.Some? {
      var s' := State(Take(s.free, k, n), s.nrFree - n, s.held + Range(page.value, n));
      assert Next(policy, s, Allocated(n, k), s');
      StepDetermined(policy, s, Alloc(n), s');
    }
  }

  /** An allocation on arrays that hold a state. */
  method ServeAlloc(area: FreeArea, policy: Policy, n: nat, held: set<nat>, ghost s: State, ghost base: nat, ghost size: nat)
    returns (held': set<nat>)
    requires Holding(area, s, base, size) && 0 < n && held == s.held
    modifies area, area.prev, area.next, area.property, area.flag
    ensures Holding(area, Outcome(policy, s, Alloc(n)), base, size) && held' == Outcome(policy, s, Alloc(n)).held
  {
    var page;
    ghost var k;
    page, k := Allocate(area, policy, n);
    AllocOutcome(policy, s, n, page, k);
    held' := if page.Some? then held + Range(page.value, n) else held;
  }

  lemma {:induction false} InRange(base: nat, n: nat, start: nat, size: nat)
    requires Range(base, n) <= Range(start, size) && 0 < n
    ensures start <= base && base + n <= start + size
  {
    assert Within(base, base, n) && Within(base + n - 1, base, n);
    assert base in Range(base, n) && base + n - 1 in Range(base, n);
  }

  /** One request, with the repaired release. */
  method Serve(area: FreeArea, policy: Policy, req: Request, held: set<nat>, ghost s: State, ghost start: nat, ghost size: nat)
    returns (held': set<nat>)
    requires Holding(area, s, start, size) && Safe(Range(start, size), s) && held == s.held
    modifies area, area.prev, area.next, area.property, area.flag, area.reserved, area.ref
    ensures Holding(area, Outcome(policy, s, req), start, size) && held' == Outcome(policy, s, req).held
  {
    held' := held;
    if req.Alloc? && req.n > 0 {
      held' := ServeAlloc(area, policy, req.n, held, s, start, size);
    } else if req.Release? && req.n > 0 && Range(req.base, req.n) <= held {
      InRange(req.base, req.n, start, size);
      area.FreePagesRepaired(req.base, req.n);
      held' := held - Range(req.base, req.n);
    }
  }

  /** The request after the first `i`. */
  method Proceed(area: FreeArea, policy: Policy, reqs: seq<Request>, i: nat, held: set<nat>, ghost s: State,
                 ghost base: nat, ghost n: nat)
    returns (held': set<nat>, next: nat, ghost s': State)
    requires i < |reqs| && n > 0 && s == Reached(policy, Booted(base, n), reqs[..i])
    requires Holding(area, s, base, n) && held == s.held
    modifies area, area.prev, area.next, area.property, area.flag, area.reserved, area.ref
    ensures next == i + 1 && s' == Reached(policy, Booted(base, n), reqs[..next])
    ensures Holding(area, s', base, n) && held' == s'.held
  {
    ReachedSafe(policy, base, n, reqs[..i]);
    next, s' := i + 1, Outcome(policy, s, reqs[i]);
    ReachedNext(policy, Booted(base, n), reqs, i, s, s');
    held' := Serve(area, policy, reqs[i], held, s, base, n);
  }

  /**
    Any sequence of requests after one init_memmap, with the repaired release: the arrays end up with the list and
    the counter of the abstract allocator.
   */
  method Run(npage: nat, base: nat, n: nat, policy: Policy, reqs: seq<Request>) returns (area: FreeArea, held: set<nat>)
    requires 0 < n && base + n <= npage
    ensures Holding(area, Reached(policy, Booted(base, n), reqs), base, n)
    ensures held == Reached(policy, Booted(base, n), reqs).held
    ensures Safe(Range(base, n), Reached(policy, Booted(base, n), reqs))
  {
    area := Boot(npage, base, n);
    held := {};
    ghost var s := Booted(base, n);
    var i := 0;
    while i < |reqs|
      invariant 0 <= i <= |reqs|
      invariant fresh(area) && fresh(area.prev) && fresh(area.next) && fresh(area.property)
      invariant fresh(area.flag) && fresh(area.reserved) && fresh(area.ref)
      invariant s == Reached(policy, Booted(base, n), reqs[..i])
      invariant Holding(area, s, base, n) && held == s.held
    {
      held, i, s := Proceed(area, policy, reqs, i, held, s, base, n);
    }
    assert reqs[..i] == reqs;
    ReachedSafe(policy, base, n, reqs);
  }

  // ------------------------------------------------------- the arrays, as written

  /** The list is empty, or its last block starts above `base`: seen from the links of the head. */
  method LooksSheltered(area: FreeArea, base: nat) returns (yes: bool)
    requires area.Valid()
    ensures yes <==> Sheltered(area.order, base)
  {
    ghost var l := area.Now().links;
    assert NextOk(l, area.npage, area.order, 0) && PrevOk(l, area.npage, area.order, |area.order|);
    yes := area.next[area.npage] == area.npage || base < area.prev[area.npage];
  }

  /** Pages that are held lie in the managed range and are not free. */
  lemma {:induction false} HeldClear(s: State, base: nat, n: nat, start: nat, size: nat)
    requires Safe(Range(start, size), s) && 0 < n && Range(base, n) <= s.held
    ensures start <= base && base + n <= start + size && Range(base, n) !! Pages(s.free)
  {
    InRange(base, n, start, size);
  }

  /** free_pages as written, on pages that are not free. */
  method ReleaseHeld(area: FreeArea, base: nat, n: nat, ghost s: State, ghost start: nat, ghost size: nat) returns (sound: bool)
    requires Holding(area, s, start, size) && 0 < n
    requires start <= base && base + n <= start + size && Range(base, n) !! Pages(s.free)
    modifies area, area.prev, area.next, area.property, area.flag, area.reserved, area.ref
    ensures sound <==> Sheltered(old(area.order), base)
    ensures if sound then Holding(area, State(Give(s.free, base, n), s.nrFree + n, s.held - Range(base, n)), start, size)
            else !Sound(area.Now())
  {
    sound := LooksSheltered(area, base);
    area.ClearOfFlags(base, n);
    area.FreePages(base, n);
  }

  lemma {:induction false} ReleaseOutcome(policy: Policy, s: State, base: nat, n: nat)
    requires Made(s, Release(base, n))
    ensures Outcome(policy, s, Release(base, n)) == State(Give(s.free, base, n), s.nrFree + n, s.held - Range(base, n))
  {
  }

  lemma {:induction false} ShelterFree(f: Frames, order: seq<nat>, fl: seq<Block>, base: nat)
    requires ArePages(f, order) && Blocks(f, order) == fl
    ensures Sheltered(order, base) <==> fl == [] || base < fl[|fl| - 1].start
  {
    assert |order| == |fl|;
  }

  /** When a release of pages that are held is harmless, seen from the links. */
  lemma {:induction false} ShelterHarmless(f: Frames, order: seq<nat>, s: State, base: nat, n: nat)
    requires ArePages(f, order) && Blocks(f, order) == s.free && Made(s, Release(base, n))
    ensures Sheltered(order, base) <==> Harmless(s, Release(base, n))
  {
    ShelterFree(f, order, s.free, base);
  }

  /** A release as written on arrays that hold a state; `sound` tells whether they still hold one afterwards. */
  method ServeRelease(area: FreeArea, ghost policy: Policy, base: nat, n: nat, ghost s: State, ghost start: nat, ghost size: nat)
    returns (sound: bool)
    requires Holding(area, s, start, size) && Safe(Range(start, size), s) && Made(s, Release(base, n))
    modifies area, area.prev, area.next, area.property, area.flag, area.reserved, area.ref
    ensures sound <==> Harmless(s, Release(base, n))
    ensures if sound then Holding(area, Outcome(policy, s, Release(base, n)), start, size) else !Sound(area.Now())
  {
    HeldClear(s, base, n, start, size);
    ShelterHarmless(area.Now(), area.order, s, base, n);
    ReleaseOutcome(policy, s, base, n);
    sound := ReleaseHeld(area, base, n, s, start, size);
  }

  /** One request, with the release as written; `sound` tells whether the arrays still hold a list afterwards. */
  method ServeAsWritten(area: FreeArea, policy: Policy, req: Request, held: set<nat>, ghost s: State,
                        ghost start: nat, ghost size: nat)
    returns (held': set<nat>, sound: bool)
    requires Holding(area, s, start, size) && Safe(Range(start, size), s) && held == s.held
    modifies area, area.prev, area.next, area.property, area.flag, area.reserved, area.ref
    ensures sound <==> Harmless(s, req)
    ensures if sound then Holding(area, Outcome(policy, s, req), start, size) else !Sound(area.Now())
    ensures held' == Outcome(policy, s, req).held
  {
    held', sound := held, true;
    if req.Alloc? && req.n > 0 {
      held' := ServeAlloc(area, policy, req.n, held, s, start, size);
    } else if req.Release? && req.n > 0 && Range(req.base, req.n) <= held {
      sound := ServeRelease(area, policy, req.base, req.n, s, start, size);
      held' := held - Range(req.base, req.n);
    }
  }

  /** The request after the first `i`. */
  method ProceedAsWritten(area: FreeArea, policy: Policy, reqs: seq<Request>, i: nat, held: set<nat>, ghost s: State,
                          ghost base: nat, ghost n: nat)
    returns (held': set<nat>, sound: bool, next: nat, ghost s': State)
    requires i < |reqs| && n > 0 && s == Reached(policy, Booted(base, n), reqs[..i])
    requires Holding(area, s, base, n) && held == s.held && AllHarmless(policy, Booted(base, n), reqs[..i])
    modifies area, area.prev, area.next, area.property, area.flag, area.reserved, area.ref
    ensures next == i + 1 && s' == Reached(policy, Booted(base, n), reqs[..next])
    ensures sound <==> Harmless(s, reqs[i])
    ensures sound <==> AllHarmless(policy, Booted(base, n), reqs[..next])
    ensures if sound then Holding(area, s', base, n) && held' == s'.held else !Sound(area.Now())
  {
    ReachedSafe(policy, base, n, reqs[..i]);
    next, s' := i + 1, Outcome(policy, s, reqs[i]);
    ReachedNext(policy, Booted(base, n), reqs, i, s, s');
    HarmlessNext(policy, Booted(base, n), reqs, i, s);
    held', sound := ServeAsWritten(area, policy, reqs[i], held, s, base, n);
  }

  /** The requests from the `i`-th on, as far as the links still form a list. */
  method Follow(area: FreeArea, policy: Policy, reqs: seq<Request>, i: nat, held: set<nat>, ghost s: State,
                ghost base: nat, ghost n: nat)
    returns (held': set<nat>, done: nat, ghost s': State)
    requires i <= |reqs| && n > 0 && s == Reached(policy, Booted(base, n), reqs[..i])
    requires Holding(area, s, base, n) && held == s.held && AllHarmless(policy, Booted(base, n), reqs[..i])
    modifies area, area.prev, area.next, area.property, area.flag, area.reserved, area.ref
    ensures i <= done <= |reqs| && s' == Reached(policy, Booted(base, n), reqs[..done])
    ensures AllHarmless(policy, Booted(base, n), reqs[..done])
    ensures done == |reqs| ==> Holding(area, s', base, n) && held' == s'.held
    ensures done < |reqs| ==> !Harmless(s', reqs[done]) && !Sound(area.Now())
    decreases |reqs| - i
  {
    held', done, s' := held, i, s;
    if i < |reqs| {
      var h, sound, next;
      ghost var t;
      h, sound, next, t := ProceedAsWritten(area, policy, reqs, i, held, s, base, n);
      if sound {
        held', done, s' := Follow(area, policy, reqs, next, h, t, base, n);
      }
    }
  }

  /**
    The same run with the release as written.  It is followed up to the first request after which the links form no
    list: `done` requests leave the arrays with the list of the abstract allocator.  The whole run does if and only
    if every release in it finds an empty list or a free block above it.
   */
  method RunAsWritten(npage: nat, base: nat, n: nat, policy: Policy, reqs: seq<Request>)
    returns (area: FreeArea, held: set<nat>, done: nat)
    requires 0 < n && base + n <= npage
    ensures fresh(area) && fresh(area.prev) && fresh(area.next) && fresh(area.property)
    ensures fresh(area.flag) && fresh(area.reserved) && fresh(area.ref)
    ensures done <= |reqs| && AllHarmless(policy, Booted(base, n), reqs[..done])
    ensures done == |reqs| <==> AllHarmless(policy, Booted(base, n), reqs)
    ensures done == |reqs| ==> Holding(area, Reached(policy, Booted(base, n), reqs), base, n)
    ensures done == |reqs| ==> held == Reached(policy, Booted(base, n), reqs).held
    ensures done < |reqs| ==> !Harmless(Reached(policy, Booted(base, n), reqs[..done]), reqs[done]) && !Sound(area.Now())
  {
    area := Boot(npage, base, n);
    assert reqs[..0] == [];
    ghost var s;
    held, done, s := Follow(area, policy, reqs, 0, {}, Booted(base, n), base, n);
    WholeRun(policy, Booted(base, n), reqs, done, s);
  }

  lemma {:induction false} WholeRun(policy: Policy, s0: State, reqs: seq<Request>, done: nat, s: State)
    requires done <= |reqs| && s == Reached(policy, s0, reqs[..done]) && AllHarmless(policy, s0, reqs[..done])
    requires done < |reqs| ==> !Harmless(s, reqs[done])
    ensures done == |reqs| <==> AllHarmless(policy, s0, reqs)
    ensures done == |reqs| ==> s == Reached(policy, s0, reqs)
  {
    if done < |reqs| {
      HarmlessNext(policy, s0, reqs, done, s);
      if AllHarmless(policy, s0, reqs) { HarmlessPrefix(policy, s0, reqs, done + 1); }
    } else {
      assert reqs[..done] == reqs;
    }
  }
}
