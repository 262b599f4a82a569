/**
  The bodies of alloc_pages, free_pages and nr_free_pages of lab3/kern/mm/pmm.c as operations of the interrupt machine: the
  stretches of first-fit and best-fit code on links, sizes, flags and counter, one step each, with an interrupt
  possible between any two steps as far as the brackets allow.
 */
module AllocatorOps {
  import opened Options
  import opened FreeList
  import opened LinkRing
  import opened PageFrames
  import opened Interrupts

  /** The allocator in memory.  The pages callers hold and the order of the list are noted beside it. */
  datatype Memory = Memory(f: Frames, order: seq<nat>, held: set<nat>)

  /** The local variables: the page found and which block it heads, or the number of free pages. */
  datatype Local = Local(page: Option<nat>, k: nat, count: int)

  const ENTRY: Local := Local(None, 0, 0)

  type Body = Op<Memory, Local>

  ghost predicate Good(m: Memory) { WellFormed(m.f, m.order) }

  /** What the memory holds, as a state of the abstract allocator. */
  ghost function Abstract(m: Memory): FreeList.State
    requires Good(m)
  {
    FreeList.State(Blocks(m.f, m.order), m.f.nrFree, m.held)
  }

  // ------------------------------------------------------- alloc_pages

  /** The guard and the scan. */
  ghost function SearchStep(policy: Policy, n: nat, m: Memory, l: Local): (Memory, Local) {
    if Good(m) && n <= m.f.nrFree && exists k: nat :: Found(policy, m.f, m.order, n, k) then
      var k: nat :| Found(policy, m.f, m.order, n, k);
      (m, l.(page := Some(m.order[k]), k := k))
    else (m, l.(page := None, k := 0))
  }

  /** The block found is carved. */
  ghost function CarveStep(n: nat, m: Memory, l: Local): (Memory, Local) {
    if Good(m) && l.page.Some? && l.k < |m.order| && 0 < n <= m.f.property[m.order[l.k]] then
      CarvedRest(m.f, m.order, l.k, n);
      var page := m.order[l.k];
      (Memory(Carve(m.f, page, n), CarvedOrder(m.f, m.order, l.k, n), m.held + Range(page, n)), l)
    else (m, l)
  }

  ghost function AllocBody(policy: Policy, n: nat): Body {
    Op(ENTRY, [(m: Memory, l: Local) => SearchStep(policy, n, m, l), (m: Memory, l: Local) => CarveStep(n, m, l)])
  }

  // ------------------------------------------------------- free_pages

  /** A range the caller may give back. */
  ghost predicate Releasable(m: Memory, base: nat, n: nat) {
    && Good(m) && 0 < n && base + n <= |m.f.property|
    && Range(base, n) <= m.held && Range(base, n) !! Pages(Blocks(m.f, m.order))
  }

  /** The range is marked and linked in: as written, or by the repaired loop. */
  ghost function LinkStep(written: bool, base: nat, n: nat, m: Memory, l: Local): (Memory, Local) {
    if Releasable(m, base, n) then
      (m.(f := if written then LinkedUnbroken(m.f, m.order, base, n) else Linked(m.f, m.order, base, n, false)), l)
    else (m, l)
  }

  ghost function MergePrevStep(base: nat, m: Memory, l: Local): (Memory, Local) {
    if Sized(m.f) && base < |m.f.property| then (m.(f := MergePrev(m.f, base)), l.(page := Some(MergedBase(m.f, base))))
    else (m, l)
  }

  /** The order of the list, if there is one. */
  ghost function OrderOf(f: Frames, order: seq<nat>): seq<nat> {
    if Sound(f) then var o :| WellFormed(f, o); o else order
  }

  ghost function MergeNextStep(base: nat, n: nat, m: Memory, l: Local): (Memory, Local) {
    if Sized(m.f) && l.page.Some? && l.page.value < |m.f.property| then
      var g := MergeNext(m.f, l.page.value);
      (Memory(g, OrderOf(g, m.order), m.held - Range(base, n)), l)
    else (m, l)
  }

  ghost function FreeBody(written: bool, base: nat, n: nat): Body {
    Op(ENTRY, [(m: Memory, l: Local) => LinkStep(written, base, n, m, l),
                        (m: Memory, l: Local) => MergePrevStep(base, m, l),
                        (m: Memory, l: Local) => MergeNextStep(base, n, m, l)])
  }

  // ------------------------------------------------------- nr_free_pages

  /** The counter is read. */
  ghost function CountStep(m: Memory, l: Local): (Memory, Local) {
    (m, l.(count := m.f.nrFree))
  }

  ghost function CountBody(): Body {
    Op(ENTRY, [(m: Memory, l: Local) => CountStep(m, l)])
  }

  // ------------------------------------------------------- a body that runs undisturbed

  lemma {:induction false} RunTwo<S, L>(op: Op<S, L>, s: S)
    requires |op.steps| == 2
    ensures RunOp(op, 2, s) ==
            var (s1, l1) := op.steps[0](s, op.start);
            op.steps[1](s1, l1)
  {
    assert RunOp(op, 0, s) == (s, op.start);
    assert RunOp(op, 1, s) == op.steps[0](s, op.start);
  }

  lemma {:induction false} RunThree<S, L>(op: Op<S, L>, s: S)
    requires |op.steps| == 3
    ensures RunOp(op, 3, s) ==
            var (s1, l1) := op.steps[0](s, op.start);
            var (s2, l2) := op.steps[1](s1, l1);
            op.steps[2](s2, l2)
  {
    assert RunOp(op, 0, s) == (s, op.start);
    assert RunOp(op, 1, s) == op.steps[0](s, op.start);
    var (s1, l1) := op.steps[0](s, op.start);
    assert RunOp(op, 2, s) == op.steps[1](s1, l1);
  }

  /** A search that found block `k`. */
  lemma {:induction false} FoundCarved(policy: Policy, n: nat, m: Memory, l: Local)
    requires Good(m) && 0 < n <= m.f.nrFree && Found(policy, m.f, m.order, n, l.k) && l.page == Some(m.order[l.k])
    ensures var m' := CarveStep(n, m, l).0;
            && Good(m') && CarveStep(n, m, l).1 == l && Answers(policy, m.f, m.order, n, l.page)
            && Next(policy, Abstract(m), Allocated(n, l.k), Abstract(m'))
  {
    assert Blocks(m.f, m.order)[l.k].size >= n;
    CarveWellFormed(m.f, m.order, l.k, n);
  }

  /** A search that found none. */
  lemma {:induction false} NoneSatisfies(policy: Policy, n: nat, m: Memory)
    requires Good(m) && 0 < n && (n > m.f.nrFree || forall k: nat :: !Found(policy, m.f, m.order, n, k))
    ensures !Satisfiable(Blocks(m.f, m.order), n)
  {
    var bs := Blocks(m.f, m.order);
    SizesTotal(bs);
    if Satisfiable(bs, n) {
      ChosenExists(policy, bs, n);
      var k: nat :| Chosen(policy, bs, n, k);
      assert Found(policy, m.f, m.order, n, k);
    }
  }

  /** An allocation is a step of the abstract allocator, and its answer is the page handed out. */
  lemma {:induction false} AllocBodyWorks(policy: Policy, n: nat, m: Memory)
    requires Good(m) && 0 < n
    ensures var (m', l) := RunOp(AllocBody(policy, n), 2, m);
            && Good(m') && Answers(policy, m.f, m.order, n, l.page)
            && (l.page.None? ==> Next(policy, Abstract(m), Refused(n), Abstract(m')))
            && (l.page.Some? ==> exists k: nat :: Next(policy, Abstract(m), Allocated(n, k), Abstract(m'))
                                                  && k < |m.order| && l.page.value == m.order[k])
  {
    RunTwo(AllocBody(policy, n), m);
    var (m1, l1) := SearchStep(policy, n, m, ENTRY);
    if l1.page.Some? {
      FoundCarved(policy, n, m, l1);
    } else {
      NoneSatisfies(policy, n, m);
    }
  }

  /** free_pages as written leaves exactly what it leaves when it runs alone. */
  lemma {:induction false} FreeBodyRuns(base: nat, n: nat, m: Memory)
    requires Releasable(m, base, n)
    ensures var g := WrittenRelease(m.f, m.order, base, n);
            RunOp(FreeBody(true, base, n), 3, m).0 == Memory(g, OrderOf(g, m.order), m.held - Range(base, n))
  {
    RunThree(FreeBody(true, base, n), m);
    UnbrokenSized(m.f, m.order, base, n);
  }

  /** It is a step of the abstract allocator exactly when the list is empty or a free block lies above the range. */
  lemma {:induction false} FreeBodyWorks(policy: Policy, base: nat, n: nat, m: Memory)
    requires Releasable(m, base, n)
    ensures var m' := RunOp(FreeBody(true, base, n), 3, m).0;
            && (Sound(m'.f) <==> Sheltered(m.order, base))
            && (Sheltered(m.order, base) ==>
                  Good(m') && Next(policy, Abstract(m), Released(base, n), Abstract(m')))
  {
    FreeBodyRuns(base, n, m);
    var o := ReleaseAsWritten(m.f, m.order, base, n);
    if Sheltered(m.order, base) {
      SameBlocks(WrittenRelease(m.f, m.order, base, n), o, m.order);
    }
  }

  /** The order found is the one there is. */
  lemma {:induction false} SameBlocks(f: Frames, o: seq<nat>, order: seq<nat>)
    requires WellFormed(f, o)
    ensures WellFormed(f, OrderOf(f, order)) && OrderOf(f, order) == o
  {
    ForwardUnique(f.links, f.Head(), o, OrderOf(f, order));
  }

  /** All that the repaired free_pages does. */
  ghost function RepairedRelease(f: Frames, order: seq<nat>, base: nat, n: nat): Frames
    requires WellFormed(f, order) && 0 < n && base + n <= |f.property|
    requires Range(base, n) !! Pages(Blocks(f, order))
  {
    LinkedSized(f, order, base, n);
    var g := Linked(f, order, base, n, false);
    MergeNext(MergePrev(g, base), MergedBase(g, base))
  }

  lemma {:induction false} LinkedSized(f: Frames, order: seq<nat>, base: nat, n: nat)
    requires WellFormed(f, order) && 0 < n && base + n <= |f.property|
    requires Range(base, n) !! Pages(Blocks(f, order))
    ensures var g := Linked(f, order, base, n, false);
            Sized(g) && base < |g.property| && Sized(MergePrev(g, base)) && MergedBase(g, base) < |MergePrev(g, base).property|
  {
    var _ := ReleaseWellFormed(f, order, base, n);
  }

  lemma {:induction false} RepairedBodyRuns(base: nat, n: nat, m: Memory)
    requires Releasable(m, base, n)
    ensures var g := RepairedRelease(m.f, m.order, base, n);
            RunOp(FreeBody(false, base, n), 3, m).0 == Memory(g, OrderOf(g, m.order), m.held - Range(base, n))
  {
    RunThree(FreeBody(false, base, n), m);
    LinkedSized(m.f, m.order, base, n);
  }

  /** The repaired release always is such a step. */
  lemma {:induction false} RepairedBodyWorks(policy: Policy, base: nat, n: nat, m: Memory)
    requires Releasable(m, base, n)
    ensures var m' := RunOp(FreeBody(false, base, n), 3, m).0;
            Good(m') && Next(policy, Abstract(m), Released(base, n), Abstract(m'))
  {
    RepairedBodyRuns(base, n, m);
    var o := ReleaseWellFormed(m.f, m.order, base, n);
    SameBlocks(RepairedRelease(m.f, m.order, base, n), o, m.order);
    GivePages(Blocks(m.f, m.order), base, n);
  }

  /** Reading the counter changes nothing and tells the number of free pages. */
  lemma {:induction false} CountBodyWorks(managed: set<nat>, m: Memory)
    requires Good(m) && Safe(managed, Abstract(m))
    ensures var (m', l) := RunOp(CountBody(), 1, m);
            m' == m && l.count == |managed - m.held|
  {
    assert RunOp(CountBody(), 0, m) == (m, ENTRY);
    assert RunOp(CountBody(), 1, m) == CountStep(m, ENTRY);
    assert Pages(Blocks(m.f, m.order)) == managed - m.held;
  }

  // ------------------------------------------------------- runs with interrupts

  /** A call of alloc_pages, free_pages or nr_free_pages. */
  datatype Call = AllocCall(n: nat) | FreeCall(base: nat, n: nat) | CountCall

  ghost function BodyOf(policy: Policy, written: bool, call: Call): Body {
    match call
    case AllocCall(n) => AllocBody(policy, n)
    case FreeCall(base, n) => FreeBody(written, base, n)
    case CountCall => CountBody()
  }

  /**
    What the allocator asks of its callers: a positive number of pages, and pages given back that are held.  The
    release as written moreover needs an empty list or a free block above the range.
   */
  ghost predicate Allowed(written: bool, m: Memory, call: Call) {
    match call
    case AllocCall(n) => n > 0
    case FreeCall(base, n) => n > 0 && Range(base, n) <= m.held && (written ==> Sheltered(m.order, base))
    case CountCall => true
  }

  /** The memory holds a list of pages of the managed range, and all pages are accounted for. */
  ghost predicate Sane(start: nat, size: nat, m: Memory) {
    Good(m) && start + size <= |m.f.property| && Safe(Range(start, size), Abstract(m))
  }

  lemma {:induction false} HeldReleasable(start: nat, size: nat, m: Memory, base: nat, n: nat)
    requires Sane(start, size, m) && 0 < n && Range(base, n) <= m.held
    ensures Releasable(m, base, n)
  {
    assert Within(base + n - 1, base, n) && base + n - 1 in Range(base, n);
    assert base + n - 1 in Range(start, size);
  }

  /** The number of pages does not change. */
  lemma {:induction false} AllocSize(policy: Policy, n: nat, m: Memory)
    requires Good(m) && 0 < n
    ensures |RunOp(AllocBody(policy, n), 2, m).0.f.property| == |m.f.property|
  {
    RunTwo(AllocBody(policy, n), m);
  }

  lemma {:induction false} MergedSize(f: Frames, base: nat)
    requires Sized(f) && base < |f.property| && Sized(MergePrev(f, base)) && MergedBase(f, base) < |MergePrev(f, base).property|
    ensures |MergeNext(MergePrev(f, base), MergedBase(f, base)).property| == |f.property|
  {
  }

  lemma {:induction false} FreeSize(written: bool, base: nat, n: nat, m: Memory)
    requires Releasable(m, base, n)
    ensures |RunOp(FreeBody(written, base, n), 3, m).0.f.property| == |m.f.property|
  {
    if written {
      FreeBodyRuns(base, n, m);
      UnbrokenSized(m.f, m.order, base, n);
      MergedSize(LinkedUnbroken(m.f, m.order, base, n), base);
    } else {
      RepairedBodyRuns(base, n, m);
      LinkedSized(m.f, m.order, base, n);
      MergedSize(Linked(m.f, m.order, base, n, false), base);
    }
  }

  lemma {:induction false} AllocSane(policy: Policy, start: nat, size: nat, m: Memory, n: nat)
    requires Sane(start, size, m) && 0 < n
    ensures var (m', l) := RunOp(AllocBody(policy, n), 2, m);
            && Sane(start, size, m')
            && (l.page.Some? ==> Range(l.page.value, n) !! m.held && m'.held == m.held + Range(l.page.value, n))
  {
    AllocSize(policy, n, m);
    AllocBodyWorks(policy, n, m);
    var (m', l) := RunOp(AllocBody(policy, n), 2, m);
    if l.page.None? {
      NextSafe(policy, Range(start, size), Abstract(m), Refused(n), Abstract(m'));
    } else {
      var k: nat :| Next(policy, Abstract(m), Allocated(n, k), Abstract(m')) && k < |m.order| && l.page.value == m.order[k];
      NextSafe(policy, Range(start, size), Abstract(m), Allocated(n, k), Abstract(m'));
    }
  }

  lemma {:induction false} FreeSane(policy: Policy, written: bool, start: nat, size: nat, m: Memory, base: nat, n: nat)
    requires Sane(start, size, m) && Allowed(written, m, FreeCall(base, n))
    ensures Sane(start, size, RunOp(FreeBody(written, base, n), 3, m).0)
  {
    HeldReleasable(start, size, m, base, n);
    FreeSize(written, base, n, m);
    if written {
      FreeBodyWorks(policy, base, n, m);
    } else {
      RepairedBodyWorks(policy, base, n, m);
    }
    NextSafe(policy, Range(start, size), Abstract(m), Released(base, n), Abstract(RunOp(FreeBody(written, base, n), 3, m).0));
  }

  /** A call that is allowed, run undisturbed, keeps everything in order; what it hands out nobody holds. */
  lemma {:induction false} BodySane(policy: Policy, written: bool, start: nat, size: nat, m: Memory, call: Call)
    requires Sane(start, size, m) && Allowed(written, m, call)
    ensures var op := BodyOf(policy, written, call);
            var (m', l) := RunOp(op, |op.steps|, m);
            && Sane(start, size, m')
            && (call.AllocCall? && l.page.Some? ==>
                  Range(l.page.value, call.n) !! m.held && m'.held == m.held + Range(l.page.value, call.n))
            && (call.CountCall? ==> m' == m && l.count == |Range(start, size) - m.held|)
  {
    match call
    case AllocCall(n) => AllocSane(policy, start, size, m, n);
    case FreeCall(base, n) => FreeSane(policy, written, start, size, m, base, n);
    case CountCall => CountBodyWorks(Range(start, size), m);
  }

  ghost predicate ObeyedAt(policy: Policy, written: bool, init: Memory, history: seq<Done<Memory, Local>>, i: nat)
    requires i < |history|
  {
    exists call :: history[i].op == BodyOf(policy, written, call) && Allowed(written, After(init, history[..i]), call)
  }

  /** Every completed body was a call that was allowed where it took effect. */
  ghost predicate Obeyed(policy: Policy, written: bool, init: Memory, history: seq<Done<Memory, Local>>) {
    forall i :: 0 <= i < |history| ==> ObeyedAt(policy, written, init, history, i)
  }

  /** What every body in the history keeps holds all along. */
  lemma {:induction false} HistoryKeeps(keep: Memory -> bool, init: Memory, history: seq<Done<Memory, Local>>, i: nat)
    requires keep(init) && i <= |history|
    requires forall j: nat :: j < i && keep(After(init, history[..j])) ==> keep(After(init, history[..j + 1]))
    ensures keep(After(init, history[..i]))
    decreases i
  {
    if i > 0 {
      HistoryKeeps(keep, init, history, i - 1);
      var j: nat := i - 1;
      assert keep(After(init, history[..j]));
    }
  }

  lemma {:induction false} AfterNext(init: Memory, history: seq<Done<Memory, Local>>, i: nat)
    requires i < |history|
    ensures After(init, history[..i + 1]) == RunOp(history[i].op, |history[i].op.steps|, After(init, history[..i])).0
  {
    assert history[..i + 1][..i] == history[..i];
  }

  lemma {:induction false} StepSane(policy: Policy, written: bool, start: nat, size: nat, init: Memory,
                                    history: seq<Done<Memory, Local>>, i: nat)
    requires Obeyed(policy, written, init, history) && i < |history| && Sane(start, size, After(init, history[..i]))
    ensures Sane(start, size, After(init, history[..i + 1]))
  {
    assert ObeyedAt(policy, written, init, history, i);
    var m := After(init, history[..i]);
    var call :| history[i].op == BodyOf(policy, written, call) && Allowed(written, m, call);
    BodySane(policy, written, start, size, m, call);
    AfterNext(init, history, i);
  }

  lemma {:induction false} HistorySane(policy: Policy, written: bool, start: nat, size: nat, init: Memory,
                                       history: seq<Done<Memory, Local>>, i: nat)
    requires Sane(start, size, init) && Obeyed(policy, written, init, history) && i <= |history|
    ensures Sane(start, size, After(init, history[..i]))
  {
    var keep := (m: Memory) => Sane(start, size, m);
    forall j: nat | j < i && keep(After(init, history[..j])) ensures keep(After(init, history[..j + 1])) {
      StepSane(policy, written, start, size, init, history, j);
    }
    HistoryKeeps(keep, init, history, i);
  }

  /**
    However interrupts and handlers that allocate themselves are interleaved: if callers keep to what is asked of
    them, then whenever no allocator body is under way the free list is canonical, the counter is right, and free
    and held pages split the managed range.  For the release as written (`written`) it is asked that each release
    finds an empty list or a free block above it; the repaired release does without.
   */
  lemma {:induction false} InterruptedSafe(policy: Policy, written: bool, start: nat, size: nat,
                                           run: seq<Interrupts.State<Memory, Local>>, steps: seq<Step<Memory, Local>>,
                                           sie: bool, init: Memory, i: nat)
    requires Interrupts.IsRun(run, steps) && i < |run| && run[0] == Start(sie, init) && Sane(start, size, init)
    requires Obeyed(policy, written, init, run[i].history)
    requires forall f, j :: 0 <= f < |run[i].frames| && 0 <= j < |run[i].frames[f]| ==> !Busy(run[i].frames[f][j])
    ensures Sane(start, size, run[i].shared)
  {
    var h := run[i].history;
    BodiesAtomic(run, steps, sie, init, i);
    HistorySane(policy, written, start, size, init, h, |h|);
    assert h[..|h|] == h;
  }

  /** In such a run no allocation is answered with a page that is still held. */
  lemma {:induction false} InterruptedDisjoint(policy: Policy, written: bool, start: nat, size: nat,
                                               run: seq<Interrupts.State<Memory, Local>>, steps: seq<Step<Memory, Local>>,
                                               sie: bool, init: Memory, i: nat, j: nat, n: nat)
    requires Interrupts.IsRun(run, steps) && i < |run| && run[0] == Start(sie, init) && Sane(start, size, init)
    requires Obeyed(policy, written, init, run[i].history) && j < |run[i].history| && n > 0
    requires run[i].history[j].op == AllocBody(policy, n) && run[i].history[j].result.page.Some?
    ensures Range(run[i].history[j].result.page.value, n) !! After(init, run[i].history[..j]).held
  {
    var h := run[i].history;
    RunInv(run, steps, sie, init, i);
    HistorySane(policy, written, start, size, init, h, j);
    BodySane(policy, written, start, size, After(init, h[..j]), AllocCall(n));
  }

  /** In such a run nr_free_pages answers with the number of managed pages that nobody holds. */
  lemma {:induction false} InterruptedCount(policy: Policy, written: bool, start: nat, size: nat,
                                            run: seq<Interrupts.State<Memory, Local>>, steps: seq<Step<Memory, Local>>,
                                            sie: bool, init: Memory, i: nat, j: nat)
    requires Interrupts.IsRun(run, steps) && i < |run| && run[0] == Start(sie, init) && Sane(start, size, init)
    requires Obeyed(policy, written, init, run[i].history) && j < |run[i].history|
    requires run[i].history[j].op == CountBody()
    ensures run[i].history[j].result.count == |Range(start, size) - After(init, run[i].history[..j]).held|
  {
    var h := run[i].history;
    RunInv(run, steps, sie, init, i);
    HistorySane(policy, written, start, size, init, h, j);
    BodySane(policy, written, start, size, After(init, h[..j]), CountCall);
  }
}
