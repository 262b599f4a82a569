/**
  lab3/kern/sync/sync.h and the brackets around the page allocator in lab3/kern/mm/pmm.c, as a machine of one
  processor whose interrupts may come between any two steps.  What runs is a stack of frames: the interrupted
  code at the bottom and handlers above it.  A frame holds the brackets it is in, outermost first.

  Reading the SIE bit and clearing it are two steps.  A handler starts with SIE clear and returns with SIE set,
  as it was when the interrupt was taken; in between it may open brackets and, outside them, set and clear SIE.
 */
module Interrupts {

  /** An allocator body: a run of steps on the shared state `S` and the locals `L`. */
  datatype Op<!S, !L> = Op(start: L, steps: seq<(S, L) -> (S, L)>)

  /** The first `k` steps, run without interruption. */
  function RunOp<S, L>(op: Op<S, L>, k: nat, s: S): (S, L)
    requires k <= |op.steps|
  {
    if k == 0 then (s, op.start)
    else
      var (t, l) := RunOp(op, k - 1, s);
      op.steps[k - 1](t, l)
  }

  /** What a bracket is put around: an allocator body at its `k`-th step, or other code, which may open brackets. */
  datatype Body<!S, !L> = Other | Alloc(op: Op<S, L>, k: nat, local: L)

  /** Where a bracket is: about to read SIE, about to clear it having read 1, or in its body. */
  datatype Pc = Reading | Clearing | Inside

  /** `flag` is what __intr_save returned; `entry` is SIE when the bracket was opened. */
  datatype Bracket<!S, !L> = Bracket(pc: Pc, entry: bool, flag: bool, body: Body<S, L>)

  /** A completed allocator body and the locals it ended with. */
  datatype Done<!S, !L> = Done(op: Op<S, L>, result: L)

  datatype State<!S, !L> = State(sie: bool, frames: seq<seq<Bracket<S, L>>>, shared: S, history: seq<Done<S, L>>)

  datatype Step<!S, !L> =
    | Interrupt | Return | Assign(sie: bool)
    | OpenOther | OpenAlloc(op: Op<S, L>)
    | Read | Clear | Advance | Close

  // ------------------------------------------------------- steps

  function Top<S, L>(s: State<S, L>): seq<Bracket<S, L>>
    requires s.frames != []
  {
    s.frames[|s.frames| - 1]
  }

  function Last<S, L>(f: seq<Bracket<S, L>>): Bracket<S, L>
    requires f != []
  {
    f[|f| - 1]
  }

  function WithTop<S, L>(s: State<S, L>, f: seq<Bracket<S, L>>): State<S, L>
    requires s.frames != []
  {
    s.(frames := s.frames[..|s.frames| - 1] + [f])
  }

  function WithLast<S, L>(f: seq<Bracket<S, L>>, b: Bracket<S, L>): seq<Bracket<S, L>>
    requires f != []
  {
    f[..|f| - 1] + [b]
  }

  /** Code that may open a bracket: outside all brackets, or in one around other code. */
  predicate MayOpen<S, L>(f: seq<Bracket<S, L>>) {
    f == [] || (Last(f).pc == Inside && Last(f).body.Other?)
  }

  predicate Can<S, L>(s: State<S, L>, step: Step<S, L>) {
    && s.frames != []
    && var f := Top(s);
       match step
       case Interrupt => s.sie
       case Return => |s.frames| > 1 && f == []
       case Assign(_) => f == []
       case OpenOther => MayOpen(f)
       case OpenAlloc(_) => MayOpen(f)
       case Read => f != [] && Last(f).pc == Reading
       case Clear => f != [] && Last(f).pc == Clearing
       case Advance => f != [] && Last(f).pc == Inside && Last(f).body.Alloc? && Last(f).body.k < |Last(f).body.op.steps|
       case Close => f != [] && Last(f).pc == Inside && (Last(f).body.Alloc? ==> Last(f).body.k == |Last(f).body.op.steps|)
  }

  function Opened<S, L>(s: State<S, L>, body: Body<S, L>): State<S, L>
    requires s.frames != []
  {
    WithTop(s, Top(s) + [Bracket(Reading, s.sie, false, body)])
  }

  /** The body goes one step on. */
  function Advanced<S, L>(s: State<S, L>): State<S, L>
    requires Can(s, Advance)
  {
    var b := Last(Top(s));
    var (t, l) := b.body.op.steps[b.body.k](s.shared, b.body.local);
    WithTop(s, WithLast(Top(s), b.(body := b.body.(k := b.body.k + 1, local := l)))).(shared := t)
  }

  /** __intr_restore, and the end of the bracket. */
  function Closed<S, L>(s: State<S, L>): State<S, L>
    requires Can(s, Close)
  {
    var f, b := Top(s), Last(Top(s));
    WithTop(s, f[..|f| - 1]).(
      sie := b.flag || s.sie,
      history := if b.body.Alloc? then s.history + [Done(b.body.op, b.body.local)] else s.history)
  }

  function Do<S, L>(s: State<S, L>, step: Step<S, L>): State<S, L>
    requires Can(s, step)
  {
    match step
    case Interrupt => s.(sie := false, frames := s.frames + [[]])
    case Return => s.(sie := true, frames := s.frames[..|s.frames| - 1])
    case Assign(v) => s.(sie := v)
    case OpenOther => Opened(s, Other)
    case OpenAlloc(op) => Opened(s, Alloc(op, 0, op.start))
    case Read =>
      var b := Last(Top(s));
      WithTop(s, WithLast(Top(s), if s.sie then b.(pc := Clearing) else b.(pc := Inside, flag := false)))
    case Clear => WithTop(s, WithLast(Top(s), Last(Top(s)).(pc := Inside, flag := true))).(sie := false)
    case Advance => Advanced(s)
    case Close => Closed(s)
  }

  // ------------------------------------------------------- sequential executions

  /** The shared state after the completed bodies, one after the other. */
  function After<S, L>(init: S, history: seq<Done<S, L>>): S {
    if history == [] then init
    else
      var last := history[|history| - 1];
      RunOp(last.op, |last.op.steps|, After(init, history[..|history| - 1])).0
  }

  /** Every body ended with the locals it has when it is run at its place in the sequence. */
  ghost predicate Results<S, L>(init: S, history: seq<Done<S, L>>) {
    forall i :: 0 <= i < |history| ==>
      history[i].result == RunOp(history[i].op, |history[i].op.steps|, After(init, history[..i])).1
  }

  // ------------------------------------------------------- the invariant

  ghost predicate Fresh<S, L>(body: Body<S, L>) {
    body.Alloc? ==> body.k == 0 && body.local == body.op.start
  }

  /** A frame that was interrupted is in no bracket, or in one that has not cleared SIE yet. */
  ghost predicate Suspended<S, L>(f: seq<Bracket<S, L>>) {
    f == [] || (|f| == 1 && f[0].pc != Inside && f[0].entry && Fresh(f[0].body))
  }

  /** A bracket around others. */
  ghost predicate Outer<S, L>(b: Bracket<S, L>) {
    b.pc == Inside && b.body.Other? && b.flag == b.entry
  }

  /** The innermost bracket of the running frame. */
  ghost predicate Innermost<S, L>(b: Bracket<S, L>, sie: bool) {
    match b.pc
    case Reading => sie == b.entry && Fresh(b.body)
    case Clearing => sie && b.entry && Fresh(b.body)
    case Inside => !sie && b.flag == b.entry && (b.body.Alloc? ==> b.body.k <= |b.body.op.steps|)
  }

  ghost predicate Running<S, L>(f: seq<Bracket<S, L>>, sie: bool) {
    && (forall j :: 0 <= j < |f| - 1 ==> Outer(f[j]))
    && (forall j :: 1 <= j < |f| ==> !f[j].entry)
    && (|f| > 1 ==> !sie)
    && (f != [] ==> Innermost(Last(f), sie))
  }

  /** A bracket whose allocator body has begun. */
  predicate Busy<S, L>(b: Bracket<S, L>) { b.pc == Inside && b.body.Alloc? }

  /** The shared state is that of the completed bodies, but for the steps of the body that is running. */
  ghost predicate Consistent<S, L>(s: State<S, L>, init: S)
    requires s.frames != [] && Running(Top(s), s.sie)
  {
    var f, base := Top(s), After(init, s.history);
    if f != [] && Busy(Last(f)) then (s.shared, Last(f).body.local) == RunOp(Last(f).body.op, Last(f).body.k, base)
    else s.shared == base
  }

  ghost predicate Inv<S, L>(s: State<S, L>, init: S) {
    && s.frames != []
    && (forall i :: 0 <= i < |s.frames| - 1 ==> Suspended(s.frames[i]))
    && Running(Top(s), s.sie) && Consistent(s, init) && Results(init, s.history)
  }

  function Start<S, L>(sie: bool, init: S): State<S, L> {
    State(sie, [[]], init, [])
  }

  lemma {:induction false} StartInv<S, L>(sie: bool, init: S)
    ensures Inv<S, L>(Start(sie, init), init)
  {
  }

  // ------------------------------------------------------- every step keeps it

  /** Only code in no bracket, or in one that has not cleared SIE, can be interrupted; its read of SIE stays true. */
  lemma {:induction false} InterruptKeeps<S, L>(s: State<S, L>, init: S)
    requires Inv(s, init) && Can(s, Interrupt)
    ensures Inv(Do(s, Interrupt), init)
  {
    assert Suspended(Top(s));
  }

  lemma {:induction false} ReturnKeeps<S, L>(s: State<S, L>, init: S)
    requires Inv(s, init) && Can(s, Return)
    ensures Inv(Do(s, Return), init)
  {
    var n := |s.frames|;
    assert Suspended(s.frames[n - 2]);
    assert Top(Do(s, Return)) == s.frames[n - 2];
  }

  lemma {:induction false} OpenKeeps<S, L>(s: State<S, L>, init: S, body: Body<S, L>)
    requires Inv(s, init) && MayOpen(Top(s)) && Fresh(body)
    ensures Inv(Opened(s, body), init)
  {
    var f, g := Top(s), Top(Opened(s, body));
    assert g == f + [Bracket(Reading, s.sie, false, body)];
    forall j | 0 <= j < |g| - 1 ensures Outer(g[j]) {
      assert g[j] == f[j];
    }
    forall j | 1 <= j < |g| ensures !g[j].entry {
      if j < |f| { assert g[j] == f[j]; }
    }
  }

  /** Replacing the innermost bracket. */
  lemma {:induction false} LastKeeps<S, L>(f: seq<Bracket<S, L>>, b: Bracket<S, L>, sie: bool, sie': bool)
    requires Running(f, sie) && f != [] && b.entry == Last(f).entry && Innermost(b, sie')
    requires |f| > 1 ==> !sie'
    ensures Running(WithLast(f, b), sie')
  {
    var g := WithLast(f, b);
    forall j | 0 <= j < |g| - 1 ensures Outer(g[j]) { assert g[j] == f[j]; }
    forall j | 1 <= j < |g| ensures !g[j].entry {
      assert g[j].entry == f[j].entry;
    }
  }

  lemma {:induction false} ReadKeeps<S, L>(s: State<S, L>, init: S)
    requires Inv(s, init) && Can(s, Read)
    ensures Inv(Do(s, Read), init)
  {
    var b := Last(Top(s));
    var b' := if s.sie then b.(pc := Clearing) else b.(pc := Inside, flag := false);
    LastKeeps(Top(s), b', s.sie, s.sie);
    assert Top(Do(s, Read)) == WithLast(Top(s), b');
  }

  lemma {:induction false} ClearKeeps<S, L>(s: State<S, L>, init: S)
    requires Inv(s, init) && Can(s, Clear)
    ensures Inv(Do(s, Clear), init)
  {
    var b' := Last(Top(s)).(pc := Inside, flag := true);
    LastKeeps(Top(s), b', s.sie, false);
    assert Top(Do(s, Clear)) == WithLast(Top(s), b');
  }

  lemma {:induction false} AdvanceKeeps<S, L>(s: State<S, L>, init: S)
    requires Inv(s, init) && Can(s, Advance)
    ensures Inv(Do(s, Advance), init)
  {
    var b := Last(Top(s));
    var (t, l) := b.body.op.steps[b.body.k](s.shared, b.body.local);
    var b' := b.(body := b.body.(k := b.body.k + 1, local := l));
    LastKeeps(Top(s), b', s.sie, s.sie);
    assert Top(Do(s, Advance)) == WithLast(Top(s), b');
  }

  lemma {:induction false} ResultsSnoc<S, L>(init: S, history: seq<Done<S, L>>, d: Done<S, L>)
    requires Results(init, history) && d.result == RunOp(d.op, |d.op.steps|, After(init, history)).1
    ensures Results(init, history + [d])
    ensures After(init, history + [d]) == RunOp(d.op, |d.op.steps|, After(init, history)).0
  {
    var h := history + [d];
    assert h[..|history|] == history;
    forall i | 0 <= i < |h| ensures h[i].result == RunOp(h[i].op, |h[i].op.steps|, After(init, h[..i])).1 {
      assert h[..i] == history[..i];
    }
  }

  /** Closing a bracket puts SIE back to what it was when the bracket was opened. */
  lemma {:induction false} CloseRestores<S, L>(s: State<S, L>, init: S)
    requires Inv(s, init) && Can(s, Close)
    ensures Do(s, Close).sie == Last(Top(s)).entry
  {
  }

  lemma {:induction false} CloseRunning<S, L>(f: seq<Bracket<S, L>>, sie: bool)
    requires Running(f, sie) && f != [] && Last(f).pc == Inside
    ensures Running(f[..|f| - 1], Last(f).entry) && (|f| > 1 ==> !Busy(Last(f[..|f| - 1])))
  {
    var g := f[..|f| - 1];
    if |f| > 1 {
      assert Last(g) == f[|f| - 2] && Outer(f[|f| - 2]);
      assert !f[|f| - 1].entry;
    }
  }

  lemma {:induction false} CloseKeeps<S, L>(s: State<S, L>, init: S)
    requires Inv(s, init) && Can(s, Close)
    ensures Inv(Do(s, Close), init)
  {
    var f, b := Top(s), Last(Top(s));
    CloseRunning(f, s.sie);
    CloseRestores(s, init);
    assert Top(Do(s, Close)) == f[..|f| - 1];
    if b.body.Alloc? {
      ResultsSnoc(init, s.history, Done(b.body.op, b.body.local));
    }
  }

  lemma {:induction false} StepKeeps<S, L>(s: State<S, L>, step: Step<S, L>, init: S)
    requires Inv(s, init) && Can(s, step)
    ensures Inv(Do(s, step), init)
  {
    match step
    case Interrupt => InterruptKeeps(s, init);
    case Return => ReturnKeeps(s, init);
    case Assign(_) =>
    case OpenOther => OpenKeeps(s, init, Other);
    case OpenAlloc(op) => OpenKeeps(s, init, Alloc(op, 0, op.start));
    case Read => ReadKeeps(s, init);
    case Clear => ClearKeeps(s, init);
    case Advance => AdvanceKeeps(s, init);
    case Close => CloseKeeps(s, init);
  }

  // ------------------------------------------------------- runs

  ghost predicate IsRun<S, L>(run: seq<State<S, L>>, steps: seq<Step<S, L>>) {
    && |run| == |steps| + 1
    && forall i :: 0 <= i < |steps| ==> Can(run[i], steps[i]) && run[i + 1] == Do(run[i], steps[i])
  }

  lemma {:induction false} RunInv<S, L>(run: seq<State<S, L>>, steps: seq<Step<S, L>>, sie: bool, init: S, n: nat)
    requires IsRun(run, steps) && run[0] == Start(sie, init) && n < |run|
    ensures Inv(run[n], init)
  {
    if n == 0 {
      StartInv<S, L>(sie, init);
    } else {
      RunInv(run, steps, sie, init, n - 1);
      assert run[n - 1 + 1] == Do(run[n - 1], steps[n - 1]);
      StepKeeps(run[n - 1], steps[n - 1], init);
    }
  }

  /** At no time of any run are two allocator bodies under way, and while one is, no interrupt can come. */
  lemma {:induction false} BodiesExclude<S, L>(run: seq<State<S, L>>, steps: seq<Step<S, L>>, sie: bool, init: S, n: nat,
                                               i: nat, j: nat)
    requires IsRun(run, steps) && run[0] == Start(sie, init) && n < |run|
    requires i < |run[n].frames| && j < |run[n].frames[i]| && Busy(run[n].frames[i][j])
    ensures !run[n].sie && i == |run[n].frames| - 1 && j == |run[n].frames[i]| - 1
  {
    RunInv(run, steps, sie, init, n);
    var s := run[n];
    assert i < |s.frames| - 1 ==> Suspended(s.frames[i]);
    assert i == |s.frames| - 1 && j < |Top(s)| - 1 ==> Outer(s.frames[i][j]);
  }

  /** The shared state and the results are those of the completed bodies run one after the other. */
  lemma {:induction false} BodiesAtomic<S, L>(run: seq<State<S, L>>, steps: seq<Step<S, L>>, sie: bool, init: S, n: nat)
    requires IsRun(run, steps) && run[0] == Start(sie, init) && n < |run|
    requires forall i, j :: 0 <= i < |run[n].frames| && 0 <= j < |run[n].frames[i]| ==> !Busy(run[n].frames[i][j])
    ensures run[n].shared == After(init, run[n].history) && Results(init, run[n].history)
  {
    RunInv(run, steps, sie, init, n);
    var f := Top(run[n]);
    assert f != [] ==> !Busy(run[n].frames[|run[n].frames| - 1][|f| - 1]);
  }

  /** A bracket that is closed leaves SIE as it was when that bracket was opened, however deep it is nested. */
  lemma {:induction false} BracketsRestore<S, L>(run: seq<State<S, L>>, steps: seq<Step<S, L>>, sie: bool, init: S,
                                                 open: nat, close: nat, frame: nat, depth: nat)
    requires IsRun(run, steps) && run[0] == Start(sie, init) && open < close < |steps|
    requires steps[open].OpenOther? || steps[open].OpenAlloc?
    requires frame == |run[open].frames| - 1 && depth == |Top(run[open])|
    requires forall n :: open < n <= close ==> |run[n].frames| > frame && |run[n].frames[frame]| > depth
    requires steps[close].Close? && |run[close].frames| == frame + 1 && |Top(run[close])| == depth + 1
    ensures run[close + 1].sie == run[open].sie
  {
    EntryKept(run, steps, open, close, frame, depth);
    RunInv(run, steps, sie, init, close);
    assert run[close + 1] == Do(run[close], steps[close]);
    CloseRestores(run[close], init);
  }

  /** While a bracket is open, what it noted on entry does not change. */
  lemma {:induction false} EntryKept<S, L>(run: seq<State<S, L>>, steps: seq<Step<S, L>>, open: nat, n: nat, frame: nat, depth: nat)
    requires IsRun(run, steps) && open < n < |run|
    requires steps[open].OpenOther? || steps[open].OpenAlloc?
    requires frame == |run[open].frames| - 1 && depth == |Top(run[open])|
    requires forall m :: open < m <= n ==> |run[m].frames| > frame && |run[m].frames[frame]| > depth
    ensures run[n].frames[frame][depth].entry == run[open].sie
  {
    assert run[n - 1 + 1] == Do(run[n - 1], steps[n - 1]);
    if n > open + 1 {
      EntryKept(run, steps, open, n - 1, frame, depth);
      EntryStep(run[n - 1], steps[n - 1], frame, depth);
    }
  }

  lemma {:induction false} EntryStep<S, L>(s: State<S, L>, step: Step<S, L>, frame: nat, depth: nat)
    requires Can(s, step) && frame < |s.frames| && depth < |s.frames[frame]|
    requires frame < |Do(s, step).frames| && depth < |Do(s, step).frames[frame]|
    ensures Do(s, step).frames[frame][depth].entry == s.frames[frame][depth].entry
  {
  }

  // ------------------------------------------------------- every bracket gets through

  /** The steps of a bracket itself: it reads SIE, clears it, goes on in its body, and ends. */
  predicate Own<S, L>(step: Step<S, L>) { step.Read? || step.Clear? || step.Advance? || step.Close? }

  /** From `s`, `steps` of the innermost bracket and no others lead through the states `run`. */
  ghost predicate OwnRun<S, L>(s: State<S, L>, run: seq<State<S, L>>, steps: seq<Step<S, L>>) {
    IsRun(run, steps) && run[0] == s && forall i :: 0 <= i < |steps| ==> Own(steps[i])
  }

  lemma {:induction false} StepThenRun<S, L>(s: State<S, L>, step: Step<S, L>, run: seq<State<S, L>>, steps: seq<Step<S, L>>)
    requires Can(s, step) && Own(step) && OwnRun(Do(s, step), run, steps)
    ensures OwnRun(s, [s] + run, [step] + steps) && Final([s] + run) == Final(run)
  {
    var r, t := [s] + run, [step] + steps;
    forall i | 0 <= i < |t| ensures Own(t[i]) && Can(r[i], t[i]) && r[i + 1] == Do(r[i], t[i]) {
      if i > 0 { assert r[i] == run[i - 1] && t[i] == steps[i - 1] && r[i + 1] == run[i - 1 + 1]; }
    }
  }

  function Final<S, L>(run: seq<State<S, L>>): State<S, L>
    requires |run| > 0
  {
    run[|run| - 1]
  }

  /** How many steps the innermost bracket still has to make. */
  function Ahead<S, L>(b: Bracket<S, L>, sie: bool): int {
    (match b.pc case Reading => if sie then 2 else 1 case Clearing => 1 case Inside => 0)
    + (if b.body.Alloc? then |b.body.op.steps| - b.body.k else 0) + 1
  }

  /** One step of its own is always possible, and brings the bracket nearer to its end or ends it. */
  lemma {:induction false} NextOwn<S, L>(s: State<S, L>, init: S) returns (step: Step<S, L>)
    requires Inv(s, init) && |Top(s)| > 0
    ensures Can(s, step) && Own(step) && (step.Close? <==> Ahead(Last(Top(s)), s.sie) == 1)
    ensures !step.Close? ==>
              var b, t := Last(Top(s)), Do(s, step);
              && |Top(t)| == |Top(s)| && Top(t)[..|Top(s)| - 1] == Top(s)[..|Top(s)| - 1]
              && t.frames[..|s.frames| - 1] == s.frames[..|s.frames| - 1] && |t.frames| == |s.frames|
              && Ahead(Last(Top(t)), t.sie) == Ahead(b, s.sie) - 1
              && t.history == s.history && SameCall(Last(Top(t)), b)
  {
    var b := Last(Top(s));
    match b.pc
    case Reading => step := Read;
    case Clearing => step := Clear;
    case Inside => step := if b.body.Alloc? && b.body.k < |b.body.op.steps| then Advance else Close;
  }

  /** The bracket is around the same body and was opened with the same SIE. */
  ghost predicate SameCall<S, L>(b: Bracket<S, L>, c: Bracket<S, L>) {
    && b.entry == c.entry && (b.body.Alloc? <==> c.body.Alloc?)
    && (b.body.Alloc? && c.body.Alloc? ==> b.body.op == c.body.op)
  }

  /** In `t` the innermost bracket of `s` is closed: its body is done, as if run alone, and SIE is as on opening. */
  ghost predicate Ended<S, L>(s: State<S, L>, t: State<S, L>, init: S)
    requires |s.frames| > 0 && |Top(s)| > 0
  {
    var f, b := Top(s), Last(Top(s));
    && t.frames == s.frames[..|s.frames| - 1] + [f[..|f| - 1]] && t.sie == b.entry
    && t.shared == After(init, t.history)
    && t.history == s.history + if b.body.Alloc? then
                                  [Done(b.body.op, RunOp(b.body.op, |b.body.op.steps|, After(init, s.history)).1)]
                                else []
  }

  lemma {:induction false} CloseEnds<S, L>(s: State<S, L>, init: S)
    requires Inv(s, init) && Can(s, Close)
    ensures Ended(s, Do(s, Close), init)
  {
    var f, t := Top(s), Do(s, Close);
    CloseRestores(s, init);
    CloseRunning(f, s.sie);
    CloseKeeps(s, init);
    assert Top(t) == f[..|f| - 1];
  }

  lemma {:induction false} EndsAfter<S, L>(s: State<S, L>, u: State<S, L>, t: State<S, L>, init: S)
    requires |s.frames| > 0 && |Top(s)| > 0 && |u.frames| == |s.frames| && |Top(u)| == |Top(s)|
    requires u.frames[..|s.frames| - 1] == s.frames[..|s.frames| - 1]
    requires Top(u)[..|Top(s)| - 1] == Top(s)[..|Top(s)| - 1]
    requires u.history == s.history && SameCall(Last(Top(u)), Last(Top(s))) && Ended(u, t, init)
    ensures Ended(s, t, init)
  {
  }

  /**
    Wherever the innermost bracket is, a run of its own steps, as many as are left, is possible and closes it; an
    allocator body then stands last in the history.
   */
  lemma {:induction false} BracketEnds<S, L>(s: State<S, L>, init: S) returns (run: seq<State<S, L>>, steps: seq<Step<S, L>>)
    requires Inv(s, init) && |Top(s)| > 0
    ensures OwnRun(s, run, steps) && |steps| == Ahead(Last(Top(s)), s.sie) && Ended(s, Final(run), init)
    decreases Ahead(Last(Top(s)), s.sie)
  {
    var step := NextOwn(s, init);
    var u := Do(s, step);
    if step.Close? {
      run, steps := [s, u], [step];
      CloseEnds(s, init);
    } else {
      StepKeeps(s, step, init);
      run, steps := BracketEnds(u, init);
      EndsAfter(s, u, Final(run), init);
      StepThenRun(s, step, run, steps);
      run, steps := [s] + run, [step] + steps;
    }
  }

  /** Code that may open a bracket around an allocator body gets that body done, whatever SIE is. */
  lemma {:induction false} CallEnds<S, L>(s: State<S, L>, init: S, op: Op<S, L>)
    returns (run: seq<State<S, L>>, steps: seq<Step<S, L>>)
    requires Inv(s, init) && MayOpen(Top(s))
    ensures Can(s, OpenAlloc(op)) && OwnRun(Do(s, OpenAlloc(op)), run, steps)
    ensures |steps| == |op.steps| + if s.sie then 3 else 2
    ensures var t := Final(run);
            && t.frames == s.frames && t.sie == s.sie && t.shared == RunOp(op, |op.steps|, After(init, s.history)).0
            && t.history == s.history + [Done(op, RunOp(op, |op.steps|, After(init, s.history)).1)]
  {
    var u := Do(s, OpenAlloc(op));
    StepKeeps(s, OpenAlloc(op), init);
    assert Top(u) == Top(s) + [Bracket(Reading, s.sie, false, Alloc(op, 0, op.start))];
    run, steps := BracketEnds(u, init);
    CallDone(s, u, Final(run), init, op);
  }

  lemma {:induction false} CallDone<S, L>(s: State<S, L>, u: State<S, L>, t: State<S, L>, init: S, op: Op<S, L>)
    requires |s.frames| > 0 && u == Opened(s, Alloc(op, 0, op.start))
    requires Top(u) == Top(s) + [Bracket(Reading, s.sie, false, Alloc(op, 0, op.start))] && Ended(u, t, init)
    ensures t.frames == s.frames && t.sie == s.sie && t.shared == RunOp(op, |op.steps|, After(init, s.history)).0
    ensures t.history == s.history + [Done(op, RunOp(op, |op.steps|, After(init, s.history)).1)]
  {
    var n := |s.frames| - 1;
    assert u.frames[..n] == s.frames[..n] && Top(u)[..|Top(s)|] == Top(s);
    assert t.history[..|s.history|] == s.history;
  }

  // ------------------------------------------------------- nothing hangs

  /** What may happen: an interrupt whenever SIE is set, and outside brackets everything but the steps of brackets. */
  lemma {:induction false} MayHappen<S, L>(s: State<S, L>, sie: bool, op: Op<S, L>)
    requires |s.frames| > 0
    ensures s.sie ==> Can(s, Interrupt)
    ensures s.frames[|s.frames| - 1] == [] ==> Can(s, Assign(sie)) && Can(s, OpenOther) && Can(s, OpenAlloc(op))
    ensures s.frames[|s.frames| - 1] == [] && |s.frames| >= 2 ==> Can(s, Return)
    ensures var f := s.frames[|s.frames| - 1];
            |f| > 0 && f[|f| - 1].pc.Inside? && f[|f| - 1].body.Other? ==> Can(s, OpenOther) && Can(s, OpenAlloc(op))
  {
  }

  lemma {:induction false} RunsJoin<S, L>(a: seq<State<S, L>>, x: seq<Step<S, L>>, b: seq<State<S, L>>, y: seq<Step<S, L>>)
    requires IsRun(a, x) && IsRun(b, y) && Final(a) == b[0]
    ensures IsRun(a + b[1..], x + y) && (a + b[1..])[0] == a[0] && Final(a + b[1..]) == Final(b)
  {
    var r, t := a + b[1..], x + y;
    forall i | 0 <= i < |t| ensures Can(r[i], t[i]) && r[i + 1] == Do(r[i], t[i]) {
      if i < |x| {
        assert r[i] == a[i] && t[i] == x[i] && r[i + 1] == a[i + 1];
      } else {
        assert r[i] == b[i - |x|] && t[i] == y[i - |x|] && r[i + 1] == b[i - |x| + 1];
      }
    }
  }

  lemma {:induction false} RunKeeps<S, L>(run: seq<State<S, L>>, steps: seq<Step<S, L>>, init: S, n: nat)
    requires IsRun(run, steps) && Inv(run[0], init) && n < |run|
    ensures Inv(run[n], init)
  {
    if n > 0 {
      RunKeeps(run, steps, init, n - 1);
      assert run[n - 1 + 1] == Do(run[n - 1], steps[n - 1]);
      StepKeeps(run[n - 1], steps[n - 1], init);
    }
  }

  /** The innermost bracket ends, or the handler that is in none returns. */
  lemma {:induction false} Unwind<S, L>(s: State<S, L>, init: S) returns (run: seq<State<S, L>>, steps: seq<Step<S, L>>)
    requires Inv(s, init) && s.frames != [[]]
    ensures IsRun(run, steps) && run[0] == s && Inv(Final(run), init)
    ensures var t, f := Final(run), Top(s);
            t.frames == if |f| > 0 then s.frames[..|s.frames| - 1] + [f[..|f| - 1]] else s.frames[..|s.frames| - 1]
    ensures s.history <= Final(run).history
  {
    var f := Top(s);
    assert |s.frames| == 1 ==> s.frames == [f];
    if |f| > 0 {
      run, steps := BracketEnds(s, init);
      RunKeeps(run, steps, init, |run| - 1);
    } else {
      run, steps := [s, Do(s, Return)], [Return];
      ReturnKeeps(s, init);
    }
  }

  /**
    From every state all brackets can be closed and all handlers can return: no bracket waits for another, and the
    bodies that were open are done, behind those that were done before.
   */
  lemma {:induction false} AllEnd<S, L>(s: State<S, L>, init: S) returns (run: seq<State<S, L>>, steps: seq<Step<S, L>>)
    requires Inv(s, init)
    ensures IsRun(run, steps) && run[0] == s
    ensures Final(run).frames == [[]] && s.history <= Final(run).history
    ensures Final(run).shared == After(init, Final(run).history)
    decreases |s.frames|, |Top(s)|
  {
    if s.frames == [[]] {
      run, steps := [s], [];
    } else {
      var a, x := Unwind(s, init);
      var b, y := AllEnd(Final(a), init);
      RunsJoin(a, x, b, y);
      run, steps := a + b[1..], x + y;
    }
  }
}
