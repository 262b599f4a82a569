/**
  Skew heaps as values: the trees that the pointer structure of
  lab6/libs/skew_heap.h denotes, the merge on them, and its amortised cost.
 */
module SkewTree {

  datatype Tree<T> = Nil | Node(root: T, left: Tree<T>, right: Tree<T>)

  ghost function Nodes<T>(t: Tree<T>): set<T> {
    match t
    case Nil => {}
    case Node(x, l, r) => {x} + Nodes(l) + Nodes(r)
  }

  function Size<T>(t: Tree<T>): nat {
    match t
    case Nil => 0
    case Node(_, l, r) => 1 + Size(l) + Size(r)
  }

  /** No node occurs twice. */
  ghost predicate Proper<T>(t: Tree<T>) {
    match t
    case Nil => true
    case Node(x, l, r) =>
      && x !in Nodes(l) && x !in Nodes(r) && Nodes(l) !! Nodes(r)
      && Proper(l) && Proper(r)
  }

  // ---------------------------------------------------------------- the order

  /** `comp(x, y) == -1` is how the heap asks "x before y"; everything else is "not before". */
  predicate Leq<T>(comp: (T, T) -> int, x: T, y: T) {
    comp(y, x) != -1
  }

  /** What the heap needs of `comp`: `Leq` is a total preorder on the entries at hand. */
  ghost predicate TotalPreorder<T>(comp: (T, T) -> int, s: set<T>) {
    && (forall x, y :: x in s && y in s ==> Leq(comp, x, y) || Leq(comp, y, x))
    && (forall x, y, z :: x in s && y in s && z in s && Leq(comp, x, y) && Leq(comp, y, z) ==> Leq(comp, x, z))
  }

  ghost predicate RootAbove<T>(comp: (T, T) -> int, x: T, t: Tree<T>) {
    t.Node? ==> Leq(comp, x, t.root)
  }

  /** Every parent is `Leq` each of its children. */
  ghost predicate HeapOrdered<T>(comp: (T, T) -> int, t: Tree<T>) {
    match t
    case Nil => true
    case Node(x, l, r) =>
      RootAbove(comp, x, l) && RootAbove(comp, x, r) && HeapOrdered(comp, l) && HeapOrdered(comp, r)
  }

  // --------------------------------------------------------------- operations

  function Merge<T>(comp: (T, T) -> int, a: Tree<T>, b: Tree<T>): Tree<T>
    decreases Size(a) + Size(b)
  {
    if a.Nil? then b
    else if b.Nil? then a
    else if comp(a.root, b.root) == -1 then Node(a.root, Merge(comp, a.right, b), a.left)
    else Node(b.root, Merge(comp, a, b.right), b.left)
  }

  /** The number of activations of the recursive merge, the first one included. */
  function Calls<T>(comp: (T, T) -> int, a: Tree<T>, b: Tree<T>): nat
    decreases Size(a) + Size(b)
  {
    if a.Nil? || b.Nil? then 1
    else if comp(a.root, b.root) == -1 then 1 + Calls(comp, a.right, b)
    else 1 + Calls(comp, a, b.right)
  }

  function Insert<T>(comp: (T, T) -> int, a: Tree<T>, x: T): Tree<T> {
    Merge(comp, a, Node(x, Nil, Nil))
  }

  /** The subtree of `t` whose root is `b`. */
  ghost function Subtree<T>(t: Tree<T>, b: T): (s: Tree<T>)
    requires b in Nodes(t)
    ensures s.Node? && s.root == b && Nodes(s) <= Nodes(t)
    ensures Proper(t) ==> Proper(s)
    ensures Proper(t) && b != t.root ==> t.root !in Nodes(s)
  {
    if t.root == b then t
    else if b in Nodes(t.left) then Subtree(t.left, b)
    else Subtree(t.right, b)
  }

  /** The node whose child `b` is. */
  ghost function ParentOf<T>(t: Tree<T>, b: T): (q: T)
    requires b in Nodes(t) && b != t.root
    ensures q in Nodes(t)
    ensures Proper(t) ==> q !in Nodes(Subtree(t, b))
  {
    if b in Nodes(t.left) then
      if t.left.root == b then t.root else ParentOf(t.left, b)
    else
      if t.right.root == b then t.root else ParentOf(t.right, b)
  }

  /** `t` with the subtree rooted at `b` replaced by `s`. */
  ghost function Replace<T>(t: Tree<T>, b: T, s: Tree<T>): Tree<T>
    requires b in Nodes(t)
  {
    if t.root == b then s
    else if b in Nodes(t.left) then t.(left := Replace(t.left, b, s))
    else t.(right := Replace(t.right, b, s))
  }

  /** Deleting node `b`: its subtree gives way to the merge of its two children. */
  ghost function Remove<T>(comp: (T, T) -> int, t: Tree<T>, b: T): Tree<T>
    requires b in Nodes(t)
  {
    var s := Subtree(t, b);
    Replace(t, b, Merge(comp, s.left, s.right))
  }

  // ---------------------------------------------- what the operations preserve

  lemma {:induction false} MergeNodes<T>(comp: (T, T) -> int, a: Tree<T>, b: Tree<T>)
    ensures Nodes(Merge(comp, a, b)) == Nodes(a) + Nodes(b)
    ensures Size(Merge(comp, a, b)) == Size(a) + Size(b)
    decreases Size(a) + Size(b)
  {
    if a.Node? && b.Node? {
      if comp(a.root, b.root) == -1 {
        MergeNodes(comp, a.right, b);
      } else {
        MergeNodes(comp, a, b.right);
      }
    }
  }

  lemma {:induction false} MergeProper<T>(comp: (T, T) -> int, a: Tree<T>, b: Tree<T>)
    requires Proper(a) && Proper(b) && Nodes(a) !! Nodes(b)
    ensures Proper(Merge(comp, a, b))
    decreases Size(a) + Size(b)
  {
    if a.Node? && b.Node? {
      if comp(a.root, b.root) == -1 {
        MergeProper(comp, a.right, b);
        MergeNodes(comp, a.right, b);
      } else {
        MergeProper(comp, a, b.right);
        MergeNodes(comp, a, b.right);
      }
    }
  }

  /** The tree `t` keeps its root, and its right subtree merged with `other` becomes the left one. */
  lemma {:induction false} TakeRootApart<T>(t: Tree<T>, other: Tree<T>, m: Tree<T>)
    requires t.Node? && Proper(t) && Nodes(t) !! Nodes(other)
    requires Proper(m) && Nodes(m) == Nodes(t.right) + Nodes(other)
    ensures Proper(Node(t.root, m, t.left))
    ensures Nodes(Node(t.root, m, t.left)) == Nodes(t) + Nodes(other)
  {
  }

  /** How the pieces lie apart when `a` keeps its root. */
  lemma {:induction false} MergeApartLeft<T>(comp: (T, T) -> int, a: Tree<T>, b: Tree<T>)
    requires a.Node? && Proper(a) && Proper(b) && Nodes(a) !! Nodes(b)
    ensures Proper(Node(a.root, Merge(comp, a.right, b), a.left))
    ensures Nodes(Node(a.root, Merge(comp, a.right, b), a.left)) == Nodes(a) + Nodes(b)
    ensures a.root !in Nodes(a.right) + Nodes(b) && Nodes(a.left) !! Nodes(a.right) + Nodes(b)
  {
    MergeNodes(comp, a.right, b);
    MergeProper(comp, a.right, b);
    TakeRootApart(a, b, Merge(comp, a.right, b));
  }

  /** How the pieces lie apart when `b` keeps its root. */
  lemma {:induction false} MergeApartRight<T>(comp: (T, T) -> int, a: Tree<T>, b: Tree<T>)
    requires b.Node? && Proper(a) && Proper(b) && Nodes(a) !! Nodes(b)
    ensures Proper(Node(b.root, Merge(comp, a, b.right), b.left))
    ensures Nodes(Node(b.root, Merge(comp, a, b.right), b.left)) == Nodes(a) + Nodes(b)
    ensures b.root !in Nodes(a) + Nodes(b.right) && Nodes(b.left) !! Nodes(a) + Nodes(b.right)
  {
    MergeNodes(comp, a, b.right);
    MergeProper(comp, a, b.right);
    TakeRootApart(b, a, Merge(comp, a, b.right));
  }

  /** Merging two ordered heaps gives an ordered heap, whose root is one of the two roots. */
  lemma {:induction false} MergeOrdered<T>(comp: (T, T) -> int, a: Tree<T>, b: Tree<T>)
    requires TotalPreorder(comp, Nodes(a) + Nodes(b))
    requires HeapOrdered(comp, a) && HeapOrdered(comp, b)
    ensures HeapOrdered(comp, Merge(comp, a, b))
    ensures Merge(comp, a, b).Node? ==>
              || (a.Node? && Merge(comp, a, b).root == a.root)
              || (b.Node? && Merge(comp, a, b).root == b.root)
    decreases Size(a) + Size(b)
  {
    if a.Node? && b.Node? {
      assert a.root in Nodes(a) + Nodes(b) && b.root in Nodes(a) + Nodes(b);
      if comp(a.root, b.root) == -1 {
        MergeOrdered(comp, a.right, b);
      } else {
        MergeOrdered(comp, a, b.right);
      }
    }
  }

  /** The root of an ordered heap is a minimum of the whole heap. */
  lemma {:induction false} RootIsMinimum<T>(comp: (T, T) -> int, t: Tree<T>, x: T)
    requires TotalPreorder(comp, Nodes(t)) && HeapOrdered(comp, t)
    requires x in Nodes(t)
    ensures Leq(comp, t.root, x)
  {
    if x in Nodes(t.left) {
      RootIsMinimum(comp, t.left, x);
      assert t.root in Nodes(t) && t.left.root in Nodes(t);
    } else if x in Nodes(t.right) {
      RootIsMinimum(comp, t.right, x);
      assert t.root in Nodes(t) && t.right.root in Nodes(t);
    } else {
      assert Leq(comp, x, x);
    }
  }

  /** Replacing a subtree exchanges exactly its nodes. */
  lemma {:induction false} ReplaceNodes<T>(t: Tree<T>, b: T, s: Tree<T>)
    requires Proper(t) && b in Nodes(t)
    requires Proper(s) && Nodes(s) <= Nodes(Subtree(t, b))
    ensures Nodes(Replace(t, b, s)) == Nodes(t) - Nodes(Subtree(t, b)) + Nodes(s)
    ensures Proper(Replace(t, b, s))
  {
    if t.root == b {
    } else if b in Nodes(t.left) {
      ReplaceNodes(t.left, b, s);
    } else {
      ReplaceNodes(t.right, b, s);
    }
  }

  lemma {:induction false} SubtreeOrdered<T>(comp: (T, T) -> int, t: Tree<T>, b: T)
    requires HeapOrdered(comp, t) && b in Nodes(t)
    ensures HeapOrdered(comp, Subtree(t, b))
  {
    if t.root == b {
    } else if b in Nodes(t.left) {
      SubtreeOrdered(comp, t.left, b);
    } else {
      SubtreeOrdered(comp, t.right, b);
    }
  }

  lemma ReplaceRoot<T>(t: Tree<T>, b: T, s: Tree<T>)
    requires b in Nodes(t) && t.root != b
    ensures Replace(t, b, s).Node? && Replace(t, b, s).root == t.root
  {
  }

  /** A replacement whose root is not before `b` keeps the heap order. */
  lemma {:induction false} ReplaceOrdered<T>(comp: (T, T) -> int, t: Tree<T>, b: T, s: Tree<T>, u: set<T>)
    requires HeapOrdered(comp, t) && b in Nodes(t) && HeapOrdered(comp, s)
    requires TotalPreorder(comp, u) && Nodes(s) <= u && Nodes(t) <= u
    requires RootAbove(comp, b, s)
    ensures HeapOrdered(comp, Replace(t, b, s))
    decreases t
  {
    if t.root != b {
      var inLeft := b in Nodes(t.left);
      var child := if inLeft then t.left else t.right;
      ReplaceOrdered(comp, child, b, s, u);
      var s' := Replace(child, b, s);
      assert s.Node? ==> s.root in u by { assert s.Node? ==> s.root in Nodes(s); }
      assert RootAbove(comp, t.root, s') by {
        assert t.root in Nodes(t) && b in Nodes(t);
        if child.root != b { ReplaceRoot(child, b, s); }
      }
    }
  }

  /** Removing any node, at any depth, deletes exactly that node and keeps the heap. */
  lemma {:induction false} RemoveCorrect<T>(comp: (T, T) -> int, t: Tree<T>, b: T)
    requires Proper(t) && HeapOrdered(comp, t) && b in Nodes(t)
    requires TotalPreorder(comp, Nodes(t))
    ensures Nodes(Remove(comp, t, b)) == Nodes(t) - {b}
    ensures Proper(Remove(comp, t, b))
    ensures HeapOrdered(comp, Remove(comp, t, b))
  {
    var s := Subtree(t, b);
    var m := Merge(comp, s.left, s.right);
    SubtreeOrdered(comp, t, b);
    MergeNodes(comp, s.left, s.right);
    MergeProper(comp, s.left, s.right);
    MergeOrdered(comp, s.left, s.right);
    ReplaceNodes(t, b, m);
    ReplaceOrdered(comp, t, b, m, Nodes(t));
  }

  // ------------------------------------------------------------ amortised cost

  predicate RightHeavy<T>(t: Tree<T>) {
    t.Node? && Size(t.left) < Size(t.right)
  }

  /** The potential: how many nodes have more nodes to their right than to their left. */
  function Potential<T>(t: Tree<T>): nat {
    match t
    case Nil => 0
    case Node(_, l, r) => (if RightHeavy(t) then 1 else 0) + Potential(l) + Potential(r)
  }

  /** The floor of the base-2 logarithm. */
  function Log2(n: nat): nat
    requires n >= 1
  {
    if n == 1 then 0 else 1 + Log2(n / 2)
  }

  lemma {:induction false} Log2Monotone(m: nat, n: nat)
    requires 1 <= m <= n
    ensures Log2(m) <= Log2(n)
  {
    if m > 1 { Log2Monotone(m / 2, n / 2); }
  }

  /** Halving loses one. */
  lemma {:induction false} Log2Halved(m: nat, n: nat)
    requires 1 <= m && 2 * m <= n
    ensures Log2(m) + 1 <= Log2(n)
  {
    Log2Monotone(m, n / 2);
  }

  /** What merging `x` nodes with `y` nodes may cost beyond the change of potential. */
  function Credit(x: nat, y: nat): nat {
    1 + Log2(x + 1) + Log2(y + 1) + Log2(x + y + 1)
  }

  /** A root with `l` nodes on its left and `x` on its right leaves the merge. */
  lemma {:induction false} CreditDrop(l: nat, x: nat, y: nat)
    ensures Credit(x, y) + (if x <= l then 1 else 0) + (if x + y < l then 1 else 0) <= Credit(1 + l + x, y)
  {
    var n := 1 + l + x;
    Log2Monotone(x + 1, n + 1);
    Log2Monotone(x + y + 1, n + y + 1);
    if x <= l { Log2Halved(x + 1, n + 1); }
    if x + y < l { Log2Halved(x + y + 1, n + y + 1); }
  }

  /**
    The step of the amortised argument: `t` gives up its root, and `m` is the merge of `t.right` with a heap
    of `y` nodes.  The step costs one call.  If `t` was right heavy, swapping its children repays it;
    otherwise `t.right` is at most half of `t`.  A root that becomes right heavy halves all that is left.
   */
  lemma {:induction false} SwapAmortised<T>(t: Tree<T>, y: nat, m: Tree<T>)
    requires t.Node? && Size(m) == Size(t.right) + y
    ensures 1 + Potential(Node(t.root, m, t.left)) + Credit(Size(t.right), y)
            <= Potential(t) - Potential(t.right) + Potential(m) + Credit(Size(t), y)
  {
    CreditDrop(Size(t.left), Size(t.right), y);
  }

  lemma {:induction false} MergeAmortisedSharp<T>(comp: (T, T) -> int, a: Tree<T>, b: Tree<T>)
    ensures Calls(comp, a, b) + Potential(Merge(comp, a, b))
            <= Potential(a) + Potential(b) + Credit(Size(a), Size(b))
    decreases Size(a) + Size(b)
  {
    if a.Node? && b.Node? {
      if comp(a.root, b.root) == -1 {
        MergeAmortisedSharp(comp, a.right, b);
        MergeNodes(comp, a.right, b);
        SwapAmortised(a, Size(b), Merge(comp, a.right, b));
      } else {
        MergeAmortisedSharp(comp, a, b.right);
        MergeNodes(comp, a, b.right);
        SwapAmortised(b, Size(a), Merge(comp, a, b.right));
        CreditSymmetric(Size(a), Size(b.right));
        CreditSymmetric(Size(a), Size(b));
      }
    }
  }

  lemma CreditSymmetric(x: nat, y: nat)
    ensures Credit(x, y) == Credit(y, x)
  {
  }

  /** Amortised cost of one merge: at most `3 log2(n + 1) + 1` for `n` nodes in all. */
  lemma {:induction false} MergeAmortised<T>(comp: (T, T) -> int, a: Tree<T>, b: Tree<T>)
    ensures Calls(comp, a, b) + Potential(Merge(comp, a, b)) - Potential(a) - Potential(b)
            <= 3 * Log2(Size(a) + Size(b) + 1) + 1
  {
    MergeAmortisedSharp(comp, a, b);
    CreditBound(Size(a), Size(b));
  }

  lemma {:induction false} CreditBound(x: nat, y: nat)
    ensures Credit(x, y) <= 3 * Log2(x + y + 1) + 1
  {
    Log2Monotone(x + 1, x + y + 1);
    Log2Monotone(y + 1, x + y + 1);
  }

  // -------------------------------------------------------------------- runs

  /** One use of a heap: insert an entry, or take out the root. */
  datatype Op<T> = Put(x: T) | TakeRoot

  function Step<T>(comp: (T, T) -> int, t: Tree<T>, op: Op<T>): Tree<T> {
    match op
    case Put(x) => Insert(comp, t, x)
    case TakeRoot => if t.Nil? then Nil else Merge(comp, t.left, t.right)
  }

  function StepCalls<T>(comp: (T, T) -> int, t: Tree<T>, op: Op<T>): nat {
    match op
    case Put(x) => Calls(comp, t, Node(x, Nil, Nil))
    case TakeRoot => if t.Nil? then 0 else Calls(comp, t.left, t.right)
  }

  function Run<T>(comp: (T, T) -> int, ops: seq<Op<T>>): Tree<T> {
    if ops == [] then Nil else Step(comp, Run(comp, ops[..|ops| - 1]), ops[|ops| - 1])
  }

  function RunCalls<T>(comp: (T, T) -> int, ops: seq<Op<T>>): nat {
    if ops == [] then 0
    else RunCalls(comp, ops[..|ops| - 1]) + StepCalls(comp, Run(comp, ops[..|ops| - 1]), ops[|ops| - 1])
  }

  lemma {:induction false} RunSize<T>(comp: (T, T) -> int, ops: seq<Op<T>>)
    ensures Size(Run(comp, ops)) <= |ops|
  {
    if ops != [] {
      var t := Run(comp, ops[..|ops| - 1]);
      RunSize(comp, ops[..|ops| - 1]);
      match ops[|ops| - 1]
      case Put(x) => MergeNodes(comp, t, Node(x, Nil, Nil));
      case TakeRoot => if t.Node? { MergeNodes(comp, t.left, t.right); }
    }
  }

  lemma {:induction false} MergeAmortisedWithin<T>(comp: (T, T) -> int, a: Tree<T>, b: Tree<T>, m: nat)
    requires Size(a) + Size(b) <= m
    ensures Calls(comp, a, b) + Potential(Merge(comp, a, b))
            <= Potential(a) + Potential(b) + 3 * Log2(m + 1) + 1
  {
    MergeAmortised(comp, a, b);
    Log2Monotone(Size(a) + Size(b) + 1, m + 1);
  }

  lemma {:induction false} StepAmortised<T>(comp: (T, T) -> int, t: Tree<T>, op: Op<T>, m: nat)
    requires Size(t) < m
    ensures StepCalls(comp, t, op) + Potential(Step(comp, t, op)) <= Potential(t) + 3 * Log2(m + 1) + 1
  {
    match op
    case Put(x) => MergeAmortisedWithin(comp, t, Node(x, Nil, Nil), m);
    case TakeRoot => if t.Node? { MergeAmortisedWithin(comp, t.left, t.right, m); }
  }

  lemma {:induction false} RunAmortisedUpTo<T>(comp: (T, T) -> int, ops: seq<Op<T>>, m: nat, c: nat)
    requires |ops| <= m && c == 3 * Log2(m + 1) + 1
    ensures RunCalls(comp, ops) + Potential(Run(comp, ops)) <= |ops| * c
  {
    if ops != [] {
      var init, last := ops[..|ops| - 1], ops[|ops| - 1];
      RunAmortisedUpTo(comp, init, m, c);
      RunSize(comp, init);
      StepAmortised(comp, Run(comp, init), last, m);
      OneMore(|init|, c);
    }
  }

  lemma OneMore(k: nat, c: nat)
    ensures (k + 1) * c == k * c + c
  {
  }

  /** Every run of `m` inserts and root removals from the empty heap makes at most `m (3 log2(m + 1) + 1)` calls. */
  lemma {:induction false} RunAmortised<T>(comp: (T, T) -> int, ops: seq<Op<T>>)
    ensures RunCalls(comp, ops) <= |ops| * (3 * Log2(|ops| + 1) + 1)
  {
    RunAmortisedUpTo(comp, ops, |ops|, 3 * Log2(|ops| + 1) + 1);
  }

  /** Taking out the root until nothing is left. */
  function Drain<T>(comp: (T, T) -> int, t: Tree<T>): seq<T>
    decreases Size(t)
  {
    if t.Nil? then []
    else
      MergeNodes(comp, t.left, t.right);
      [t.root] + Drain(comp, Merge(comp, t.left, t.right))
  }

  ghost predicate Ascending<T>(comp: (T, T) -> int, s: seq<T>) {
    forall i, j :: 0 <= i < j < |s| ==> s[i] != s[j] && Leq(comp, s[i], s[j])
  }

  lemma {:induction false} DrainElements<T>(comp: (T, T) -> int, t: Tree<T>)
    ensures |Drain(comp, t)| == Size(t)
    ensures (set x | x in Drain(comp, t)) == Nodes(t)
    decreases Size(t)
  {
    if t.Node? {
      MergeNodes(comp, t.left, t.right);
      DrainElements(comp, Merge(comp, t.left, t.right));
      var d := Drain(comp, Merge(comp, t.left, t.right));
      assert (set x | x in [t.root] + d) == {t.root} + (set x | x in d);
    }
  }

  /** Draining a heap yields each of its entries exactly once, in nondecreasing order. */
  lemma {:induction false} DrainSorts<T>(comp: (T, T) -> int, t: Tree<T>)
    requires Proper(t) && HeapOrdered(comp, t) && TotalPreorder(comp, Nodes(t))
    ensures (set x | x in Drain(comp, t)) == Nodes(t)
    ensures Ascending(comp, Drain(comp, t))
    decreases Size(t)
  {
    DrainElements(comp, t);
    if t.Node? {
      var m := Merge(comp, t.left, t.right);
      MergeNodes(comp, t.left, t.right);
      MergeProper(comp, t.left, t.right);
      MergeOrdered(comp, t.left, t.right);
      assert Nodes(m) == Nodes(t) - {t.root};
      DrainSorts(comp, m);
      var d := Drain(comp, m);
      forall i | 0 <= i < |d| ensures d[i] != t.root && Leq(comp, t.root, d[i]) {
        assert d[i] in (set x | x in d);
        RootIsMinimum(comp, t, d[i]);
      }
    }
  }
}
