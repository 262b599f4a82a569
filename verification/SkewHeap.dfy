/**
  lab6/libs/skew_heap.h: the heap as linked entries whose fields the operations rewrite in place.
  Each operation is proved against the tree operation of the same name in `SkewTree`.
 */
module SkewHeap {
  import opened SkewTree

  class Entry {
    var parent: Entry?
    var left: Entry?
    var right: Entry?

    constructor ()
      ensures parent == null && left == null && right == null
    {
      parent, left, right := null, null, null;
    }
  }

  /** The three fields of an entry at one moment. */
  datatype Links = Links(parent: Entry?, left: Entry?, right: Entry?)

  type Snapshot = map<Entry, Links>

  ghost function Snap(s: set<Entry>): Snapshot
    reads s
  {
    map x | x in s :: Links(x.parent, x.left, x.right)
  }

  /** Following `left` and `right` from `p` spells out `t`, and every child points back to its parent. */
  ghost predicate Linked(m: Snapshot, p: Entry?, t: Tree<Entry>) {
    match t
    case Nil => p == null
    case Node(x, l, r) =>
      && p == x && x in m
      && Linked(m, m[x].left, l) && (l.Node? ==> m[l.root].parent == x)
      && Linked(m, m[x].right, r) && (r.Node? ==> m[r.root].parent == x)
  }

  /** A whole heap: linked, without sharing, ordered, and with a root that has no parent. */
  ghost predicate IsHeap(comp: (Entry, Entry) -> int, p: Entry?, t: Tree<Entry>)
    reads Nodes(t)
  {
    && Linked(Snap(Nodes(t)), p, t)
    && Proper(t)
    && HeapOrdered(comp, t)
    && (p != null ==> t.Node? && p == t.root && p.parent == null)
  }

  /** Linking depends on the entries of the tree only, and not on the root's own parent field. */
  lemma {:induction false} LinkedFrame(m: Snapshot, m': Snapshot, p: Entry?, t: Tree<Entry>)
    requires Linked(m, p, t) && Proper(t)
    requires forall x :: x in Nodes(t) ==> x in m && x in m'
    requires t.Node? ==> m'[t.root].left == m[t.root].left && m'[t.root].right == m[t.root].right
    requires forall x :: x in Nodes(t) && x != t.root ==> m'[x] == m[x]
    ensures Linked(m', p, t)
  {
    if t.Node? {
      LinkedFrame(m, m', m[t.root].left, t.left);
      LinkedFrame(m, m', m[t.root].right, t.right);
    }
  }

  /** A subtree is linked where the tree says it is, and its root points back to the node above. */
  lemma {:induction false} SubtreeLinked(m: Snapshot, p: Entry?, t: Tree<Entry>, b: Entry)
    requires Linked(m, p, t) && b in Nodes(t)
    ensures b in m && Linked(m, b, Subtree(t, b))
    ensures b != t.root ==>
              var q := ParentOf(t, b);
              q in m && m[b].parent == q && (m[q].left == b || m[q].right == b)
  {
    if t.root == b {
    } else if b in Nodes(t.left) {
      SubtreeLinked(m, m[t.root].left, t.left, b);
    } else {
      SubtreeLinked(m, m[t.root].right, t.right, b);
    }
  }

  /**
    Splicing: if only the subtree at `b` and the child pointer that led to it changed, and that pointer now
    leads to `s`, then the whole is linked as `t` with `b`'s subtree replaced by `s`.
   */
  lemma {:induction false} Splice(m: Snapshot, m': Snapshot, p: Entry?, t: Tree<Entry>, b: Entry,
                                  rep: Entry?, s: Tree<Entry>)
    requires Linked(m, p, t) && Proper(t) && b in Nodes(t) && b != t.root
    requires forall x :: x in Nodes(t) ==> x in m && x in m'
    requires Linked(m', rep, s) && (rep != null ==> rep in m' && m'[rep].parent == ParentOf(t, b))
    requires var q := ParentOf(t, b);
             m'[q] == if m[q].left == b then m[q].(left := rep) else m[q].(right := rep)
    requires forall x :: x in Nodes(t) && x != ParentOf(t, b) && x !in Nodes(Subtree(t, b)) ==> m'[x] == m[x]
    ensures Linked(m', p, Replace(t, b, s))
    decreases t
  {
    var x := t.root;
    if b in Nodes(t.left) {
      LinkedFrame(m, m', m[x].right, t.right);
      if t.left.root != b {
        Splice(m, m', m[x].left, t.left, b, rep, s);
        ReplaceRoot(t.left, b, s);
      }
    } else {
      LinkedFrame(m, m', m[x].left, t.left);
      if t.right.root != b {
        Splice(m, m', m[x].right, t.right, b, rep, s);
        ReplaceRoot(t.right, b, s);
      }
    }
  }

  /** skew_heap_init */
  method Init(a: Entry)
    modifies a
    ensures a.left == null && a.right == null && a.parent == null
    ensures Linked(Snap({a}), a, Node(a, Nil, Nil))
  {
    a.parent := null;
    a.right := a.parent;
    a.left := a.right;
  }

  /** `x` takes `pl`, linked as `l`, for its left child and `pr`, already its child, for its right one. */
  lemma {:induction false} LinkedNode(m: Snapshot, m': Snapshot, x: Entry, l: Tree<Entry>, r: Tree<Entry>, pl: Entry?, pr: Entry?)
    requires Linked(m, pl, l) && Linked(m, pr, r) && Proper(Node(x, l, r))
    requires forall y :: y in Nodes(l) + Nodes(r) ==> y in m && y in m'
    requires x in m' && m'[x].left == pl && m'[x].right == pr
    requires l.Node? ==> m'[l.root] == m[l.root].(parent := x)
    requires r.Node? ==> m[r.root].parent == x
    requires forall y :: y in Nodes(l) + Nodes(r) && !(l.Node? && y == l.root) ==> m'[y] == m[y]
    ensures Linked(m', x, Node(x, l, r))
  {
    LinkedFrame(m, m', pl, l);
    LinkedFrame(m, m', pr, r);
  }

  /**
    The end of both branches of skew_heap_merge: `x` adopts `l` on the left and swings `r`, which the merge
    did not touch since the snapshot `m`, to the right.
   */
  method Adopt(x: Entry, l: Entry?, r: Entry?, ghost all: set<Entry>,
               ghost m: Snapshot, ghost tl: Tree<Entry>, ghost tr: Tree<Entry>)
    requires Proper(Node(x, tl, tr)) && Nodes(Node(x, tl, tr)) <= all
    requires Linked(Snap(all), l, tl)
    requires Linked(m, r, tr) && (tr.Node? ==> tr.root in m && m[tr.root].parent == x)
    requires forall y :: y in Nodes(tr) ==> y in m && m[y] == Snap(all)[y]
    modifies x, l
    ensures Linked(Snap(all), x, Node(x, tl, tr))
    ensures x.parent == old(x.parent)
  {
    ghost var m1 := Snap(all);
    LinkedFrame(m, m1, r, tr);
    x.left := l;
    x.right := r;
    if l != null { l.parent := x; }
    LinkedNode(m1, Snap(all), x, tl, tr, l, r);
  }

  /**
    skew_heap_merge.  `all` is any set of entries holding both heaps; `calls` counts the activations.
    The parent of the result is left alone: it is the caller's to set.
   */
  method MergeEntries(comp: (Entry, Entry) -> int, a: Entry?, b: Entry?,
                      ghost all: set<Entry>, ghost ta: Tree<Entry>, ghost tb: Tree<Entry>)
    returns (h: Entry?, ghost calls: nat)
    requires Linked(Snap(all), a, ta) && Linked(Snap(all), b, tb)
    requires Proper(ta) && Proper(tb) && Nodes(ta) !! Nodes(tb) && Nodes(ta) + Nodes(tb) <= all
    modifies Nodes(ta) + Nodes(tb)
    ensures Linked(Snap(all), h, Merge(comp, ta, tb))
    ensures h != null ==> h.parent == old(h.parent)
    ensures calls == Calls(comp, ta, tb)
    decreases Size(ta) + Size(tb), 1
  {
    if a == null {
      h, calls := b, 1;
    } else if b == null {
      h, calls := a, 1;
    } else if comp(a, b) == -1 {
      h, calls := KeepFirst(comp, a, b, all, ta, tb);
    } else {
      h, calls := KeepSecond(comp, a, b, all, ta, tb);
    }
  }

  /** The first branch of skew_heap_merge: `a` stays the root. */
  method KeepFirst(comp: (Entry, Entry) -> int, a: Entry, b: Entry,
                   ghost all: set<Entry>, ghost ta: Tree<Entry>, ghost tb: Tree<Entry>)
    returns (h: Entry, ghost calls: nat)
    requires Linked(Snap(all), a, ta) && Linked(Snap(all), b, tb) && comp(a, b) == -1
    requires Proper(ta) && Proper(tb) && Nodes(ta) !! Nodes(tb) && Nodes(ta) + Nodes(tb) <= all
    modifies Nodes(ta) + Nodes(tb)
    ensures Linked(Snap(all), h, Merge(comp, ta, tb))
    ensures h.parent == old(h.parent) && calls == Calls(comp, ta, tb)
    decreases Size(ta) + Size(tb), 0
  {
    ghost var m := Snap(all);
    MergeApartLeft(comp, ta, tb);
    var r := a.left;
    var l, c := MergeEntries(comp, a.right, b, all, ta.right, tb);
    Adopt(a, l, r, all, m, Merge(comp, ta.right, tb), ta.left);
    h, calls := a, 1 + c;
  }

  /** The second branch: `b` stays the root. */
  method KeepSecond(comp: (Entry, Entry) -> int, a: Entry, b: Entry,
                    ghost all: set<Entry>, ghost ta: Tree<Entry>, ghost tb: Tree<Entry>)
    returns (h: Entry, ghost calls: nat)
    requires Linked(Snap(all), a, ta) && Linked(Snap(all), b, tb) && comp(a, b) != -1
    requires Proper(ta) && Proper(tb) && Nodes(ta) !! Nodes(tb) && Nodes(ta) + Nodes(tb) <= all
    modifies Nodes(ta) + Nodes(tb)
    ensures Linked(Snap(all), h, Merge(comp, ta, tb))
    ensures h.parent == old(h.parent) && calls == Calls(comp, ta, tb)
    decreases Size(ta) + Size(tb), 0
  {
    ghost var m := Snap(all);
    MergeApartRight(comp, ta, tb);
    var r := b.left;
    var l, c := MergeEntries(comp, a, b.right, all, ta, tb.right);
    Adopt(b, l, r, all, m, Merge(comp, ta, tb.right), tb.left);
    h, calls := b, 1 + c;
  }

  /** skew_heap_insert: entry `b` joins the heap, whatever its links were. */
  method InsertEntry(comp: (Entry, Entry) -> int, a: Entry?, b: Entry, ghost t: Tree<Entry>)
    returns (h: Entry?, ghost calls: nat)
    requires IsHeap(comp, a, t) && b !in Nodes(t)
    requires TotalPreorder(comp, Nodes(t) + {b})
    modifies Nodes(t), b
    ensures IsHeap(comp, h, Insert(comp, t, b))
    ensures Nodes(Insert(comp, t, b)) == Nodes(t) + {b}
    ensures calls == Calls(comp, t, Node(b, Nil, Nil))
  {
    ghost var one := Node(b, Nil, Nil);
    ghost var all := Nodes(t) + {b};
    ghost var m := Snap(Nodes(t));
    assert Nodes(one) == {b};
    Init(b);
    LinkedFrame(m, Snap(all), a, t);
    MergeNodes(comp, t, one);
    MergeProper(comp, t, one);
    MergeOrdered(comp, t, one);
    h, calls := MergeEntries(comp, a, b, all, t, one);
  }

  /** skew_heap_remove: `b` may be any entry of the heap; it is found through its parent pointer alone. */
  method RemoveEntry(comp: (Entry, Entry) -> int, a: Entry?, b: Entry, ghost t: Tree<Entry>)
    returns (h: Entry?, ghost calls: nat)
    requires IsHeap(comp, a, t) && b in Nodes(t)
    requires TotalPreorder(comp, Nodes(t))
    modifies Nodes(t)
    ensures IsHeap(comp, h, Remove(comp, t, b))
    ensures Nodes(Remove(comp, t, b)) == Nodes(t) - {b}
    ensures calls == Calls(comp, Subtree(t, b).left, Subtree(t, b).right)
  {
    RemoveCorrect(comp, t, b);
    h, calls := Unlink(comp, a, b, t);
    LinkedFrame(Snap(Nodes(t)), Snap(Nodes(t) - {b}), h, Remove(comp, t, b));
  }

  /** `m` after the entry `p` is redirected from `b` to `rep`. */
  ghost function Redirect(m: Snapshot, p: Entry, b: Entry, rep: Entry?): Snapshot
    requires p in m
  {
    m[p := if m[p].left == b then m[p].(left := rep) else m[p].(right := rep)]
  }

  /**
    From `m0` to `m` the children of `b` were merged into `s` under `b`'s parent; redirecting that parent from
    `b` to the merge links the whole as `t` with `b`'s subtree replaced.
   */
  lemma {:induction false} RemoveLinked(m0: Snapshot, m: Snapshot, a: Entry?, t: Tree<Entry>, b: Entry,
                                        rep: Entry?, s: Tree<Entry>)
    requires Linked(m0, a, t) && Proper(t) && b in Nodes(t) && b != t.root
    requires m0.Keys == m.Keys == Nodes(t)
    requires Linked(m, rep, s) && Proper(s) && Nodes(s) <= Nodes(Subtree(t, b)) - {b}
    requires rep != null ==> m[rep].parent == ParentOf(t, b)
    requires forall x :: x in Nodes(t) - Nodes(Subtree(t, b)) ==> m[x] == m0[x]
    ensures Linked(Redirect(m, ParentOf(t, b), b, rep), a, Replace(t, b, s))
    ensures Redirect(m, ParentOf(t, b), b, rep)[t.root].parent == m0[t.root].parent
  {
    var m' := Redirect(m, ParentOf(t, b), b, rep);
    LinkedFrame(m, m', rep, s);
    Splice(m0, m', a, t, b, rep, s);
  }

  /** The child pointer of `p` that leads to `b` is set to `rep`. */
  method RedirectChild(p: Entry, b: Entry, rep: Entry?, ghost all: set<Entry>)
    requires p in all
    modifies p
    ensures Snap(all) == Redirect(old(Snap(all)), p, b, rep)
  {
    if p.left == b {
      p.left := rep;
    } else {
      p.right := rep;
    }
  }

  /** The first half of skew_heap_remove: the children of `b` are merged and put under `b`'s parent. */
  method MergeChildren(comp: (Entry, Entry) -> int, b: Entry, ghost all: set<Entry>, ghost s: Tree<Entry>)
    returns (rep: Entry?, ghost calls: nat)
    requires Linked(Snap(all), b, s) && Proper(s) && s.Node? && Nodes(s) <= all
    modifies Nodes(s.left) + Nodes(s.right)
    ensures Linked(Snap(all), rep, Merge(comp, s.left, s.right))
    ensures rep != null ==> rep in Nodes(s) && rep.parent == b.parent
    ensures calls == Calls(comp, s.left, s.right)
  {
    var p := b.parent;
    rep, calls := MergeEntries(comp, b.left, b.right, all, s.left, s.right);
    MergeNodes(comp, s.left, s.right);
    MergeProper(comp, s.left, s.right);
    ghost var m := Snap(all);
    if rep != null { rep.parent := p; }
    LinkedFrame(m, Snap(all), rep, Merge(comp, s.left, s.right));
  }

  /** The body of skew_heap_remove, before the entry taken out is forgotten. */
  method Unlink(comp: (Entry, Entry) -> int, a: Entry?, b: Entry, ghost t: Tree<Entry>)
    returns (h: Entry?, ghost calls: nat)
    requires Linked(Snap(Nodes(t)), a, t) && Proper(t) && b in Nodes(t) && a.parent == null
    modifies Nodes(t)
    ensures Linked(Snap(Nodes(t)), h, Remove(comp, t, b))
    ensures h != null ==> h in Nodes(t) && Snap(Nodes(t))[h].parent == null
    ensures calls == Calls(comp, Subtree(t, b).left, Subtree(t, b).right)
  {
    ghost var all, s := Nodes(t), Subtree(t, b);
    ghost var m0, rt := Snap(all), Merge(comp, s.left, s.right);
    SubtreeLinked(m0, a, t, b);
    MergeNodes(comp, s.left, s.right);
    MergeProper(comp, s.left, s.right);
    var p := b.parent;
    var rep;
    rep, calls := MergeChildren(comp, b, all, s);
    if p != null {
      RemoveLinked(m0, Snap(all), a, t, b, rep, rt);
      RedirectChild(p, b, rep, all);
      h := a;
    } else {
      h := rep;
    }
  }
}
