/**
  lab2/libs/list.h: intrusive circular doubly linked lists.  Entries are indices; `prev[e]` and `next[e]` are
  the two fields of entry `e`.  The pure functions say what each routine writes, whatever the links were;
  the lemmas say what that does to a well-formed ring.
 */
module LinkRing {

  datatype Links = Links(prev: seq<nat>, next: seq<nat>)

  /** Both fields of every entry name an entry. */
  ghost predicate Bounded(l: Links) {
    && |l.prev| == |l.next|
    && (forall e :: 0 <= e < |l.prev| ==> l.prev[e] < |l.prev| && l.next[e] < |l.prev|)
  }

  // ------------------------------------------------------- what the routines write

  /** __list_add: `elm` goes between `p` and `n`.  The order of the writes matters when they coincide. */
  ghost function AddBetween(l: Links, elm: nat, p: nat, n: nat): (r: Links)
    requires Bounded(l) && elm < |l.prev| && p < |l.prev| && n < |l.prev|
    ensures Bounded(r) && |r.prev| == |l.prev|
  {
    Links(l.prev[n := elm][elm := p], l.next[p := elm][elm := n])
  }

  /** list_add and list_add_after */
  ghost function AddAfter(l: Links, at: nat, elm: nat): (r: Links)
    requires Bounded(l) && elm < |l.prev| && at < |l.prev|
    ensures Bounded(r) && |r.prev| == |l.prev|
  {
    AddBetween(l, elm, at, l.next[at])
  }

  /** list_add_before */
  ghost function AddBefore(l: Links, at: nat, elm: nat): (r: Links)
    requires Bounded(l) && elm < |l.prev| && at < |l.prev|
    ensures Bounded(r) && |r.prev| == |l.prev|
  {
    AddBetween(l, elm, l.prev[at], at)
  }

  /** list_del: the neighbours of `elm` are made to point past it. */
  ghost function Delete(l: Links, elm: nat): (r: Links)
    requires Bounded(l) && elm < |l.prev|
    ensures Bounded(r) && |r.prev| == |l.prev|
  {
    Links(l.prev[l.next[elm] := l.prev[elm]], l.next[l.prev[elm] := l.next[elm]])
  }

  // ------------------------------------------------------- rings

  /** The entry at step `i` of a walk around the ring: the head, the members in order, the head again. */
  ghost function At(head: nat, order: seq<nat>, i: int): nat {
    if 1 <= i <= |order| then order[i - 1] else head
  }

  ghost predicate NextOk(l: Links, head: nat, order: seq<nat>, i: nat) {
    At(head, order, i) < |l.next| && l.next[At(head, order, i)] == At(head, order, i + 1)
  }

  ghost predicate PrevOk(l: Links, head: nat, order: seq<nat>, i: nat) {
    At(head, order, i + 1) < |l.prev| && l.prev[At(head, order, i + 1)] == At(head, order, i)
  }

  /** Members are entries other than the head, each occurring once. */
  ghost predicate Members(l: Links, head: nat, order: seq<nat>) {
    && head < |l.prev|
    && (forall i :: 0 <= i < |order| ==> order[i] < |l.prev| && order[i] != head)
    && (forall i, j :: 0 <= i < j < |order| ==> order[i] != order[j])
  }

  /** The `next` fields lead from the head through `order` and back. */
  ghost predicate Forward(l: Links, head: nat, order: seq<nat>) {
    && Bounded(l) && Members(l, head, order)
    && (forall i :: 0 <= i <= |order| ==> NextOk(l, head, order, i))
  }

  /** So do the `prev` fields, the other way round. */
  ghost predicate Backward(l: Links, head: nat, order: seq<nat>) {
    && Bounded(l) && Members(l, head, order)
    && (forall i :: 0 <= i <= |order| ==> PrevOk(l, head, order, i))
  }

  ghost predicate Ring(l: Links, head: nat, order: seq<nat>) {
    Forward(l, head, order) && Backward(l, head, order)
  }

  ghost function Inserted(order: seq<nat>, k: nat, e: nat): seq<nat>
    requires k <= |order|
  {
    order[..k] + [e] + order[k..]
  }

  ghost function Without(order: seq<nat>, k: nat): seq<nat>
    requires k < |order|
  {
    order[..k] + order[k + 1..]
  }

  lemma InsertedMembers(order: seq<nat>, k: nat, e: nat)
    requires k <= |order|
    ensures forall x :: x in Inserted(order, k, e) <==> x == e || x in order
    ensures forall i :: 0 <= i < |order| + 1 ==>
              Inserted(order, k, e)[i] == if i < k then order[i] else if i == k then e else order[i - 1]
  {
    assert order == order[..k] + order[k..];
  }

  lemma WithoutMembers(order: seq<nat>, k: nat)
    requires k < |order| && forall i, j :: 0 <= i < j < |order| ==> order[i] != order[j]
    ensures forall x :: x in Without(order, k) <==> x in order && x != order[k]
    ensures forall i :: 0 <= i < |order| - 1 ==> Without(order, k)[i] == if i < k then order[i] else order[i + 1]
  {
    assert order == order[..k] + [order[k]] + order[k + 1..];
  }

  lemma AtDistinct(l: Links, head: nat, order: seq<nat>, i: nat, j: nat)
    requires Members(l, head, order) && i < j <= |order| + 1 && !(i == 0 && j == |order| + 1)
    ensures At(head, order, i) != At(head, order, j)
  {
  }

  lemma AtInserted(head: nat, order: seq<nat>, k: nat, e: nat, i: nat)
    requires k <= |order|
    ensures At(head, Inserted(order, k, e), i) ==
              if i <= k then At(head, order, i) else if i == k + 1 then e else At(head, order, i - 1)
  {
  }

  lemma AddForward(l: Links, head: nat, order: seq<nat>, k: nat, e: nat)
    requires Forward(l, head, order) && k <= |order| && e < |l.prev| && e != head && e !in order
    ensures Forward(AddBetween(l, e, At(head, order, k), At(head, order, k + 1)), head, Inserted(order, k, e))
  {
    var order' := Inserted(order, k, e);
    var l' := AddBetween(l, e, At(head, order, k), At(head, order, k + 1));
    forall i | 0 <= i <= |order'| ensures NextOk(l', head, order', i) {
      AtInserted(head, order, k, e, i);
      AtInserted(head, order, k, e, i + 1);
      if i < k {
        AtDistinct(l, head, order, i, k);
        assert NextOk(l, head, order, i);
      } else if i > k + 1 {
        AtDistinct(l, head, order, k, i - 1);
        assert NextOk(l, head, order, i - 1);
      }
    }
  }

  lemma AddBackward(l: Links, head: nat, order: seq<nat>, k: nat, e: nat)
    requires Backward(l, head, order) && k <= |order| && e < |l.prev| && e != head && e !in order
    ensures Backward(AddBetween(l, e, At(head, order, k), At(head, order, k + 1)), head, Inserted(order, k, e))
  {
    var order' := Inserted(order, k, e);
    var l' := AddBetween(l, e, At(head, order, k), At(head, order, k + 1));
    forall i | 0 <= i <= |order'| ensures PrevOk(l', head, order', i) {
      AtInserted(head, order, k, e, i);
      AtInserted(head, order, k, e, i + 1);
      if i < k {
        AtDistinct(l, head, order, i + 1, k + 1);
        assert PrevOk(l, head, order, i);
      } else if i > k + 1 {
        AtDistinct(l, head, order, k + 1, i);
        assert PrevOk(l, head, order, i - 1);
      }
    }
  }

  /** Adding between two neighbours of a ring gives the ring with the new member between them. */
  lemma AddRing(l: Links, head: nat, order: seq<nat>, k: nat, e: nat)
    requires Ring(l, head, order) && k <= |order| && e < |l.prev| && e != head && e !in order
    ensures Ring(AddBetween(l, e, At(head, order, k), At(head, order, k + 1)), head, Inserted(order, k, e))
  {
    AddForward(l, head, order, k, e);
    AddBackward(l, head, order, k, e);
  }

  lemma AtWithout(head: nat, order: seq<nat>, k: nat, i: nat)
    requires k < |order|
    ensures At(head, Without(order, k), i) == if i <= k then At(head, order, i) else At(head, order, i + 1)
  {
  }

  /** What deleting writes when the entry sits in a ring. */
  lemma DeleteLinks(l: Links, head: nat, order: seq<nat>, k: nat)
    requires Ring(l, head, order) && k < |order|
    ensures Delete(l, order[k]) == Links(l.prev[At(head, order, k + 2) := At(head, order, k)],
                                         l.next[At(head, order, k) := At(head, order, k + 2)])
  {
    assert NextOk(l, head, order, k + 1) && PrevOk(l, head, order, k);
  }

  lemma DeleteForward(l: Links, head: nat, order: seq<nat>, k: nat)
    requires Ring(l, head, order) && k < |order|
    ensures Forward(Delete(l, order[k]), head, Without(order, k))
  {
    var order' := Without(order, k);
    var l' := Delete(l, order[k]);
    DeleteLinks(l, head, order, k);
    forall i | 0 <= i <= |order'| ensures NextOk(l', head, order', i) {
      AtWithout(head, order, k, i);
      AtWithout(head, order, k, i + 1);
      if i < k {
        AtDistinct(l, head, order, i, k);
        assert NextOk(l, head, order, i);
      } else if i > k {
        AtDistinct(l, head, order, k, i + 1);
        assert NextOk(l, head, order, i + 1);
      }
    }
  }

  /** Deleting a member of a ring gives the ring without it. */
  lemma DeleteRing(l: Links, head: nat, order: seq<nat>, k: nat)
    requires Ring(l, head, order) && k < |order|
    ensures Ring(Delete(l, order[k]), head, Without(order, k))
  {
    var order' := Without(order, k);
    var l' := Delete(l, order[k]);
    DeleteForward(l, head, order, k);
    DeleteLinks(l, head, order, k);
    forall i | 0 <= i <= |order'| ensures PrevOk(l', head, order', i) {
      AtWithout(head, order, k, i);
      AtWithout(head, order, k, i + 1);
      if i < k {
        AtDistinct(l, head, order, i + 1, k + 2);
        assert PrevOk(l, head, order, i);
      } else if i > k {
        AtDistinct(l, head, order, k + 2, i + 2);
        assert PrevOk(l, head, order, i + 1);
      }
    }
  }

  /** Deleting what was just added restores every entry but the one taken out. */
  lemma AddDeleteRoundTrip(l: Links, head: nat, order: seq<nat>, k: nat, e: nat)
    requires Ring(l, head, order) && k <= |order| && e < |l.prev| && e != head && e !in order
    ensures var p, n := At(head, order, k), At(head, order, k + 1);
            Delete(AddBetween(l, e, p, n), e) == Links(l.prev[e := p], l.next[e := n])
  {
    var p, n := At(head, order, k), At(head, order, k + 1);
    assert NextOk(l, head, order, k) && PrevOk(l, head, order, k);
    var l' := Delete(AddBetween(l, e, p, n), e);
    assert l'.prev == l.prev[e := p];
    assert l'.next == l.next[e := n];
  }

  /** The `next` fields determine the members and their order. */
  lemma {:induction false} ForwardUnique(l: Links, head: nat, order: seq<nat>, other: seq<nat>)
    requires Forward(l, head, order) && Forward(l, head, other)
    ensures order == other
  {
    var i := 0;
    while i < |order| && i < |other|
      invariant 0 <= i <= |order| && i <= |other|
      invariant forall j :: 0 <= j <= i ==> At(head, order, j) == At(head, other, j)
    {
      assert NextOk(l, head, order, i) && NextOk(l, head, other, i);
      i := i + 1;
    }
    assert forall j :: 0 <= j < i ==> order[j] == At(head, order, j + 1) == At(head, other, j + 1) == other[j];
    assert NextOk(l, head, order, i) && NextOk(l, head, other, i);
  }

  // ------------------------------------------------------- an entry added behind itself

  /**
    What the insertion loop without a break does at the tail: it adds `e` behind the last member, steps on to
    `e` itself, finds that it is now the last member, and adds it behind itself.
   */
  ghost function AddTwice(l: Links, last: nat, e: nat): (r: Links)
    requires Bounded(l) && last < |l.prev| && e < |l.prev|
    ensures Bounded(r) && |r.prev| == |l.prev|
  {
    AddAfter(AddAfter(l, last, e), e, e)
  }

  /** Where the loop finds itself after each of the two additions. */
  lemma AddTwiceSteps(l: Links, head: nat, order: seq<nat>, e: nat)
    requires Ring(l, head, order) && order != [] && e < |l.prev| && e != head && e !in order
    ensures var last := order[|order| - 1];
            && AddAfter(l, last, e).next[last] == e
            && AddAfter(l, last, e).next[e] == head
            && AddTwice(l, last, e).next[e] == head
  {
    assert NextOk(l, head, order, |order|);
  }

  /** The `next` fields come out right; of the `prev` fields exactly the one of `e` is wrong: it names `e`. */
  lemma AddTwiceLinks(l: Links, head: nat, order: seq<nat>, e: nat)
    requires Ring(l, head, order) && order != [] && e < |l.prev| && e != head && e !in order
    ensures var last, n := order[|order| - 1], |order|;
            var good := AddBetween(l, e, At(head, order, n), At(head, order, n + 1));
            && Ring(good, head, order + [e])
            && AddTwice(l, last, e) == Links(good.prev[e := e], good.next)
            && Forward(AddTwice(l, last, e), head, order + [e])
  {
    var n := |order|;
    assert NextOk(l, head, order, n);
    AddRing(l, head, order, n, e);
    assert Inserted(order, n, e) == order + [e];
    var good := AddBetween(l, e, At(head, order, n), At(head, order, n + 1));
    assert NextOk(good, head, order + [e], n + 1) && PrevOk(good, head, order + [e], n + 1);
    var d := AddTwice(l, order[n - 1], e);
    assert d.next == good.next && d.prev == good.prev[e := e];
    forall i | 0 <= i <= n + 1 ensures NextOk(d, head, order + [e], i) {
      assert NextOk(good, head, order + [e], i);
    }
  }

  /** Such links form no ring at all, and deleting `e` from them changes nothing. */
  lemma SelfLinked(l: Links, head: nat, order: seq<nat>, e: nat)
    requires Forward(l, head, order + [e]) && e < |l.prev| && l.prev[e] == e && l.prev[head] == e
    ensures forall other :: !Ring(l, head, other)
    ensures Delete(l, e) == l
  {
    var all := order + [e];
    assert NextOk(l, head, all, |all|);
    forall other ensures !Ring(l, head, other) {
      if Ring(l, head, other) {
        ForwardUnique(l, head, all, other);
        assert PrevOk(l, head, other, |order|);
        AtDistinct(l, head, other, |order|, |order| + 1);
      }
    }
  }

  /** What the insertion loop without a break writes when `k` members lie at or below `base`. */
  ghost function UnbrokenLinks(l: Links, head: nat, order: seq<nat>, base: nat, k: nat): Links
    requires Bounded(l) && Members(l, head, order) && k <= |order| && base < |l.prev|
  {
    if order == [] || k < |order| then AddBetween(l, base, At(head, order, k), At(head, order, k + 1))
    else AddTwice(l, order[k - 1], base)
  }

  // ------------------------------------------------------- the routines

  method ListInit(prev: array<nat>, next: array<nat>, elm: nat)
    requires prev != next && elm < prev.Length == next.Length
    modifies prev, next
    ensures prev[..] == old(prev[..])[elm := elm] && next[..] == old(next[..])[elm := elm]
    ensures old(Bounded(Links(prev[..], next[..]))) ==> Ring(Links(prev[..], next[..]), elm, [])
  {
    next[elm] := elm;
    prev[elm] := next[elm];
    ghost var l := Links(prev[..], next[..]);
    assert NextOk(l, elm, [], 0) && PrevOk(l, elm, [], 0);
  }

  method ListAddBetween(prev: array<nat>, next: array<nat>, elm: nat, p: nat, n: nat)
    requires prev != next && Bounded(Links(prev[..], next[..]))
    requires elm < prev.Length && p < prev.Length && n < prev.Length
    modifies prev, next
    ensures Links(prev[..], next[..]) == AddBetween(old(Links(prev[..], next[..])), elm, p, n)
  {
    prev[n] := elm;
    next[p] := elm;
    next[elm] := n;
    prev[elm] := p;
  }

  method ListAdd(prev: array<nat>, next: array<nat>, listelm: nat, elm: nat)
    requires prev != next && Bounded(Links(prev[..], next[..]))
    requires elm < prev.Length && listelm < prev.Length
    modifies prev, next
    ensures Links(prev[..], next[..]) == AddAfter(old(Links(prev[..], next[..])), listelm, elm)
  {
    ListAddBetween(prev, next, elm, listelm, next[listelm]);
  }

  method ListAddBefore(prev: array<nat>, next: array<nat>, listelm: nat, elm: nat)
    requires prev != next && Bounded(Links(prev[..], next[..]))
    requires elm < prev.Length && listelm < prev.Length
    modifies prev, next
    ensures Links(prev[..], next[..]) == AddBefore(old(Links(prev[..], next[..])), listelm, elm)
  {
    ListAddBetween(prev, next, elm, prev[listelm], listelm);
  }

  method ListDel(prev: array<nat>, next: array<nat>, listelm: nat)
    requires prev != next && Bounded(Links(prev[..], next[..]))
    requires listelm < prev.Length
    modifies prev, next
    ensures Links(prev[..], next[..]) == Delete(old(Links(prev[..], next[..])), listelm)
  {
    var p, n := prev[listelm], next[listelm];
    next[p] := n;
    prev[n] := p;
  }

  // ------------------------------------------------------- insertion in address order

  /** How many members of a list come before `base`. */
  ghost predicate Place(order: seq<nat>, base: nat, k: nat) {
    k <= |order| && (forall i :: 0 <= i < k ==> order[i] <= base) && (k < |order| ==> base < order[k])
  }

  /** The insertion of best_fit_init_memmap: the loop is left as soon as `base` is linked in. */
  method InsertInOrder(prev: array<nat>, next: array<nat>, head: nat, base: nat, ghost order: seq<nat>)
    returns (ghost k: nat)
    requires prev != next && Ring(Links(prev[..], next[..]), head, order) && base < prev.Length
    modifies prev, next
    ensures Place(order, base, k)
    ensures Links(prev[..], next[..]) ==
            AddBetween(old(Links(prev[..], next[..])), base, At(head, order, k), At(head, order, k + 1))
  {
    ghost var l := Links(prev[..], next[..]);
    assert NextOk(l, head, order, 0);
    if next[head] == head {
      ListAdd(prev, next, head, base);
      return 0;
    }
    var le := next[head];
    ghost var i := 1;
    while le != head
      invariant 1 <= i <= |order| && le == order[i - 1]
      invariant forall j :: 0 <= j < i - 1 ==> order[j] <= base
      invariant Links(prev[..], next[..]) == l
      decreases |order| - i
    {
      assert NextOk(l, head, order, i) && PrevOk(l, head, order, i - 1);
      if base < le {
        ListAddBefore(prev, next, le, base);
        return i - 1;
      } else if next[le] == head {
        ListAdd(prev, next, le, base);
        return i;
      }
      le := next[le];
      i := i + 1;
    }
  }

  /**
    The insertion of best_fit_free_pages, default_free_pages and default_init_memmap: after linking `base` in at
    the tail the loop goes on, meets `base` itself, and links it in behind itself.
   */
  method InsertUnbroken(prev: array<nat>, next: array<nat>, head: nat, base: nat, ghost order: seq<nat>)
    returns (ghost k: nat)
    requires prev != next && Ring(Links(prev[..], next[..]), head, order)
    requires base < prev.Length && base != head && base !in order
    modifies prev, next
    ensures Place(order, base, k)
    ensures Links(prev[..], next[..]) == UnbrokenLinks(old(Links(prev[..], next[..])), head, order, base, k)
  {
    ghost var l := Links(prev[..], next[..]);
    assert NextOk(l, head, order, 0);
    if next[head] == head {
      ListAdd(prev, next, head, base);
      return 0;
    }
    var le := next[head];
    ghost var i := 1;
    AddTwiceSteps(l, head, order, base);
    while le != head
      invariant order != [] && 1 <= i <= |order| + 2
      invariant forall j :: 0 <= j < i - 1 && j < |order| ==> order[j] <= base
      invariant i <= |order| ==> le == order[i - 1] && Links(prev[..], next[..]) == l
      invariant i == |order| + 1 ==> le == base && Links(prev[..], next[..]) == AddAfter(l, order[|order| - 1], base)
      invariant i == |order| + 2 ==> le == head && Links(prev[..], next[..]) == AddTwice(l, order[|order| - 1], base)
      decreases |order| + 2 - i
    {
      if i <= |order| { assert NextOk(l, head, order, i) && PrevOk(l, head, order, i - 1); }
      if base < le {
        ListAddBefore(prev, next, le, base);
        return i - 1;
      } else if next[le] == head {
        ListAdd(prev, next, le, base);
      }
      le := next[le];
      i := i + 1;
    }
    return |order|;
  }
}
