/**
  The steps of which appending a block consists (sfs_alloc_ino, alloc_cache_block, the two assignments of
  update_cache, and the final stores of append_block), each with the proof that it keeps the invariant.
 */
module SfsSteps {
  import opened Options
  import opened SfsBytes
  import opened SfsModel

  // ------------------------------------------------------- block numbers

  /** sfs_alloc_ino when there is space. */
  function TakeIno(fs: Fs): Fs
    requires fs.unused > 0
  {
    fs.(nextIno := fs.nextIno + 1, unused := fs.unused - 1)
  }

  /** The number taken was nobody's. */
  lemma {:induction false} TakeInoValid(fs: Fs, bk: Book)
    requires Valid(fs, bk) && fs.nextIno < fs.ninos
    ensures fs.unused > 0 && Valid(TakeIno(fs), bk)
    ensures fs.nextIno !in bk.owner && GivenOut(TakeIno(fs), fs.nextIno) && fs.nextIno != BLKN_ROOT
  {
    var fs' := TakeIno(fs);
    OwnedKept(fs, bk, fs');
    FiledKept(fs, fs');
    forall h | 0 <= h < |fs.inodes| ensures InodeOk(fs', bk, h) {
      assert InodeOk(fs, bk, h);
      ShapeFrame(fs, bk, fs', bk, h);
    }
  }

  /** A number of one's own: given out and owned by nobody. */
  ghost predicate Spare(fs: Fs, bk: Book, x: nat) {
    GivenOut(fs, x) && x !in bk.owner && x != BLKN_ROOT
  }

  // ------------------------------------------------------- index blocks

  function Zeros(): (z: seq<nat>)
    ensures |z| == NENTRY && forall i :: 0 <= i < NENTRY ==> z[i] == 0
  {
    seq(NENTRY, _ => 0)
  }

  /** alloc_cache_block: a zeroed index block numbered `x`, filed under the hash of `arg`. */
  function AddIndex(fs: Fs, arg: nat, x: nat): Fs
    requires |fs.indexChains| == HASH_LIST_SIZE
  {
    fs.(index := fs.index + [IndexBlock(x, Zeros())],
        indexChains := fs.indexChains[Hash32(arg) := [|fs.index|] + fs.indexChains[Hash32(arg)]])
  }

  /** The parts of the invariant that speak of all index blocks, after one is added. */
  lemma {:induction false} AddIndexFiled(fs: Fs, x: nat)
    requires Filed(fs) && ChainsOk(fs)
    ensures Filed(AddIndex(fs, 0, x)) && ChainsOk(AddIndex(fs, 0, x))
  {
    var fs' := AddIndex(fs, 0, x);
    forall c | 0 <= c < |fs'.index| ensures IndexFiled(fs', c) {
      if c < |fs.index| {
        assert IndexFiled(fs, c);
      } else {
        assert fs'.indexChains[Hash32(0)][0] == c;
      }
    }
    forall h | 0 <= h < |fs'.inodes| ensures InodeFiled(fs', h) { assert InodeFiled(fs, h); }
  }

  function WithInode(fs: Fs, h: nat, nd: Inode): Fs
    requires h < |fs.inodes|
  {
    fs.(inodes := fs.inodes[h := nd])
  }

  /** update_cache allocates the table of leaves. */
  function AddTop(fs: Fs, h: nat, x: nat): Fs
    requires |fs.indexChains| == HASH_LIST_SIZE && h < |fs.inodes|
  {
    WithInode(AddIndex(fs, 0, x), h, fs.inodes[h].(l2 := Some(|fs.index|), dbIndirect := x))
  }

  ghost function BookTop(fs: Fs, bk: Book, h: nat, x: nat): Book
    requires h < |bk.tracks|
  {
    Book(bk.tracks[h := bk.tracks[h].(top := Some(|fs.index|))], bk.role + [Top(h)], bk.owner[x := IndexOwner(|fs.index|)])
  }

  /** update_cache allocates the next leaf: the indirect block, or one entered in the table of leaves. */
  function AddLeaf(fs: Fs, h: nat, x: nat): Fs
    requires |fs.indexChains| == HASH_LIST_SIZE && h < |fs.inodes|
  {
    WithInode(AddIndex(fs, 0, x), h, fs.inodes[h].(l1 := Some(|fs.index|), indirect := x))
  }

  function AddTableLeaf(fs: Fs, h: nat, x: nat, top: nat, i: nat): Fs
    requires |fs.indexChains| == HASH_LIST_SIZE && h < |fs.inodes|
    requires top < |fs.index| && i < |fs.index[top].data|
  {
    var fs1 := WithInode(AddIndex(fs, 0, x), h, fs.inodes[h].(l1 := Some(|fs.index|)));
    fs1.(index := fs1.index[top := fs1.index[top].(data := fs1.index[top].data[i := x])])
  }

  ghost function BookLeaf(fs: Fs, bk: Book, h: nat, x: nat): Book
    requires h < |bk.tracks|
  {
    var t := bk.tracks[h];
    Book(bk.tracks[h := t.(leaf := t.leaf + [|fs.index|])], bk.role + [Leaf(h, |t.leaf|)], bk.owner[x := IndexOwner(|fs.index|)])
  }

  /** A step that adds one index block for inode `h` and may rewrite index blocks and pointers of `h` only. */
  ghost predicate IndexStep(fs: Fs, bk: Book, fs': Fs, bk': Book, h: nat, x: nat) {
    && |fs.indexChains| == HASH_LIST_SIZE && |bk.role| == |fs.index|
    && h < |fs.inodes| == |fs'.inodes| == |bk.tracks| == |bk'.tracks|
    && (forall g :: 0 <= g < |fs.inodes| && g != h ==> fs'.inodes[g] == fs.inodes[g] && bk'.tracks[g] == bk.tracks[g])
    && fs'.inodes[h].ino == fs.inodes[h].ino && fs'.inodes[h].host == fs.inodes[h].host
    && bk'.tracks[h].log == bk.tracks[h].log && bk'.tracks[h].data == bk.tracks[h].data
    && fs'.(inodes := fs.inodes, index := fs.index) == AddIndex(fs, 0, x).(index := fs.index)
    && |fs'.index| == |fs.index| + 1 && fs'.index[|fs.index|] == IndexBlock(x, Zeros())
    && (forall c :: 0 <= c < |fs.index| ==> fs'.index[c].ino == fs.index[c].ino && |fs'.index[c].data| == NENTRY)
    && (forall c :: 0 <= c < |fs.index| && bk.role[c].h != h ==> fs'.index[c] == fs.index[c])
    && |bk'.role| == |bk.role| + 1 && bk'.role[|bk.role|].h == h
    && (forall c :: 0 <= c < |bk.role| ==> bk'.role[c] == bk.role[c])
    && bk'.owner == bk.owner[x := IndexOwner(|fs.index|)]
  }

  lemma {:induction false} IndexStepOwned(fs: Fs, bk: Book, fs': Fs, bk': Book, h: nat, x: nat)
    requires Owned(fs, bk) && Spare(fs, bk, x) && IndexStep(fs, bk, fs', bk', h, x)
    ensures Owned(fs', bk')
  {
    forall g | 0 <= g < |fs'.inodes| ensures InodeOwned(fs', bk', g) { assert InodeOwned(fs, bk, g); }
    forall c | 0 <= c < |fs'.index| ensures IndexOwned(fs', bk', c) {
      if c < |fs.index| { assert IndexOwned(fs, bk, c); }
    }
  }

  lemma {:induction false} IndexStepFiled(fs: Fs, bk: Book, fs': Fs, bk': Book, h: nat, x: nat)
    requires Filed(fs) && ChainsOk(fs) && IndexStep(fs, bk, fs', bk', h, x)
    ensures Filed(fs') && ChainsOk(fs')
  {
    AddIndexFiled(fs, x);
    var f1 := AddIndex(fs, 0, x);
    FiledKept(f1, fs');
  }

  lemma {:induction false} IndexStepOthers(fs: Fs, bk: Book, fs': Fs, bk': Book, h: nat, x: nat, g: nat)
    requires Spare(fs, bk, x) && IndexStep(fs, bk, fs', bk', h, x) && g < |fs.inodes|
    requires InodeOk(fs, bk, g) && Shape(fs', bk', h)
    ensures InodeOk(fs', bk', g)
  {
    if g != h { ShapeFrame(fs, bk, fs', bk', g); }
  }

  /** Such a step keeps the invariant if it keeps the shape of `h`. */
  lemma {:induction false} IndexStepValid(fs: Fs, bk: Book, fs': Fs, bk': Book, h: nat, x: nat)
    requires Valid(fs, bk) && Spare(fs, bk, x) && IndexStep(fs, bk, fs', bk', h, x) && Shape(fs', bk', h)
    ensures Valid(fs', bk')
  {
    IndexStepOwned(fs, bk, fs', bk', h, x);
    IndexStepFiled(fs, bk, fs', bk', h, x);
    forall g | 0 <= g < |fs.inodes| ensures InodeOk(fs', bk', g) {
      IndexStepOthers(fs, bk, fs', bk', h, x, g);
    }
  }

  lemma {:induction false} AddTopShape(fs: Fs, bk: Book, h: nat, x: nat)
    requires |fs.indexChains| == HASH_LIST_SIZE && |bk.role| == |fs.index|
    requires h < |fs.inodes| && h < |bk.tracks| && Shape(fs, bk, h) && bk.tracks[h].top.None?
    ensures Shape(AddTop(fs, h, x), BookTop(fs, bk, h, x), h)
  {
    var fs', bk' := AddTop(fs, h, x), BookTop(fs, bk, h, x);
    var t, t' := bk.tracks[h], bk'.tracks[h];
    forall k | NDIRECT <= k < |t.log| ensures SlotHolds(fs', t', k) { assert SlotHolds(fs, t, k); }
    forall i | 0 <= i < |t.leaf| ensures IsIndex(fs', bk', t.leaf[i], Leaf(h, i)) {
      assert IsIndex(fs, bk, t.leaf[i], Leaf(h, i));
    }
    forall i | 0 <= i < NENTRY ensures TopHolds(fs', t', i) { }
  }

  lemma {:induction false} AddTopValid(fs: Fs, bk: Book, h: nat, x: nat)
    requires Valid(fs, bk) && h < |fs.inodes| && Spare(fs, bk, x) && bk.tracks[h].top.None?
    ensures Valid(AddTop(fs, h, x), BookTop(fs, bk, h, x))
  {
    assert InodeOk(fs, bk, h);
    AddTopShape(fs, bk, h, x);
    IndexStepValid(fs, bk, AddTop(fs, h, x), BookTop(fs, bk, h, x), h, x);
  }

  lemma {:induction false} AddLeafShape(fs: Fs, bk: Book, h: nat, x: nat)
    requires |fs.indexChains| == HASH_LIST_SIZE && |bk.role| == |fs.index|
    requires h < |fs.inodes| && h < |bk.tracks| && Shape(fs, bk, h)
    requires bk.tracks[h].leaf == [] && |bk.tracks[h].log| == NDIRECT
    ensures Shape(AddLeaf(fs, h, x), BookLeaf(fs, bk, h, x), h)
  {
    var fs', bk' := AddLeaf(fs, h, x), BookLeaf(fs, bk, h, x);
    var t, t' := bk.tracks[h], bk'.tracks[h];
    if t.top.Some? {
      forall i | 0 <= i < NENTRY ensures TopHolds(fs', t', i) { assert TopHolds(fs, t, i); }
    }
  }

  lemma {:induction false} AddLeafValid(fs: Fs, bk: Book, h: nat, x: nat)
    requires Valid(fs, bk) && h < |fs.inodes| && Spare(fs, bk, x)
    requires bk.tracks[h].leaf == [] && |bk.tracks[h].log| == NDIRECT
    ensures Valid(AddLeaf(fs, h, x), BookLeaf(fs, bk, h, x))
  {
    assert InodeOk(fs, bk, h);
    AddLeafShape(fs, bk, h, x);
    IndexStepValid(fs, bk, AddLeaf(fs, h, x), BookLeaf(fs, bk, h, x), h, x);
  }

  lemma {:induction false} AddTableLeafShape(fs: Fs, bk: Book, h: nat, x: nat)
    requires |fs.indexChains| == HASH_LIST_SIZE && |bk.role| == |fs.index|
    requires h < |fs.inodes| && h < |bk.tracks| && Shape(fs, bk, h)
    requires var t := bk.tracks[h];
             t.top.Some? && 0 < |t.leaf| <= NENTRY && |t.log| == NDIRECT + NENTRY * |t.leaf|
    ensures var t := bk.tracks[h];
            && t.top.value < |fs.index| && |fs.index[t.top.value].data| == NENTRY
            && Shape(AddTableLeaf(fs, h, x, t.top.value, |t.leaf| - 1), BookLeaf(fs, bk, h, x), h)
  {
    var t := bk.tracks[h];
    assert IsIndex(fs, bk, t.top.value, Top(h));
    var fs', bk' := AddTableLeaf(fs, h, x, t.top.value, |t.leaf| - 1), BookLeaf(fs, bk, h, x);
    var t' := bk'.tracks[h];
    forall i | 0 <= i < |t.leaf| ensures IsIndex(fs', bk', t.leaf[i], Leaf(h, i)) && t.leaf[i] != t.top.value {
      assert IsIndex(fs, bk, t.leaf[i], Leaf(h, i));
    }
    forall k | NDIRECT <= k < |t.log| ensures SlotHolds(fs', t', k) {
      assert SlotHolds(fs, t, k);
      assert IsIndex(fs', bk', t.leaf[LeafOf(k)], Leaf(h, LeafOf(k)));
    }
    forall i | 0 <= i < NENTRY ensures TopHolds(fs', t', i) { assert TopHolds(fs, t, i); }
    assert LeavesOk(fs', bk', h, t');
  }

  lemma {:induction false} AddTableLeafStep(fs: Fs, bk: Book, h: nat, x: nat)
    requires Valid(fs, bk) && h < |fs.inodes| && bk.tracks[h].top.Some? && 0 < |bk.tracks[h].leaf| <= NENTRY
    ensures var t := bk.tracks[h];
            && t.top.value < |fs.index| && |fs.index[t.top.value].data| == NENTRY
            && IndexStep(fs, bk, AddTableLeaf(fs, h, x, t.top.value, |t.leaf| - 1), BookLeaf(fs, bk, h, x), h, x)
  {
    assert InodeOk(fs, bk, h);
    assert IsIndex(fs, bk, bk.tracks[h].top.value, Top(h));
  }

  lemma {:induction false} AddTableLeafValid(fs: Fs, bk: Book, h: nat, x: nat)
    requires Valid(fs, bk) && h < |fs.inodes| && Spare(fs, bk, x)
    requires var t := bk.tracks[h];
             t.top.Some? && 0 < |t.leaf| <= NENTRY && |t.log| == NDIRECT + NENTRY * |t.leaf|
    ensures var t := bk.tracks[h];
            && t.top.value < |fs.index| && |fs.index[t.top.value].data| == NENTRY
            && Valid(AddTableLeaf(fs, h, x, t.top.value, |t.leaf| - 1), BookLeaf(fs, bk, h, x))
  {
    var t := bk.tracks[h];
    assert InodeOk(fs, bk, h);
    AddTableLeafShape(fs, bk, h, x);
    AddTableLeafStep(fs, bk, h, x);
    IndexStepValid(fs, bk, AddTableLeaf(fs, h, x, t.top.value, |t.leaf| - 1), BookLeaf(fs, bk, h, x), h, x);
  }

  // ------------------------------------------------------- the final stores

  /** The counters at the end of append_block. */
  function Grown(nd: Inode, size: nat): Inode {
    nd.(nblks := nd.nblks + 1, size := nd.size + size, blocks := nd.blocks + 1)
  }

  function StoreDirect(fs: Fs, h: nat, size: nat, ino: nat): Fs
    requires h < |fs.inodes| && fs.inodes[h].nblks < |fs.inodes[h].direct|
  {
    var nd := fs.inodes[h];
    WithInode(fs, h, Grown(nd, size).(direct := nd.direct[nd.nblks := ino]))
  }

  function StoreIndexed(fs: Fs, h: nat, size: nat, ino: nat, c: nat, slot: nat): Fs
    requires h < |fs.inodes| && c < |fs.index| && slot < |fs.index[c].data|
  {
    WithInode(fs, h, Grown(fs.inodes[h], size))
      .(index := fs.index[c := fs.index[c].(data := fs.index[c].data[slot := ino])])
  }

  ghost function BookStore(bk: Book, h: nat, ino: nat, bytes: seq<byte>): Book
    requires h < |bk.tracks|
  {
    var t := bk.tracks[h];
    bk.(tracks := bk.tracks[h := t.(log := t.log + [ino], data := t.data + [bytes])],
        owner := bk.owner[ino := DataBlock(h, |t.log|)])
  }

  /** A step that appends `ino` to inode `h` and may rewrite index blocks of `h` only. */
  ghost predicate StoreStep(fs: Fs, bk: Book, fs': Fs, h: nat) {
    && |bk.role| == |fs.index|
    && h < |fs.inodes| == |fs'.inodes| == |bk.tracks|
    && (forall g :: 0 <= g < |fs.inodes| && g != h ==> fs'.inodes[g] == fs.inodes[g])
    && fs'.inodes[h].ino == fs.inodes[h].ino && fs'.inodes[h].host == fs.inodes[h].host
    && fs'.(inodes := fs.inodes, index := fs.index) == fs
    && |fs'.index| == |fs.index|
    && (forall c :: 0 <= c < |fs.index| ==> fs'.index[c].ino == fs.index[c].ino && |fs'.index[c].data| == NENTRY)
    && (forall c :: 0 <= c < |fs.index| && bk.role[c].h != h ==> fs'.index[c] == fs.index[c])
  }

  lemma {:induction false} StoreStepOthers(fs: Fs, bk: Book, fs': Fs, h: nat, ino: nat, bytes: seq<byte>, g: nat)
    requires Spare(fs, bk, ino) && StoreStep(fs, bk, fs', h) && g < |fs.inodes|
    requires |bytes| <= BLKSIZE && ino in fs.image && fs.image[ino] == Pad(bytes)
    requires InodeOk(fs, bk, g) && Shape(fs', BookStore(bk, h, ino, bytes), h)
    ensures InodeOk(fs', BookStore(bk, h, ino, bytes), g)
  {
    if g != h { ShapeFrame(fs, bk, fs', BookStore(bk, h, ino, bytes), g); }
  }

  lemma {:induction false} StoreStepRest(fs: Fs, bk: Book, fs': Fs, h: nat, ino: nat, bytes: seq<byte>)
    requires Owned(fs, bk) && Filed(fs) && ChainsOk(fs) && Spare(fs, bk, ino) && StoreStep(fs, bk, fs', h)
    ensures Owned(fs', BookStore(bk, h, ino, bytes)) && Filed(fs') && ChainsOk(fs')
  {
    OwnedKept(fs, bk, fs');
    var bk' := BookStore(bk, h, ino, bytes);
    forall g | 0 <= g < |fs'.inodes| ensures InodeOwned(fs', bk', g) { assert InodeOwned(fs', bk, g); }
    forall c | 0 <= c < |fs'.index| ensures IndexOwned(fs', bk', c) { assert IndexOwned(fs', bk, c); }
    FiledKept(fs, fs');
  }

  lemma {:induction false} StoreStepValid(fs: Fs, bk: Book, fs': Fs, h: nat, ino: nat, bytes: seq<byte>)
    requires Valid(fs, bk) && Spare(fs, bk, ino) && StoreStep(fs, bk, fs', h)
    requires |bytes| <= BLKSIZE && ino in fs.image && fs.image[ino] == Pad(bytes)
    requires Shape(fs', BookStore(bk, h, ino, bytes), h)
    ensures Valid(fs', BookStore(bk, h, ino, bytes))
  {
    var bk' := BookStore(bk, h, ino, bytes);
    forall g | 0 <= g < |fs.inodes| ensures InodeOk(fs', bk', g) {
      StoreStepOthers(fs, bk, fs', h, ino, bytes, g);
    }
    StoreStepRest(fs, bk, fs', h, ino, bytes);
  }

  lemma {:induction false} StoreDirectValid(fs: Fs, bk: Book, h: nat, size: nat, ino: nat, bytes: seq<byte>)
    requires Valid(fs, bk) && h < |fs.inodes| && Spare(fs, bk, ino) && size <= BLKSIZE
    requires |bytes| <= BLKSIZE && ino in fs.image && fs.image[ino] == Pad(bytes)
    requires |bk.tracks[h].log| < NDIRECT
    ensures fs.inodes[h].nblks < |fs.inodes[h].direct|
    ensures Valid(StoreDirect(fs, h, size, ino), BookStore(bk, h, ino, bytes))
    ensures NoneLost(fs, bk, ino) ==> NoneLost(StoreDirect(fs, h, size, ino), BookStore(bk, h, ino, bytes), 0)
  {
    assert InodeOk(fs, bk, h);
    var fs', bk' := StoreDirect(fs, h, size, ino), BookStore(bk, h, ino, bytes);
    var t, t' := bk.tracks[h], bk'.tracks[h];
    assert Shape(fs', bk', h) by {
      if t.top.Some? {
        forall i | 0 <= i < NENTRY ensures TopHolds(fs', t', i) { assert TopHolds(fs, t, i); }
      }
    }
    StoreStepValid(fs, bk, fs', h, ino, bytes);
    if NoneLost(fs, bk, ino) { StoreKeeps(fs, bk, fs', h, ino, bytes); }
  }

  lemma {:induction false} StoreIndexedShape(fs: Fs, bk: Book, h: nat, size: nat, ino: nat, bytes: seq<byte>)
    requires |bk.role| == |fs.index| && h < |fs.inodes| && h < |bk.tracks| && size <= BLKSIZE && Shape(fs, bk, h)
    requires var t := bk.tracks[h]; NDIRECT <= |t.log| < NDIRECT + NENTRY * |t.leaf| && |t.log| < LN_NBLKS
    ensures var t := bk.tracks[h];
            && var c := t.leaf[|t.leaf| - 1];
               && c < |fs.index| && |fs.index[c].data| == NENTRY
               && Shape(StoreIndexed(fs, h, size, ino, c, SlotOf(|t.log|)), BookStore(bk, h, ino, bytes), h)
  {
    var t := bk.tracks[h];
    var n, m := |t.log|, |t.leaf|;
    var c := t.leaf[m - 1];
    LeafBounds(n, m);
    assert IsIndex(fs, bk, c, Leaf(h, m - 1));
    var fs', bk' := StoreIndexed(fs, h, size, ino, c, SlotOf(n)), BookStore(bk, h, ino, bytes);
    var t' := bk'.tracks[h];
    forall i | 0 <= i < m ensures IsIndex(fs', bk', t.leaf[i], Leaf(h, i)) && (t.leaf[i] == c ==> i == m - 1) {
      assert IsIndex(fs, bk, t.leaf[i], Leaf(h, i));
    }
    forall k | NDIRECT <= k < |t'.log| ensures SlotHolds(fs', t', k) {
      if k < n {
        assert SlotHolds(fs, t, k);
        assert IsIndex(fs', bk', t.leaf[LeafOf(k)], Leaf(h, LeafOf(k)));
        if LeafOf(k) == LeafOf(n) && SlotOf(k) == SlotOf(n) { SlotsDistinct(k, n); }
      }
    }
    if t.top.Some? {
      assert IsIndex(fs, bk, t.top.value, Top(h));
      forall i | 0 <= i < NENTRY ensures TopHolds(fs', t', i) { assert TopHolds(fs, t, i); }
    }
  }

  lemma {:induction false} StoreIndexedStep(fs: Fs, bk: Book, h: nat, size: nat, ino: nat, c: nat, slot: nat)
    requires |bk.role| == |fs.index| && h < |fs.inodes| == |bk.tracks| && c < |fs.index| && slot < NENTRY
    requires bk.role[c].h == h && forall d :: 0 <= d < |fs.index| ==> |fs.index[d].data| == NENTRY
    ensures StoreStep(fs, bk, StoreIndexed(fs, h, size, ino, c, slot), h)
  {
  }

  lemma {:induction false} StoreIndexedValid(fs: Fs, bk: Book, h: nat, size: nat, ino: nat, bytes: seq<byte>)
    requires Valid(fs, bk) && h < |fs.inodes| && Spare(fs, bk, ino) && size <= BLKSIZE
    requires |bytes| <= BLKSIZE && ino in fs.image && fs.image[ino] == Pad(bytes)
    requires var t := bk.tracks[h]; NDIRECT <= |t.log| < NDIRECT + NENTRY * |t.leaf| && |t.log| < LN_NBLKS
    ensures var t := bk.tracks[h];
            && var c := t.leaf[|t.leaf| - 1];
               && fs.inodes[h].l1 == Some(c) && c < |fs.index| && |fs.index[c].data| == NENTRY
               && Valid(StoreIndexed(fs, h, size, ino, c, SlotOf(|t.log|)), BookStore(bk, h, ino, bytes))
               && (NoneLost(fs, bk, ino) ==>
                     NoneLost(StoreIndexed(fs, h, size, ino, c, SlotOf(|t.log|)), BookStore(bk, h, ino, bytes), 0))
  {
    assert InodeOk(fs, bk, h);
    StoreIndexedShape(fs, bk, h, size, ino, bytes);
    var t := bk.tracks[h];
    var c, slot := t.leaf[|t.leaf| - 1], SlotOf(|t.log|);
    assert IsIndex(fs, bk, c, Leaf(h, |t.leaf| - 1));
    StoreIndexedStep(fs, bk, h, size, ino, c, slot);
    StoreStepValid(fs, bk, StoreIndexed(fs, h, size, ino, c, slot), h, ino, bytes);
    if NoneLost(fs, bk, ino) { StoreKeeps(fs, bk, StoreIndexed(fs, h, size, ino, c, slot), h, ino, bytes); }
  }

  // ------------------------------------------------------- no number is lost

  /** Index blocks stay where they are. */
  ghost predicate StillEntered(bk: Book, bk': Book) {
    forall c :: Entered(bk, c) ==> Entered(bk', c)
  }

  lemma {:induction false} TopEntered(fs: Fs, bk: Book, h: nat, x: nat)
    requires |bk.role| == |fs.index| && h < |bk.tracks| && bk.tracks[h].top.None?
    ensures StillEntered(bk, BookTop(fs, bk, h, x)) && Entered(BookTop(fs, bk, h, x), |fs.index|)
  {
  }

  lemma {:induction false} LeafEntered(fs: Fs, bk: Book, h: nat, x: nat)
    requires |bk.role| == |fs.index| && h < |bk.tracks|
    ensures StillEntered(bk, BookLeaf(fs, bk, h, x)) && Entered(BookLeaf(fs, bk, h, x), |fs.index|)
  {
  }

  /** A number taken for an index block is in use as soon as the block is entered. */
  lemma {:induction false} IndexKeeps(fs: Fs, bk: Book, fs': Fs, bk': Book, h: nat, spare: nat)
    requires fs.unused > 0 && IndexStep(TakeIno(fs), bk, fs', bk', h, fs.nextIno) && NoneLost(fs, bk, spare)
    requires StillEntered(bk, bk') && Entered(bk', |fs.index|)
    ensures NoneLost(fs', bk', spare)
  {
    forall x: nat | GivenOut(fs', x) && x != spare ensures Placed(fs', bk', x) {
      if x < fs.nextIno { assert GivenOut(fs, x) && Placed(fs, bk, x); }
    }
  }

  lemma {:induction false} IndexKeepsAll(fs: Fs, bk: Book, fs': Fs, bk': Book, h: nat)
    requires fs.unused > 0 && IndexStep(TakeIno(fs), bk, fs', bk', h, fs.nextIno)
    requires StillEntered(bk, bk') && Entered(bk', |fs.index|)
    ensures forall x: nat :: NoneLost(fs, bk, x) ==> NoneLost(fs', bk', x)
  {
    forall x: nat | NoneLost(fs, bk, x) ensures NoneLost(fs', bk', x) { IndexKeeps(fs, bk, fs', bk', h, x); }
  }

  /** The spare number is in use once it is stored. */
  lemma {:induction false} StoreKeeps(fs: Fs, bk: Book, fs': Fs, h: nat, ino: nat, bytes: seq<byte>)
    requires StoreStep(fs, bk, fs', h) && NoneLost(fs, bk, ino) && ino !in bk.owner
    ensures NoneLost(fs', BookStore(bk, h, ino, bytes), 0)
  {
    var bk' := BookStore(bk, h, ino, bytes);
    forall x: nat | GivenOut(fs', x) ensures Placed(fs', bk', x) {
      if x != ino {
        assert GivenOut(fs, x) && Placed(fs, bk, x);
        assert forall c :: Entered(bk, c) ==> Entered(bk', c);
      }
    }
  }

  /** A number taken for an inode is in use at once. */
  lemma {:induction false} InodeKeeps(fs: Fs, bk: Book, host: nat, kind: Kind)
    requires fs.unused > 0 && |fs.inodeChains| == HASH_LIST_SIZE && |bk.tracks| == |fs.inodes| && NoneLost(fs, bk, 0)
    ensures NoneLost(AddInode(TakeIno(fs), fs.nextIno, host, kind), BookInode(fs, bk, fs.nextIno), 0)
  {
    var fs', bk' := AddInode(TakeIno(fs), fs.nextIno, host, kind), BookInode(fs, bk, fs.nextIno);
    forall x: nat | GivenOut(fs', x) ensures Placed(fs', bk', x) {
      if x < fs.nextIno {
        assert GivenOut(fs, x) && Placed(fs, bk, x);
        assert forall c :: Entered(bk, c) ==> Entered(bk', c);
      }
    }
  }

  /** Taking a number leaves it spare. */
  lemma {:induction false} TakeKeeps(fs: Fs, bk: Book)
    requires fs.unused > 0 && NoneLost(fs, bk, 0)
    ensures NoneLost(TakeIno(fs), bk, fs.nextIno)
  {
    forall x: nat | GivenOut(TakeIno(fs), x) && x != fs.nextIno ensures Placed(TakeIno(fs), bk, x) {
      assert GivenOut(fs, x) && Placed(fs, bk, x);
    }
  }

  /** Numbers do not depend on what is on the image, nor on counters in the inodes. */
  lemma {:induction false} SameKeeps(fs: Fs, bk: Book, fs': Fs, spare: nat)
    requires NoneLost(fs, bk, spare) && fs'.ninos == fs.ninos && fs'.nextIno == fs.nextIno && fs'.index == fs.index
    requires |fs'.inodes| == |fs.inodes| && forall h :: 0 <= h < |fs.inodes| ==> fs'.inodes[h].ino == fs.inodes[h].ino
    ensures NoneLost(fs', bk, spare)
  {
    forall x: nat | GivenOut(fs', x) && x != spare ensures Placed(fs', bk, x) {
      assert GivenOut(fs, x) && Placed(fs, bk, x);
    }
  }

  // ------------------------------------------------------- update_cache on a well-kept inode

  /** How many index blocks appending block `n` needs. */
  function IndexNeed(n: nat): nat {
    if n == NDIRECT then 1
    else if n == L1_NBLKS then 2
    else if n > L1_NBLKS && SlotOf(n) == 0 then 1
    else 0
  }

  /** All of an inode but its index pointers and counters. */
  ghost predicate SameIdentity(nd: Inode, nd': Inode) {
    nd'.kind == nd.kind && nd'.nlinks == nd.nlinks && nd'.host == nd.host && nd'.ino == nd.ino
  }

  /** A step in the service of appending to inode `h`: no history changes, and no inode but the pointers of `h`. */
  ghost predicate Prepares(fs: Fs, bk: Book, fs': Fs, bk': Book, h: nat) {
    && fs'.image == fs.image && fs'.inodeChains == fs.inodeChains && fs'.ninos == fs.ninos && fs.nextIno <= fs'.nextIno
    && h < |fs.inodes| == |fs'.inodes| == |bk.tracks| == |bk'.tracks|
    && (forall g :: 0 <= g < |fs.inodes| && g != h ==> fs'.inodes[g] == fs.inodes[g] && bk'.tracks[g] == bk.tracks[g])
    && bk'.tracks[h].log == bk.tracks[h].log && bk'.tracks[h].data == bk.tracks[h].data
    && SameIdentity(fs.inodes[h], fs'.inodes[h])
    && fs'.inodes[h].size == fs.inodes[h].size && fs'.inodes[h].nblks == fs.inodes[h].nblks
    && (forall x :: Spare(fs, bk, x) ==> Spare(fs', bk', x))
    && (forall x: nat :: NoneLost(fs, bk, x) ==> NoneLost(fs', bk', x))
  }

  /** The numbers of index blocks are never 0, the mark of a missing one. */
  lemma {:induction false} IndexNumbers(fs: Fs, bk: Book, c: nat)
    requires Valid(fs, bk) && c < |fs.index|
    ensures BLKN_FREEMAP <= fs.index[c].ino < MAX_NBLKS
  {
    assert IndexOwned(fs, bk, c);
  }

  /** What update_cache is asked for the indirect block: nothing yet, or the block it already points to. */
  lemma {:induction false} IndirectCached(fs: Fs, bk: Book, h: nat)
    requires Valid(fs, bk) && h < |fs.inodes| && Tight(bk.tracks[h]) && NDIRECT <= |bk.tracks[h].log| < L1_NBLKS
    ensures var nd, t := fs.inodes[h], bk.tracks[h];
            && (nd.l1.Some? ==> nd.l1.value < |fs.index|)
            && (nd.indirect == 0 <==> |t.log| == NDIRECT)
            && (nd.indirect != 0 ==> nd.l1.Some? && fs.index[nd.l1.value].ino == nd.indirect)
            && |t.leaf| == (if |t.log| == NDIRECT then 0 else 1) && t.top.None?
  {
    assert InodeOk(fs, bk, h);
    var t := bk.tracks[h];
    if t.leaf != [] { IndexNumbers(fs, bk, t.leaf[0]); }
  }

  lemma {:induction false} IndirectGrown(fs: Fs, bk: Book, h: nat)
    requires Valid(fs, bk) && h < |fs.inodes| && Tight(bk.tracks[h]) && |bk.tracks[h].log| == NDIRECT
    requires fs.nextIno < fs.ninos
    ensures fs.unused > 0
    ensures Valid(AddLeaf(TakeIno(fs), h, fs.nextIno), BookLeaf(fs, bk, h, fs.nextIno))
    ensures Prepares(fs, bk, AddLeaf(TakeIno(fs), h, fs.nextIno), BookLeaf(fs, bk, h, fs.nextIno), h)
    ensures |BookLeaf(fs, bk, h, fs.nextIno).tracks[h].leaf| == 1
  {
    IndirectCached(fs, bk, h);
    TakeInoValid(fs, bk);
    AddLeafValid(TakeIno(fs), bk, h, fs.nextIno);
    LeafEntered(fs, bk, h, fs.nextIno);
    IndexKeepsAll(fs, bk, AddLeaf(TakeIno(fs), h, fs.nextIno), BookLeaf(fs, bk, h, fs.nextIno), h);
  }

  lemma {:induction false} TableCached(fs: Fs, bk: Book, h: nat)
    requires Valid(fs, bk) && h < |fs.inodes| && Tight(bk.tracks[h]) && L1_NBLKS <= |bk.tracks[h].log| < LN_NBLKS
    ensures var nd, t := fs.inodes[h], bk.tracks[h];
            && (nd.l2.Some? ==> nd.l2.value < |fs.index|)
            && (nd.dbIndirect == 0 <==> |t.log| == L1_NBLKS)
            && (nd.dbIndirect != 0 ==> nd.l2.Some? && fs.index[nd.l2.value].ino == nd.dbIndirect)
            && (t.top.Some? <==> |t.log| > L1_NBLKS)
  {
    assert InodeOk(fs, bk, h);
    var t := bk.tracks[h];
    if t.top.Some? { IndexNumbers(fs, bk, t.top.value); }
  }

  lemma {:induction false} TableGrown(fs: Fs, bk: Book, h: nat)
    requires Valid(fs, bk) && h < |fs.inodes| && Tight(bk.tracks[h]) && |bk.tracks[h].log| == L1_NBLKS
    requires fs.nextIno < fs.ninos
    ensures fs.unused > 0
    ensures Valid(AddTop(TakeIno(fs), h, fs.nextIno), BookTop(fs, bk, h, fs.nextIno))
    ensures Prepares(fs, bk, AddTop(TakeIno(fs), h, fs.nextIno), BookTop(fs, bk, h, fs.nextIno), h)
  {
    TakeInoValid(fs, bk);
    AddTopValid(TakeIno(fs), bk, h, fs.nextIno);
    TopEntered(fs, bk, h, fs.nextIno);
    IndexKeepsAll(fs, bk, AddTop(TakeIno(fs), h, fs.nextIno), BookTop(fs, bk, h, fs.nextIno), h);
  }

  /** Which leaf the next block goes to, and whether it exists. */
  lemma {:induction false} NextLeaf(n: nat)
    requires L1_NBLKS <= n < LN_NBLKS
    ensures var j := (n - L1_NBLKS) / NENTRY;
            && LeafOf(n) == j + 1 && j < NENTRY && SlotOf(n) == (n - L1_NBLKS) % NENTRY
            && LeafCount(n) == (if SlotOf(n) == 0 then j + 1 else j + 2)
            && (SlotOf(n) == 0 ==> n == NDIRECT + NENTRY * (j + 1))
            && NDIRECT + NENTRY * (j + 1) <= n < NDIRECT + NENTRY * (j + 2)
  {
  }

  lemma {:induction false} LeafCached(fs: Fs, bk: Book, h: nat)
    requires Valid(fs, bk) && h < |fs.inodes| && L1_NBLKS <= |bk.tracks[h].log| < LN_NBLKS
    requires bk.tracks[h].top.Some? && |bk.tracks[h].leaf| == LeafCount(|bk.tracks[h].log|)
    ensures var nd, t := fs.inodes[h], bk.tracks[h];
            var j := (|t.log| - L1_NBLKS) / NENTRY;
            && nd.l2 == t.top && t.top.value < |fs.index| && |fs.index[t.top.value].data| == NENTRY && j < NENTRY
            && (nd.l1.Some? ==> nd.l1.value < |fs.index|)
            && (fs.index[t.top.value].data[j] == 0 <==> SlotOf(|t.log|) == 0)
            && (fs.index[t.top.value].data[j] != 0 ==>
                  nd.l1.Some? && fs.index[nd.l1.value].ino == fs.index[t.top.value].data[j])
            && |t.leaf| == (if SlotOf(|t.log|) == 0 then j + 1 else j + 2)
  {
    assert InodeOk(fs, bk, h);
    var t := bk.tracks[h];
    NextLeaf(|t.log|);
    var j := (|t.log| - L1_NBLKS) / NENTRY;
    assert TopHolds(fs, t, j);
    if j + 1 < |t.leaf| { IndexNumbers(fs, bk, t.leaf[j + 1]); }
  }

  lemma {:induction false} LeafGrown(fs: Fs, bk: Book, h: nat)
    requires Valid(fs, bk) && h < |fs.inodes| && L1_NBLKS <= |bk.tracks[h].log| < LN_NBLKS
    requires bk.tracks[h].top.Some? && |bk.tracks[h].leaf| == LeafCount(|bk.tracks[h].log|)
    requires SlotOf(|bk.tracks[h].log|) == 0 && fs.nextIno < fs.ninos
    ensures fs.unused > 0
    ensures var t := bk.tracks[h];
            var j := (|t.log| - L1_NBLKS) / NENTRY;
            && t.top.value < |fs.index| && |fs.index[t.top.value].data| == NENTRY && j < NENTRY
            && Valid(AddTableLeaf(TakeIno(fs), h, fs.nextIno, t.top.value, j), BookLeaf(fs, bk, h, fs.nextIno))
            && Prepares(fs, bk, AddTableLeaf(TakeIno(fs), h, fs.nextIno, t.top.value, j), BookLeaf(fs, bk, h, fs.nextIno), h)
            && |BookLeaf(fs, bk, h, fs.nextIno).tracks[h].leaf| == j + 2
  {
    NextLeaf(|bk.tracks[h].log|);
    LeafCached(fs, bk, h);
    TakeInoValid(fs, bk);
    AddTableLeafValid(TakeIno(fs), bk, h, fs.nextIno);
    AddTableLeafStep(TakeIno(fs), bk, h, fs.nextIno);
    LeafEntered(fs, bk, h, fs.nextIno);
    var t := bk.tracks[h];
    IndexKeepsAll(fs, bk, AddTableLeaf(TakeIno(fs), h, fs.nextIno, t.top.value, |t.leaf| - 1),
                  BookLeaf(fs, bk, h, fs.nextIno), h);
  }

  /** The state after update_cache was called for the table of leaves. */
  ghost predicate TableReady(fs: Fs, bk: Book, fs': Fs, bk': Book, h: nat) {
    && h < |fs.inodes| && h < |bk.tracks| && |fs.indexChains| == HASH_LIST_SIZE
    && if |bk.tracks[h].log| == L1_NBLKS
       then fs.unused > 0 && fs' == AddTop(TakeIno(fs), h, fs.nextIno) && bk' == BookTop(fs, bk, h, fs.nextIno)
       else fs' == fs && bk' == bk
  }

  lemma {:induction false} TableReadyValid(fs: Fs, bk: Book, fs': Fs, bk': Book, h: nat)
    requires Valid(fs, bk) && h < |fs.inodes| && Tight(bk.tracks[h]) && L1_NBLKS <= |bk.tracks[h].log| < LN_NBLKS
    requires TableReady(fs, bk, fs', bk', h)
    ensures Valid(fs', bk') && Prepares(fs, bk, fs', bk', h)
    ensures bk'.tracks[h].top.Some? && bk'.tracks[h].leaf == bk.tracks[h].leaf && bk'.tracks[h].log == bk.tracks[h].log
    ensures fs'.unused == fs.unused - (if |bk.tracks[h].log| == L1_NBLKS then 1 else 0)
  {
    TableCached(fs, bk, h);
    if |bk.tracks[h].log| == L1_NBLKS { TableGrown(fs, bk, h); }
  }

  /** The state after update_cache was called for the leaf of the next block. */
  ghost predicate LeafReady(fs: Fs, bk: Book, fs': Fs, bk': Book, h: nat) {
    && h < |fs.inodes| && h < |bk.tracks| && |fs.indexChains| == HASH_LIST_SIZE
    && bk.tracks[h].top.Some? && bk.tracks[h].top.value < |fs.index| && |bk.tracks[h].log| >= L1_NBLKS
    && var j := (|bk.tracks[h].log| - L1_NBLKS) / NENTRY;
       && j < |fs.index[bk.tracks[h].top.value].data|
       && if SlotOf(|bk.tracks[h].log|) == 0
          then && fs.unused > 0 && bk' == BookLeaf(fs, bk, h, fs.nextIno)
               && fs' == AddTableLeaf(TakeIno(fs), h, fs.nextIno, bk.tracks[h].top.value, j)
          else fs' == fs && bk' == bk
  }

  lemma {:induction false} LeafReadyValid(fs: Fs, bk: Book, fs': Fs, bk': Book, h: nat)
    requires Valid(fs, bk) && h < |fs.inodes| && L1_NBLKS <= |bk.tracks[h].log| < LN_NBLKS
    requires bk.tracks[h].top.Some? && |bk.tracks[h].leaf| == LeafCount(|bk.tracks[h].log|)
    requires LeafReady(fs, bk, fs', bk', h)
    ensures Valid(fs', bk') && Prepares(fs, bk, fs', bk', h)
    ensures bk'.tracks[h].top.Some? && |bk'.tracks[h].leaf| == LeafOf(|bk.tracks[h].log|) + 1
    ensures bk'.tracks[h].log == bk.tracks[h].log
    ensures fs'.unused == fs.unused - (if SlotOf(|bk.tracks[h].log|) == 0 then 1 else 0)
  {
    NextLeaf(|bk.tracks[h].log|);
    LeafCached(fs, bk, h);
    if SlotOf(|bk.tracks[h].log|) == 0 { LeafGrown(fs, bk, h); }
  }

  lemma {:induction false} PreparesTrans(fs: Fs, bk: Book, fs1: Fs, bk1: Book, fs2: Fs, bk2: Book, h: nat)
    requires Prepares(fs, bk, fs1, bk1, h) && Prepares(fs1, bk1, fs2, bk2, h)
    ensures Prepares(fs, bk, fs2, bk2, h)
  {
  }

  // ------------------------------------------------------- a whole append

  /** `ino`, holding `bytes`, became the last block of inode `h`, and nothing else was appended to anything. */
  ghost predicate Appended(fs: Fs, bk: Book, fs': Fs, bk': Book, h: nat, size: nat, ino: nat, bytes: seq<byte>) {
    && fs'.image == fs.image && fs'.inodeChains == fs.inodeChains && fs'.ninos == fs.ninos && fs.nextIno <= fs'.nextIno
    && h < |fs.inodes| == |fs'.inodes| == |bk.tracks| == |bk'.tracks|
    && (forall g :: 0 <= g < |fs.inodes| && g != h ==> fs'.inodes[g] == fs.inodes[g] && bk'.tracks[g] == bk.tracks[g])
    && bk'.tracks[h].log == bk.tracks[h].log + [ino] && bk'.tracks[h].data == bk.tracks[h].data + [bytes]
    && SameIdentity(fs.inodes[h], fs'.inodes[h]) && fs'.inodes[h].size == fs.inodes[h].size + size
  }

  /** Storing a word over itself changes nothing. */
  lemma {:induction false} SameWord(index: seq<IndexBlock>, c: nat, slot: nat)
    requires c < |index| && slot < |index[c].data|
    ensures index[c := index[c].(data := index[c].data[slot := index[c].data[slot]])] == index
  {
    assert index[c].data[slot := index[c].data[slot]] == index[c].data;
  }

  lemma {:induction false} StoredAtRest(bk: Book, bk1: Book, h: nat, ino: nat, bytes: seq<byte>)
    requires AtRest(bk) && h < |bk.tracks| == |bk1.tracks|
    requires forall g :: 0 <= g < |bk.tracks| && g != h ==> bk1.tracks[g] == bk.tracks[g]
    requires var t := bk1.tracks[h];
             |t.leaf| == LeafCount(|t.log| + 1) && (t.top.Some? <==> |t.log| >= L1_NBLKS)
    ensures AtRest(BookStore(bk1, h, ino, bytes))
  {
    var bk' := BookStore(bk1, h, ino, bytes);
    forall g | 0 <= g < |bk'.tracks| ensures Tight(bk'.tracks[g]) {
      if g != h { assert Tight(bk.tracks[g]); }
    }
  }

  lemma {:induction false} DirectAppended(fs: Fs, bk: Book, h: nat, size: nat, ino: nat, bytes: seq<byte>)
    requires Valid(fs, bk) && AtRest(bk) && h < |fs.inodes| && Spare(fs, bk, ino) && size <= BLKSIZE
    requires |bytes| <= BLKSIZE && ino in fs.image && fs.image[ino] == Pad(bytes)
    requires |bk.tracks[h].log| < NDIRECT
    ensures fs.inodes[h].nblks < |fs.inodes[h].direct|
    ensures var fs', bk' := StoreDirect(fs, h, size, ino), BookStore(bk, h, ino, bytes);
            Valid(fs', bk') && AtRest(bk') && Appended(fs, bk, fs', bk', h, size, ino, bytes)
  {
    StoreDirectValid(fs, bk, h, size, ino, bytes);
    assert Tight(bk.tracks[h]);
    StoredAtRest(bk, bk, h, ino, bytes);
  }

  lemma {:induction false} PreparedAppended(fs: Fs, bk: Book, fs1: Fs, bk1: Book, h: nat, size: nat, ino: nat,
                                            bytes: seq<byte>, c: nat, slot: nat)
    requires Prepares(fs, bk, fs1, bk1, h) && c < |fs1.index| && slot < |fs1.index[c].data|
    ensures Appended(fs, bk, StoreIndexed(fs1, h, size, ino, c, slot), BookStore(bk1, h, ino, bytes), h, size, ino, bytes)
  {
  }

  // ------------------------------------------------------- inodes

  function NewInode(x: nat, host: nat, kind: Kind): Inode {
    Inode(0, kind, 0, 0, seq(NDIRECT, _ => 0), 0, 0, host, x, 0, None, None)
  }

  const NO_TRACK: Track := Track([], [], [], None)

  /** alloc_cache_inode: a zeroed inode numbered `x`, filed under the hash of its host number. */
  function AddInode(fs: Fs, x: nat, host: nat, kind: Kind): Fs
    requires |fs.inodeChains| == HASH_LIST_SIZE
  {
    fs.(inodes := fs.inodes + [NewInode(x, host, kind)],
        inodeChains := fs.inodeChains[Hash32(host) := [|fs.inodes|] + fs.inodeChains[Hash32(host)]])
  }

  ghost function BookInode(fs: Fs, bk: Book, x: nat): Book {
    bk.(tracks := bk.tracks + [NO_TRACK], owner := bk.owner[x := InodeBlock(|fs.inodes|)])
  }

  lemma {:induction false} AddInodeFiled(fs: Fs, x: nat, host: nat, kind: Kind)
    requires Filed(fs) && ChainsOk(fs)
    ensures Filed(AddInode(fs, x, host, kind)) && ChainsOk(AddInode(fs, x, host, kind))
  {
    var fs' := AddInode(fs, x, host, kind);
    forall h | 0 <= h < |fs'.inodes| ensures InodeFiled(fs', h) {
      if h < |fs.inodes| {
        assert InodeFiled(fs, h);
      } else {
        assert fs'.inodeChains[Hash32(host)][0] == h;
      }
    }
    forall c | 0 <= c < |fs'.index| ensures IndexFiled(fs', c) { assert IndexFiled(fs, c); }
  }

  lemma {:induction false} AddInodeOwned(fs: Fs, bk: Book, x: nat, host: nat, kind: Kind)
    requires Owned(fs, bk) && Spare(fs, bk, x) && |fs.inodeChains| == HASH_LIST_SIZE
    ensures Owned(AddInode(fs, x, host, kind), BookInode(fs, bk, x))
  {
    var fs', bk' := AddInode(fs, x, host, kind), BookInode(fs, bk, x);
    forall g | 0 <= g < |fs'.inodes| ensures InodeOwned(fs', bk', g) {
      if g < |fs.inodes| { assert InodeOwned(fs, bk, g); }
    }
    forall c | 0 <= c < |fs'.index| ensures IndexOwned(fs', bk', c) { assert IndexOwned(fs, bk, c); }
  }

  lemma {:induction false} AddInodeOthers(fs: Fs, bk: Book, x: nat, host: nat, kind: Kind, h: nat)
    requires Spare(fs, bk, x) && |fs.inodeChains| == HASH_LIST_SIZE && |bk.role| == |fs.index|
    requires |bk.tracks| == |fs.inodes| && h <= |fs.inodes| && (h < |fs.inodes| ==> InodeOk(fs, bk, h))
    ensures InodeOk(AddInode(fs, x, host, kind), BookInode(fs, bk, x), h)
  {
    if h < |fs.inodes| { ShapeFrame(fs, bk, AddInode(fs, x, host, kind), BookInode(fs, bk, x), h); }
  }

  lemma {:induction false} AddInodeValid(fs: Fs, bk: Book, x: nat, host: nat, kind: Kind)
    requires Valid(fs, bk) && Spare(fs, bk, x)
    ensures Valid(AddInode(fs, x, host, kind), BookInode(fs, bk, x))
  {
    AddInodeFiled(fs, x, host, kind);
    AddInodeOwned(fs, bk, x, host, kind);
    forall h | 0 <= h <= |fs.inodes| ensures InodeOk(AddInode(fs, x, host, kind), BookInode(fs, bk, x), h) {
      AddInodeOthers(fs, bk, x, host, kind, h);
    }
  }

  lemma {:induction false} AddInodeAtRest(fs: Fs, bk: Book, x: nat)
    requires AtRest(bk)
    ensures AtRest(BookInode(fs, bk, x))
  {
    var bk' := BookInode(fs, bk, x);
    forall h | 0 <= h < |bk'.tracks| ensures Tight(bk'.tracks[h]) {
      if h < |bk.tracks| { assert Tight(bk.tracks[h]); }
    }
  }

  /** The state create_sfs leaves: the root inode and nothing else. */
  function Created(ninos: nat, image: map<nat, seq<byte>>): Fs
    requires FirstData(ninos) <= ninos
  {
    var empty := seq(HASH_LIST_SIZE, _ => []);
    AddInode(Fs(ninos, FirstData(ninos), ninos - FirstData(ninos), [], [], empty, empty, image), BLKN_ROOT, 0, DirKind)
  }

  lemma {:induction false} CreatedValid(ninos: nat, image: map<nat, seq<byte>>)
    requires FirstData(ninos) <= ninos <= MAX_NBLKS
    ensures Valid(Created(ninos, image), Book([NO_TRACK], [], map[BLKN_ROOT := InodeBlock(0)]))
    ensures AtRest(Book([NO_TRACK], [], map[BLKN_ROOT := InodeBlock(0)]))
  {
    var fs, bk := Created(ninos, image), Book([NO_TRACK], [], map[BLKN_ROOT := InodeBlock(0)]);
    assert fs.inodeChains[Hash32(0)][0] == 0;
    assert InodeOk(fs, bk, 0);
  }

  /** `h` is the inode most recently made for host number `host`. */
  ghost predicate Latest(inodes: seq<Inode>, host: nat, h: nat) {
    && h < |inodes| && inodes[h].host == host
    && forall g :: h < g < |inodes| ==> inodes[g].host != host
  }
}
