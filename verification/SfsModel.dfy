/**
  The state of the image builder lab8/tools/mksfs.c as a value, and the invariant that ties the direct,
  indirect and double-indirect entries of every inode, and the index blocks cached for it, to the
  sequence of block numbers appended to it.
 */
module SfsModel {
  import opened Options
  import opened SfsBytes

  const NDIRECT: nat := 12
  const L1_NBLKS: nat := 1036          // NENTRY + NDIRECT
  const L2_NBLKS: nat := 1049612       // NENTRY * NENTRY + L1_NBLKS
  const LN_NBLKS: nat := 32768         // 128M / BLKSIZE
  const MAX_NBLKS: nat := 524288
  const HASH_LIST_SIZE: nat := 1024
  const SFS_MAGIC: nat := 0x2f8dbe2a
  const BLKN_SUPER: nat := 0
  const BLKN_ROOT: nat := 1
  const BLKN_FREEMAP: nat := 2

  /** __hash32 with HASH_SHIFT bits. */
  function Hash32(val: nat): (b: nat)
    ensures b < HASH_LIST_SIZE
  {
    (val % TWO32) * 0x9e370001 % TWO32 / 0x40_0000
  }

  datatype Kind = FileKind | DirKind | LinkKind

  /** struct cache_inode: the inode proper, and what the builder remembers about it. */
  datatype Inode = Inode(
    size: nat, kind: Kind, nlinks: nat, blocks: nat,
    direct: seq<nat>, indirect: nat, dbIndirect: nat,
    host: nat, ino: nat, nblks: nat, l1: Option<nat>, l2: Option<nat>)

  /** struct cache_block: an index block held in memory until the image is closed. */
  datatype IndexBlock = IndexBlock(ino: nat, data: seq<nat>)

  /**
    struct sfs_fs.  Cached inodes and index blocks are never freed, so a pointer to one is its position in the
    order of allocation; a hash chain lists such positions, the newest first.
   */
  datatype Fs = Fs(
    ninos: nat, nextIno: nat, unused: nat,
    inodes: seq<Inode>, index: seq<IndexBlock>,
    inodeChains: seq<seq<nat>>, indexChains: seq<seq<nat>>,
    image: map<nat, seq<byte>>)

  /** The first block behind the bitmap. */
  function FirstData(ninos: nat): nat {
    BLKN_FREEMAP + (ninos + BLKBITS - 1) / BLKBITS
  }

  // ------------------------------------------------------- bookkeeping for the proof

  /** What an index block is for: the `i`-th leaf, or the table of leaves, of inode `h`. */
  datatype Role = Leaf(h: nat, i: nat) | Top(h: nat)

  /** Who a block number was given to. */
  datatype Owner = InodeBlock(h: nat) | IndexOwner(c: nat) | DataBlock(h: nat, k: nat)

  /** The history of one inode: block numbers and contents appended, and its index blocks. */
  datatype Track = Track(log: seq<nat>, data: seq<seq<byte>>, leaf: seq<nat>, top: Option<nat>)

  datatype Book = Book(tracks: seq<Track>, role: seq<Role>, owner: map<nat, Owner>)

  /** Blocks from 12 on are found through leaves of 1024 entries: leaf 0 is the indirect block. */
  function LeafOf(k: nat): nat requires k >= NDIRECT { (k - NDIRECT) / NENTRY }
  function SlotOf(k: nat): nat requires k >= NDIRECT { (k - NDIRECT) % NENTRY }

  function LeafCount(n: nat): nat {
    if n <= NDIRECT then 0 else LeafOf(n - 1) + 1
  }

  // ------------------------------------------------------- the invariant

  ghost predicate Counted(nd: Inode, t: Track) {
    && nd.nblks == nd.blocks == |t.log| == |t.data| <= LN_NBLKS
    && nd.size <= BLKSIZE * |t.log|
    && nd.nlinks < 65536
    && |nd.direct| == NDIRECT
  }

  ghost predicate DirectOk(nd: Inode, t: Track) {
    |nd.direct| == NDIRECT && forall k :: 0 <= k < NDIRECT ==> nd.direct[k] == if k < |t.log| then t.log[k] else 0
  }

  /** There are leaves for all blocks, and at most one that is not yet in use. */
  ghost predicate Roomy(t: Track) {
    && (|t.log| > NDIRECT ==> |t.log| <= NDIRECT + NENTRY * |t.leaf|)
    && (t.leaf != [] ==> NDIRECT + NENTRY * (|t.leaf| - 1) <= |t.log|)
    && |t.leaf| <= NENTRY + 1
    && (t.top.None? ==> |t.leaf| <= 1)
  }

  ghost predicate IsIndex(fs: Fs, bk: Book, c: nat, r: Role) {
    c < |fs.index| && c < |bk.role| && bk.role[c] == r && |fs.index[c].data| == NENTRY
  }

  ghost predicate LeavesOk(fs: Fs, bk: Book, h: nat, t: Track) {
    && (forall i :: 0 <= i < |t.leaf| ==> IsIndex(fs, bk, t.leaf[i], Leaf(h, i)))
    && (t.top.Some? ==> IsIndex(fs, bk, t.top.value, Top(h)))
  }

  /** Block `k` is entered in the slot of the leaf it belongs to. */
  ghost predicate SlotHolds(fs: Fs, t: Track, k: nat) {
    && NDIRECT <= k < |t.log| && LeafOf(k) < |t.leaf|
    && t.leaf[LeafOf(k)] < |fs.index|
    && |fs.index[t.leaf[LeafOf(k)]].data| == NENTRY
    && fs.index[t.leaf[LeafOf(k)]].data[SlotOf(k)] == t.log[k]
  }

  ghost predicate SlotsOk(fs: Fs, t: Track) {
    forall k :: NDIRECT <= k < |t.log| ==> SlotHolds(fs, t, k)
  }

  /** The table of leaves names leaves 1, 2, ... in order and is zero behind them. */
  ghost predicate TopHolds(fs: Fs, t: Track, i: nat) {
    && t.top.Some? && t.top.value < |fs.index| && i < |fs.index[t.top.value].data|
    && fs.index[t.top.value].data[i] ==
         if i + 1 < |t.leaf| && t.leaf[i + 1] < |fs.index| then fs.index[t.leaf[i + 1]].ino else 0
  }

  /** The numbers in the inode and the pointers beside it name the right index blocks. */
  ghost predicate PointersOk(fs: Fs, nd: Inode, t: Track) {
    && (forall i :: 0 <= i < |t.leaf| ==> t.leaf[i] < |fs.index|)
    && nd.indirect == (if t.leaf == [] then 0 else fs.index[t.leaf[0]].ino)
    && nd.l1 == (if t.leaf == [] then None else Some(t.leaf[|t.leaf| - 1]))
    && nd.l2 == t.top
    && (t.top.None? ==> nd.dbIndirect == 0)
    && (t.top.Some? ==>
          && t.top.value < |fs.index| && nd.dbIndirect == fs.index[t.top.value].ino
          && (forall i :: 0 <= i < NENTRY ==> TopHolds(fs, t, i)))
  }

  ghost predicate Shape(fs: Fs, bk: Book, h: nat)
    requires h < |fs.inodes| && h < |bk.tracks|
  {
    var nd, t := fs.inodes[h], bk.tracks[h];
    Counted(nd, t) && DirectOk(nd, t) && Roomy(t) && LeavesOk(fs, bk, h, t) && SlotsOk(fs, t) && PointersOk(fs, nd, t)
  }

  /** Between appends: no leaf and no table is allocated before it is needed. */
  ghost predicate Tight(t: Track) {
    |t.leaf| == LeafCount(|t.log|) && (t.top.Some? <==> |t.log| > L1_NBLKS)
  }

  /** Counters: blocks from `FirstData` up to `nextIno` have been given out, one by one. */
  ghost predicate Counters(fs: Fs) {
    FirstData(fs.ninos) <= fs.nextIno <= fs.ninos <= MAX_NBLKS && fs.unused == fs.ninos - fs.nextIno
  }

  ghost predicate GivenOut(fs: Fs, x: nat) {
    FirstData(fs.ninos) <= x < fs.nextIno
  }

  ghost predicate InodeOwned(fs: Fs, bk: Book, h: nat) {
    h < |fs.inodes| && fs.inodes[h].ino in bk.owner && bk.owner[fs.inodes[h].ino] == InodeBlock(h)
  }

  ghost predicate IndexOwned(fs: Fs, bk: Book, c: nat) {
    && c < |fs.index| && fs.index[c].ino in bk.owner && bk.owner[fs.index[c].ino] == IndexOwner(c)
    && fs.index[c].ino != BLKN_ROOT
  }

  /** Every number in use has one owner. */
  ghost predicate Owned(fs: Fs, bk: Book) {
    && (forall x :: x in bk.owner ==> x == BLKN_ROOT || GivenOut(fs, x))
    && (forall h :: 0 <= h < |fs.inodes| ==> InodeOwned(fs, bk, h))
    && (forall c :: 0 <= c < |fs.index| ==> IndexOwned(fs, bk, c))
  }

  ghost predicate LogOwned(bk: Book, h: nat)
    requires h < |bk.tracks|
  {
    forall k :: 0 <= k < |bk.tracks[h].log| ==>
      bk.tracks[h].log[k] in bk.owner && bk.owner[bk.tracks[h].log[k]] == DataBlock(h, k)
  }

  /** What was appended is on the image. */
  ghost predicate Stored(fs: Fs, t: Track) {
    && |t.log| == |t.data|
    && forall k :: 0 <= k < |t.log| ==>
         |t.data[k]| <= BLKSIZE && t.log[k] in fs.image && fs.image[t.log[k]] == Pad(t.data[k])
  }

  /** Index blocks are all filed under the hash of the argument 0; inodes under the hash of their host number. */
  ghost predicate Filed(fs: Fs) {
    && |fs.inodeChains| == |fs.indexChains| == HASH_LIST_SIZE
    && (forall c :: 0 <= c < |fs.index| ==> IndexFiled(fs, c))
    && (forall h :: 0 <= h < |fs.inodes| ==> InodeFiled(fs, h))
  }

  ghost predicate IndexFiled(fs: Fs, c: nat)
    requires |fs.indexChains| == HASH_LIST_SIZE
  {
    c in fs.indexChains[Hash32(0)]
  }

  ghost predicate InodeFiled(fs: Fs, h: nat)
    requires |fs.inodeChains| == HASH_LIST_SIZE && h < |fs.inodes|
  {
    h in fs.inodeChains[Hash32(fs.inodes[h].host)]
  }

  /** Chains hold positions that exist; inode chains list the newest first. */
  ghost predicate ChainsOk(fs: Fs) {
    && |fs.inodeChains| == |fs.indexChains| == HASH_LIST_SIZE
    && (forall b, i :: 0 <= b < HASH_LIST_SIZE && 0 <= i < |fs.indexChains[b]| ==> fs.indexChains[b][i] < |fs.index|)
    && (forall b, i :: 0 <= b < HASH_LIST_SIZE && 0 <= i < |fs.inodeChains[b]| ==> fs.inodeChains[b][i] < |fs.inodes|)
    && (forall b, i, j :: 0 <= b < HASH_LIST_SIZE && 0 <= i < j < |fs.inodeChains[b]| ==>
          fs.inodeChains[b][i] > fs.inodeChains[b][j])
  }

  ghost predicate InodeOk(fs: Fs, bk: Book, h: nat)
    requires h < |fs.inodes| && h < |bk.tracks|
  {
    Shape(fs, bk, h) && LogOwned(bk, h) && Stored(fs, bk.tracks[h])
  }

  /** Index block `c` is where its role says. */
  ghost predicate Entered(bk: Book, c: nat) {
    && c < |bk.role|
    && match bk.role[c]
       case Leaf(h, i) => h < |bk.tracks| && i < |bk.tracks[h].leaf| && bk.tracks[h].leaf[i] == c
       case Top(h) => h < |bk.tracks| && bk.tracks[h].top == Some(c)
  }

  /** The owner of number `x` has it. */
  ghost predicate Placed(fs: Fs, bk: Book, x: nat) {
    && x in bk.owner
    && match bk.owner[x]
       case InodeBlock(h) => h < |fs.inodes| && fs.inodes[h].ino == x
       case IndexOwner(c) => c < |fs.index| && fs.index[c].ino == x && Entered(bk, c)
       case DataBlock(h, k) => h < |bk.tracks| && k < |bk.tracks[h].log| && bk.tracks[h].log[k] == x
  }

  /** Every number given out, `spare` excepted, is in use; 0, which is never given out, excepts none. */
  ghost predicate NoneLost(fs: Fs, bk: Book, spare: nat) {
    forall x: nat :: GivenOut(fs, x) && x != spare ==> Placed(fs, bk, x)
  }

  ghost predicate Valid(fs: Fs, bk: Book) {
    && Counters(fs)
    && |bk.tracks| == |fs.inodes| > 0 && fs.inodes[0].ino == BLKN_ROOT
    && |bk.role| == |fs.index|
    && Owned(fs, bk) && Filed(fs) && ChainsOk(fs)
    && (forall c :: 0 <= c < |fs.index| ==> |fs.index[c].data| == NENTRY)
    && (forall h :: 0 <= h < |fs.inodes| ==> InodeOk(fs, bk, h))
  }

  ghost predicate AtRest(bk: Book) {
    forall h :: 0 <= h < |bk.tracks| ==> Tight(bk.tracks[h])
  }

  // ------------------------------------------------------- arithmetic of leaves and slots

  lemma LeafBounds(k: nat, m: nat)
    requires NDIRECT <= k < NDIRECT + NENTRY * m
    ensures LeafOf(k) < m
    ensures k >= NDIRECT + NENTRY * (m - 1) ==> LeafOf(k) == m - 1 && SlotOf(k) == k - NDIRECT - NENTRY * (m - 1)
  {
  }

  lemma SlotsDistinct(j: nat, k: nat)
    requires NDIRECT <= j && NDIRECT <= k && LeafOf(j) == LeafOf(k) && SlotOf(j) == SlotOf(k)
    ensures j == k
  {
  }

  // ------------------------------------------------------- what does not touch an inode keeps its shape

  lemma ShapeFrame(fs: Fs, bk: Book, fs': Fs, bk': Book, h: nat)
    requires h < |fs.inodes| && h < |bk.tracks| && h < |fs'.inodes| && h < |bk'.tracks|
    requires Shape(fs, bk, h) && fs'.inodes[h] == fs.inodes[h] && bk'.tracks[h] == bk.tracks[h]
    requires |bk.role| == |fs.index| && |fs.index| <= |fs'.index| && |bk'.role| == |fs'.index|
    requires forall c :: 0 <= c < |fs.index| && bk.role[c].h == h ==> fs'.index[c] == fs.index[c] && bk'.role[c] == bk.role[c]
    ensures Shape(fs', bk', h)
  {
    var nd, t := fs.inodes[h], bk.tracks[h];
    assert LeavesOk(fs', bk', h, t);
    forall k | NDIRECT <= k < |t.log| ensures SlotHolds(fs', t, k) {
      assert SlotHolds(fs, t, k);
      assert IsIndex(fs, bk, t.leaf[LeafOf(k)], Leaf(h, LeafOf(k)));
    }
    if t.top.Some? {
      forall i | 0 <= i < NENTRY ensures TopHolds(fs', t, i) {
        assert TopHolds(fs, t, i);
      }
    }
  }

  /** Owners depend on the numbers only. */
  lemma {:induction false} OwnedKept(fs: Fs, bk: Book, fs': Fs)
    requires Owned(fs, bk) && fs'.ninos == fs.ninos && fs.nextIno <= fs'.nextIno
    requires |fs'.inodes| == |fs.inodes| && forall h :: 0 <= h < |fs.inodes| ==> fs'.inodes[h].ino == fs.inodes[h].ino
    requires |fs'.index| == |fs.index| && forall c :: 0 <= c < |fs.index| ==> fs'.index[c].ino == fs.index[c].ino
    ensures Owned(fs', bk)
  {
    forall h | 0 <= h < |fs'.inodes| ensures InodeOwned(fs', bk, h) { assert InodeOwned(fs, bk, h); }
    forall c | 0 <= c < |fs'.index| ensures IndexOwned(fs', bk, c) { assert IndexOwned(fs, bk, c); }
  }

  /** Filing depends on the chains and the host numbers only. */
  lemma {:induction false} FiledKept(fs: Fs, fs': Fs)
    requires Filed(fs) && ChainsOk(fs) && fs'.inodeChains == fs.inodeChains && fs'.indexChains == fs.indexChains
    requires |fs'.inodes| == |fs.inodes| && forall h :: 0 <= h < |fs.inodes| ==> fs'.inodes[h].host == fs.inodes[h].host
    requires |fs'.index| == |fs.index|
    ensures Filed(fs') && ChainsOk(fs')
  {
    forall h | 0 <= h < |fs'.inodes| ensures InodeFiled(fs', h) { assert InodeFiled(fs, h); }
    forall c | 0 <= c < |fs'.index| ensures IndexFiled(fs', c) { assert IndexFiled(fs, c); }
  }
}
