/**
  What a reader of a finished image sees: words of blocks, blocks of files, bits of the free map.  It knows
  nothing of the builder, and is the specification of what the builder has to leave on the disk.
 */
module SfsReader {
  import opened SfsBytes
  import opened SfsModel
  import opened SfsSteps

  type Image = map<nat, seq<byte>>

  /** Word `i` of block `b`; a block that is not there reads as zero. */
  function BlockWord(img: Image, b: nat, i: nat): nat {
    if b in img && |img[b]| == BLKSIZE && i < NENTRY then WordAt(img[b], i) else 0
  }

  /** The block number of the `k`-th block of the file whose inode is in block `ino`. */
  function Resolve(img: Image, ino: nat, k: nat): nat {
    if k < NDIRECT then BlockWord(img, ino, 3 + k)
    else if k < L1_NBLKS then BlockWord(img, BlockWord(img, ino, 15), k - NDIRECT)
    else
      var leaf := BlockWord(img, BlockWord(img, ino, 16), (k - L1_NBLKS) / NENTRY);
      BlockWord(img, leaf, (k - L1_NBLKS) % NENTRY)
  }

  function KindCode(kind: Kind): nat {
    match kind case FileKind => 1 case DirKind => 2 case LinkKind => 3
  }

  /** struct inode as words: the type and the link count share the second. */
  function InodeWords(nd: Inode): seq<nat> {
    [nd.size, KindCode(nd.kind) + 65536 * nd.nlinks, nd.blocks] + nd.direct + [nd.indirect, nd.dbIndirect]
  }

  function InodeSize(img: Image, ino: nat): nat { BlockWord(img, ino, 0) }
  function InodeType(img: Image, ino: nat): nat { BlockWord(img, ino, 1) % 65536 }
  function InodeLinks(img: Image, ino: nat): nat { BlockWord(img, ino, 1) / 65536 }
  function InodeBlocks(img: Image, ino: nat): nat { BlockWord(img, ino, 2) }

  /** The super block ends in this label, behind its three words. */
  ghost predicate Labelled(img: Image, name: seq<byte>) {
    0 in img && |img[0]| == BLKSIZE && img[0][12..44] == name
  }

  /** Bit `b` of the free map. */
  predicate MapBit(img: Image, b: nat) {
    var m := BLKN_FREEMAP + b / BLKBITS;
    m in img && |img[m]| == BLKSIZE && BitAt(img[m], b % BLKBITS)
  }

  // ------------------------------------------------------- an image onto which the caches were flushed

  ghost predicate IndexFlushed(fs: Fs, img: Image, c: nat)
    requires c < |fs.index|
  {
    |fs.index[c].data| == NENTRY && fs.index[c].ino in img && img[fs.index[c].ino] == Pad(Words(fs.index[c].data))
  }

  ghost predicate InodeFlushed(fs: Fs, img: Image, h: nat)
    requires h < |fs.inodes|
  {
    && |fs.inodes[h].direct| == NDIRECT
    && fs.inodes[h].ino in img && img[fs.inodes[h].ino] == Pad(Words(InodeWords(fs.inodes[h])))
  }

  ghost predicate Flushed(fs: Fs, img: Image) {
    && (forall c :: 0 <= c < |fs.index| ==> IndexFlushed(fs, img, c))
    && (forall h :: 0 <= h < |fs.inodes| ==> InodeFlushed(fs, img, h))
  }

  lemma {:induction false} NumbersFit(fs: Fs, bk: Book)
    requires Valid(fs, bk)
    ensures forall x :: x in bk.owner ==> x < MAX_NBLKS
  {
  }

  lemma {:induction false} IndexWord(fs: Fs, img: Image, c: nat, i: nat)
    requires c < |fs.index| && IndexFlushed(fs, img, c) && i < NENTRY && fs.index[c].data[i] < TWO32
    ensures BlockWord(img, fs.index[c].ino, i) == fs.index[c].data[i]
  {
    PaddedWordsAt(fs.index[c].data, i);
  }

  lemma {:induction false} InodeWord(fs: Fs, img: Image, h: nat, i: nat)
    requires h < |fs.inodes| && InodeFlushed(fs, img, h) && i < 17 && InodeWords(fs.inodes[h])[i] < TWO32
    ensures BlockWord(img, fs.inodes[h].ino, i) == InodeWords(fs.inodes[h])[i]
  {
    PaddedWordsAt(InodeWords(fs.inodes[h]), i);
  }

  /** A block behind the direct ones, looked up in its leaf. */
  lemma {:induction false} LeafResolves(fs: Fs, bk: Book, img: Image, h: nat, k: nat)
    requires Valid(fs, bk) && Flushed(fs, img) && h < |fs.inodes| && NDIRECT <= k < |bk.tracks[h].log|
    ensures var t := bk.tracks[h];
            && LeafOf(k) < |t.leaf| && t.leaf[LeafOf(k)] < |fs.index|
            && BlockWord(img, fs.index[t.leaf[LeafOf(k)]].ino, SlotOf(k)) == t.log[k]
  {
    var t := bk.tracks[h];
    assert InodeOk(fs, bk, h);
    assert SlotHolds(fs, t, k);
    NumbersFit(fs, bk);
    assert IndexFlushed(fs, img, t.leaf[LeafOf(k)]);
    IndexWord(fs, img, t.leaf[LeafOf(k)], SlotOf(k));
  }

  lemma {:induction false} DirectNumber(fs: Fs, bk: Book, h: nat, k: nat)
    requires Valid(fs, bk) && h < |fs.inodes| && k < |bk.tracks[h].log| && k < NDIRECT
    ensures k < |fs.inodes[h].direct| && fs.inodes[h].direct[k] == bk.tracks[h].log[k] < TWO32
  {
    assert InodeOk(fs, bk, h);
    NumbersFit(fs, bk);
  }

  lemma {:induction false} DirectResolves(fs: Fs, bk: Book, img: Image, h: nat, k: nat)
    requires Valid(fs, bk) && Flushed(fs, img) && h < |fs.inodes| && k < |bk.tracks[h].log| && k < NDIRECT
    ensures Resolve(img, fs.inodes[h].ino, k) == bk.tracks[h].log[k]
  {
    DirectNumber(fs, bk, h, k);
    assert InodeFlushed(fs, img, h);
    assert InodeWords(fs.inodes[h])[3 + k] == fs.inodes[h].direct[k];
    InodeWord(fs, img, h, 3 + k);
  }

  /** What the pointers of an inode are, and that they fit a word. */
  lemma {:induction false} Pointers(fs: Fs, bk: Book, h: nat)
    requires Valid(fs, bk) && h < |fs.inodes|
    ensures var nd, t := fs.inodes[h], bk.tracks[h];
            && nd.indirect < TWO32 && nd.dbIndirect < TWO32
            && (|t.leaf| > 0 ==> t.leaf[0] < |fs.index| && nd.indirect == fs.index[t.leaf[0]].ino)
            && (t.top.Some? ==> t.top.value < |fs.index| && nd.dbIndirect == fs.index[t.top.value].ino)
            && (|t.leaf| > 1 ==> t.top.Some?)
  {
    assert InodeOk(fs, bk, h);
    var t := bk.tracks[h];
    if |t.leaf| > 0 { IndexNumbers(fs, bk, t.leaf[0]); }
    if t.top.Some? { IndexNumbers(fs, bk, t.top.value); }
  }

  lemma {:induction false} PointerWords(fs: Fs, bk: Book, img: Image, h: nat)
    requires Valid(fs, bk) && Flushed(fs, img) && h < |fs.inodes|
    ensures BlockWord(img, fs.inodes[h].ino, 15) == fs.inodes[h].indirect
    ensures BlockWord(img, fs.inodes[h].ino, 16) == fs.inodes[h].dbIndirect
  {
    Pointers(fs, bk, h);
    assert InodeFlushed(fs, img, h);
    var ws := InodeWords(fs.inodes[h]);
    assert ws[15] == fs.inodes[h].indirect && ws[16] == fs.inodes[h].dbIndirect;
    InodeWord(fs, img, h, 15);
    InodeWord(fs, img, h, 16);
  }

  /** Word `i` of the table of leaves names leaf `i + 1`. */
  lemma {:induction false} TableNames(fs: Fs, bk: Book, h: nat, i: nat)
    requires Valid(fs, bk) && h < |fs.inodes| && i + 1 < |bk.tracks[h].leaf|
    ensures var t := bk.tracks[h];
            && i < NENTRY && t.top.Some? && t.top.value < |fs.index| && t.leaf[i + 1] < |fs.index|
            && |fs.index[t.top.value].data| == NENTRY
            && fs.index[t.top.value].data[i] == fs.index[t.leaf[i + 1]].ino
  {
    assert InodeOk(fs, bk, h);
    assert TopHolds(fs, bk.tracks[h], i);
  }

  lemma {:induction false} TableWord(fs: Fs, bk: Book, img: Image, h: nat, i: nat)
    requires Valid(fs, bk) && Flushed(fs, img) && h < |fs.inodes| && i + 1 < |bk.tracks[h].leaf|
    ensures i < NENTRY && bk.tracks[h].leaf[i + 1] < |fs.index|
    ensures BlockWord(img, fs.inodes[h].dbIndirect, i) == fs.index[bk.tracks[h].leaf[i + 1]].ino
  {
    var t := bk.tracks[h];
    Pointers(fs, bk, h);
    TableNames(fs, bk, h, i);
    assert IndexFlushed(fs, img, t.top.value);
    IndexNumbers(fs, bk, t.leaf[i + 1]);
    IndexWord(fs, img, t.top.value, i);
  }

  lemma {:induction false} IndirectResolves(fs: Fs, bk: Book, img: Image, h: nat, k: nat)
    requires Valid(fs, bk) && Flushed(fs, img) && h < |fs.inodes| && NDIRECT <= k < |bk.tracks[h].log| && k < L1_NBLKS
    ensures Resolve(img, fs.inodes[h].ino, k) == bk.tracks[h].log[k]
  {
    LeafResolves(fs, bk, img, h, k);
    Pointers(fs, bk, h);
    PointerWords(fs, bk, img, h);
    assert LeafOf(k) == 0 && SlotOf(k) == k - NDIRECT;
  }

  lemma {:induction false} DoubleIndirectResolves(fs: Fs, bk: Book, img: Image, h: nat, k: nat)
    requires Valid(fs, bk) && Flushed(fs, img) && h < |fs.inodes| && L1_NBLKS <= k < |bk.tracks[h].log|
    ensures Resolve(img, fs.inodes[h].ino, k) == bk.tracks[h].log[k]
  {
    var i := (k - L1_NBLKS) / NENTRY;
    assert LeafOf(k) == i + 1 && SlotOf(k) == (k - L1_NBLKS) % NENTRY;
    LeafResolves(fs, bk, img, h, k);
    PointerWords(fs, bk, img, h);
    TableWord(fs, bk, img, h, i);
  }

  /** Image round trip: the reader finds, for every block of every file, the number that was appended. */
  lemma {:induction false} ImageResolves(fs: Fs, bk: Book, img: Image, h: nat, k: nat)
    requires Valid(fs, bk) && Flushed(fs, img) && h < |fs.inodes| && k < |bk.tracks[h].log|
    ensures Resolve(img, fs.inodes[h].ino, k) == bk.tracks[h].log[k]
  {
    if k < NDIRECT {
      DirectResolves(fs, bk, img, h, k);
    } else if k < L1_NBLKS {
      IndirectResolves(fs, bk, img, h, k);
    } else {
      DoubleIndirectResolves(fs, bk, img, h, k);
    }
  }

  lemma {:induction false} SharedWord(code: nat, links: nat)
    requires code < 65536
    ensures (code + 65536 * links) % 65536 == code && (code + 65536 * links) / 65536 == links
  {
  }

  /** The rest of the inode is read back as well. */
  lemma {:induction false} ImageInode(fs: Fs, bk: Book, img: Image, h: nat)
    requires Valid(fs, bk) && Flushed(fs, img) && h < |fs.inodes|
    ensures var nd := fs.inodes[h];
            && InodeSize(img, nd.ino) == nd.size && InodeBlocks(img, nd.ino) == |bk.tracks[h].log|
            && InodeType(img, nd.ino) == KindCode(nd.kind) && InodeLinks(img, nd.ino) == nd.nlinks
  {
    var nd := fs.inodes[h];
    assert InodeOk(fs, bk, h);
    InodeWordsBack(fs, img, h);
    SharedWord(KindCode(nd.kind), nd.nlinks);
  }

  lemma {:induction false} InodeWordsBack(fs: Fs, img: Image, h: nat)
    requires Flushed(fs, img) && h < |fs.inodes|
    requires var nd := fs.inodes[h]; nd.size < TWO32 && nd.nlinks < 65536 && nd.blocks < TWO32
    ensures var nd := fs.inodes[h];
            && BlockWord(img, nd.ino, 0) == nd.size && BlockWord(img, nd.ino, 2) == nd.blocks
            && BlockWord(img, nd.ino, 1) == KindCode(nd.kind) + 65536 * nd.nlinks
  {
    assert InodeFlushed(fs, img, h);
    InodeWord(fs, img, h, 0);
    InodeWord(fs, img, h, 1);
    InodeWord(fs, img, h, 2);
  }

  // ------------------------------------------------------- writing to the image

  /** From `img` to `img'` only blocks that no file owns were written, and nothing flushed was undone. */
  ghost predicate Flushes(fs: Fs, bk: Book, img: Image, img': Image) {
    && (forall x :: !(x in bk.owner && !bk.owner[x].DataBlock?) ==> (x in img' <==> x in img))
    && (forall x :: x in img && !(x in bk.owner && !bk.owner[x].DataBlock?) ==> x in img' && img'[x] == img[x])
    && (forall c :: 0 <= c < |fs.index| && IndexFlushed(fs, img, c) ==> IndexFlushed(fs, img', c))
    && (forall h :: 0 <= h < |fs.inodes| && InodeFlushed(fs, img, h) ==> InodeFlushed(fs, img', h))
  }

  lemma {:induction false} FlushIndex(fs: Fs, bk: Book, img: Image, c: nat)
    requires Valid(fs, bk) && c < |fs.index|
    ensures var img' := img[fs.index[c].ino := Pad(Words(fs.index[c].data))];
            Flushes(fs, bk, img, img') && IndexFlushed(fs, img', c)
  {
    var img' := img[fs.index[c].ino := Pad(Words(fs.index[c].data))];
    assert IndexOwned(fs, bk, c);
    forall d | 0 <= d < |fs.index| && IndexFlushed(fs, img, d) ensures IndexFlushed(fs, img', d) {
      assert IndexOwned(fs, bk, d);
    }
    forall h | 0 <= h < |fs.inodes| && InodeFlushed(fs, img, h) ensures InodeFlushed(fs, img', h) {
      assert InodeOwned(fs, bk, h);
    }
  }

  lemma {:induction false} FlushInode(fs: Fs, bk: Book, img: Image, h: nat)
    requires Valid(fs, bk) && h < |fs.inodes|
    ensures |fs.inodes[h].direct| == NDIRECT
    ensures var img' := img[fs.inodes[h].ino := Pad(Words(InodeWords(fs.inodes[h])))];
            Flushes(fs, bk, img, img') && InodeFlushed(fs, img', h)
  {
    assert InodeOk(fs, bk, h);
    var img' := img[fs.inodes[h].ino := Pad(Words(InodeWords(fs.inodes[h])))];
    assert InodeOwned(fs, bk, h);
    forall d | 0 <= d < |fs.index| && IndexFlushed(fs, img, d) ensures IndexFlushed(fs, img', d) {
      assert IndexOwned(fs, bk, d);
    }
    forall g | 0 <= g < |fs.inodes| && InodeFlushed(fs, img, g) ensures InodeFlushed(fs, img', g) {
      assert InodeOwned(fs, bk, g);
    }
  }

  lemma {:induction false} FlushesTrans(fs: Fs, bk: Book, img: Image, img1: Image, img2: Image)
    requires Flushes(fs, bk, img, img1) && Flushes(fs, bk, img1, img2)
    ensures Flushes(fs, bk, img, img2)
  {
  }

  ghost predicate BucketFlushed(fs: Fs, img: Image, b: nat)
    requires ChainsOk(fs) && b < HASH_LIST_SIZE
  {
    && (forall i :: 0 <= i < |fs.indexChains[b]| ==> IndexFlushed(fs, img, fs.indexChains[b][i]))
    && (forall i :: 0 <= i < |fs.inodeChains[b]| ==> InodeFlushed(fs, img, fs.inodeChains[b][i]))
  }

  lemma {:induction false} BucketsKept(fs: Fs, bk: Book, img: Image, img': Image, n: nat)
    requires ChainsOk(fs) && n <= HASH_LIST_SIZE && Flushes(fs, bk, img, img')
    requires forall b :: 0 <= b < n ==> BucketFlushed(fs, img, b)
    ensures forall b :: 0 <= b < n ==> BucketFlushed(fs, img', b)
  {
    forall b | 0 <= b < n ensures BucketFlushed(fs, img', b) {
      assert BucketFlushed(fs, img, b);
    }
  }

  /** Flushing every bucket flushes everything. */
  lemma {:induction false} ChainsFlushed(fs: Fs, img: Image)
    requires Filed(fs) && ChainsOk(fs)
    requires forall b :: 0 <= b < HASH_LIST_SIZE ==> BucketFlushed(fs, img, b)
    ensures Flushed(fs, img)
  {
    forall c | 0 <= c < |fs.index| ensures IndexFlushed(fs, img, c) {
      var b := Hash32(0);
      assert IndexFiled(fs, c) && c in fs.indexChains[b] && BucketFlushed(fs, img, b);
    }
    forall h | 0 <= h < |fs.inodes| ensures InodeFlushed(fs, img, h) {
      var b := Hash32(fs.inodes[h].host);
      assert InodeFiled(fs, h) && h in fs.inodeChains[b] && BucketFlushed(fs, img, b);
    }
  }

  /** Flushing does not touch the super block or the bitmap. */
  lemma {:induction false} HeaderKept(fs: Fs, bk: Book, img: Image, img': Image)
    requires Valid(fs, bk) && Flushes(fs, bk, img, img')
    ensures forall i :: BlockWord(img', BLKN_SUPER, i) == BlockWord(img, BLKN_SUPER, i)
    ensures forall name :: Labelled(img, name) ==> Labelled(img', name)
    ensures forall b :: 0 <= b < fs.ninos ==> MapBit(img', b) == MapBit(img, b)
  {
    assert BLKN_SUPER !in bk.owner;
    forall b | 0 <= b < fs.ninos ensures MapBit(img', b) == MapBit(img, b) {
      var m := BLKN_FREEMAP + b / BLKBITS;
      assert m < FirstData(fs.ninos) && m !in bk.owner;
    }
  }

  /** Writing anywhere but in the data of a file keeps the invariant. */
  lemma {:induction false} ImageFrame(fs: Fs, bk: Book, img: Image)
    requires Valid(fs, bk)
    requires forall x :: x in bk.owner && bk.owner[x].DataBlock? && x in fs.image ==> x in img && img[x] == fs.image[x]
    ensures Valid(fs.(image := img), bk)
    ensures forall x: nat :: NoneLost(fs, bk, x) ==> NoneLost(fs.(image := img), bk, x)
  {
    var fs' := fs.(image := img);
    forall x: nat | NoneLost(fs, bk, x) ensures NoneLost(fs', bk, x) { SameKeeps(fs, bk, fs', x); }
    OwnedKept(fs, bk, fs');
    FiledKept(fs, fs');
    forall h | 0 <= h < |fs.inodes| ensures InodeOk(fs', bk, h) {
      assert InodeOk(fs, bk, h);
      ShapeFrame(fs, bk, fs', bk, h);
      var t := bk.tracks[h];
      forall k | 0 <= k < |t.log| ensures t.log[k] in img && img[t.log[k]] == Pad(t.data[k]) {
        assert bk.owner[t.log[k]] == DataBlock(h, k);
      }
    }
  }

  // ------------------------------------------------------- ownership

  ghost predicate InUse(fs: Fs, bk: Book, u: Owner) {
    match u
    case InodeBlock(h) => h < |fs.inodes|
    case IndexOwner(c) => c < |fs.index|
    case DataBlock(h, k) => h < |bk.tracks| && k < |bk.tracks[h].log|
  }

  ghost function NumberOf(fs: Fs, bk: Book, u: Owner): nat
    requires InUse(fs, bk, u)
  {
    match u
    case InodeBlock(h) => fs.inodes[h].ino
    case IndexOwner(c) => fs.index[c].ino
    case DataBlock(h, k) => bk.tracks[h].log[k]
  }

  /**
    The root inode has block 1; every other inode, index block and data block has a number behind the bitmap
    and below `next_ino`, and no two of them share one.
   */
  lemma {:induction false} NoCollision(fs: Fs, bk: Book, u: Owner, v: Owner)
    requires Valid(fs, bk) && InUse(fs, bk, u) && InUse(fs, bk, v)
    ensures u == InodeBlock(0) ==> NumberOf(fs, bk, u) == BLKN_ROOT
    ensures u != InodeBlock(0) ==> FirstData(fs.ninos) <= NumberOf(fs, bk, u) < fs.nextIno
    ensures NumberOf(fs, bk, u) == NumberOf(fs, bk, v) ==> u == v
  {
    NumberOwned(fs, bk, u);
    NumberOwned(fs, bk, v);
    NumberOwned(fs, bk, InodeBlock(0));
  }

  lemma {:induction false} NumberOwned(fs: Fs, bk: Book, u: Owner)
    requires Valid(fs, bk) && InUse(fs, bk, u)
    ensures NumberOf(fs, bk, u) in bk.owner && bk.owner[NumberOf(fs, bk, u)] == u
  {
    match u
    case InodeBlock(h) => assert InodeOwned(fs, bk, h);
    case IndexOwner(c) => assert IndexOwned(fs, bk, c);
    case DataBlock(h, k) => assert InodeOk(fs, bk, h);
  }

  /** The ones of the free map, counted. */
  lemma {:induction false} FreeBitsCounted(img: Image, next: nat, n: nat)
    requires next <= n
    requires forall b :: 0 <= b < n ==> (MapBit(img, b) <==> next <= b < n)
    ensures |set b: nat | b < n && MapBit(img, b)| == n - next
  {
    var s := set b: nat | b < n && MapBit(img, b);
    var i := next;
    var r: set<nat> := {};
    while i < n
      invariant next <= i <= n && |r| == i - next
      invariant forall b: nat :: b in r <==> next <= b < i
    {
      r := r + {i};
      i := i + 1;
    }
    assert s == r;
  }
}
