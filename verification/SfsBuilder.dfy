/**
  lab8/tools/mksfs.c: the image builder.  `bug` ends the program; here a method that may reach it returns
  `ok`, and nothing follows a call that was not ok.
 */
module SfsBuilder {
  import opened Options
  import opened Bits
  import opened SfsBytes
  import opened SfsModel
  import opened SfsSteps
  import opened SfsReader

  /** `bytes` became the last block of inode `h`; every other inode and every other history is as it was. */
  ghost predicate Extends(fs: Fs, bk: Book, fs': Fs, bk': Book, h: nat, bytes: seq<byte>) {
    && fs'.inodeChains == fs.inodeChains && fs'.ninos == fs.ninos
    && h < |fs.inodes| == |fs'.inodes| == |bk.tracks| == |bk'.tracks|
    && (forall g :: 0 <= g < |fs.inodes| && g != h ==> fs'.inodes[g] == fs.inodes[g] && bk'.tracks[g] == bk.tracks[g])
    && bk'.tracks[h].data == bk.tracks[h].data + [bytes]
    && SameIdentity(fs.inodes[h], fs'.inodes[h]) && fs'.inodes[h].size == fs.inodes[h].size + |bytes|
  }

  /** How many blocks of an image file are used. */
  function Usable(blocks: nat): nat {
    if blocks > MAX_NBLKS then MAX_NBLKS else blocks
  }

  class Builder {
    const ninos: nat
    var nextIno: nat
    var unused: nat
    var inodes: seq<Inode>
    var index: seq<IndexBlock>
    var inodeChains: seq<seq<nat>>
    var indexChains: seq<seq<nat>>
    var image: map<nat, seq<byte>>
    var nameBuf: seq<byte>     // the name field of the static entry of add_entry
    ghost var bk: Book

    ghost function Now(): Fs
      reads this
    {
      Fs(ninos, nextIno, unused, inodes, index, inodeChains, indexChains, image)
    }

    ghost predicate Good()
      reads this
    {
      Valid(Now(), bk) && |nameBuf| == 256
    }

    ghost predicate Ready()
      reads this
    {
      Good() && AtRest(bk) && NoneLost(Now(), bk, 0)
    }

    /** At rest but for the number `x`, which is still to be appended. */
    ghost predicate Pending(x: nat)
      reads this
    {
      Good() && AtRest(bk) && NoneLost(Now(), bk, x) && Spare(Now(), bk, x)
    }

    /** create_sfs on an image file of `blocks` blocks holding `disk`, once it has been found large enough. */
    constructor (blocks: nat, disk: map<nat, seq<byte>>)
      requires FirstData(Usable(blocks)) < Usable(blocks)
      ensures Ready() && Now() == Created(Usable(blocks), disk)
      ensures bk.tracks == [NO_TRACK]
    {
      ninos, nextIno, unused := Usable(blocks), FirstData(Usable(blocks)), Usable(blocks) - FirstData(Usable(blocks));
      image := disk;
      index := [];
      indexChains := seq(HASH_LIST_SIZE, _ => []);
      inodes := [NewInode(BLKN_ROOT, 0, DirKind)];
      var chains: seq<seq<nat>> := seq(HASH_LIST_SIZE, _ => []);
      inodeChains := chains[Hash32(0) := [0]];
      nameBuf := seq(256, _ => 0);
      bk := Book([NO_TRACK], [], map[BLKN_ROOT := InodeBlock(0)]);
      new;
      CreatedValid(ninos, disk);
      assert [0] + chains[Hash32(0)] == [0];
      assert Now() == Created(ninos, disk);
    }

    /** What the allocation and search routines rely on. */
    ghost predicate Basic()
      reads this
    {
      Counters(Now()) && ChainsOk(Now())
    }

    /** sfs_alloc_ino */
    method AllocIno() returns (ok: bool, x: nat)
      requires Basic()
      modifies this`nextIno, this`unused
      ensures ok <==> old(unused) > 0
      ensures !ok ==> Now() == old(Now())
      ensures ok ==> x == old(nextIno) && Now() == TakeIno(old(Now()))
    {
      if nextIno < ninos {
        unused := unused - 1;
        x := nextIno;
        nextIno := nextIno + 1;
        return true, x;
      }
      return false, 0;
    }

    /** alloc_cache_block with argument 0, the only one it is called with. */
    method AllocCacheBlock() returns (ok: bool, c: nat)
      requires Basic()
      modifies this`nextIno, this`unused, this`index, this`indexChains
      ensures ok <==> old(unused) > 0
      ensures !ok ==> Now() == old(Now())
      ensures ok ==> c == |old(index)| && Now() == AddIndex(TakeIno(old(Now())), 0, old(nextIno))
    {
      var x;
      ok, x := AllocIno();
      if !ok { return false, 0; }
      c := |index|;
      index := index + [IndexBlock(x, Zeros())];
      indexChains := indexChains[Hash32(0) := [c] + indexChains[Hash32(0)]];
    }

    /** search_cache_block */
    method SearchCacheBlock(x: nat) returns (r: Option<nat>)
      requires Basic()
      ensures r.Some? ==> r.value in indexChains[Hash32(x)] && r.value < |index| && index[r.value].ino == x
      ensures r.None? ==> forall c :: c in indexChains[Hash32(x)] ==> c < |index| && index[c].ino != x
    {
      var chain, i := indexChains[Hash32(x)], 0;
      while i < |chain| && index[chain[i]].ino != x
        invariant 0 <= i <= |chain|
        invariant forall j :: 0 <= j < i ==> index[chain[j]].ino != x
      {
        i := i + 1;
      }
      return if i < |chain| then Some(chain[i]) else None;
    }

    /**
      update_cache: given the pointer and the number kept for an index block, the pointer and number to use.
      `looked` says that the hash table had to be asked.
     */
    method UpdateCache(cb: Option<nat>, ino: nat) returns (ok: bool, c: nat, x: nat, ghost looked: bool)
      requires Basic() && (cb.Some? ==> cb.value < |index|)
      modifies this`nextIno, this`unused, this`index, this`indexChains
      ensures looked <==> ino != 0 && !(cb.Some? && old(index)[cb.value].ino == ino)
      ensures ino == 0 ==> (ok <==> old(unused) > 0)
      ensures ino == 0 && ok ==>
                c == |old(index)| && x == old(nextIno) && Now() == AddIndex(TakeIno(old(Now())), 0, x)
      ensures ino != 0 ==> Now() == old(Now())
      ensures ino != 0 && !looked ==> ok && cb == Some(c) && x == ino
      ensures looked && ok ==> c < |index| && index[c].ino == ino && x == ino
    {
      looked := false;
      if ino == 0 {
        ok, c := AllocCacheBlock();
        if !ok { return false, 0, 0, false; }
        x := index[c].ino;
      } else if cb.None? || index[cb.value].ino != ino {
        looked := true;
        var r := SearchCacheBlock(ino);
        ok := r.Some?;
        c, x := if r.Some? then r.value else 0, ino;
      } else {
        return true, cb.value, ino, false;
      }
    }

    /** The call of update_cache for blocks reached through the indirect block. */
    method EnsureIndirect(h: nat) returns (ok: bool, ghost looked: bool)
      requires Good() && h < |inodes| && Tight(bk.tracks[h]) && NDIRECT <= |bk.tracks[h].log| < L1_NBLKS
      modifies this
      ensures ok <==> IndexNeed(|old(bk).tracks[h].log|) <= old(unused)
      ensures !looked && nameBuf == old(nameBuf)
      ensures ok ==> Good() && Prepares(old(Now()), old(bk), Now(), bk, h)
      ensures ok ==> |bk.tracks[h].leaf| == 1 && bk.tracks[h].top.None?
      ensures ok ==> unused == old(unused) - IndexNeed(|old(bk).tracks[h].log|)
    {
      IndirectCached(Now(), bk, h);
      ghost var fs := Now();
      var c, x;
      ok, c, x, looked := UpdateCache(inodes[h].l1, inodes[h].indirect);
      if !ok { return; }
      inodes := inodes[h := inodes[h].(l1 := Some(c), indirect := x)];
      if fs.inodes[h].indirect == 0 {
        IndirectGrown(fs, bk, h);
        assert Now() == AddLeaf(TakeIno(fs), h, fs.nextIno);
        bk := BookLeaf(fs, bk, h, x);
      } else {
        assert Now() == fs;
      }
    }

    /** The call of update_cache for the table of leaves. */
    method EnsureTable(h: nat) returns (ok: bool, ghost looked: bool)
      requires Good() && h < |inodes| && Tight(bk.tracks[h]) && L1_NBLKS <= |bk.tracks[h].log| < LN_NBLKS
      modifies this
      ensures ok <==> |old(bk).tracks[h].log| > L1_NBLKS || old(unused) >= 1
      ensures !looked && nameBuf == old(nameBuf)
      ensures ok ==> TableReady(old(Now()), old(bk), Now(), bk, h)
    {
      TableCached(Now(), bk, h);
      ghost var fs := Now();
      var c, x;
      ok, c, x, looked := UpdateCache(inodes[h].l2, inodes[h].dbIndirect);
      if !ok { return; }
      inodes := inodes[h := inodes[h].(l2 := Some(c), dbIndirect := x)];
      if fs.inodes[h].dbIndirect == 0 {
        assert Now() == AddTop(TakeIno(fs), h, fs.nextIno);
        bk := BookTop(fs, bk, h, x);
      } else {
        assert Now() == fs;
      }
    }

    /** The call of update_cache for the leaf named in slot `j` of the table. */
    method EnsureTableLeaf(h: nat, j: nat) returns (ok: bool, ghost looked: bool)
      requires Good() && h < |inodes| && L1_NBLKS <= |bk.tracks[h].log| < LN_NBLKS
      requires bk.tracks[h].top.Some? && |bk.tracks[h].leaf| == LeafCount(|bk.tracks[h].log|)
      requires j == (|bk.tracks[h].log| - L1_NBLKS) / NENTRY
      modifies this
      ensures ok <==> SlotOf(|old(bk).tracks[h].log|) != 0 || old(unused) >= 1
      ensures !looked && nameBuf == old(nameBuf)
      ensures ok ==> LeafReady(old(Now()), old(bk), Now(), bk, h)
    {
      LeafCached(Now(), bk, h);
      ghost var fs := Now();
      var top := inodes[h].l2.value;
      var c, x;
      ok, c, x, looked := UpdateCache(inodes[h].l1, index[top].data[j]);
      if !ok { return; }
      inodes := inodes[h := inodes[h].(l1 := Some(c))];
      StoreWord(top, j, x);
      if fs.index[top].data[j] == 0 {
        assert Now() == AddTableLeaf(TakeIno(fs), h, fs.nextIno, top, j);
        bk := BookLeaf(fs, bk, h, x);
      } else {
        SameWord(fs.index, top, j);
        assert inodes == fs.inodes;
      }
    }

    /** Both calls of update_cache for blocks reached through the double-indirect block. */
    method EnsureDouble(h: nat) returns (ok: bool, ghost looked: bool)
      requires Good() && h < |inodes| && Tight(bk.tracks[h]) && L1_NBLKS <= |bk.tracks[h].log| < LN_NBLKS
      modifies this
      ensures ok <==> IndexNeed(|old(bk).tracks[h].log|) <= old(unused)
      ensures !looked && nameBuf == old(nameBuf)
      ensures ok ==> Good() && Prepares(old(Now()), old(bk), Now(), bk, h)
      ensures ok ==> |bk.tracks[h].leaf| == LeafOf(|bk.tracks[h].log|) + 1 && bk.tracks[h].top.Some?
      ensures ok ==> unused == old(unused) - IndexNeed(|old(bk).tracks[h].log|)
    {
      ghost var fs0, bk0 := Now(), bk;
      TableCached(fs0, bk0, h);
      assert InodeOk(fs0, bk0, h);
      var nblks := inodes[h].nblks - L1_NBLKS;
      NextLeaf(inodes[h].nblks);
      ok, looked := EnsureTable(h);
      if !ok { return; }
      ghost var fs1, bk1 := Now(), bk;
      TableReadyValid(fs0, bk0, fs1, bk1, h);
      ok, looked := EnsureTableLeaf(h, nblks / NENTRY);
      if !ok { return; }
      LeafReadyValid(fs1, bk1, Now(), bk, h);
      PreparesTrans(fs0, bk0, fs1, bk1, Now(), bk, h);
    }

    /** A store through the cache of index block `c`. */
    method StoreWord(c: nat, slot: nat, x: nat)
      requires c < |index| && slot < |index[c].data|
      modifies this`index
      ensures index == old(index)[c := old(index)[c].(data := old(index)[c].data[slot := x])]
    {
      index := index[c := index[c].(data := index[c].data[slot := x])];
    }

    /** The counters at the end of append_block. */
    method Count(h: nat, size: nat)
      requires h < |inodes|
      modifies this`inodes
      ensures inodes == old(inodes)[h := Grown(old(inodes)[h], size)]
    {
      inodes := inodes[h := inodes[h].(nblks := inodes[h].nblks + 1, size := inodes[h].size + size,
                                       blocks := inodes[h].blocks + 1)];
    }

    /** append_block.  The hash table of index blocks is never consulted. */
    method AppendBlock(h: nat, size: nat, ino: nat, ghost bytes: seq<byte>) returns (ok: bool, ghost looked: bool)
      requires Pending(ino) && h < |inodes| && size <= BLKSIZE
      requires |bytes| <= BLKSIZE && ino in image && image[ino] == Pad(bytes)
      modifies this
      ensures ok <==> |old(bk).tracks[h].log| < LN_NBLKS && IndexNeed(|old(bk).tracks[h].log|) <= old(unused)
      ensures !looked
      ensures ok ==> Ready() && Appended(old(Now()), old(bk), Now(), bk, h, size, ino, bytes)
      ensures ok ==> nameBuf == old(nameBuf) && unused == old(unused) - IndexNeed(|old(bk).tracks[h].log|)
    {
      assert InodeOk(Now(), bk, h);
      var nblks := inodes[h].nblks;
      if nblks >= LN_NBLKS { return false, false; }
      if nblks < NDIRECT {
        ok, looked := true, false;
        AppendDirect(h, size, ino, bytes);
      } else if nblks < L1_NBLKS {
        ok, looked := AppendIndirect(h, size, ino, bytes);
      } else if nblks < L2_NBLKS {
        ok, looked := AppendDouble(h, size, ino, bytes);
      }
    }

    method AppendDirect(h: nat, size: nat, ino: nat, ghost bytes: seq<byte>)
      requires Pending(ino) && h < |inodes| && size <= BLKSIZE
      requires |bytes| <= BLKSIZE && ino in image && image[ino] == Pad(bytes)
      requires |bk.tracks[h].log| < NDIRECT
      modifies this`inodes, this`bk
      ensures Ready() && Appended(old(Now()), old(bk), Now(), bk, h, size, ino, bytes)
    {
      assert InodeOk(Now(), bk, h);
      StoreDirectValid(Now(), bk, h, size, ino, bytes);
      DirectAppended(Now(), bk, h, size, ino, bytes);
      ghost var fs := Now();
      inodes := inodes[h := inodes[h].(direct := inodes[h].direct[inodes[h].nblks := ino])];
      Count(h, size);
      bk := BookStore(bk, h, ino, bytes);
      assert Now() == StoreDirect(fs, h, size, ino);
    }

    method AppendIndirect(h: nat, size: nat, ino: nat, ghost bytes: seq<byte>) returns (ok: bool, ghost looked: bool)
      requires Pending(ino) && h < |inodes| && size <= BLKSIZE
      requires |bytes| <= BLKSIZE && ino in image && image[ino] == Pad(bytes)
      requires NDIRECT <= |bk.tracks[h].log| < L1_NBLKS
      modifies this
      ensures ok <==> IndexNeed(|old(bk).tracks[h].log|) <= old(unused)
      ensures !looked
      ensures ok ==> Ready() && Appended(old(Now()), old(bk), Now(), bk, h, size, ino, bytes)
      ensures ok ==> nameBuf == old(nameBuf) && unused == old(unused) - IndexNeed(|old(bk).tracks[h].log|)
    {
      ok, looked := EnsureIndirect(h);
      if !ok { return; }
      ghost var fs1, bk1 := Now(), bk;
      assert InodeOk(fs1, bk1, h);
      StoreLast(h, inodes[h].nblks - NDIRECT, size, ino, bytes);
      StoredAtRest(old(bk), bk1, h, ino, bytes);
      PreparedAppended(old(Now()), old(bk), fs1, bk1, h, size, ino, bytes, fs1.inodes[h].l1.value, fs1.inodes[h].nblks - NDIRECT);
    }

    method AppendDouble(h: nat, size: nat, ino: nat, ghost bytes: seq<byte>) returns (ok: bool, ghost looked: bool)
      requires Pending(ino) && h < |inodes| && size <= BLKSIZE
      requires |bytes| <= BLKSIZE && ino in image && image[ino] == Pad(bytes)
      requires L1_NBLKS <= |bk.tracks[h].log| < LN_NBLKS
      modifies this
      ensures ok <==> IndexNeed(|old(bk).tracks[h].log|) <= old(unused)
      ensures !looked
      ensures ok ==> Ready() && Appended(old(Now()), old(bk), Now(), bk, h, size, ino, bytes)
      ensures ok ==> nameBuf == old(nameBuf) && unused == old(unused) - IndexNeed(|old(bk).tracks[h].log|)
    {
      ok, looked := EnsureDouble(h);
      if !ok { return; }
      ghost var fs1, bk1 := Now(), bk;
      assert InodeOk(fs1, bk1, h);
      NextLeaf(inodes[h].nblks);
      var j := inodes[h].nblks - L1_NBLKS;
      StoreLast(h, j % NENTRY, size, ino, bytes);
      StoredAtRest(old(bk), bk1, h, ino, bytes);
      PreparedAppended(old(Now()), old(bk), fs1, bk1, h, size, ino, bytes, fs1.inodes[h].l1.value, j % NENTRY);
    }

    /** The store into the leaf that `l1` points to, and the counters. */
    method StoreLast(h: nat, slot: nat, size: nat, ino: nat, ghost bytes: seq<byte>)
      requires Good() && h < |inodes| && size <= BLKSIZE && Spare(Now(), bk, ino)
      requires |bytes| <= BLKSIZE && ino in image && image[ino] == Pad(bytes)
      requires var t := bk.tracks[h];
               NDIRECT <= |t.log| < LN_NBLKS && |t.leaf| == LeafOf(|t.log|) + 1 && slot == SlotOf(|t.log|)
      modifies this`index, this`inodes, this`bk
      ensures Good() && bk == BookStore(old(bk), h, ino, bytes)
      ensures NoneLost(old(Now()), old(bk), ino) ==> NoneLost(Now(), bk, 0)
      ensures old(inodes)[h].l1.Some? && old(inodes)[h].l1.value < |old(index)|
      ensures slot < |old(index)[old(inodes)[h].l1.value].data|
      ensures Now() == StoreIndexed(old(Now()), h, size, ino, old(inodes)[h].l1.value, slot)
    {
      StoreIndexedValid(Now(), bk, h, size, ino, bytes);
      StoreAndCount(h, inodes[h].l1.value, slot, size, ino);
      bk := BookStore(bk, h, ino, bytes);
    }

    method StoreAndCount(h: nat, c: nat, slot: nat, size: nat, ino: nat)
      requires h < |inodes| && c < |index| && slot < |index[c].data|
      modifies this`index, this`inodes
      ensures Now() == StoreIndexed(old(Now()), h, size, ino, c, slot)
    {
      StoreWord(c, slot, ino);
      Count(h, size);
    }

    // ----------------------------------------------------- writing the image

    /** write_block */
    method WriteBlock(bytes: seq<byte>, x: nat)
      requires |bytes| <= BLKSIZE && x < ninos
      modifies this`image
      ensures image == old(image)[x := Pad(bytes)]
    {
      image := image[x := Pad(bytes)];
    }

    /** The inner loop of close_sfs: bits `start` up to `end` of a zeroed buffer, set through its 32-bit words. */
    method SetBits(start: nat, end: nat) returns (ws: seq<nat>)
      requires end <= BLKBITS
      ensures |ws| == NENTRY && forall k :: 0 <= k < NENTRY ==> ws[k] < TWO32
      ensures forall q :: 0 <= q < BLKBITS ==> (Bit(ws[q / 32], q % 32) <==> start <= q < end)
    {
      var data := new nat[NENTRY](_ => 0);
      var j := start;
      forall q | 0 <= q < BLKBITS ensures !Bit(data[q / 32], q % 32) { NoBits(q % 32); }
      Powers();
      while j < end
        invariant start <= j && (j <= end || j == start)
        invariant forall k :: 0 <= k < NENTRY ==> data[k] < TWO32
        invariant forall q :: 0 <= q < BLKBITS ==> (Bit(data[q / 32], q % 32) <==> start <= q < j)
      {
        forall u ensures Bit(SetBit(data[j / 32], j % 32), u) <==> u == j % 32 || Bit(data[j / 32], u) {
          SetBitBit(data[j / 32], j % 32, u);
        }
        SetBitBound(data[j / 32], j % 32, 32);
        data[j / 32] := SetBit(data[j / 32], j % 32);
        j := j + 1;
      }
      ws := data[..];
    }

    /** One bitmap block of close_sfs: the bits of the blocks from `i` on that are still free. */
    method BitmapBlock(i: nat) returns (block: seq<byte>)
      requires nextIno <= ninos && i < ninos
      ensures |block| == BLKSIZE && forall j :: 0 <= j < BLKBITS ==> (BitAt(block, j) <==> nextIno <= i + j < ninos)
    {
      var start, end := 0, 0;
      if i + BLKBITS > nextIno {
        end := BLKBITS;
        if i < nextIno { start := nextIno - i; }
        if i + BLKBITS > ninos { end := ninos - i; }
      }
      var ws := SetBits(start, end);
      block := Words(ws);
      forall j | 0 <= j < BLKBITS ensures BitAt(block, j) <==> nextIno <= i + j < ninos {
        WordsBitAt(ws, j);
      }
    }

    /** The bitmap loop of close_sfs. */
    method WriteBitmap()
      requires Counters(Now())
      modifies this`image
      ensures forall x :: !(BLKN_FREEMAP <= x < FirstData(ninos)) ==> (x in image <==> x in old(image))
      ensures forall x :: x in old(image) && !(BLKN_FREEMAP <= x < FirstData(ninos)) ==> image[x] == old(image)[x]
      ensures forall b :: 0 <= b < ninos ==> (MapBit(image, b) <==> nextIno <= b)
    {
      var i, ino := 0, BLKN_FREEMAP;
      while i < ninos
        invariant i == BLKBITS * (ino - BLKN_FREEMAP) && BLKN_FREEMAP <= ino <= FirstData(ninos)
        invariant forall x :: !(BLKN_FREEMAP <= x < ino) ==> (x in image <==> x in old(image))
        invariant forall x :: x in old(image) && !(BLKN_FREEMAP <= x < ino) ==> image[x] == old(image)[x]
        invariant forall b :: 0 <= b < i && b < ninos ==> (MapBit(image, b) <==> nextIno <= b)
      {
        var block := BitmapBlock(i);
        ghost var before := image;
        WriteBlock(block, ino);
        forall b | 0 <= b < i + BLKBITS && b < ninos ensures MapBit(image, b) <==> nextIno <= b {
          if b < i {
            assert b / BLKBITS < ino - BLKN_FREEMAP;
            assert MapBit(before, b) <==> nextIno <= b;
          } else {
            assert b / BLKBITS == ino - BLKN_FREEMAP && b % BLKBITS == b - i;
            assert BitAt(block, b - i) <==> nextIno <= b;
          }
        }
        ino, i := ino + 1, i + BLKBITS;
      }
    }

    /** The caches are those of `fs`. */
    ghost predicate CachesOf(fs: Fs)
      reads this
    {
      index == fs.index && inodes == fs.inodes && ninos == fs.ninos
    }

    /** A chain of cached index blocks is written out. */
    method FlushIndexChain(chain: seq<nat>, ghost fs: Fs)
      requires Valid(fs, bk) && CachesOf(fs) && forall i :: 0 <= i < |chain| ==> chain[i] < |index|
      modifies this`image
      ensures Flushes(fs, bk, old(image), image)
      ensures forall i :: 0 <= i < |chain| ==> IndexFlushed(fs, image, chain[i])
    {
      var i := 0;
      while i < |chain|
        invariant 0 <= i <= |chain|
        invariant Flushes(fs, bk, old(image), image)
        invariant forall j :: 0 <= j < i ==> IndexFlushed(fs, image, chain[j])
      {
        FlushIndex(fs, bk, image, chain[i]);
        ghost var img := image;
        NumberOwned(fs, bk, IndexOwner(chain[i]));
        WriteBlock(Words(index[chain[i]].data), index[chain[i]].ino);
        FlushesTrans(fs, bk, old(image), img, image);
        i := i + 1;
      }
    }

    /** A chain of cached inodes is written out. */
    method FlushInodeChain(chain: seq<nat>, ghost fs: Fs)
      requires Valid(fs, bk) && CachesOf(fs) && forall i :: 0 <= i < |chain| ==> chain[i] < |inodes|
      modifies this`image
      ensures Flushes(fs, bk, old(image), image)
      ensures forall i :: 0 <= i < |chain| ==> InodeFlushed(fs, image, chain[i])
    {
      var i := 0;
      while i < |chain|
        invariant 0 <= i <= |chain|
        invariant Flushes(fs, bk, old(image), image)
        invariant forall j :: 0 <= j < i ==> InodeFlushed(fs, image, chain[j])
      {
        FlushInode(fs, bk, image, chain[i]);
        ghost var img := image;
        NumberOwned(fs, bk, InodeBlock(chain[i]));
        WriteBlock(Words(InodeWords(inodes[chain[i]])), inodes[chain[i]].ino);
        FlushesTrans(fs, bk, old(image), img, image);
        i := i + 1;
      }
    }

    /** Both chains of one bucket. */
    method FlushBucket(b: nat, ghost fs: Fs)
      requires Valid(fs, bk) && CachesOf(fs) && indexChains == fs.indexChains && inodeChains == fs.inodeChains
      requires b < HASH_LIST_SIZE
      modifies this`image
      ensures Flushes(fs, bk, old(image), image)
      ensures BucketFlushed(fs, image, b)
    {
      FlushIndexChain(indexChains[b], fs);
      ghost var img := image;
      FlushInodeChain(inodeChains[b], fs);
      FlushesTrans(fs, bk, old(image), img, image);
    }

    /** The final loop of close_sfs. */
    method FlushCaches(ghost fs: Fs)
      requires Valid(fs, bk) && CachesOf(fs) && indexChains == fs.indexChains && inodeChains == fs.inodeChains
      modifies this`image
      ensures Flushes(fs, bk, old(image), image)
      ensures Flushed(fs, image)
    {
      var b := 0;
      while b < HASH_LIST_SIZE
        invariant 0 <= b <= HASH_LIST_SIZE
        invariant Flushes(fs, bk, old(image), image)
        invariant forall q :: 0 <= q < b ==> BucketFlushed(fs, image, q)
      {
        ghost var img := image;
        FlushBucket(b, fs);
        FlushesTrans(fs, bk, old(image), img, image);
        BucketsKept(fs, bk, img, image, b);
        b := b + 1;
      }
      ChainsFlushed(fs, image);
    }

    /** The super block: three words, and the label behind them. */
    function SuperBytes(info: seq<byte>): (bs: seq<byte>)
      requires |info| == 32
      reads this
      ensures |bs| == 44
    {
      Words([SFS_MAGIC, ninos, unused]) + info
    }

    /** The super block. */
    method WriteSuper(info: seq<byte>)
      requires Counters(Now()) && |info| == 32
      modifies this`image
      ensures image == old(image)[BLKN_SUPER := Pad(SuperBytes(info))]
    {
      WriteBlock(SuperBytes(info), BLKN_SUPER);
    }

    lemma SuperBlock(img: Image, info: seq<byte>)
      requires Counters(Now()) && |info| == 32 && img == image[BLKN_SUPER := Pad(SuperBytes(info))]
      ensures BlockWord(img, BLKN_SUPER, 0) == SFS_MAGIC
      ensures BlockWord(img, BLKN_SUPER, 1) == ninos && BlockWord(img, BLKN_SUPER, 2) == unused
      ensures Labelled(img, info)
    {
      SuperReadBack([SFS_MAGIC, ninos, unused], info);
    }

    /** The first half of close_sfs: bitmap and super block. */
    method WriteHeader(info: seq<byte>)
      requires Counters(Now()) && |info| == 32
      modifies this`image
      ensures forall x :: x in old(image) && x >= FirstData(ninos) ==> x in image && image[x] == old(image)[x]
      ensures BlockWord(image, BLKN_SUPER, 0) == SFS_MAGIC
      ensures BlockWord(image, BLKN_SUPER, 1) == ninos && BlockWord(image, BLKN_SUPER, 2) == unused
      ensures Labelled(image, info)
      ensures forall b :: 0 <= b < ninos ==> (MapBit(image, b) <==> nextIno <= b)
    {
      WriteBitmap();
      ghost var img := image;
      SuperBlock(img[BLKN_SUPER := Pad(SuperBytes(info))], info);
      WriteSuper(info);
      forall b | 0 <= b < ninos ensures MapBit(image, b) <==> nextIno <= b {
        assert MapBit(img, b) <==> nextIno <= b;
      }
    }

    /** close_sfs: afterwards the caches are on the disk, and the bitmap and the super block tell what is free. */
    method Close(info: seq<byte>)
      requires Ready() && |info| == 32
      modifies this`image
      ensures Ready() && Flushed(Now(), image)
      ensures BlockWord(image, BLKN_SUPER, 0) == SFS_MAGIC
      ensures BlockWord(image, BLKN_SUPER, 1) == ninos && BlockWord(image, BLKN_SUPER, 2) == unused
      ensures Labelled(image, info)
      ensures forall b :: 0 <= b < ninos ==> (MapBit(image, b) <==> nextIno <= b)
    {
      DataBehindHeader(Now(), bk);
      ghost var fs := Now();
      WriteHeader(info);
      ImageFrame(fs, bk, image);
      FlushAll();
    }

    /** The second half of close_sfs. */
    method FlushAll()
      requires Ready()
      modifies this`image
      ensures Ready() && Flushed(Now(), image)
      ensures forall i :: BlockWord(image, BLKN_SUPER, i) == BlockWord(old(image), BLKN_SUPER, i)
      ensures forall name :: Labelled(old(image), name) ==> Labelled(image, name)
      ensures forall b :: 0 <= b < ninos ==> MapBit(image, b) == MapBit(old(image), b)
    {
      ghost var fs := Now();
      FlushCaches(fs);
      HeaderKept(fs, bk, fs.image, image);
      ImageFrame(fs, bk, image);
      SameFlushed(fs, image);
    }

    lemma SameFlushed(fs: Fs, img: Image)
      requires Flushed(fs, img)
      ensures Flushed(fs.(image := img), img)
    {
      var fs' := fs.(image := img);
      forall c | 0 <= c < |fs'.index| ensures IndexFlushed(fs', img, c) { assert IndexFlushed(fs, img, c); }
      forall h | 0 <= h < |fs'.inodes| ensures InodeFlushed(fs', img, h) { assert InodeFlushed(fs, img, h); }
    }

    lemma DataBehindHeader(fs: Fs, bk: Book)
      requires Valid(fs, bk)
      ensures forall x :: x in bk.owner && bk.owner[x].DataBlock? ==> x >= FirstData(fs.ninos)
    {
      NumberOwned(fs, bk, InodeBlock(0));
    }

    lemma SuperReadBack(ws: seq<nat>, info: seq<byte>)
      requires |ws| == 3 && |info| == 32 && forall i :: 0 <= i < 3 ==> ws[i] < TWO32
      ensures forall i :: 0 <= i < 3 ==> WordAt(Pad(Words(ws) + info), i) == ws[i]
      ensures Pad(Words(ws) + info)[12..44] == info
    {
      var bs, r := Words(ws), Pad(Words(ws) + info);
      assert r[12..44] == r[..44][12..44];
      forall i | 0 <= i < 3 ensures WordAt(r, i) == ws[i] {
        WordsAt(ws, i);
        assert forall j :: 0 <= j < 12 ==> r[j] == r[..44][j] == bs[j];
      }
    }

    // ----------------------------------------------------- inodes

    /** search_cache_inode: the inode made last for this host number, if there is one. */
    method SearchCacheInode(host: nat) returns (r: Option<nat>)
      requires Good()
      ensures r.Some? ==> Latest(inodes, host, r.value)
      ensures r.None? ==> forall h :: 0 <= h < |inodes| ==> inodes[h].host != host
    {
      var chain, i := inodeChains[Hash32(host)], 0;
      while i < |chain| && inodes[chain[i]].host != host
        invariant 0 <= i <= |chain|
        invariant forall j :: 0 <= j < i ==> inodes[chain[j]].host != host
      {
        i := i + 1;
      }
      forall g | 0 <= g < |inodes| && inodes[g].host == host ensures i < |chain| && g <= chain[i] {
        assert InodeFiled(Now(), g) && g in chain;
        var j :| 0 <= j < |chain| && chain[j] == g;
      }
      return if i < |chain| then Some(chain[i]) else None;
    }

    /** alloc_cache_inode with a number of its own choosing. */
    method AllocCacheInode(host: nat, kind: Kind) returns (ok: bool, h: nat)
      requires Ready()
      modifies this
      ensures ok <==> old(unused) > 0
      ensures ok ==> Ready() && nameBuf == old(nameBuf) && h == |old(inodes)|
      ensures ok ==> Now() == AddInode(TakeIno(old(Now())), old(nextIno), host, kind)
      ensures ok ==> bk == BookInode(old(Now()), old(bk), old(nextIno))
    {
      ghost var fs := Now();
      var x;
      ok, x := AllocIno();
      if !ok { return false, 0; }
      TakeInoValid(fs, bk);
      AddInodeValid(Now(), bk, x, host, kind);
      InodeKeeps(fs, bk, host, kind);
      AddInodeAtRest(fs, bk, x);
      h := |inodes|;
      inodes := inodes + [NewInode(x, host, kind)];
      inodeChains := inodeChains[Hash32(host) := [h] + inodeChains[Hash32(host)]];
      bk := BookInode(fs, bk, x);
    }

    /** The three calls that store a block of a file: a number is taken, the block written, the number appended. */
    method AppendNew(h: nat, bytes: seq<byte>) returns (ok: bool)
      requires Ready() && h < |inodes| && |bytes| <= BLKSIZE
      modifies this
      ensures ok <==> |old(bk).tracks[h].log| < LN_NBLKS && 1 + IndexNeed(|old(bk).tracks[h].log|) <= old(unused)
      ensures ok ==> Ready() && nameBuf == old(nameBuf) && Extends(old(Now()), old(bk), Now(), bk, h, bytes)
      ensures ok ==> unused == old(unused) - 1 - IndexNeed(|old(bk).tracks[h].log|)
    {
      ghost var fs := Now();
      var x;
      ok, x := AllocIno();
      if !ok { return false; }
      TakeInoValid(fs, bk);
      TakeKeeps(fs, bk);
      WriteBlock(bytes, x);
      ImageFrame(TakeIno(fs), bk, image);
      ghost var looked;
      ok, looked := AppendBlock(h, |bytes|, x, bytes);
    }
  }
}
