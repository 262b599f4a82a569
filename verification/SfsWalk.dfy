/**
  lab8/tools/mksfs.c: add_entry, open_file, open_link, add_file, add_link, add_dir, open_dir and create_img,
  over a source tree given as a value.
 */
module SfsWalk {
  import opened SfsBytes
  import opened SfsModel
  import opened SfsSteps
  import opened SfsBuilder
  import opened SfsTree
  import opened SfsPlan
  import opened SfsRuns

  /** Inode numbers are different and fit a word. */
  lemma {:induction false} InodeNumbers(fs: Fs, bk: Book)
    requires Valid(fs, bk)
    ensures forall g, h :: 0 <= g < h < |fs.inodes| ==> fs.inodes[g].ino != fs.inodes[h].ino
    ensures forall h :: 0 <= h < |fs.inodes| ==> fs.inodes[h].ino < TWO32
  {
    forall h | 0 <= h < |fs.inodes| ensures fs.inodes[h].ino in bk.owner && bk.owner[fs.inodes[h].ino] == InodeBlock(h) {
      assert InodeOwned(fs, bk, h);
    }
  }

  /** A link count may change without harm. */
  lemma {:induction false} LinkCountValid(fs: Fs, bk: Book, file: nat, n: nat)
    requires Valid(fs, bk) && file < |fs.inodes| && n < 65536
    ensures Valid(WithInode(fs, file, fs.inodes[file].(nlinks := n)), bk)
    ensures NoneLost(fs, bk, 0) ==> NoneLost(WithInode(fs, file, fs.inodes[file].(nlinks := n)), bk, 0)
  {
    var fs' := WithInode(fs, file, fs.inodes[file].(nlinks := n));
    if NoneLost(fs, bk, 0) { SameKeeps(fs, bk, fs', 0); }
    OwnedKept(fs, bk, fs');
    FiledKept(fs, fs');
    forall h | 0 <= h < |fs.inodes| ensures InodeOk(fs', bk, h) {
      assert InodeOk(fs, bk, h);
      var t := bk.tracks[h];
      if h != file {
        ShapeFrame(fs, bk, fs', bk, h);
      } else {
        forall k | NDIRECT <= k < |t.log| ensures SlotHolds(fs', t, k) { assert SlotHolds(fs, t, k); }
        if t.top.Some? { forall i | 0 <= i < NENTRY ensures TopHolds(fs', t, i) { assert TopHolds(fs, t, i); } }
      }
    }
  }

  /** One link more for inode `file`. */
  function WithLink(inodes: seq<Inode>, file: nat): seq<Inode>
    requires file < |inodes|
  {
    inodes[file := inodes[file].(nlinks := (inodes[file].nlinks + 1) % 65536)]
  }

  /** The last statement of add_entry. */
  method CountLink(b: Builder, file: nat)
    requires b.Ready() && file < |b.inodes|
    modifies b`inodes
    ensures b.Ready()
    ensures b.inodes == WithLink(old(b.inodes), file)
  {
    LinkCountValid(b.Now(), b.bk, file, (b.inodes[file].nlinks + 1) % 65536);
    b.inodes := b.inodes[file := b.inodes[file].(nlinks := (b.inodes[file].nlinks + 1) % 65536)];
  }

  /** The part of add_entry that writes the block: the static name buffer keeps bytes of earlier names. */
  method WriteEntry(b: Builder, cur: nat, ino: nat, name: seq<byte>) returns (ok: bool, ghost block: seq<byte>)
    requires b.Ready() && cur < |b.inodes| && ino < TWO32 && |name| <= 255 && IsName(name)
    modifies b
    ensures Pays(ok, Length(old(b.bk.tracks), cur), old(b.unused), b.unused)
    ensures ok ==> b.Ready() && Extends(old(b.Now()), old(b.bk), b.Now(), b.bk, cur, block)
    ensures EntryReads(block, ino, name)
  {
    LogLengths(b.Now(), b.bk);
    EntryReadBack(ino, b.nameBuf, name);
    b.nameBuf := CopyName(b.nameBuf, name);
    var bytes := EntryBytes(ino, b.nameBuf);
    block := bytes;
    ok := b.AppendNew(cur, bytes);
  }

  lemma {:induction false} ExtendedEntry(fs: Fs, bk: Book, fs': Fs, bk': Book, cur: nat, file: nat, block: seq<byte>, name: seq<byte>)
    requires Extends(fs, bk, fs', bk', cur, block) && file < |fs.inodes| && EntryReads(block, fs.inodes[file].ino, name)
    ensures file < |fs'.inodes| && EntryAdded(fs.inodes, bk.tracks, WithLink(fs'.inodes, file), bk'.tracks, cur, file, name)
  {
  }

  /** All of add_entry but the last statement. */
  method AppendEntry(b: Builder, cur: nat, file: nat, name: seq<byte>) returns (ok: bool)
    requires b.Ready() && cur < |b.inodes| && file < |b.inodes| && |name| <= 255 && IsName(name)
    modifies b
    ensures Pays(ok, Length(old(b.bk.tracks), cur), old(b.unused), b.unused)
    ensures ok ==> b.Ready() && file < |b.inodes|
    ensures ok ==> EntryAdded(old(b.inodes), old(b.bk.tracks), WithLink(b.inodes, file), b.bk.tracks, cur, file, name)
  {
    InodeNumbers(b.Now(), b.bk);
    ghost var fs, bk, block := b.Now(), b.bk, [];
    ok, block := WriteEntry(b, cur, b.inodes[file].ino, name);
    if ok { ExtendedEntry(fs, bk, b.Now(), b.bk, cur, file, block, name); }
  }

  /** add_entry */
  method AddEntry(b: Builder, cur: nat, file: nat, name: seq<byte>) returns (ok: bool)
    requires b.Ready() && cur < |b.inodes| && file < |b.inodes| && |name| <= 255 && IsName(name)
    modifies b
    ensures Pays(ok, Length(old(b.bk.tracks), cur), old(b.unused), b.unused)
    ensures ok ==> b.Ready() && EntryAdded(old(b.inodes), old(b.bk.tracks), b.inodes, b.bk.tracks, cur, file, name)
  {
    ok := AppendEntry(b, cur, file, name);
    if ok { CountLink(b, file); }
  }

  /** What goes for the walk as a whole. */
  ghost predicate Walking(b: Builder, files: Host, busy: int)
    reads b
  {
    b.Ready() && Walk(b.inodes, b.bk.tracks, files, busy)
  }

  /** add_entry in the course of the walk. */
  method Enter(b: Builder, cur: nat, file: nat, name: seq<byte>, ghost files: Host) returns (ok: bool)
    requires Walking(b, files, -1) && cur < |b.inodes| && file < |b.inodes| && |name| <= 255 && IsName(name)
    requires b.inodes[cur].kind == DirKind
    modifies b
    ensures Pays(ok, Length(old(b.bk.tracks), cur), old(b.unused), b.unused)
    ensures ok ==> Seen(b.inodes) == Seen(old(b.inodes))
    ensures ok ==> Walking(b, files, -1) && EntryAdded(old(b.inodes), old(b.bk.tracks), b.inodes, b.bk.tracks, cur, file, name)
  {
    InodeNumbers(b.Now(), b.bk);
    ghost var i0, t0 := b.inodes, b.bk.tracks;
    ok := AddEntry(b, cur, file, name);
    if !ok { return; }
    SeenSame(i0, b.inodes);
    EntryAddedNamed(i0, t0, b.inodes, b.bk.tracks, cur, file, name);
    EntryAddedSized(i0, t0, b.inodes, b.bk.tracks, cur, file, name);
    EntryAddedLinks(i0, t0, b.inodes, b.bk.tracks, cur, file, name);
    EntryAddedFiles(i0, t0, b.inodes, b.bk.tracks, cur, file, name, files, -1);
  }

  /** alloc_cache_inode in the course of the walk. */
  method MakeInode(b: Builder, host: nat, kind: Kind, ghost files: Host) returns (ok: bool, h: nat)
    requires Walking(b, files, -1) && (kind == FileKind <==> host in files)
    requires kind == FileKind ==> forall g :: 0 <= g < |b.inodes| ==> b.inodes[g].host != host
    modifies b
    ensures (ok <==> old(b.unused) > 0) && (ok ==> b.unused == old(b.unused) - 1)
    ensures ok ==> Seen(b.inodes) == Seen(old(b.inodes)) + {host}
    ensures ok ==> Walking(b, files, h) && h == |old(b.inodes)|
    ensures ok && kind != FileKind ==> Walking(b, files, -1)
    ensures ok ==> InodeAdded(old(b.inodes), old(b.bk.tracks), b.inodes, b.bk.tracks, host, kind)
  {
    ghost var i0, t0 := b.inodes, b.bk.tracks;
    ok, h := b.AllocCacheInode(host, kind);
    if !ok { return; }
    InodeNumbers(b.Now(), b.bk);
    assert b.inodes[..|i0|] == i0 && b.bk.tracks[..|i0|] == t0;
    forall g | 0 <= g < |i0| ensures i0[g].ino != b.inodes[|i0|].ino { assert i0[g] == b.inodes[g]; }
    SeenAdded(i0, t0, b.inodes, b.bk.tracks, host, kind);
    InodeAddedWalk(i0, t0, b.inodes, b.bk.tracks, host, kind, files, h);
    if kind != FileKind { InodeAddedWalk(i0, t0, b.inodes, b.bk.tracks, host, kind, files, -1); }
  }

  /** A block of a file or of a symbolic link. */
  method StoreChunk(b: Builder, h: nat, bytes: seq<byte>, ghost files: Host) returns (ok: bool)
    requires Walking(b, files, h) && h < |b.inodes| && b.inodes[h].kind != DirKind && |bytes| <= BLKSIZE
    modifies b
    ensures Pays(ok, Length(old(b.bk.tracks), h), old(b.unused), b.unused)
    ensures ok ==> Walking(b, files, h) && Filling(old(b.inodes), old(b.bk.tracks), b.inodes, b.bk.tracks, h)
    ensures ok ==> b.bk.tracks[h].data == old(b.bk.tracks)[h].data + [bytes]
    ensures ok ==> b.inodes[h].size == old(b.inodes)[h].size + |bytes|
  {
    ghost var i0, t0 := b.inodes, b.bk.tracks;
    LogLengths(b.Now(), b.bk);
    ok := b.AppendNew(h, bytes);
    if !ok { return; }
    DataAddedWalk(i0, t0, b.inodes, b.bk.tracks, h, files);
  }

  lemma {:induction false} FileDone(inodes: seq<Inode>, tracks: seq<Track>, files: Host, h: nat)
    requires Walk(inodes, tracks, files, h) && h < |inodes| && inodes[h].kind == FileKind
    requires FileHolds(inodes, tracks, h, files[inodes[h].host])
    ensures Walk(inodes, tracks, files, -1)
  {
  }

  lemma {:induction false} ChunksStep(content: seq<byte>, pos: nat)
    requires pos < |content|
    ensures var n := if |content| - pos <= BLKSIZE then |content| - pos else BLKSIZE;
            Chunks(content[pos..]) == [content[pos..pos + n]] + Chunks(content[pos + n..])
  {
    var rest := content[pos..];
    if |rest| > BLKSIZE {
      assert rest[..BLKSIZE] == content[pos..pos + BLKSIZE] && rest[BLKSIZE..] == content[pos + BLKSIZE..];
    } else {
      assert content[pos..pos + |rest|] == rest && content[pos + |rest|..] == [];
    }
  }

  /** One block of a file of `m` blocks, of which `n` have been stored with `left` of `space` blocks left. */
  lemma {:induction false} CopyTurn(ok: bool, n: nat, m: nat, space: nat, left: nat, left': nat)
    requires n < m && n <= LN_NBLKS && left + FileSize(n) == space && Pays(ok, n, left, left')
    ensures ok ==> n + 1 <= LN_NBLKS && left' + FileSize(n + 1) == space
    ensures !ok ==> m > LN_NBLKS || FileSize(m) > space
  {
    FileSizeStep(n);
    FileSizeMonotone(n + 1, m);
  }

  /** The copy of a file into inode `h` has come to `pos`, starting from `i0` and `t0` with `space` blocks left. */
  ghost predicate Copied(inodes: seq<Inode>, tracks: seq<Track>, left: nat, h: nat, content: seq<byte>, pos: nat,
                         i0: seq<Inode>, t0: seq<Track>, space: nat) {
    && pos <= |content| && Filling(i0, t0, inodes, tracks, h)
    && h < |inodes| && inodes[h].kind == FileKind && inodes[h].size == pos
    && tracks[h].data + Chunks(content[pos..]) == Chunks(content)
    && Length(tracks, h) <= LN_NBLKS && left + FileSize(Length(tracks, h)) == space
  }

  /** The next `n` bytes have been stored. */
  lemma {:induction false} CopiedMore(i1: seq<Inode>, t1: seq<Track>, left: nat, i2: seq<Inode>, t2: seq<Track>, left': nat,
                                      h: nat, content: seq<byte>, pos: nat, n: nat,
                                      i0: seq<Inode>, t0: seq<Track>, space: nat)
    requires Copied(i1, t1, left, h, content, pos, i0, t0, space) && pos < |content|
    requires n == if |content| - pos <= BLKSIZE then |content| - pos else BLKSIZE
    requires Filling(i1, t1, i2, t2, h) && i2[h].size == i1[h].size + n
    requires t2[h].data == t1[h].data + [content[pos..pos + n]]
    requires left' + FileSize(Length(t2, h)) == space && Length(t2, h) <= LN_NBLKS
    ensures Copied(i2, t2, left', h, content, pos + n, i0, t0, space)
  {
    ChunksStep(content, pos);
    Regroup(t1[h].data, content[pos..pos + n], Chunks(content[pos + n..]));
    FillingTrans(i0, t0, i1, t1, i2, t2, h);
  }

  lemma {:induction false} ChunksLeft(content: seq<byte>, pos: nat, data: seq<seq<byte>>)
    requires pos < |content| && data + Chunks(content[pos..]) == Chunks(content)
    ensures |data| < |Chunks(content)|
  {
  }

  /** The file is too large, whatever the space, or it takes more than that. */
  predicate TooMuch(content: seq<byte>, space: nat) {
    |Chunks(content)| > LN_NBLKS || FileSize(|Chunks(content)|) > space
  }

  /** What the turn that stored them leaves. */
  lemma {:induction false} ChunkStored(i1: seq<Inode>, t1: seq<Track>, left: nat, i2: seq<Inode>, t2: seq<Track>, left': nat,
                                       h: nat, content: seq<byte>, pos: nat, n: nat,
                                       i0: seq<Inode>, t0: seq<Track>, space: nat)
    requires Copied(i1, t1, left, h, content, pos, i0, t0, space) && pos < |content|
    requires n == if |content| - pos <= BLKSIZE then |content| - pos else BLKSIZE
    requires Filling(i1, t1, i2, t2, h) && i2[h].size == i1[h].size + n
    requires t2[h].data == t1[h].data + [content[pos..pos + n]] && Pays(true, Length(t1, h), left, left')
    ensures Copied(i2, t2, left', h, content, pos + n, i0, t0, space)
  {
    ChunksLeft(content, pos, t1[h].data);
    CopyTurn(true, |t1[h].data|, |Chunks(content)|, space, left, left');
    CopiedMore(i1, t1, left, i2, t2, left', h, content, pos, n, i0, t0, space);
  }

  /** A turn that could not store them. */
  lemma {:induction false} ChunkRefused(i1: seq<Inode>, t1: seq<Track>, left: nat, left': nat, h: nat, content: seq<byte>, pos: nat,
                                        i0: seq<Inode>, t0: seq<Track>, space: nat)
    requires Copied(i1, t1, left, h, content, pos, i0, t0, space) && pos < |content| && Pays(false, Length(t1, h), left, left')
    ensures TooMuch(content, space)
  {
    ChunksLeft(content, pos, t1[h].data);
    CopyTurn(false, |t1[h].data|, |Chunks(content)|, space, left, left');
  }

  /** One turn of the loop of open_file. */
  method CopyChunk(b: Builder, h: nat, content: seq<byte>, pos: nat, ghost files: Host,
                   ghost i0: seq<Inode>, ghost t0: seq<Track>, ghost space: nat)
    returns (ok: bool, next: nat)
    requires Walking(b, files, h) && pos < |content|
    requires Copied(b.inodes, b.bk.tracks, b.unused, h, content, pos, i0, t0, space)
    modifies b
    ensures ok ==> pos < next <= |content| && Walking(b, files, h)
    ensures ok ==> Copied(b.inodes, b.bk.tracks, b.unused, h, content, next, i0, t0, space)
    ensures !ok ==> TooMuch(content, space)
  {
    ghost var i1, t1, left := b.inodes, b.bk.tracks, b.unused;
    var n := if |content| - pos <= BLKSIZE then |content| - pos else BLKSIZE;
    next := pos + n;
    ok := StoreChunk(b, h, content[pos..pos + n], files);
    if ok {
      ChunkStored(i1, t1, left, b.inodes, b.bk.tracks, b.unused, h, content, pos, n, i0, t0, space);
    } else {
      ChunkRefused(i1, t1, left, b.unused, h, content, pos, i0, t0, space);
    }
  }

  /** The loop of open_file. */
  method CopyAll(b: Builder, h: nat, content: seq<byte>, ghost files: Host,
                 ghost i0: seq<Inode>, ghost t0: seq<Track>, ghost space: nat)
    returns (ok: bool)
    requires Walking(b, files, h) && Copied(b.inodes, b.bk.tracks, b.unused, h, content, 0, i0, t0, space)
    modifies b
    ensures ok ==> Walking(b, files, h) && Copied(b.inodes, b.bk.tracks, b.unused, h, content, |content|, i0, t0, space)
    ensures !ok ==> TooMuch(content, space)
  {
    var pos := 0;
    while pos < |content|
      invariant pos <= |content| && Walking(b, files, h)
      invariant Copied(b.inodes, b.bk.tracks, b.unused, h, content, pos, i0, t0, space)
    {
      ok, pos := CopyChunk(b, h, content, pos, files, i0, t0, space);
      if !ok { return; }
    }
    return true;
  }

  /** open_file: the file is read block by block; only the last block may be short. */
  method OpenFile(b: Builder, h: nat, content: seq<byte>, ghost files: Host) returns (ok: bool)
    requires Walking(b, files, h) && h < |b.inodes| && b.inodes[h].kind == FileKind
    requires b.bk.tracks[h].data == [] && b.inodes[h].size == 0 && files[b.inodes[h].host] == content
    modifies b
    ensures ok <==> |Chunks(content)| <= LN_NBLKS && FileSize(|Chunks(content)|) <= old(b.unused)
    ensures ok ==> b.unused == old(b.unused) - FileSize(|Chunks(content)|)
    ensures ok ==> Seen(b.inodes) == Seen(old(b.inodes))
    ensures ok ==> Walking(b, files, -1) && FileHolds(b.inodes, b.bk.tracks, h, content)
    ensures ok ==> Filling(old(b.inodes), old(b.bk.tracks), b.inodes, b.bk.tracks, h)
  {
    ghost var i0, space := b.inodes, b.unused;
    assert content[0..] == content;
    ok := CopyAll(b, h, content, files, b.inodes, b.bk.tracks, b.unused);
    if ok {
      CopyDone(content, b.bk.tracks[h].data);
      SeenSame(i0, b.inodes);
      FileDone(b.inodes, b.bk.tracks, files, h);
    }
  }

  lemma {:induction false} CopyDone(content: seq<byte>, data: seq<seq<byte>>)
    requires data + Chunks(content[|content|..]) == Chunks(content)
    ensures data == Chunks(content)
  {
    assert content[|content|..] == [];
  }

  lemma Regroup(a: seq<seq<byte>>, x: seq<byte>, c: seq<seq<byte>>)
    ensures a + ([x] + c) == (a + [x]) + c
  {
  }

  /** The first half of add_file: the inode of a regular file, made and filled unless it was met before. */
  method FindFile(b: Builder, host: nat, content: seq<byte>, ghost files: Host) returns (ok: bool, h: nat)
    requires Walking(b, files, -1) && host in files && files[host] == content
    modifies b
    ensures Meets(ok, PlanFile(host, content, Seen(old(b.inodes))), old(b.unused), b.unused, Seen(b.inodes))
    ensures ok ==> Walking(b, files, -1) && FileHolds(b.inodes, b.bk.tracks, h, content) && b.inodes[h].host == host
    ensures ok ==> Untouched(old(b.inodes), old(b.bk.tracks), b.inodes, b.bk.tracks)
    ensures ok && (exists g :: 0 <= g < |old(b.inodes)| && old(b.inodes)[g].host == host) ==>
              b.inodes == old(b.inodes) && b.image == old(b.image)
  {
    var r := b.SearchCacheInode(host);
    if r.Some? {
      return true, r.value;
    }
    ghost var i0, t0 := b.inodes, b.bk.tracks;
    ok, h := MakeInode(b, host, FileKind, files);
    if !ok { return; }
    ghost var i1, t1 := b.inodes, b.bk.tracks;
    AddedUntouched(i0, t0, i1, t1, host, FileKind);
    ok := OpenFile(b, h, content, files);
    if !ok { return; }
    FilledUntouched(i0, t0, i1, t1, b.inodes, b.bk.tracks, h);
  }

  /** Link counts are 16 bits wide. */
  lemma {:induction false} LinksNarrow(inodes: seq<Inode>, tracks: seq<Track>, files: Host)
    requires Walk(inodes, tracks, files, -1)
    ensures forall h :: 0 <= h < |inodes| ==> inodes[h].nlinks < 65536
  {
  }

  /** add_file */
  method AddFile(b: Builder, cur: nat, name: seq<byte>, host: nat, content: seq<byte>, ghost files: Host)
    returns (ok: bool, ghost kid: Layout)
    requires Walking(b, files, -1) && cur < |b.inodes| && b.inodes[cur].kind == DirKind && |name| <= 255 && IsName(name)
    requires host in files && files[host] == content
    modifies b
    ensures Meets(ok, Into(PlanFile(host, content, Seen(old(b.inodes))), Length(old(b.bk.tracks), cur)),
                  old(b.unused), b.unused, Seen(b.inodes))
    ensures ok ==> Walking(b, files, -1) && KidAdded(old(b.inodes), old(b.bk.tracks), b.inodes, b.bk.tracks, cur, name, kid)
    ensures ok ==> kid.FileAt? && FileHolds(b.inodes, b.bk.tracks, kid.h, content) && b.inodes[kid.h].host == host
  {
    ghost var i0, t0 := b.inodes, b.bk.tracks;
    LinksNarrow(i0, t0, files);
    var h;
    ok, h := FindFile(b, host, content, files);
    kid := FileAt(h);
    if !ok { return; }
    ghost var i1, t1 := b.inodes, b.bk.tracks;
    ok := Enter(b, cur, h, name, files);
    if !ok { return; }
    LeafKid(i0, t0, i1, t1, b.inodes, b.bk.tracks, cur, name, kid);
  }

  /** open_link, on a new inode: a target of 4096 bytes or more is an error. */
  method MakeLink(b: Builder, host: nat, target: seq<byte>, ghost files: Host) returns (ok: bool, h: nat)
    requires Walking(b, files, -1) && host !in files
    modifies b
    ensures Meets(ok, PlanLink(host, target, Seen(old(b.inodes))), old(b.unused), b.unused, Seen(b.inodes))
    ensures ok ==> Walking(b, files, -1) && LinkHolds(b.inodes, b.bk.tracks, h, target) && b.inodes[h].host == host
    ensures ok ==> Untouched(old(b.inodes), old(b.bk.tracks), b.inodes, b.bk.tracks)
  {
    ghost var i0, t0 := b.inodes, b.bk.tracks;
    ok, h := MakeInode(b, host, LinkKind, files);
    if !ok { return; }
    if |target| >= BLKSIZE { return false, h; }
    ghost var i1, t1 := b.inodes, b.bk.tracks;
    ok := StoreChunk(b, h, target, files);
    if !ok { return; }
    LinkMade(i0, t0, i1, t1, b.inodes, b.bk.tracks, h, host, target, files);
  }

  lemma {:induction false} LinkMade(i0: seq<Inode>, t0: seq<Track>, i1: seq<Inode>, t1: seq<Track>,
                                    i2: seq<Inode>, t2: seq<Track>, h: nat, host: nat, target: seq<byte>, files: Host)
    requires InodeAdded(i0, t0, i1, t1, host, LinkKind) && h == |i0| && Filling(i1, t1, i2, t2, h)
    requires Walk(i2, t2, files, h) && t2[h].data == t1[h].data + [target] && i2[h].size == i1[h].size + |target|
    ensures Untouched(i0, t0, i2, t2) && LinkHolds(i2, t2, h, target) && Walk(i2, t2, files, -1) && i2[h].host == host
    ensures Seen(i2) == Seen(i1)
  {
    AddedUntouched(i0, t0, i1, t1, host, LinkKind);
    FilledUntouched(i0, t0, i1, t1, i2, t2, h);
    SeenSame(i1, i2);
    NotBusy(i2, t2, files, h);
  }

  lemma {:induction false} NotBusy(inodes: seq<Inode>, tracks: seq<Track>, files: Host, h: nat)
    requires Walk(inodes, tracks, files, h) && h < |inodes| && inodes[h].kind != FileKind
    ensures Walk(inodes, tracks, files, -1)
  {
  }

  /** add_link */
  method AddLink(b: Builder, cur: nat, name: seq<byte>, host: nat, target: seq<byte>, ghost files: Host)
    returns (ok: bool, ghost kid: Layout)
    requires Walking(b, files, -1) && cur < |b.inodes| && b.inodes[cur].kind == DirKind && |name| <= 255 && IsName(name)
    requires host !in files
    modifies b
    ensures Meets(ok, Into(PlanLink(host, target, Seen(old(b.inodes))), Length(old(b.bk.tracks), cur)),
                  old(b.unused), b.unused, Seen(b.inodes))
    ensures ok ==> Walking(b, files, -1) && KidAdded(old(b.inodes), old(b.bk.tracks), b.inodes, b.bk.tracks, cur, name, kid)
    ensures ok ==> kid.LinkAt? && LinkHolds(b.inodes, b.bk.tracks, kid.h, target) && b.inodes[kid.h].host == host
  {
    ghost var i0, t0 := b.inodes, b.bk.tracks;
    LinksNarrow(i0, t0, files);
    var h;
    ok, h := MakeLink(b, host, target, files);
    kid := LinkAt(h);
    if !ok { return; }
    ghost var i1, t1 := b.inodes, b.bk.tracks;
    ok := Enter(b, cur, h, name, files);
    if !ok { return; }
    LeafKid(i0, t0, i1, t1, b.inodes, b.bk.tracks, cur, name, kid);
  }

  /** The first lines of add_dir: a directory met twice stops the program. */
  method NewDir(b: Builder, host: nat, ghost files: Host) returns (ok: bool, child: nat)
    requires Walking(b, files, -1) && host !in files
    modifies b
    ensures ok <==> host !in Seen(old(b.inodes)) && old(b.unused) > 0
    ensures ok ==> b.unused == old(b.unused) - 1 && Seen(b.inodes) == Seen(old(b.inodes)) + {host}
    ensures ok ==> Walking(b, files, -1) && child == |old(b.inodes)|
    ensures ok ==> InodeAdded(old(b.inodes), old(b.bk.tracks), b.inodes, b.bk.tracks, host, DirKind)
  {
    var r := b.SearchCacheInode(host);
    if r.Some? { return false, 0; }
    ok, child := MakeInode(b, host, DirKind, files);
  }

  /** The first half of add_dir. */
  method MakeDir(b: Builder, cur: nat, host: nat, entries: seq<Entry>, ghost files: Host)
    returns (ok: bool, child: nat, ghost kids: seq<Layout>)
    requires Walking(b, files, -1) && cur < |b.inodes| && b.inodes[cur].kind == DirKind
    requires host !in files && AllAgree(entries, files)
    modifies b
    ensures Meets(ok, PlanDir(host, entries, Seen(old(b.inodes))), old(b.unused), b.unused, Seen(b.inodes))
    ensures ok ==> Walking(b, files, -1)
    ensures ok ==> ChildMade(old(b.inodes), old(b.bk.tracks), b.inodes, b.bk.tracks, cur, child, host, entries, kids)
    decreases entries, 2
  {
    child, kids := 0, [];
    ghost var i0, t0 := b.inodes, b.bk.tracks;
    ok, child := NewDir(b, host, files);
    if !ok { return; }
    ghost var i1, t1 := b.inodes, b.bk.tracks;
    AddedUntouched(i0, t0, i1, t1, host, DirKind);
    ok, kids := OpenDir(b, child, cur, entries, files);
    if !ok { return; }
    ProgressChild(i0, t0, i1, t1, b.inodes, b.bk.tracks, cur, child, host, entries, kids);
  }

  /** add_dir */
  method AddDir(b: Builder, cur: nat, name: seq<byte>, host: nat, entries: seq<Entry>, ghost files: Host)
    returns (ok: bool, ghost kid: Layout)
    requires Walking(b, files, -1) && cur < |b.inodes| && b.inodes[cur].kind == DirKind && |name| <= 255 && IsName(name)
    requires host !in files && AllAgree(entries, files)
    modifies b
    ensures Meets(ok, Into(PlanDir(host, entries, Seen(old(b.inodes))), Length(old(b.bk.tracks), cur)),
                  old(b.unused), b.unused, Seen(b.inodes))
    ensures ok ==> Walking(b, files, -1) && KidAdded(old(b.inodes), old(b.bk.tracks), b.inodes, b.bk.tracks, cur, name, kid)
    ensures ok ==> Represents(b.inodes, b.bk.tracks, Directory(host, entries), kid, cur)
    decreases entries, 3
  {
    kid := Absent;
    ghost var i0, t0 := b.inodes, b.bk.tracks;
    var child;
    ghost var kids;
    ok, child, kids := MakeDir(b, cur, host, entries, files);
    if !ok { return; }
    ghost var i1, t1 := b.inodes, b.bk.tracks;
    ok := Enter(b, cur, child, name, files);
    if !ok { return; }
    kid := DirAt(child, kids);
    DirKid(i0, t0, i1, t1, b.inodes, b.bk.tracks, cur, name, child, kids, host, entries);
  }

  /** One turn of the loop of open_dir, for an entry that is listed. */
  method AddListed(b: Builder, cur: nat, e: Entry, ghost files: Host) returns (ok: bool, ghost kid: Layout)
    requires Walking(b, files, -1) && cur < |b.inodes| && b.inodes[cur].kind == DirKind
    requires Listed(e) && IsName(e.name) && Agrees(e.node, files)
    modifies b
    ensures Meets(ok, PlanEntry(e, Length(old(b.bk.tracks), cur), Seen(old(b.inodes))), old(b.unused), b.unused, Seen(b.inodes))
    ensures ok ==> Walking(b, files, -1) && KidAdded(old(b.inodes), old(b.bk.tracks), b.inodes, b.bk.tracks, cur, e.name, kid)
    ensures ok ==> Represents(b.inodes, b.bk.tracks, e.node, kid, cur)
    decreases e, 4
  {
    if |e.name| > 255 { return false, Absent; }
    match e.node
    case Symlink(host, target) => ok, kid := AddLink(b, cur, e.name, host, target, files);
    case Directory(host, entries) => ok, kid := AddDir(b, cur, e.name, host, entries, files);
    case Regular(host, content) => ok, kid := AddFile(b, cur, e.name, host, content, files);
  }

  /** open_dir: the new directory `cur` lists itself, its parent and, in order, what is in it. */
  method OpenDir(b: Builder, cur: nat, parent: nat, entries: seq<Entry>, ghost files: Host)
    returns (ok: bool, ghost kids: seq<Layout>)
    requires Walking(b, files, -1) && parent <= cur < |b.inodes| && b.inodes[cur].kind == b.inodes[parent].kind == DirKind
    requires b.bk.tracks[cur].data == [] && AllAgree(entries, files)
    modifies b
    ensures Meets(ok, Plus(PlanRest(entries, 2, Seen(old(b.inodes))), 2), old(b.unused), b.unused, Seen(b.inodes))
    ensures ok ==> Walking(b, files, -1)
    ensures ok ==> Progress(old(b.inodes), old(b.bk.tracks), b.inodes, b.bk.tracks, cur, parent, entries, kids)
    decreases entries, 1
  {
    kids := [];
    ghost var i0, t0 := b.inodes, b.bk.tracks;
    ok := OpenOwn(b, cur, parent, files);
    if !ok { return; }
    ghost var p := PlanRest(entries, 2, Seen(b.inodes));
    assert entries[..0] == [] && entries[0..] == entries;
    ok, kids := OpenRest(b, cur, parent, entries, files, i0, t0, p, b.unused);
    assert entries[..|entries|] == entries && entries[|entries|..] == [];
  }

  /** Of `space` blocks, enough for `p` or not, `left` are left for the rest of it. */
  ghost predicate OnPlan(p: Plan, space: nat, left: nat, rest: Plan) {
    left <= space && p == Plus(rest, space - left)
  }

  lemma {:induction false} PlanTurn(p: Plan, space: nat, left: nat, entries: seq<Entry>, i: nat, n: nat, seen: set<nat>)
    requires i < |entries| && OnPlan(p, space, left, PlanRest(entries[i..], n, seen))
    ensures var q := PlanEntry(entries[i], n, seen);
            if q.Go? && q.cost <= left
            then OnPlan(p, space, left - q.cost, PlanRest(entries[i + 1..], Longer(entries[i], n), q.seen))
            else p.Stop? || p.cost > space
  {
    assert entries[i..][0] == entries[i] && entries[i..][1..] == entries[i + 1..];
  }

  /** open_dir has dealt with the first `i` entries, starting from `i0` and `t0`; `p` is its plan for `space` blocks. */
  ghost predicate Opening(b: Builder, cur: nat, parent: nat, entries: seq<Entry>, i: nat, kids: seq<Layout>, files: Host,
                          i0: seq<Inode>, t0: seq<Track>, p: Plan, space: nat)
    reads b
  {
    && i <= |entries| && Walking(b, files, -1)
    && Progress(i0, t0, b.inodes, b.bk.tracks, cur, parent, entries[..i], kids)
    && OnPlan(p, space, b.unused, PlanRest(entries[i..], Length(b.bk.tracks, cur), Seen(b.inodes)))
  }

  /** The loop of open_dir. */
  method OpenRest(b: Builder, cur: nat, parent: nat, entries: seq<Entry>, ghost files: Host,
                  ghost i0: seq<Inode>, ghost t0: seq<Track>, ghost p: Plan, ghost space: nat)
    returns (ok: bool, ghost kids: seq<Layout>)
    requires Opening(b, cur, parent, entries, 0, [], files, i0, t0, p, space) && AllAgree(entries, files)
    modifies b
    ensures ok ==> Opening(b, cur, parent, entries, |entries|, kids, files, i0, t0, p, space)
    ensures !ok ==> p.Stop? || p.cost > space
    decreases entries, 0
  {
    kids := [];
    var i := 0;
    while i < |entries|
      invariant 0 <= i <= |entries| && Opening(b, cur, parent, entries, i, kids, files, i0, t0, p, space)
    {
      ghost var kid;
      ok, kid := Proceed(b, cur, parent, entries, i, files, i0, t0, kids, p, space);
      if !ok { return; }
      kids := kids + [kid];
      i := i + 1;
    }
    ok := true;
  }

  /** One turn of the loop, and what is left to do. */
  method Proceed(b: Builder, cur: nat, parent: nat, entries: seq<Entry>, i: nat, ghost files: Host,
                 ghost i0: seq<Inode>, ghost t0: seq<Track>, ghost kids: seq<Layout>, ghost p: Plan, ghost space: nat)
    returns (ok: bool, ghost kid: Layout)
    requires i < |entries| && Opening(b, cur, parent, entries, i, kids, files, i0, t0, p, space)
    requires IsName(entries[i].name) && Agrees(entries[i].node, files)
    modifies b
    ensures ok ==> Opening(b, cur, parent, entries, i + 1, kids + [kid], files, i0, t0, p, space)
    ensures !ok ==> p.Stop? || p.cost > space
    decreases entries[i], 6
  {
    PrefixStep(entries, i);
    PlanTurn(p, space, b.unused, entries, i, Length(b.bk.tracks, cur), Seen(b.inodes));
    ok, kid := Turn(b, cur, parent, entries[i], files, i0, t0, entries[..i], kids);
  }

  lemma PrefixStep(entries: seq<Entry>, i: nat)
    requires i < |entries|
    ensures entries[..i + 1] == entries[..i] + [entries[i]]
  {
  }

  /** One turn of the loop of open_dir. */
  method Turn(b: Builder, cur: nat, parent: nat, e: Entry, ghost files: Host,
              ghost i0: seq<Inode>, ghost t0: seq<Track>, ghost es: seq<Entry>, ghost kids: seq<Layout>)
    returns (ok: bool, ghost kid: Layout)
    requires Walking(b, files, -1) && IsName(e.name) && Agrees(e.node, files)
    requires Progress(i0, t0, b.inodes, b.bk.tracks, cur, parent, es, kids)
    modifies b
    ensures Meets(ok, PlanEntry(e, Length(old(b.bk.tracks), cur), Seen(old(b.inodes))), old(b.unused), b.unused, Seen(b.inodes))
    ensures ok ==> Length(b.bk.tracks, cur) == Longer(e, Length(old(b.bk.tracks), cur))
    ensures ok ==> Walking(b, files, -1)
    ensures ok ==> Progress(i0, t0, b.inodes, b.bk.tracks, cur, parent, es + [e], kids + [kid])
    decreases e, 5
  {
    ghost var i1, t1 := b.inodes, b.bk.tracks;
    if Listed(e) {
      ok, kid := AddListed(b, cur, e, files);
      if !ok { return; }
      ProgressKid(i0, t0, i1, t1, b.inodes, b.bk.tracks, cur, parent, es, kids, e, kid);
    } else {
      ok, kid := Dotted(e.name) || |e.name| <= 255, Absent;
      if !ok { return; }
      ProgressSkip(i0, t0, i1, t1, cur, parent, es, kids, e);
    }
  }

  /** The first two entries of a directory. */
  method OpenOwn(b: Builder, cur: nat, parent: nat, ghost files: Host) returns (ok: bool)
    requires Walking(b, files, -1) && parent <= cur < |b.inodes| && b.inodes[cur].kind == b.inodes[parent].kind == DirKind
    requires b.bk.tracks[cur].data == []
    modifies b
    ensures (ok <==> 2 <= old(b.unused)) && (ok ==> b.unused == old(b.unused) - 2)
    ensures ok ==> Seen(b.inodes) == Seen(old(b.inodes)) && Length(b.bk.tracks, cur) == 2
    ensures ok ==> Walking(b, files, -1)
    ensures ok ==> Progress(old(b.inodes), old(b.bk.tracks), b.inodes, b.bk.tracks, cur, parent, [], [])
  {
    ghost var i0, t0 := b.inodes, b.bk.tracks;
    ok := Enter(b, cur, cur, DOT, files);
    if !ok { return; }
    ghost var i1, t1 := b.inodes, b.bk.tracks;
    ok := Enter(b, cur, parent, DOTDOT, files);
    if !ok { return; }
    ProgressStart(i0, t0, i1, t1, b.inodes, b.bk.tracks, cur, parent);
  }
}
