/**
  Directory trees: the source tree that lab8/tools/mksfs.c walks, what it means for inodes and their histories
  to hold a tree, and the counting of links.
 */
module SfsTree {
  import opened SfsBytes
  import opened SfsModel

  /** An object of the host file system.  Two names with the same host number are hard links to one file. */
  datatype Node =
    | Directory(host: nat, entries: seq<Entry>)
    | Regular(host: nat, content: seq<byte>)
    | Symlink(host: nat, target: seq<byte>)
    | Special

  datatype Entry = Entry(name: seq<byte>, node: Node)

  const DOT: seq<byte> := [46]
  const DOTDOT: seq<byte> := [46, 46]

  predicate Dotted(name: seq<byte>) { |name| > 0 && name[0] == 46 }

  /** open_dir passes over names that begin with a dot, and over devices, pipes and sockets. */
  predicate Listed(e: Entry) {
    !Dotted(e.name) && !e.node.Special?
  }

  /** A file as the blocks that open_file stores. */
  function Chunks(content: seq<byte>): seq<seq<byte>> {
    if content == [] then []
    else if |content| <= BLKSIZE then [content]
    else [content[..BLKSIZE]] + Chunks(content[BLKSIZE..])
  }

  /** The part of a name that reaches the disk. */
  function Cut(name: seq<byte>): seq<byte> {
    if |name| <= NAME_BYTES then name else name[..NAME_BYTES]
  }

  // ------------------------------------------------------- directory blocks

  ghost predicate IsEntry(block: seq<byte>) {
    |block| == 256
  }

  ghost function EntryIno(block: seq<byte>): nat
    requires IsEntry(block)
  {
    WordAt(Pad(block), 0)
  }

  /** A directory block that a reader takes for `name` with inode `ino`. */
  ghost predicate EntryReads(block: seq<byte>, ino: nat, name: seq<byte>) {
    IsEntry(block) && EntryIno(block) == ino && EntryName(Pad(block)) == Cut(name)
  }

  /** Where the objects of a directory ended up; what is not listed is absent. */
  datatype Layout = DirAt(h: nat, kids: seq<Layout>) | FileAt(h: nat) | LinkAt(h: nat) | Absent

  /** The names a directory holds besides its own, with the inodes they stand for. */
  ghost function Shown(entries: seq<Entry>, kids: seq<Layout>): seq<(seq<byte>, nat)>
    requires |entries| == |kids|
  {
    if entries == [] then []
    else
      var n := |entries| - 1;
      Shown(entries[..n], kids[..n]) + (if kids[n].Absent? then [] else [(entries[n].name, kids[n].h)])
  }

  function Subdirs(kids: seq<Layout>): nat {
    if kids == [] then 0
    else Subdirs(kids[..|kids| - 1]) + (if kids[|kids| - 1].DirAt? then 1 else 0)
  }

  ghost predicate Lists(inodes: seq<Inode>, data: seq<seq<byte>>, names: seq<(seq<byte>, nat)>) {
    && |data| == |names|
    && forall k :: 0 <= k < |names| ==>
         names[k].1 < |inodes| && EntryReads(data[k], inodes[names[k].1].ino, names[k].0)
  }

  /** Directory `h` lists itself, its parent, and the kids. */
  ghost predicate DirHolds(inodes: seq<Inode>, tracks: seq<Track>, h: nat, parent: nat,
                           entries: seq<Entry>, kids: seq<Layout>) {
    && h < |inodes| == |tracks| && inodes[h].kind == DirKind && |entries| == |kids|
    && Lists(inodes, tracks[h].data, [(DOT, h), (DOTDOT, parent)] + Shown(entries, kids))
  }

  ghost predicate FileHolds(inodes: seq<Inode>, tracks: seq<Track>, h: nat, content: seq<byte>) {
    && h < |inodes| == |tracks| && inodes[h].kind == FileKind
    && tracks[h].data == Chunks(content) && inodes[h].size == |content|
  }

  ghost predicate LinkHolds(inodes: seq<Inode>, tracks: seq<Track>, h: nat, target: seq<byte>) {
    && h < |inodes| == |tracks| && inodes[h].kind == LinkKind
    && tracks[h].data == [target] && inodes[h].size == |target|
  }

  /**
    `node`, found in directory `parent`, is stored as `l`, under the number it has on the host.  Directories come
    after the one they are in.
    A directory has two links and one more for each of its subdirectories, in 16 bits.
   */
  ghost predicate Represents(inodes: seq<Inode>, tracks: seq<Track>, node: Node, l: Layout, parent: nat)
    decreases node
  {
    match node
    case Special => l.Absent?
    case Regular(host, content) => l.FileAt? && FileHolds(inodes, tracks, l.h, content) && inodes[l.h].host == host
    case Symlink(host, target) => l.LinkAt? && LinkHolds(inodes, tracks, l.h, target) && inodes[l.h].host == host
    case Directory(host, entries) =>
      && l.DirAt? && l.h > parent
      && DirHolds(inodes, tracks, l.h, parent, entries, l.kids) && inodes[l.h].host == host
      && inodes[l.h].nlinks == (2 + Subdirs(l.kids)) % 65536
      && forall i :: 0 <= i < |entries| ==>
           if Listed(entries[i]) then Represents(inodes, tracks, entries[i].node, l.kids[i], l.h) else l.kids[i].Absent?
  }

  /** The entries of a directory that have been dealt with are stored as `kids`. */
  ghost predicate RepresentsAll(inodes: seq<Inode>, tracks: seq<Track>, entries: seq<Entry>, kids: seq<Layout>, cur: nat) {
    && |entries| == |kids|
    && forall i :: 0 <= i < |entries| ==>
         if Listed(entries[i]) then Represents(inodes, tracks, entries[i].node, kids[i], cur) else kids[i].Absent?
  }

  // ------------------------------------------------------- what work in one directory leaves alone

  /** Between the two states only directory `cur`, the link counts of `cur`, `parent` and of files, and new inodes differ. */
  ghost predicate Keeps(inodes: seq<Inode>, tracks: seq<Track>, inodes': seq<Inode>, tracks': seq<Track>,
                        cur: nat, parent: nat) {
    && |inodes| == |tracks| && |inodes'| == |tracks'| && |inodes| <= |inodes'|
    && (forall h :: 0 <= h < |inodes| ==>
          inodes'[h].ino == inodes[h].ino && inodes'[h].host == inodes[h].host && inodes'[h].kind == inodes[h].kind)
    && (forall h :: 0 <= h < |inodes| && h != cur ==>
          tracks'[h].data == tracks[h].data && inodes'[h].size == inodes[h].size)
    && (forall h :: 0 <= h < |inodes| && h != cur && h != parent && inodes[h].kind == DirKind ==>
          inodes'[h].nlinks == inodes[h].nlinks)
  }

  lemma {:induction false} KeepsTrans(i0: seq<Inode>, t0: seq<Track>, i1: seq<Inode>, t1: seq<Track>,
                                      i2: seq<Inode>, t2: seq<Track>, cur: nat, parent: nat)
    requires Keeps(i0, t0, i1, t1, cur, parent) && Keeps(i1, t1, i2, t2, cur, parent)
    ensures Keeps(i0, t0, i2, t2, cur, parent)
  {
  }

  lemma {:induction false} ListsKept(inodes: seq<Inode>, inodes': seq<Inode>, data: seq<seq<byte>>, names: seq<(seq<byte>, nat)>)
    requires Lists(inodes, data, names) && |inodes| <= |inodes'|
    requires forall h :: 0 <= h < |inodes| ==> inodes'[h].ino == inodes[h].ino
    ensures Lists(inodes', data, names)
  {
  }

  /** What is stored below `cur` is not disturbed by further work in `cur`. */
  lemma {:induction false} RepresentsKept(inodes: seq<Inode>, tracks: seq<Track>, inodes': seq<Inode>, tracks': seq<Track>,
                                          cur: nat, parent: nat, node: Node, l: Layout, at: nat)
    requires Keeps(inodes, tracks, inodes', tracks', cur, parent) && Represents(inodes, tracks, node, l, at)
    requires cur < |inodes| && inodes[cur].kind == DirKind && cur <= at && parent <= at
    ensures Represents(inodes', tracks', node, l, at)
    decreases node
  {
    match node
    case Directory(_, entries) =>
      ListsKept(inodes, inodes', tracks[l.h].data, [(DOT, l.h), (DOTDOT, at)] + Shown(entries, l.kids));
      forall i | 0 <= i < |entries| && Listed(entries[i])
        ensures Represents(inodes', tracks', entries[i].node, l.kids[i], l.h)
      {
        RepresentsKept(inodes, tracks, inodes', tracks', cur, parent, entries[i].node, l.kids[i], l.h);
      }
    case _ =>
  }

  lemma {:induction false} RepresentsAllKept(inodes: seq<Inode>, tracks: seq<Track>, inodes': seq<Inode>, tracks': seq<Track>,
                                             cur: nat, parent: nat, entries: seq<Entry>, kids: seq<Layout>)
    requires Keeps(inodes, tracks, inodes', tracks', cur, parent) && RepresentsAll(inodes, tracks, entries, kids, cur)
    requires cur < |inodes| && inodes[cur].kind == DirKind && parent <= cur
    ensures RepresentsAll(inodes', tracks', entries, kids, cur)
  {
    forall i | 0 <= i < |entries| && Listed(entries[i])
      ensures Represents(inodes', tracks', entries[i].node, kids[i], cur)
    {
      RepresentsKept(inodes, tracks, inodes', tracks', cur, parent, entries[i].node, kids[i], cur);
    }
  }

  // ------------------------------------------------------- counting links

  /** How many blocks of one directory name inode number `x`. */
  ghost function CountIn(data: seq<seq<byte>>, x: nat): nat {
    if data == [] then 0
    else
      var n := |data| - 1;
      CountIn(data[..n], x) + (if IsEntry(data[n]) && EntryIno(data[n]) == x then 1 else 0)
  }

  /** How many entries of the first `n` inodes' directories do. */
  ghost function Count(inodes: seq<Inode>, tracks: seq<Track>, x: nat, n: nat): nat
    requires n <= |inodes| == |tracks|
  {
    if n == 0 then 0
    else Count(inodes, tracks, x, n - 1) + (if inodes[n - 1].kind == DirKind then CountIn(tracks[n - 1].data, x) else 0)
  }

  lemma {:induction false} CountSame(inodes: seq<Inode>, tracks: seq<Track>, inodes': seq<Inode>, tracks': seq<Track>, x: nat, n: nat)
    requires |inodes| == |tracks| && |inodes'| == |tracks'| && n <= |inodes| && n <= |inodes'|
    requires forall h :: 0 <= h < n ==> inodes'[h].kind == inodes[h].kind
    requires forall h :: 0 <= h < n && inodes[h].kind == DirKind ==> tracks'[h].data == tracks[h].data
    ensures Count(inodes', tracks', x, n) == Count(inodes, tracks, x, n)
  {
    if n > 0 { CountSame(inodes, tracks, inodes', tracks', x, n - 1); }
  }

  /** One more entry in directory `cur`. */
  lemma {:induction false} CountAppend(inodes: seq<Inode>, tracks: seq<Track>, inodes': seq<Inode>, tracks': seq<Track>,
                                       cur: nat, block: seq<byte>, x: nat, n: nat)
    requires |inodes| == |tracks| == |inodes'| == |tracks'| && n <= |inodes| && cur < |inodes|
    requires inodes[cur].kind == DirKind && IsEntry(block) && tracks'[cur].data == tracks[cur].data + [block]
    requires forall h :: 0 <= h < |inodes| ==> inodes'[h].kind == inodes[h].kind
    requires forall h :: 0 <= h < |inodes| && h != cur ==> tracks'[h].data == tracks[h].data
    ensures Count(inodes', tracks', x, n) ==
            Count(inodes, tracks, x, n) + (if cur < n && EntryIno(block) == x then 1 else 0)
  {
    if n > 0 {
      CountAppend(inodes, tracks, inodes', tracks', cur, block, x, n - 1);
      if n - 1 == cur {
        var d := tracks'[cur].data;
        assert d[..|d| - 1] == tracks[cur].data;
      }
    }
  }

  /** A number that no directory names is counted nowhere. */
  lemma {:induction false} CountNone(inodes: seq<Inode>, tracks: seq<Track>, x: nat, n: nat)
    requires n <= |inodes| == |tracks|
    requires forall h, k :: 0 <= h < n && inodes[h].kind == DirKind && 0 <= k < |tracks[h].data| ==>
               IsEntry(tracks[h].data[k]) && EntryIno(tracks[h].data[k]) != x
    ensures Count(inodes, tracks, x, n) == 0
  {
    if n > 0 {
      CountNone(inodes, tracks, x, n - 1);
      if inodes[n - 1].kind == DirKind { CountInNone(tracks[n - 1].data, x); }
    }
  }

  lemma {:induction false} CountInNone(data: seq<seq<byte>>, x: nat)
    requires forall k :: 0 <= k < |data| ==> IsEntry(data[k]) && EntryIno(data[k]) != x
    ensures CountIn(data, x) == 0
  {
    if data != [] { CountInNone(data[..|data| - 1], x); }
  }

  // ------------------------------------------------------- the invariant of the walk

  ghost predicate IsNumber(inodes: seq<Inode>, x: nat) {
    exists g :: 0 <= g < |inodes| && inodes[g].ino == x
  }

  /** Every directory block names an inode. */
  ghost predicate Named(inodes: seq<Inode>, tracks: seq<Track>) {
    && |inodes| == |tracks|
    && forall h, k :: 0 <= h < |inodes| && inodes[h].kind == DirKind && 0 <= k < |tracks[h].data| ==>
         IsEntry(tracks[h].data[k]) && IsNumber(inodes, EntryIno(tracks[h].data[k]))
  }

  /** The link count of an inode is the number of directory entries that name it, in 16 bits. */
  ghost predicate LinksCounted(inodes: seq<Inode>, tracks: seq<Track>) {
    && |inodes| == |tracks|
    && forall h :: 0 <= h < |inodes| ==>
         inodes[h].nlinks == Count(inodes, tracks, inodes[h].ino, |inodes|) % 65536
  }

  /** The regular files of the host, by number. */
  type Host = map<nat, seq<byte>>

  /** One inode for each regular file met so far, complete unless it is the one being copied. */
  ghost predicate FilesOk(inodes: seq<Inode>, tracks: seq<Track>, files: Host, busy: int) {
    && |inodes| == |tracks|
    && (forall h :: 0 <= h < |inodes| ==> (inodes[h].kind == FileKind <==> inodes[h].host in files))
    && (forall h :: 0 <= h < |inodes| && h != busy && inodes[h].kind == FileKind ==>
          FileHolds(inodes, tracks, h, files[inodes[h].host]))
    && (forall g, h :: 0 <= g < h < |inodes| && inodes[g].kind == FileKind && inodes[h].kind == FileKind ==>
          inodes[g].host != inodes[h].host)
  }

  /** The source tree agrees with `files`: what carries the number of a regular file is that file. */
  ghost predicate Agrees(node: Node, files: Host)
    decreases node
  {
    match node
    case Special => true
    case Regular(host, content) => host in files && files[host] == content
    case Symlink(host, _) => host !in files
    case Directory(host, entries) => host !in files && AllAgree(entries, files)
  }

  ghost predicate AllAgree(entries: seq<Entry>, files: Host)
    decreases entries
  {
    forall i :: 0 <= i < |entries| ==> IsName(entries[i].name) && Agrees(entries[i].node, files)
  }

  /** A directory counts 256 bytes for every entry. */
  ghost predicate Sized(inodes: seq<Inode>, tracks: seq<Track>) {
    && |inodes| == |tracks|
    && forall h :: 0 <= h < |inodes| && inodes[h].kind == DirKind ==> inodes[h].size == 256 * |tracks[h].data|
  }

  ghost predicate Walk(inodes: seq<Inode>, tracks: seq<Track>, files: Host, busy: int) {
    && Named(inodes, tracks) && Sized(inodes, tracks)
    && LinksCounted(inodes, tracks) && FilesOk(inodes, tracks, files, busy)
  }

  // ------------------------------------------------------- steps of the walk

  /** All but sizes, data and link counts. */
  ghost predicate SameInodes(inodes: seq<Inode>, inodes': seq<Inode>) {
    && |inodes| <= |inodes'|
    && forall h :: 0 <= h < |inodes| ==>
         inodes'[h].ino == inodes[h].ino && inodes'[h].host == inodes[h].host && inodes'[h].kind == inodes[h].kind
  }

  /** Only inode `cur` got more data. */
  ghost predicate SameData(inodes: seq<Inode>, tracks: seq<Track>, inodes': seq<Inode>, tracks': seq<Track>, cur: int) {
    && |inodes| == |tracks| && |inodes'| == |tracks'| && |inodes| <= |inodes'|
    && forall h :: 0 <= h < |inodes| && h != cur ==> tracks'[h].data == tracks[h].data && inodes'[h].size == inodes[h].size
  }

  /** add_entry: directory `cur` got one more block, which names `file`, and `file` one more link. */
  ghost predicate EntryAdded(inodes: seq<Inode>, tracks: seq<Track>, inodes': seq<Inode>, tracks': seq<Track>,
                             cur: nat, file: nat, name: seq<byte>) {
    && SameInodes(inodes, inodes') && SameData(inodes, tracks, inodes', tracks', cur)
    && cur < |inodes| && file < |inodes| == |inodes'| && |tracks'[cur].data| == |tracks[cur].data| + 1
    && inodes'[cur].size == inodes[cur].size + 256
    && tracks'[cur].data[..|tracks[cur].data|] == tracks[cur].data
    && EntryReads(tracks'[cur].data[|tracks[cur].data|], inodes[file].ino, name)
    && forall h :: 0 <= h < |inodes| ==>
         inodes'[h].nlinks == if h == file then (inodes[h].nlinks + 1) % 65536 else inodes[h].nlinks
  }

  lemma {:induction false} EntryAddedNamed(inodes: seq<Inode>, tracks: seq<Track>, inodes': seq<Inode>, tracks': seq<Track>,
                                           cur: nat, file: nat, name: seq<byte>)
    requires Named(inodes, tracks) && EntryAdded(inodes, tracks, inodes', tracks', cur, file, name)
    ensures Named(inodes', tracks')
  {
    forall h, k | 0 <= h < |inodes'| && inodes'[h].kind == DirKind && 0 <= k < |tracks'[h].data|
      ensures IsEntry(tracks'[h].data[k]) && IsNumber(inodes', EntryIno(tracks'[h].data[k]))
    {
      if h == cur && k == |tracks[cur].data| {
        assert inodes'[file].ino == inodes[file].ino;
      } else {
        assert tracks'[h].data[k] == tracks[h].data[k] by {
          if h == cur { assert tracks'[cur].data[..|tracks[cur].data|][k] == tracks[cur].data[k]; }
        }
        var g :| 0 <= g < |inodes| && inodes[g].ino == EntryIno(tracks[h].data[k]);
        assert inodes'[g].ino == inodes[g].ino;
      }
    }
  }

  lemma {:induction false} EntryAddedSized(inodes: seq<Inode>, tracks: seq<Track>, inodes': seq<Inode>, tracks': seq<Track>,
                                           cur: nat, file: nat, name: seq<byte>)
    requires Sized(inodes, tracks) && EntryAdded(inodes, tracks, inodes', tracks', cur, file, name)
    ensures Sized(inodes', tracks')
  {
  }

  lemma {:induction false} EntryCounted(inodes: seq<Inode>, tracks: seq<Track>, inodes': seq<Inode>, tracks': seq<Track>,
                                        cur: nat, file: nat, name: seq<byte>, x: nat)
    requires |inodes| == |tracks| && EntryAdded(inodes, tracks, inodes', tracks', cur, file, name)
    requires inodes[cur].kind == DirKind
    ensures Count(inodes', tracks', x, |inodes|) == Count(inodes, tracks, x, |inodes|) + if inodes[file].ino == x then 1 else 0
  {
    var block := tracks'[cur].data[|tracks[cur].data|];
    assert tracks'[cur].data == tracks[cur].data + [block];
    CountAppend(inodes, tracks, inodes', tracks', cur, block, x, |inodes|);
  }

  lemma {:induction false} EntryAddedLinks(inodes: seq<Inode>, tracks: seq<Track>, inodes': seq<Inode>, tracks': seq<Track>,
                                           cur: nat, file: nat, name: seq<byte>)
    requires LinksCounted(inodes, tracks) && EntryAdded(inodes, tracks, inodes', tracks', cur, file, name)
    requires inodes[cur].kind == DirKind
    requires forall g, h :: 0 <= g < h < |inodes| ==> inodes[g].ino != inodes[h].ino
    ensures LinksCounted(inodes', tracks')
  {
    var n := |inodes|;
    forall h | 0 <= h < n ensures inodes'[h].nlinks == Count(inodes', tracks', inodes'[h].ino, n) % 65536 {
      EntryCounted(inodes, tracks, inodes', tracks', cur, file, name, inodes[h].ino);
      LinkSum(Count(inodes, tracks, inodes[h].ino, n), 1);
      assert inodes[h].ino == inodes[file].ino <==> h == file;
    }
  }

  lemma {:induction false} EntryAddedFiles(inodes: seq<Inode>, tracks: seq<Track>, inodes': seq<Inode>, tracks': seq<Track>,
                                           cur: nat, file: nat, name: seq<byte>, files: Host, busy: int)
    requires FilesOk(inodes, tracks, files, busy) && EntryAdded(inodes, tracks, inodes', tracks', cur, file, name)
    requires inodes[cur].kind == DirKind
    ensures FilesOk(inodes', tracks', files, busy)
  {
    forall h | 0 <= h < |inodes'| && h != busy && inodes'[h].kind == FileKind
      ensures FileHolds(inodes', tracks', h, files[inodes'[h].host])
    {
      assert FileHolds(inodes, tracks, h, files[inodes[h].host]);
    }
  }

  /** A new inode of any kind, with no data and no links. */
  ghost predicate InodeAdded(inodes: seq<Inode>, tracks: seq<Track>, inodes': seq<Inode>, tracks': seq<Track>,
                             host: nat, kind: Kind) {
    && |inodes| == |tracks| && |inodes'| == |inodes| + 1 == |tracks'|
    && inodes'[..|inodes|] == inodes && tracks'[..|inodes|] == tracks
    && var nd := inodes'[|inodes|];
       nd.host == host && nd.kind == kind && nd.nlinks == 0 && nd.size == 0 && tracks'[|inodes|].data == []
  }

  lemma {:induction false} InodeAddedWalk(inodes: seq<Inode>, tracks: seq<Track>, inodes': seq<Inode>, tracks': seq<Track>,
                                          host: nat, kind: Kind, files: Host, busy: int)
    requires Walk(inodes, tracks, files, -1) && InodeAdded(inodes, tracks, inodes', tracks', host, kind)
    requires forall g :: 0 <= g < |inodes| ==> inodes[g].ino != inodes'[|inodes|].ino
    requires kind == FileKind <==> host in files
    requires kind == FileKind ==> busy == |inodes| && forall h :: 0 <= h < |inodes| ==> inodes[h].host != host
    ensures Walk(inodes', tracks', files, busy)
  {
    var n, x := |inodes|, inodes'[|inodes|].ino;
    assert forall h :: 0 <= h < n ==> inodes'[h] == inodes'[..n][h] && tracks'[h] == tracks'[..n][h];
    InodeAddedNamed(inodes, tracks, inodes', tracks', host, kind);
    InodeAddedLinks(inodes, tracks, inodes', tracks', host, kind);
    forall h | 0 <= h < |inodes'| && h != busy && inodes'[h].kind == FileKind
      ensures FileHolds(inodes', tracks', h, files[inodes'[h].host])
    {
      assert FileHolds(inodes, tracks, h, files[inodes[h].host]);
    }
  }

  lemma {:induction false} InodeAddedNamed(inodes: seq<Inode>, tracks: seq<Track>, inodes': seq<Inode>, tracks': seq<Track>,
                                           host: nat, kind: Kind)
    requires Named(inodes, tracks) && InodeAdded(inodes, tracks, inodes', tracks', host, kind)
    ensures Named(inodes', tracks')
  {
    var n := |inodes|;
    assert forall h :: 0 <= h < n ==> inodes'[h] == inodes'[..n][h] && tracks'[h] == tracks'[..n][h];
    forall h, k | 0 <= h < |inodes'| && inodes'[h].kind == DirKind && 0 <= k < |tracks'[h].data|
      ensures IsEntry(tracks'[h].data[k]) && IsNumber(inodes', EntryIno(tracks'[h].data[k]))
    {
      var g :| 0 <= g < |inodes| && inodes[g].ino == EntryIno(tracks[h].data[k]);
      assert inodes'[g].ino == inodes[g].ino;
    }
  }

  lemma {:induction false} InodeAddedLinks(inodes: seq<Inode>, tracks: seq<Track>, inodes': seq<Inode>, tracks': seq<Track>,
                                           host: nat, kind: Kind)
    requires Named(inodes, tracks) && LinksCounted(inodes, tracks)
    requires InodeAdded(inodes, tracks, inodes', tracks', host, kind)
    requires forall g :: 0 <= g < |inodes| ==> inodes[g].ino != inodes'[|inodes|].ino
    ensures LinksCounted(inodes', tracks')
  {
    var n := |inodes|;
    assert forall h :: 0 <= h < n ==> inodes'[h] == inodes'[..n][h] && tracks'[h] == tracks'[..n][h];
    forall h | 0 <= h <= n ensures inodes'[h].nlinks == Count(inodes', tracks', inodes'[h].ino, n + 1) % 65536 {
      var x := inodes'[h].ino;
      CountSame(inodes, tracks, inodes', tracks', x, n);
      if h < n {
        assert inodes[h].nlinks == Count(inodes, tracks, x, n) % 65536;
      } else {
        forall g, k | 0 <= g < n && inodes[g].kind == DirKind && 0 <= k < |tracks[g].data|
          ensures IsEntry(tracks[g].data[k]) && EntryIno(tracks[g].data[k]) != x
        {
          assert IsNumber(inodes, EntryIno(tracks[g].data[k]));
        }
        CountNone(inodes, tracks, x, n);
      }
    }
  }

  /** Data appended to something that is not a directory. */
  lemma {:induction false} DataAddedWalk(inodes: seq<Inode>, tracks: seq<Track>, inodes': seq<Inode>, tracks': seq<Track>,
                                         cur: nat, files: Host)
    requires cur < |inodes| && inodes[cur].kind != DirKind && Filling(inodes, tracks, inodes', tracks', cur)
    requires Walk(inodes, tracks, files, cur)
    ensures Walk(inodes', tracks', files, cur)
  {
    forall h, k | 0 <= h < |inodes'| && inodes'[h].kind == DirKind && 0 <= k < |tracks'[h].data|
      ensures IsEntry(tracks'[h].data[k]) && IsNumber(inodes', EntryIno(tracks'[h].data[k]))
    {
      assert tracks'[h].data[k] == tracks[h].data[k];
      var g :| 0 <= g < |inodes| && inodes[g].ino == EntryIno(tracks[h].data[k]);
      assert inodes'[g].ino == inodes[g].ino;
    }
    forall h | 0 <= h < |inodes'| ensures inodes'[h].nlinks == Count(inodes', tracks', inodes'[h].ino, |inodes'|) % 65536 {
      CountSame(inodes, tracks, inodes', tracks', inodes[h].ino, |inodes|);
      assert inodes[h].nlinks == Count(inodes, tracks, inodes[h].ino, |inodes|) % 65536;
    }
    forall h | 0 <= h < |inodes'| && h != cur && inodes'[h].kind == FileKind
      ensures FileHolds(inodes', tracks', h, files[inodes'[h].host])
    {
      assert FileHolds(inodes, tracks, h, files[inodes[h].host]);
    }
  }

  // ------------------------------------------------------- one more object in a directory

  /** New inodes may have been made and filled; the old ones are as they were. */
  ghost predicate Untouched(inodes: seq<Inode>, tracks: seq<Track>, inodes': seq<Inode>, tracks': seq<Track>) {
    && SameInodes(inodes, inodes') && SameData(inodes, tracks, inodes', tracks', -1)
    && forall h :: 0 <= h < |inodes| ==> inodes'[h].nlinks == inodes[h].nlinks
  }

  lemma {:induction false} AddedUntouched(inodes: seq<Inode>, tracks: seq<Track>, inodes': seq<Inode>, tracks': seq<Track>,
                                          host: nat, kind: Kind)
    requires InodeAdded(inodes, tracks, inodes', tracks', host, kind)
    ensures Untouched(inodes, tracks, inodes', tracks')
  {
    var n := |inodes|;
    assert forall h :: 0 <= h < n ==> inodes'[h] == inodes'[..n][h] && tracks'[h] == tracks'[..n][h];
  }

  /** Inode `h` may have been given data; nothing else changed. */
  ghost predicate Filling(inodes: seq<Inode>, tracks: seq<Track>, inodes': seq<Inode>, tracks': seq<Track>, h: nat) {
    && |inodes'| == |inodes| && SameInodes(inodes, inodes') && SameData(inodes, tracks, inodes', tracks', h)
    && forall g :: 0 <= g < |inodes| ==> inodes'[g].nlinks == inodes[g].nlinks
  }

  lemma {:induction false} FillingTrans(i0: seq<Inode>, t0: seq<Track>, i1: seq<Inode>, t1: seq<Track>,
                                        i2: seq<Inode>, t2: seq<Track>, h: nat)
    requires Filling(i0, t0, i1, t1, h) && Filling(i1, t1, i2, t2, h)
    ensures Filling(i0, t0, i2, t2, h)
  {
  }

  lemma {:induction false} FilledUntouched(i0: seq<Inode>, t0: seq<Track>, i1: seq<Inode>, t1: seq<Track>,
                                           i2: seq<Inode>, t2: seq<Track>, h: nat)
    requires Untouched(i0, t0, i1, t1) && |i0| <= h && Filling(i1, t1, i2, t2, h)
    ensures Untouched(i0, t0, i2, t2)
  {
  }

  /** Directory `cur` gained the entry `name` for `kid`; a directory adds a link to `cur`. */
  ghost predicate KidAdded(i0: seq<Inode>, t0: seq<Track>, i1: seq<Inode>, t1: seq<Track>,
                           cur: nat, name: seq<byte>, kid: Layout) {
    && Keeps(i0, t0, i1, t1, cur, cur) && cur < |i0| && !kid.Absent? && kid.h < |i1|
    && |t1[cur].data| == |t0[cur].data| + 1 && t1[cur].data[..|t0[cur].data|] == t0[cur].data
    && EntryReads(t1[cur].data[|t0[cur].data|], i1[kid.h].ino, name)
    && i1[cur].nlinks == (i0[cur].nlinks + (if kid.DirAt? then 1 else 0)) % 65536
  }

  lemma {:induction false} LeafKid(i0: seq<Inode>, t0: seq<Track>, i1: seq<Inode>, t1: seq<Track>,
                                   i2: seq<Inode>, t2: seq<Track>, cur: nat, name: seq<byte>, kid: Layout)
    requires kid.FileAt? || kid.LinkAt?
    requires Untouched(i0, t0, i1, t1) && EntryAdded(i1, t1, i2, t2, cur, kid.h, name)
    requires cur < |i0| && i0[cur].kind == DirKind && i0[cur].nlinks < 65536 && i1[kid.h].kind != DirKind
    ensures KidAdded(i0, t0, i2, t2, cur, name, kid)
    ensures t2[kid.h].data == t1[kid.h].data && i2[kid.h].size == i1[kid.h].size && i2[kid.h].kind == i1[kid.h].kind
    ensures i2[kid.h].host == i1[kid.h].host
  {
  }

  /** `child` is a new directory under `cur`, complete but not yet entered in `cur`. */
  ghost predicate ChildMade(i0: seq<Inode>, t0: seq<Track>, i1: seq<Inode>, t1: seq<Track>,
                            cur: nat, child: nat, host: nat, entries: seq<Entry>, kids: seq<Layout>) {
    && child == |i0| && cur < |i0| && Keeps(i0, t0, i1, t1, child, cur) && child < |i1| && i1[child].host == host
    && DirHolds(i1, t1, child, cur, entries, kids) && RepresentsAll(i1, t1, entries, kids, child)
    && i1[child].nlinks == (1 + Subdirs(kids)) % 65536 && i1[cur].nlinks == (i0[cur].nlinks + 1) % 65536
  }

  /** A finished directory is entered in the one above. */
  lemma {:induction false} DirKid(i0: seq<Inode>, t0: seq<Track>, i1: seq<Inode>, t1: seq<Track>, i2: seq<Inode>, t2: seq<Track>,
                                  cur: nat, name: seq<byte>, child: nat, kids: seq<Layout>, host: nat, entries: seq<Entry>)
    requires ChildMade(i0, t0, i1, t1, cur, child, host, entries, kids) && i0[cur].kind == DirKind
    requires EntryAdded(i1, t1, i2, t2, cur, child, name)
    ensures KidAdded(i0, t0, i2, t2, cur, name, DirAt(child, kids))
    ensures Represents(i2, t2, Directory(host, entries), DirAt(child, kids), cur)
  {
    assert Keeps(i1, t1, i2, t2, cur, child);
    forall i | 0 <= i < |entries| && Listed(entries[i]) ensures Represents(i2, t2, entries[i].node, kids[i], child) {
      RepresentsKept(i1, t1, i2, t2, cur, child, entries[i].node, kids[i], child);
    }
    ListsKept(i1, i2, t1[child].data, [(DOT, child), (DOTDOT, cur)] + Shown(entries, kids));
    LinkSum(1 + Subdirs(kids), 1);
  }

  // ------------------------------------------------------- the loop of open_dir

  /** What open_dir has done after the entries `es`, stored as `kids`; `i0` and `t0` are what it started from. */
  ghost predicate Progress(i0: seq<Inode>, t0: seq<Track>, inodes: seq<Inode>, tracks: seq<Track>,
                           cur: nat, parent: nat, es: seq<Entry>, kids: seq<Layout>) {
    && Keeps(i0, t0, inodes, tracks, cur, parent) && cur < |i0| && parent <= cur && i0[parent].kind == DirKind
    && DirHolds(inodes, tracks, cur, parent, es, kids) && RepresentsAll(inodes, tracks, es, kids, cur)
    && inodes[cur].nlinks == (i0[cur].nlinks + (if parent == cur then 2 else 1) + Subdirs(kids)) % 65536
    && (parent != cur ==> inodes[parent].nlinks == (i0[parent].nlinks + 1) % 65536)
  }

  /** open_dir on a new inode. */
  lemma {:induction false} ProgressChild(i0: seq<Inode>, t0: seq<Track>, i1: seq<Inode>, t1: seq<Track>,
                                         i2: seq<Inode>, t2: seq<Track>, cur: nat, child: nat, host: nat,
                                         entries: seq<Entry>, kids: seq<Layout>)
    requires InodeAdded(i0, t0, i1, t1, host, DirKind) && child == |i0| && cur < |i0|
    requires Progress(i1, t1, i2, t2, child, cur, entries, kids)
    ensures ChildMade(i0, t0, i2, t2, cur, child, host, entries, kids)
  {
    AddedUntouched(i0, t0, i1, t1, host, DirKind);
  }

  lemma {:induction false} OwnEntries(i0: seq<Inode>, t0: seq<Track>, i1: seq<Inode>, t1: seq<Track>,
                                      i2: seq<Inode>, t2: seq<Track>, cur: nat, parent: nat)
    requires cur < |i0| == |t0| && parent <= cur && t0[cur].data == []
    requires EntryAdded(i0, t0, i1, t1, cur, cur, DOT) && EntryAdded(i1, t1, i2, t2, cur, parent, DOTDOT)
    ensures Lists(i2, t2[cur].data, [(DOT, cur), (DOTDOT, parent)])
  {
    var d := t2[cur].data;
    assert d[..1] == t1[cur].data;
    assert d[0] == d[..1][0] == t1[cur].data[0];
  }

  /** The entries for the directory itself and for its parent. */
  lemma {:induction false} OwnHolds(i0: seq<Inode>, t0: seq<Track>, i1: seq<Inode>, t1: seq<Track>,
                                    i2: seq<Inode>, t2: seq<Track>, cur: nat, parent: nat)
    requires cur < |i0| == |t0| && parent <= cur && i0[cur].kind == DirKind && t0[cur].data == []
    requires EntryAdded(i0, t0, i1, t1, cur, cur, DOT) && EntryAdded(i1, t1, i2, t2, cur, parent, DOTDOT)
    ensures DirHolds(i2, t2, cur, parent, [], [])
  {
    OwnEntries(i0, t0, i1, t1, i2, t2, cur, parent);
    NothingShown(cur, parent);
  }

  lemma {:induction false} OwnKeeps(i0: seq<Inode>, t0: seq<Track>, i1: seq<Inode>, t1: seq<Track>,
                                    i2: seq<Inode>, t2: seq<Track>, cur: nat, parent: nat)
    requires |i0| == |t0| && EntryAdded(i0, t0, i1, t1, cur, cur, DOT) && EntryAdded(i1, t1, i2, t2, cur, parent, DOTDOT)
    ensures Keeps(i0, t0, i2, t2, cur, parent)
  {
  }

  lemma {:induction false} OwnLinks(i0: seq<Inode>, t0: seq<Track>, i1: seq<Inode>, t1: seq<Track>,
                                    i2: seq<Inode>, t2: seq<Track>, cur: nat, parent: nat)
    requires EntryAdded(i0, t0, i1, t1, cur, cur, DOT) && EntryAdded(i1, t1, i2, t2, cur, parent, DOTDOT)
    ensures i2[cur].nlinks == (i0[cur].nlinks + if parent == cur then 2 else 1) % 65536
    ensures parent != cur ==> i2[parent].nlinks == (i0[parent].nlinks + 1) % 65536
  {
    LinkSum(i0[cur].nlinks + 1, 1);
  }

  lemma {:induction false} ProgressStart(i0: seq<Inode>, t0: seq<Track>, i1: seq<Inode>, t1: seq<Track>,
                                         i2: seq<Inode>, t2: seq<Track>, cur: nat, parent: nat)
    requires cur < |i0| && parent <= cur && i0[cur].kind == i0[parent].kind == DirKind && |i0| == |t0| && t0[cur].data == []
    requires EntryAdded(i0, t0, i1, t1, cur, cur, DOT) && EntryAdded(i1, t1, i2, t2, cur, parent, DOTDOT)
    ensures Progress(i0, t0, i2, t2, cur, parent, [], [])
  {
    OwnKeeps(i0, t0, i1, t1, i2, t2, cur, parent);
    OwnLinks(i0, t0, i1, t1, i2, t2, cur, parent);
    OwnHolds(i0, t0, i1, t1, i2, t2, cur, parent);
  }

  lemma {:induction false} NothingShown(cur: nat, parent: nat)
    ensures [(DOT, cur), (DOTDOT, parent)] + Shown([], []) == [(DOT, cur), (DOTDOT, parent)]
  {
  }

  lemma {:induction false} SkippedShown(es: seq<Entry>, kids: seq<Layout>, e: Entry)
    requires |es| == |kids|
    ensures Shown(es + [e], kids + [Absent]) == Shown(es, kids) && Subdirs(kids + [Absent]) == Subdirs(kids)
  {
    var es', kids' := es + [e], kids + [Absent];
    assert es'[..|es|] == es && kids'[..|es|] == kids;
  }

  lemma {:induction false} RepresentsSkipped(inodes: seq<Inode>, tracks: seq<Track>, es: seq<Entry>, kids: seq<Layout>,
                                             cur: nat, e: Entry)
    requires RepresentsAll(inodes, tracks, es, kids, cur) && !Listed(e)
    ensures RepresentsAll(inodes, tracks, es + [e], kids + [Absent], cur)
  {
  }

  /** An entry that is passed over. */
  lemma {:induction false} ProgressSkip(i0: seq<Inode>, t0: seq<Track>, inodes: seq<Inode>, tracks: seq<Track>,
                                        cur: nat, parent: nat, es: seq<Entry>, kids: seq<Layout>, e: Entry)
    requires Progress(i0, t0, inodes, tracks, cur, parent, es, kids) && !Listed(e)
    ensures Progress(i0, t0, inodes, tracks, cur, parent, es + [e], kids + [Absent])
  {
    SkippedShown(es, kids, e);
    RepresentsSkipped(inodes, tracks, es, kids, cur, e);
  }

  lemma {:induction false} ListsMore(inodes: seq<Inode>, inodes': seq<Inode>, data: seq<seq<byte>>, data': seq<seq<byte>>,
                                     names: seq<(seq<byte>, nat)>, name: seq<byte>, h: nat)
    requires Lists(inodes, data, names) && |inodes| <= |inodes'| && h < |inodes'|
    requires forall g :: 0 <= g < |inodes| ==> inodes'[g].ino == inodes[g].ino
    requires |data'| == |data| + 1 && data'[..|data|] == data && EntryReads(data'[|data|], inodes'[h].ino, name)
    ensures Lists(inodes', data', names + [(name, h)])
  {
    assert forall k :: 0 <= k < |data| ==> data'[k] == data'[..|data|][k];
  }

  lemma {:induction false} DirHoldsMore(i1: seq<Inode>, t1: seq<Track>, i2: seq<Inode>, t2: seq<Track>,
                                        cur: nat, parent: nat, es: seq<Entry>, kids: seq<Layout>, e: Entry, kid: Layout)
    requires DirHolds(i1, t1, cur, parent, es, kids) && KidAdded(i1, t1, i2, t2, cur, e.name, kid)
    ensures DirHolds(i2, t2, cur, parent, es + [e], kids + [kid])
    ensures Subdirs(kids + [kid]) == Subdirs(kids) + (if kid.DirAt? then 1 else 0)
  {
    var es', kids' := es + [e], kids + [kid];
    assert es'[..|es|] == es && kids'[..|es|] == kids;
    var own := [(DOT, cur), (DOTDOT, parent)];
    ListsMore(i1, i2, t1[cur].data, t2[cur].data, own + Shown(es, kids), e.name, kid.h);
    assert own + Shown(es', kids') == own + Shown(es, kids) + [(e.name, kid.h)];
  }

  lemma {:induction false} RepresentsMore(inodes: seq<Inode>, tracks: seq<Track>, es: seq<Entry>, kids: seq<Layout>,
                                          cur: nat, e: Entry, kid: Layout)
    requires RepresentsAll(inodes, tracks, es, kids, cur) && Listed(e) && Represents(inodes, tracks, e.node, kid, cur)
    ensures RepresentsAll(inodes, tracks, es + [e], kids + [kid], cur)
  {
  }

  /** An entry that is stored. */
  lemma {:induction false} ProgressKid(i0: seq<Inode>, t0: seq<Track>, i1: seq<Inode>, t1: seq<Track>,
                                       i2: seq<Inode>, t2: seq<Track>, cur: nat, parent: nat,
                                       es: seq<Entry>, kids: seq<Layout>, e: Entry, kid: Layout)
    requires Progress(i0, t0, i1, t1, cur, parent, es, kids) && Listed(e)
    requires KidAdded(i1, t1, i2, t2, cur, e.name, kid) && Represents(i2, t2, e.node, kid, cur)
    ensures Progress(i0, t0, i2, t2, cur, parent, es + [e], kids + [kid])
  {
    assert Keeps(i1, t1, i2, t2, cur, parent);
    KeepsTrans(i0, t0, i1, t1, i2, t2, cur, parent);
    RepresentsAllKept(i1, t1, i2, t2, cur, parent, es, kids);
    RepresentsMore(i2, t2, es, kids, cur, e, kid);
    DirHoldsMore(i1, t1, i2, t2, cur, parent, es, kids, e, kid);
    LinkSum(i0[cur].nlinks + (if parent == cur then 2 else 1) + Subdirs(kids), if kid.DirAt? then 1 else 0);
  }

  /** Link counts are kept in 16 bits. */
  lemma LinkSum(a: nat, b: nat)
    ensures (a % 65536 + b) % 65536 == (a + b) % 65536
  {
  }
}
