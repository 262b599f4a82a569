/**
  lab8/tools/mksfs.c, create_img: from a directory tree of the host to a finished image, and what a reader of
  that image finds.
 */
module SfsCreate {
  import opened SfsBytes
  import opened SfsModel
  import opened SfsSteps
  import opened SfsReader
  import opened SfsBuilder
  import opened SfsSpace
  import opened SfsTree
  import opened SfsRuns
  import opened SfsPlan
  import opened SfsVisits
  import opened SfsWalk

  // ------------------------------------------------------- trees on the image

  /** Block `k` of a file on the image. */
  ghost predicate HasBlock(img: Image, ino: nat, k: nat) {
    Resolve(img, ino, k) in img && |img[Resolve(img, ino, k)]| == BLKSIZE
  }

  /** The directory in block `ino` lists exactly `names`, in order: for each the inode number and the name as cut. */
  ghost predicate ShowsNames(img: Image, inos: seq<nat>, ino: nat, names: seq<(seq<byte>, nat)>) {
    && InodeBlocks(img, ino) == |names|
    && forall k :: 0 <= k < |names| ==>
         && names[k].1 < |inos| && HasBlock(img, ino, k)
         && WordAt(img[Resolve(img, ino, k)], 0) == inos[names[k].1]
         && EntryName(img[Resolve(img, ino, k)]) == Cut(names[k].0)
  }

  ghost predicate ShowsDir(img: Image, inos: seq<nat>, h: nat, parent: nat, entries: seq<Entry>, kids: seq<Layout>) {
    && h < |inos| && |entries| == |kids| && InodeType(img, inos[h]) == 2
    && InodeLinks(img, inos[h]) == (2 + Subdirs(kids)) % 65536
    && ShowsNames(img, inos, inos[h], [(DOT, h), (DOTDOT, parent)] + Shown(entries, kids))
  }

  /** A reader who starts at the inode where `l` puts `node` finds `node`; `hosts` names the host's number of each inode. */
  ghost predicate Shows(img: Image, inos: seq<nat>, hosts: seq<nat>, node: Node, l: Layout, parent: nat)
    decreases node
  {
    match node
    case Special => l.Absent?
    case Regular(host, content) =>
      && l.FileAt? && l.h < |inos| == |hosts| && hosts[l.h] == host && InodeType(img, inos[l.h]) == 1 && InodeSize(img, inos[l.h]) == |content|
      && ReadsBack(img, inos[l.h], Chunks(content))
    case Symlink(host, target) =>
      && l.LinkAt? && l.h < |inos| == |hosts| && hosts[l.h] == host && InodeType(img, inos[l.h]) == 3 && InodeSize(img, inos[l.h]) == |target|
      && ReadsBack(img, inos[l.h], [target])
    case Directory(host, entries) =>
      && l.DirAt? && ShowsDir(img, inos, l.h, parent, entries, l.kids) && l.h < |hosts| && hosts[l.h] == host
      && forall i :: 0 <= i < |entries| ==>
           if Listed(entries[i]) then Shows(img, inos, hosts, entries[i].node, l.kids[i], l.h) else l.kids[i].Absent?
  }

  function Inos(inodes: seq<Inode>): (s: seq<nat>)
    ensures |s| == |inodes| && forall h :: 0 <= h < |s| ==> s[h] == inodes[h].ino
  {
    seq(|inodes|, h requires 0 <= h < |inodes| => inodes[h].ino)
  }

  function Hosts(inodes: seq<Inode>): (s: seq<nat>)
    ensures |s| == |inodes| && forall h :: 0 <= h < |s| ==> s[h] == inodes[h].host
  {
    seq(|inodes|, h requires 0 <= h < |inodes| => inodes[h].host)
  }

  lemma {:induction false} NamesShown(fs: Fs, bk: Book, h: nat, names: seq<(seq<byte>, nat)>)
    requires Valid(fs, bk) && Flushed(fs, fs.image) && h < |fs.inodes|
    requires Lists(fs.inodes, bk.tracks[h].data, names)
    ensures ShowsNames(fs.image, Inos(fs.inodes), fs.inodes[h].ino, names)
  {
    FileReadBack(fs, bk, h);
  }

  lemma {:induction false} DirShown(fs: Fs, bk: Book, h: nat, parent: nat, entries: seq<Entry>, kids: seq<Layout>)
    requires Valid(fs, bk) && Flushed(fs, fs.image)
    requires DirHolds(fs.inodes, bk.tracks, h, parent, entries, kids)
    requires fs.inodes[h].nlinks == (2 + Subdirs(kids)) % 65536
    ensures ShowsDir(fs.image, Inos(fs.inodes), h, parent, entries, kids)
  {
    ImageInode(fs, bk, fs.image, h);
    NamesShown(fs, bk, h, [(DOT, h), (DOTDOT, parent)] + Shown(entries, kids));
  }

  /** What the inodes hold, a reader of the finished image sees. */
  lemma {:induction false} RepresentsShows(fs: Fs, bk: Book, node: Node, l: Layout, parent: nat)
    requires Valid(fs, bk) && Flushed(fs, fs.image) && Represents(fs.inodes, bk.tracks, node, l, parent)
    ensures Shows(fs.image, Inos(fs.inodes), Hosts(fs.inodes), node, l, parent)
    decreases node
  {
    match node
    case Special =>
    case Regular(_, content) =>
      ImageInode(fs, bk, fs.image, l.h);
      FileReadBack(fs, bk, l.h);
    case Symlink(_, target) =>
      ImageInode(fs, bk, fs.image, l.h);
      FileReadBack(fs, bk, l.h);
    case Directory(_, entries) =>
      DirShown(fs, bk, l.h, parent, entries, l.kids);
      forall i | 0 <= i < |entries| && Listed(entries[i])
        ensures Shows(fs.image, Inos(fs.inodes), Hosts(fs.inodes), entries[i].node, l.kids[i], l.h)
      {
        RepresentsShows(fs, bk, entries[i].node, l.kids[i], l.h);
      }
  }

  // ------------------------------------------------------- links on the image

  /** How many of the first `n` blocks of a directory name inode number `x`. */
  ghost function EntriesNaming(img: Image, ino: nat, x: nat, n: nat): nat {
    if n == 0 then 0
    else EntriesNaming(img, ino, x, n - 1)
         + (if HasBlock(img, ino, n - 1) && WordAt(img[Resolve(img, ino, n - 1)], 0) == x then 1 else 0)
  }

  /** How many directory entries do, over the first `n` inodes. */
  ghost function LinksTo(img: Image, inos: seq<nat>, x: nat, n: nat): nat
    requires n <= |inos|
  {
    if n == 0 then 0
    else LinksTo(img, inos, x, n - 1)
         + (if InodeType(img, inos[n - 1]) == 2 then EntriesNaming(img, inos[n - 1], x, InodeBlocks(img, inos[n - 1])) else 0)
  }

  lemma {:induction false} EntriesCounted(img: Image, ino: nat, data: seq<seq<byte>>, x: nat, n: nat)
    requires ReadsBack(img, ino, data) && n <= |data| && forall k :: 0 <= k < |data| ==> IsEntry(data[k])
    ensures EntriesNaming(img, ino, x, n) == CountIn(data[..n], x)
  {
    if n > 0 {
      EntriesCounted(img, ino, data, x, n - 1);
      assert data[..n][..n - 1] == data[..n - 1];
      assert IsEntry(data[n - 1]);
    }
  }

  lemma {:induction false} DirEntriesOnImage(fs: Fs, bk: Book, x: nat, h: nat)
    requires Valid(fs, bk) && Flushed(fs, fs.image) && Named(fs.inodes, bk.tracks) && h < |fs.inodes|
    requires fs.inodes[h].kind == DirKind
    ensures EntriesNaming(fs.image, fs.inodes[h].ino, x, InodeBlocks(fs.image, fs.inodes[h].ino)) ==
            CountIn(bk.tracks[h].data, x)
  {
    var data := bk.tracks[h].data;
    FileReadBack(fs, bk, h);
    EntriesCounted(fs.image, fs.inodes[h].ino, data, x, |data|);
    assert data[..|data|] == data;
  }

  lemma {:induction false} LinksCountedOnImage(fs: Fs, bk: Book, x: nat, n: nat)
    requires Valid(fs, bk) && Flushed(fs, fs.image) && Named(fs.inodes, bk.tracks) && n <= |fs.inodes|
    ensures LinksTo(fs.image, Inos(fs.inodes), x, n) == Count(fs.inodes, bk.tracks, x, n)
  {
    if n > 0 {
      LinksCountedOnImage(fs, bk, x, n - 1);
      ImageInode(fs, bk, fs.image, n - 1);
      if fs.inodes[n - 1].kind == DirKind {
        DirEntriesOnImage(fs, bk, x, n - 1);
      }
    }
  }

  /** On the finished image the link count of every inode is the number of directory entries naming it. */
  lemma {:induction false} ImageLinks(fs: Fs, bk: Book, h: nat)
    requires Valid(fs, bk) && Flushed(fs, fs.image) && Named(fs.inodes, bk.tracks)
    requires LinksCounted(fs.inodes, bk.tracks) && h < |fs.inodes|
    ensures InodeLinks(fs.image, fs.inodes[h].ino) ==
            LinksTo(fs.image, Inos(fs.inodes), fs.inodes[h].ino, |fs.inodes|) % 65536
  {
    ImageInode(fs, bk, fs.image, h);
    LinksCountedOnImage(fs, bk, fs.inodes[h].ino, |fs.inodes|);
  }

  // ------------------------------------------------------- create_img

  ghost predicate ShowsAll(img: Image, inos: seq<nat>, hosts: seq<nat>, entries: seq<Entry>, kids: seq<Layout>, cur: nat) {
    && |entries| == |kids|
    && forall i :: 0 <= i < |entries| ==>
         if Listed(entries[i]) then Shows(img, inos, hosts, entries[i].node, kids[i], cur) else kids[i].Absent?
  }

  /** What is promised of a finished image made from the directory `entries`. */
  ghost predicate Faithful(img: Image, inos: seq<nat>, hosts: seq<nat>, entries: seq<Entry>, kids: seq<Layout>) {
    && |inos| == |hosts| > 0 && inos[0] == BLKN_ROOT
    && ShowsDir(img, inos, 0, 0, entries, kids) && ShowsAll(img, inos, hosts, entries, kids, 0)
    && (forall g, h :: 0 <= g < h < |inos| ==> inos[g] != inos[h])
    && (forall h :: 0 <= h < |inos| ==> InodeLinks(img, inos[h]) == LinksTo(img, inos, inos[h], |inos|) % 65536)
    && (forall h :: 0 <= h < |inos| && InodeType(img, inos[h]) == 2 ==>
          InodeSize(img, inos[h]) == 256 * InodeBlocks(img, inos[h]))
    && (forall g, h :: 0 <= g < h < |inos| && InodeType(img, inos[g]) == 1 && InodeType(img, inos[h]) == 1 ==>
          hosts[g] != hosts[h])
  }

  lemma {:induction false} FilesStoredOnce(fs: Fs, bk: Book, files: Host, g: nat, h: nat)
    requires Valid(fs, bk) && Flushed(fs, fs.image) && FilesOk(fs.inodes, bk.tracks, files, -1)
    requires g < h < |fs.inodes|
    requires InodeType(fs.image, fs.inodes[g].ino) == 1 && InodeType(fs.image, fs.inodes[h].ino) == 1
    ensures fs.inodes[g].host != fs.inodes[h].host
  {
    ImageInode(fs, bk, fs.image, g);
    ImageInode(fs, bk, fs.image, h);
  }

  lemma {:induction false} DirectorySized(fs: Fs, bk: Book, h: nat)
    requires Valid(fs, bk) && Flushed(fs, fs.image) && Sized(fs.inodes, bk.tracks) && h < |fs.inodes|
    requires InodeType(fs.image, fs.inodes[h].ino) == 2
    ensures InodeSize(fs.image, fs.inodes[h].ino) == 256 * InodeBlocks(fs.image, fs.inodes[h].ino)
  {
    ImageInode(fs, bk, fs.image, h);
    LogLengths(fs, bk);
  }

  lemma {:induction false} FinishedFaithful(fs: Fs, bk: Book, files: Host, i0: seq<Inode>, t0: seq<Track>,
                                            entries: seq<Entry>, kids: seq<Layout>)
    requires Valid(fs, bk) && Flushed(fs, fs.image) && Walk(fs.inodes, bk.tracks, files, -1)
    requires Progress(i0, t0, fs.inodes, bk.tracks, 0, 0, entries, kids) && i0[0].nlinks == 0
    ensures Faithful(fs.image, Inos(fs.inodes), Hosts(fs.inodes), entries, kids)
  {
    DirShown(fs, bk, 0, 0, entries, kids);
    InodeNumbers(fs, bk);
    forall i | 0 <= i < |entries| && Listed(entries[i])
      ensures Shows(fs.image, Inos(fs.inodes), Hosts(fs.inodes), entries[i].node, kids[i], 0)
    {
      RepresentsShows(fs, bk, entries[i].node, kids[i], 0);
    }
    forall h | 0 <= h < |fs.inodes|
      ensures InodeLinks(fs.image, fs.inodes[h].ino) ==
              LinksTo(fs.image, Inos(fs.inodes), fs.inodes[h].ino, |fs.inodes|) % 65536
    {
      ImageLinks(fs, bk, h);
    }
    forall h | 0 <= h < |fs.inodes| && InodeType(fs.image, fs.inodes[h].ino) == 2
      ensures InodeSize(fs.image, fs.inodes[h].ino) == 256 * InodeBlocks(fs.image, fs.inodes[h].ino)
    {
      DirectorySized(fs, bk, h);
    }
    forall g, h | 0 <= g < h < |fs.inodes| && InodeType(fs.image, fs.inodes[g].ino) == 1 && InodeType(fs.image, fs.inodes[h].ino) == 1
      ensures fs.inodes[g].host != fs.inodes[h].host
    {
      FilesStoredOnce(fs, bk, files, g, h);
    }
  }

  lemma {:induction false} FreshWalk(fs: Fs, files: Host)
    requires |fs.inodes| == 1 && fs.inodes[0] == NewInode(BLKN_ROOT, 0, DirKind) && 0 !in files
    ensures Walk(fs.inodes, [NO_TRACK], files, -1)
  {
    assert Count(fs.inodes, [NO_TRACK], BLKN_ROOT, 1) == 0;
  }

  // ------------------------------------------------------- hard links

  /** Going down from the directory `entries`, stored as `kids`, by these positions leads to `node`, stored as `l`. */
  ghost predicate Leads(entries: seq<Entry>, kids: seq<Layout>, path: seq<nat>, node: Node, l: Layout)
    decreases |path|
  {
    && path != [] && path[0] < |entries| == |kids| && Listed(entries[path[0]])
    && var next, k := entries[path[0]].node, kids[path[0]];
       if |path| == 1 then next == node && k == l
       else next.Directory? && k.DirAt? && Leads(next.entries, k.kids, path[1..], node, l)
  }

  /** Whatever a path leads to is shown. */
  lemma {:induction false} LeadsToShown(img: Image, inos: seq<nat>, hosts: seq<nat>, entries: seq<Entry>, kids: seq<Layout>,
                                        cur: nat, path: seq<nat>, node: Node, l: Layout)
    returns (parent: nat)
    requires ShowsAll(img, inos, hosts, entries, kids, cur) && Leads(entries, kids, path, node, l)
    ensures Shows(img, inos, hosts, node, l, parent)
    decreases |path|
  {
    var next, k := entries[path[0]].node, kids[path[0]];
    if |path| == 1 {
      parent := cur;
    } else {
      parent := LeadsToShown(img, inos, hosts, next.entries, k.kids, k.h, path[1..], node, l);
    }
  }

  lemma {:induction false} FileShown(img: Image, inos: seq<nat>, hosts: seq<nat>, node: Node, l: Layout, parent: nat)
    requires Shows(img, inos, hosts, node, l, parent) && node.Regular?
    ensures l.FileAt? && l.h < |inos| == |hosts| && hosts[l.h] == node.host && InodeType(img, inos[l.h]) == 1
  {
  }

  lemma {:induction false} OneInodePerFile(img: Image, inos: seq<nat>, hosts: seq<nat>, entries: seq<Entry>,
                                           kids: seq<Layout>, g: nat, h: nat)
    requires Faithful(img, inos, hosts, entries, kids) && g < |inos| && h < |inos|
    requires InodeType(img, inos[g]) == 1 && InodeType(img, inos[h]) == 1
    ensures inos[g] == inos[h] <==> hosts[g] == hosts[h]
  {
    if g < h {
      assert inos[g] != inos[h];
    } else if h < g {
      assert inos[h] != inos[g];
    }
  }

  /**
    Anywhere in the tree, two names of regular files stand for the same inode of the image if and only if they are
    links to the same file of the host.
   */
  lemma {:induction false} HardLinksShare(img: Image, inos: seq<nat>, hosts: seq<nat>, entries: seq<Entry>, kids: seq<Layout>,
                                          p: seq<nat>, m: Node, k: Layout, q: seq<nat>, n: Node, l: Layout)
    requires Faithful(img, inos, hosts, entries, kids)
    requires Leads(entries, kids, p, m, k) && Leads(entries, kids, q, n, l) && m.Regular? && n.Regular?
    ensures k.FileAt? && l.FileAt? && k.h < |inos| && l.h < |inos|
    ensures inos[k.h] == inos[l.h] <==> m.host == n.host
  {
    var a := LeadsToShown(img, inos, hosts, entries, kids, 0, p, m, k);
    var b := LeadsToShown(img, inos, hosts, entries, kids, 0, q, n, l);
    FileShown(img, inos, hosts, m, k, a);
    FileShown(img, inos, hosts, n, l, b);
    OneInodePerFile(img, inos, hosts, entries, kids, k.h, l.h);
  }

  // ------------------------------------------------------- the whole program

  /** What the whole tree takes: the two entries of the root for itself, and what is in it. */
  function PlanRoot(entries: seq<Entry>): Plan {
    Plus(PlanRest(entries, 2, {0}), 2)
  }

  lemma {:induction false} RootComes(entries: seq<Entry>)
    ensures var p, vs := PlanRoot(entries), Visits(entries, 2);
            (p.Go? <==> Accepted(vs, {0})) && (p.Go? ==> p.cost == 2 + Total(vs, {0}) && p.cost >= 2)
  {
    RestComes(entries, 2, {0});
  }

  /** close_sfs after the walk. */
  method CloseWalk(b: Builder, info: seq<byte>, ghost files: Host, ghost i0: seq<Inode>, ghost t0: seq<Track>,
                   ghost entries: seq<Entry>, ghost kids: seq<Layout>)
    requires Walking(b, files, -1) && |info| == 32
    requires Progress(i0, t0, b.inodes, b.bk.tracks, 0, 0, entries, kids) && i0[0].nlinks == 0
    modifies b`image
    ensures Faithful(b.image, Inos(b.inodes), Hosts(b.inodes), entries, kids)
    ensures SpaceAccounted(b.image, Inos(b.inodes), b.ninos, b.unused) && Labelled(b.image, info)
  {
    b.Close(info);
    FinishedFaithful(b.Now(), b.bk, files, i0, t0, entries, kids);
    FreeBitsCounted(b.image, b.nextIno, b.ninos);
    AllNeeded(b.Now(), b.bk, Inos(b.inodes));
  }

  /** open_dir on the root and then close_sfs. */
  method WalkRoot(b: Builder, entries: seq<Entry>, info: seq<byte>, ghost files: Host)
    returns (ok: bool, ghost kids: seq<Layout>)
    requires Walking(b, files, -1) && |info| == 32 && AllAgree(entries, files)
    requires b.inodes != [] && b.inodes[0] == NewInode(BLKN_ROOT, 0, DirKind) && b.bk.tracks[0] == NO_TRACK
    requires |b.inodes| == 1
    modifies b
    ensures var vs := Visits(entries, 2);
            && (ok <==> Accepted(vs, {0}) && 2 + Total(vs, {0}) <= old(b.unused))
            && (ok ==> SpaceAccounted(b.image, Inos(b.inodes), b.ninos, old(b.unused) - 2 - Total(vs, {0})))
    ensures Accepted(Visits(entries, 2), {0}) ==> Total(Visits(entries, 2), {0}) >= 0
    ensures ok ==> Faithful(b.image, Inos(b.inodes), Hosts(b.inodes), entries, kids) && Labelled(b.image, info)
  {
    RootComes(entries);
    ghost var i0, t0 := b.inodes, b.bk.tracks;
    assert Seen(b.inodes) == {0} by { assert b.inodes[0].host == 0; }
    ok, kids := OpenDir(b, 0, 0, entries, files);
    if ok {
      CloseWalk(b, info, files, i0, t0, entries, kids);
    }
  }

  /**
    create_img.  The tool is stopped exactly when the image file is too small for the tree or something in the tree
    cannot be stored; otherwise the image shows the source tree: every listed file, symbolic link and directory,
    with its contents, under the name it had (cut to 252 bytes); link counts are right, each regular file is stored
    once however many names it has (`HardLinksShare`), the space taken is what the entries visited come to, and
    every block is either free or needed.
   */
  method CreateImg(blocks: nat, disk: Image, entries: seq<Entry>, info: seq<byte>, ghost files: Host)
    returns (ok: bool, image: Image, inos: seq<nat>, hosts: seq<nat>, ghost kids: seq<Layout>)
    requires AllAgree(entries, files) && 0 !in files && |info| == 32
    ensures var n, vs := if blocks < 524288 then blocks else 524288, Visits(entries, 2);
            && (ok <==> Accepted(vs, {0}) && FirstData(n) + 2 + Total(vs, {0}) <= n)
            && (ok ==> SpaceAccounted(image, inos, n, n - FirstData(n) - 2 - Total(vs, {0})))
    ensures ok ==> Faithful(image, inos, hosts, entries, kids) && Labelled(image, info)
  {
    RootComes(entries);
    ok, image, inos, hosts, kids := false, map[], [], [], [];
    if FirstData(Usable(blocks)) >= Usable(blocks) { return; }
    var b := new Builder(blocks, disk);
    FreshWalk(b.Now(), files);
    ok, kids := WalkRoot(b, entries, info, files);
    image, inos, hosts := b.image, Inos(b.inodes), Hosts(b.inodes);
  }
}
