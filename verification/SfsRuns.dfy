/**
  Runs of the image builder: any interleaving of appends to any number of inodes, then close_sfs.
 */
module SfsRuns {
  import opened SfsBytes
  import opened SfsModel
  import opened SfsSteps
  import opened SfsReader
  import opened SfsBuilder
  import opened SfsSpace

  /** A new inode, or one more block for inode `h`. */
  datatype Request = Make(host: nat, kind: Kind) | Append(h: nat, bytes: seq<byte>)

  ghost predicate Writable(reqs: seq<Request>) {
    forall i :: 0 <= i < |reqs| && reqs[i].Append? ==> |reqs[i].bytes| <= BLKSIZE
  }

  /** What each inode has been given, in order; inode 0 is the root.  Appends to no inode are ignored. */
  function Contents(reqs: seq<Request>): (c: seq<seq<seq<byte>>>)
    ensures |c| > 0
  {
    if reqs == [] then [[]]
    else
      Served(Contents(reqs[..|reqs| - 1]), reqs[|reqs| - 1])
  }

  /** The history agrees with the requests. */
  ghost predicate Holds(bk: Book, c: seq<seq<seq<byte>>>) {
    |bk.tracks| == |c| && forall h :: 0 <= h < |c| ==> bk.tracks[h].data == c[h]
  }

  /** On the image, the file in block `ino` has `|data|` blocks, and block `k` of it reads back as `data[k]`. */
  ghost predicate ReadsBack(image: Image, ino: nat, data: seq<seq<byte>>) {
    && InodeBlocks(image, ino) == |data|
    && forall k :: 0 <= k < |data| ==>
         |data[k]| <= BLKSIZE && Resolve(image, ino, k) in image && image[Resolve(image, ino, k)] == Pad(data[k])
  }

  /** Once the caches are flushed, every file reads back. */
  lemma {:induction false} FileReadBack(fs: Fs, bk: Book, h: nat)
    requires Valid(fs, bk) && Flushed(fs, fs.image) && h < |fs.inodes|
    ensures ReadsBack(fs.image, fs.inodes[h].ino, bk.tracks[h].data)
  {
    var t := bk.tracks[h];
    assert InodeOk(fs, bk, h);
    ImageInode(fs, bk, fs.image, h);
    forall k | 0 <= k < |t.data|
      ensures Resolve(fs.image, fs.inodes[h].ino, k) == t.log[k]
    {
      ImageResolves(fs, bk, fs.image, h, k);
    }
  }

  // ------------------------------------------------------- how much space a run takes

  /** The index blocks of a file of `n` blocks: its leaves, and the table of all leaves but the first. */
  function IndexBlocks(n: nat): nat {
    LeafCount(n) + if n > L1_NBLKS then 1 else 0
  }

  /** Blocks and index blocks of the first `n` files. */
  function FilesSize(c: seq<seq<seq<byte>>>, n: nat): nat
    requires n <= |c|
  {
    if n == 0 then 0 else FilesSize(c, n - 1) + |c[n - 1]| + IndexBlocks(|c[n - 1]|)
  }

  /** The blocks taken for these files: one for each inode but the root, which has a place of its own, and the files. */
  function Footprint(c: seq<seq<seq<byte>>>): int {
    |c| - 1 + FilesSize(c, |c|)
  }

  predicate AllSmall(c: seq<seq<seq<byte>>>) {
    forall h :: 0 <= h < |c| ==> |c[h]| <= LN_NBLKS
  }

  /** Appending takes exactly the index blocks that the longer file has and the shorter has not. */
  lemma {:induction false} IndexBlocksStep(n: nat)
    ensures IndexBlocks(n + 1) == IndexBlocks(n) + IndexNeed(n)
  {
    if n > NDIRECT {
      var q, r := (n - NDIRECT - 1) / NENTRY, (n - NDIRECT - 1) % NENTRY;
      assert n - NDIRECT == q * NENTRY + (r + 1);
    }
  }

  lemma {:induction false} FilesSizeSame(c: seq<seq<seq<byte>>>, d: seq<seq<seq<byte>>>, n: nat)
    requires n <= |c| && n <= |d| && c[..n] == d[..n]
    ensures FilesSize(c, n) == FilesSize(d, n)
  {
    if n > 0 {
      assert c[..n][n - 1] == c[n - 1] && d[..n][n - 1] == d[n - 1];
      assert c[..n - 1] == c[..n][..n - 1] && d[..n - 1] == d[..n][..n - 1];
      FilesSizeSame(c, d, n - 1);
    }
  }

  lemma {:induction false} FilesSizeAppend(c: seq<seq<seq<byte>>>, h: nat, bytes: seq<byte>, n: nat)
    requires h < n <= |c|
    ensures FilesSize(c[h := c[h] + [bytes]], n) == FilesSize(c, n) + 1 + IndexNeed(|c[h]|)
  {
    var d := c[h := c[h] + [bytes]];
    IndexBlocksStep(|c[h]|);
    if h < n - 1 {
      FilesSizeAppend(c, h, bytes, n - 1);
    } else {
      assert c[..h] == d[..h];
      FilesSizeSame(c, d, h);
    }
  }

  /** What one request makes of the contents. */
  function Served(c: seq<seq<seq<byte>>>, req: Request): (d: seq<seq<seq<byte>>>)
    ensures |c| <= |d|
  {
    match req
    case Make(_, _) => c + [[]]
    case Append(h, bytes) => if h < |c| then c[h := c[h] + [bytes]] else c
  }

  /** The blocks one request takes. */
  function Cost(c: seq<seq<seq<byte>>>, req: Request): nat {
    match req
    case Make(_, _) => 1
    case Append(h, _) => if h < |c| then 1 + IndexNeed(|c[h]|) else 0
  }

  lemma {:induction false} ServedFootprint(c: seq<seq<seq<byte>>>, req: Request)
    ensures Footprint(Served(c, req)) == Footprint(c) + Cost(c, req)
  {
    match req
    case Make(_, _) =>
      var d := c + [[]];
      assert c[..|c|] == d[..|c|];
      FilesSizeSame(c, d, |c|);
    case Append(h, bytes) =>
      if h < |c| { FilesSizeAppend(c, h, bytes, |c|); }
  }

  /** Requests only add. */
  lemma {:induction false} LaterLarger(reqs: seq<Request>, i: nat)
    requires i <= |reqs|
    ensures Footprint(Contents(reqs[..i])) <= Footprint(Contents(reqs))
    ensures AllSmall(Contents(reqs)) ==> AllSmall(Contents(reqs[..i]))
    decreases |reqs|
  {
    if i == |reqs| {
      assert reqs[..i] == reqs;
    } else {
      var before := reqs[..|reqs| - 1];
      assert before[..i] == reqs[..i];
      LaterLarger(before, i);
      ServedFootprint(Contents(before), reqs[|reqs| - 1]);
      StillSmall(Contents(before), reqs[|reqs| - 1]);
    }
  }

  lemma {:induction false} StillSmall(c: seq<seq<seq<byte>>>, req: Request)
    ensures AllSmall(Served(c, req)) ==> AllSmall(c)
    ensures AllSmall(c) ==>
              (AllSmall(Served(c, req)) <==> (req.Append? && req.h < |c| ==> |c[req.h]| < LN_NBLKS))
  {
    var d := Served(c, req);
    assert forall h :: 0 <= h < |c| ==> |c[h]| <= |d[h]|;
    if req.Append? && req.h < |c| { assert |d[req.h]| == |c[req.h]| + 1; }
  }

  lemma {:induction false} NothingYet()
    ensures Footprint([[]]) == 0 && AllSmall([[]])
  {
    assert FilesSize([[]], 1) == FilesSize([[]], 0) + IndexBlocks(0);
  }

  // ------------------------------------------------------- runs

  lemma {:induction false} LogLengths(fs: Fs, bk: Book)
    requires Valid(fs, bk)
    ensures forall h :: 0 <= h < |bk.tracks| ==> |bk.tracks[h].log| == |bk.tracks[h].data|
  {
    forall h | 0 <= h < |bk.tracks| ensures |bk.tracks[h].log| == |bk.tracks[h].data| {
      assert InodeOk(fs, bk, h);
    }
  }

  method Serve(b: Builder, req: Request, ghost c: seq<seq<seq<byte>>>) returns (ok: bool)
    requires b.Ready() && Holds(b.bk, c) && (req.Append? ==> |req.bytes| <= BLKSIZE)
    requires AllSmall(c)
    modifies b
    ensures ok <==> AllSmall(Served(c, req)) && Cost(c, req) <= old(b.unused)
    ensures ok ==> b.Ready() && Holds(b.bk, Served(c, req)) && b.unused == old(b.unused) - Cost(c, req)
  {
    StillSmall(c, req);
    LogLengths(b.Now(), b.bk);
    match req
    case Make(host, kind) =>
      var h;
      ok, h := b.AllocCacheInode(host, kind);
    case Append(h, bytes) =>
      if h < |b.inodes| {
        ok := b.AppendNew(h, bytes);
      } else {
        ok := true;
      }
  }

  method Finish(b: Builder, info: seq<byte>, ghost c: seq<seq<seq<byte>>>) returns (image: Image, inos: seq<nat>)
    requires b.Ready() && Holds(b.bk, c) && |info| == 32
    modifies b
    ensures |inos| == |c| && inos[0] == BLKN_ROOT
    ensures forall h :: 0 <= h < |c| ==> ReadsBack(image, inos[h], c[h])
    ensures SpaceAccounted(image, inos, b.ninos, old(b.unused))
  {
    b.Close(info);
    image := b.image;
    var nodes := b.inodes;
    inos := seq(|nodes|, h requires 0 <= h < |nodes| => nodes[h].ino);
    forall h | 0 <= h < |c| ensures ReadsBack(image, inos[h], c[h]) {
      FileReadBack(b.Now(), b.bk, h);
    }
    FreeBitsCounted(image, b.nextIno, b.ninos);
    AllNeeded(b.Now(), b.bk, inos);
  }

  /** The space and the file sizes that the requests come to, whatever their order. */
  predicate Feasible(n: nat, c: seq<seq<seq<byte>>>) {
    FirstData(n) < n && AllSmall(c) && Footprint(c) <= n - FirstData(n)
  }

  /** The requests, one after the other. */
  method ServeAll(b: Builder, reqs: seq<Request>) returns (ok: bool)
    requires b.Ready() && Writable(reqs) && Holds(b.bk, [[]])
    modifies b
    ensures ok <==> AllSmall(Contents(reqs)) && Footprint(Contents(reqs)) <= old(b.unused)
    ensures ok ==> b.Ready() && Holds(b.bk, Contents(reqs)) && b.unused == old(b.unused) - Footprint(Contents(reqs))
  {
    NothingYet();
    var i := 0;
    while i < |reqs|
      invariant 0 <= i <= |reqs| && b.Ready()
      invariant Holds(b.bk, Contents(reqs[..i])) && AllSmall(Contents(reqs[..i]))
      invariant b.unused == old(b.unused) - Footprint(Contents(reqs[..i]))
    {
      assert reqs[..i + 1][..i] == reqs[..i];
      LaterLarger(reqs, i + 1);
      ServedFootprint(Contents(reqs[..i]), reqs[i]);
      var done := Serve(b, reqs[i], Contents(reqs[..i]));
      if !done { return false; }
      i := i + 1;
    }
    assert reqs[..i] == reqs;
    ok := true;
  }

  /**
    Image round trip over whole runs.  The run is stopped exactly when the image file is too small for what was
    asked or some file grows too large, and otherwise on the finished image block `k` of inode `h` reads back as
    the `k`-th block appended to `h`, for all `h` and `k`, and every block is free or needed.
   */
  method Build(blocks: nat, disk: Image, reqs: seq<Request>, info: seq<byte>)
    returns (ok: bool, image: Image, inos: seq<nat>)
    requires Writable(reqs) && |info| == 32
    ensures var n := if blocks < 524288 then blocks else 524288;
            && (ok <==> Feasible(n, Contents(reqs)))
            && (ok ==> SpaceAccounted(image, inos, n, n - FirstData(n) - Footprint(Contents(reqs))))
    ensures ok ==> |inos| == |Contents(reqs)| && inos[0] == BLKN_ROOT
    ensures ok ==> forall h :: 0 <= h < |inos| ==> ReadsBack(image, inos[h], Contents(reqs)[h])
  {
    ok, image, inos := false, map[], [];
    if FirstData(Usable(blocks)) >= Usable(blocks) { return; }
    var b := new Builder(blocks, disk);
    ok := ServeAll(b, reqs);
    if ok { image, inos := Finish(b, info, Contents(reqs)); }
  }
}
