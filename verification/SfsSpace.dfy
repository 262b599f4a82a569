/**
  The space of a finished image, as a reader finds it: how many blocks the bitmap takes, and that every block
  marked used belongs to the super block, the bitmap, or an inode of the image.
 */
module SfsSpace {
  import opened Options
  import opened SfsBytes
  import opened SfsModel
  import opened SfsSteps
  import opened SfsReader
  import opened SfsBuilder

  /** The bitmap takes as many blocks as its bits need, and no more. */
  lemma {:induction false} BitmapFits(n: nat)
    ensures FirstData(n) >= 2 && n <= 32768 * (FirstData(n) - 2)
    ensures if n > 0 then 32768 * (FirstData(n) - 3) < n else FirstData(n) == 2
  {
  }

  /** Of an image file the first 524288 blocks are used, or all it has. */
  lemma {:induction false} UsableSmaller(blocks: nat)
    ensures Usable(blocks) <= blocks && Usable(blocks) <= 524288
    ensures Usable(blocks) == blocks || Usable(blocks) == 524288
  {
  }

  // ------------------------------------------------------- what an inode holds

  /** Block `x` is one of the inode in block `ino`: data, the indirect block, the table of leaves, or a leaf named there. */
  ghost predicate Within(img: Image, ino: nat, x: nat) {
    || (exists k: nat :: k < InodeBlocks(img, ino) && Resolve(img, ino, k) == x)
    || BlockWord(img, ino, 15) == x || BlockWord(img, ino, 16) == x
    || (exists i: nat :: i < 1024 && BlockWord(img, BlockWord(img, ino, 16), i) == x)
  }

  ghost predicate Reached(img: Image, inos: seq<nat>, x: nat) {
    exists h: nat :: h < |inos| && (inos[h] == x || Within(img, inos[h], x))
  }

  ghost predicate NumbersOf(inos: seq<nat>, inodes: seq<Inode>) {
    |inos| == |inodes| && forall h :: 0 <= h < |inos| ==> inos[h] == inodes[h].ino
  }

  lemma {:induction false} DataWithin(fs: Fs, bk: Book, h: nat, k: nat)
    requires Valid(fs, bk) && Flushed(fs, fs.image) && h < |fs.inodes| && k < |bk.tracks[h].log|
    ensures Within(fs.image, fs.inodes[h].ino, bk.tracks[h].log[k])
  {
    ImageInode(fs, bk, fs.image, h);
    ImageResolves(fs, bk, fs.image, h, k);
  }

  lemma {:induction false} TopWithin(fs: Fs, bk: Book, h: nat, c: nat)
    requires Valid(fs, bk) && Flushed(fs, fs.image) && h < |fs.inodes| && bk.tracks[h].top == Some(c)
    ensures c < |fs.index| && Within(fs.image, fs.inodes[h].ino, fs.index[c].ino)
  {
    Pointers(fs, bk, h);
    PointerWords(fs, bk, fs.image, h);
  }

  lemma {:induction false} LeafWithin(fs: Fs, bk: Book, h: nat, i: nat)
    requires Valid(fs, bk) && Flushed(fs, fs.image) && h < |fs.inodes| && i < |bk.tracks[h].leaf|
    ensures bk.tracks[h].leaf[i] < |fs.index|
    ensures Within(fs.image, fs.inodes[h].ino, fs.index[bk.tracks[h].leaf[i]].ino)
  {
    Pointers(fs, bk, h);
    PointerWords(fs, bk, fs.image, h);
    if i > 0 { TableWord(fs, bk, fs.image, h, i - 1); }
  }

  /** Whoever owns a number, the reader comes to it. */
  lemma {:induction false} PlacedReached(fs: Fs, bk: Book, inos: seq<nat>, x: nat)
    requires Valid(fs, bk) && Flushed(fs, fs.image) && NumbersOf(inos, fs.inodes) && Placed(fs, bk, x)
    ensures Reached(fs.image, inos, x)
  {
    match bk.owner[x]
    case InodeBlock(h) => assert inos[h] == x;
    case DataBlock(h, k) =>
      DataWithin(fs, bk, h, k);
      assert inos[h] == fs.inodes[h].ino;
    case IndexOwner(c) =>
      match bk.role[c]
      case Top(h) =>
        TopWithin(fs, bk, h, c);
        assert inos[h] == fs.inodes[h].ino;
      case Leaf(h, i) =>
        LeafWithin(fs, bk, h, i);
        assert inos[h] == fs.inodes[h].ino;
  }

  // ------------------------------------------------------- the whole image

  /** Bit `b` of the free map is in block `x`. */
  predicate BitIn(x: nat, b: nat) { x == 2 + b / 32768 }

  /** Block `x` of an image of `n` blocks has a purpose. */
  ghost predicate Needed(img: Image, inos: seq<nat>, n: nat, x: nat) {
    x == 0 || x == 1 || (exists b: nat :: b < n && BitIn(x, b)) || Reached(img, inos, x)
  }

  lemma {:induction false} BitmapNeeded(img: Image, inos: seq<nat>, n: nat, x: nat)
    requires x < FirstData(n)
    ensures Needed(img, inos, n, x)
  {
    BitmapFits(n);
    if x >= 2 { assert BitIn(x, 32768 * (x - 2)) && 32768 * (x - 2) < n; }
  }

  lemma {:induction false} AllNeeded(fs: Fs, bk: Book, inos: seq<nat>)
    requires Valid(fs, bk) && NoneLost(fs, bk, 0) && Flushed(fs, fs.image) && NumbersOf(inos, fs.inodes)
    ensures forall x: nat :: x < fs.nextIno ==> Needed(fs.image, inos, fs.ninos, x)
  {
    forall x: nat | x < fs.nextIno ensures Needed(fs.image, inos, fs.ninos, x) {
      if x < FirstData(fs.ninos) {
        BitmapNeeded(fs.image, inos, fs.ninos, x);
      } else {
        assert GivenOut(fs, x);
        PlacedReached(fs, bk, inos, x);
      }
    }
  }

  /**
    What the super block and the bitmap of a finished image of `n` blocks say: the last `left` blocks are free, and
    every other block is needed.
   */
  ghost predicate SpaceAccounted(img: Image, inos: seq<nat>, n: nat, left: nat) {
    && left <= n && BlockWord(img, 0, 0) == 0x2f8dbe2a && BlockWord(img, 0, 1) == n && BlockWord(img, 0, 2) == left
    && (forall x :: 0 <= x < n ==> (MapBit(img, x) <==> n - left <= x))
    && |set x: nat | x < n && MapBit(img, x)| == left
    && (forall x: nat :: x < n && !MapBit(img, x) ==> Needed(img, inos, n, x))
  }
}
