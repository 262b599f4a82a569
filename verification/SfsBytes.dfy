/**
  How lab8/tools/mksfs.c lays values out in 4096-byte blocks: 32-bit little-endian words, zero padding,
  bitmap bits and directory entry names; and what a reader of the image gets back.
 */
module SfsBytes {
  import opened Bits

  const BLKSIZE: nat := 4096
  const BLKBITS: nat := 32768       // bits in one bitmap block
  const NENTRY: nat := 1024         // words in one block
  const NAME_BYTES: nat := 252      // bytes of a name that reach the disk
  const TWO32: nat := 0x1_0000_0000

  type byte = x: nat | x < 256

  // ------------------------------------------------------- words

  function WordByte(w: nat, i: nat): byte
    requires i < 4
  {
    if i == 0 then w % 256
    else if i == 1 then w / 256 % 256
    else if i == 2 then w / 65536 % 256
    else w / 16777216 % 256
  }

  /** An array of 32-bit words in memory order. */
  function Words(ws: seq<nat>): (bs: seq<byte>)
    ensures |bs| == 4 * |ws|
  {
    seq(4 * |ws|, i requires 0 <= i < 4 * |ws| => WordByte(ws[i / 4], i % 4))
  }

  /** The word at index `i` of a block. */
  function WordAt(bs: seq<byte>, i: nat): nat
    requires 4 * i + 4 <= |bs|
  {
    (bs[4 * i] as nat) + 256 * (bs[4 * i + 1] as nat) + 65536 * (bs[4 * i + 2] as nat) + 16777216 * (bs[4 * i + 3] as nat)
  }

  lemma WordBytes(w: nat)
    requires w < TWO32
    ensures (WordByte(w, 0) as nat) + 256 * (WordByte(w, 1) as nat) + 65536 * (WordByte(w, 2) as nat)
            + 16777216 * (WordByte(w, 3) as nat) == w
  {
    assert w / 256 / 256 == w / 65536 && w / 65536 / 256 == w / 16777216;
  }

  lemma WordsAt(ws: seq<nat>, i: nat)
    requires i < |ws| && ws[i] < TWO32
    ensures WordAt(Words(ws), i) == ws[i]
  {
    WordBytes(ws[i]);
    var bs := Words(ws);
    assert bs[4 * i] == WordByte(ws[i], 0) && bs[4 * i + 1] == WordByte(ws[i], 1);
    assert bs[4 * i + 2] == WordByte(ws[i], 2) && bs[4 * i + 3] == WordByte(ws[i], 3);
  }

  // ------------------------------------------------------- blocks

  /** write_block: a shorter buffer is completed with zeros. */
  function Pad(bs: seq<byte>): (r: seq<byte>)
    requires |bs| <= BLKSIZE
    ensures |r| == BLKSIZE && r[..|bs|] == bs && forall i :: |bs| <= i < BLKSIZE ==> r[i] == 0
  {
    bs + seq(BLKSIZE - |bs|, _ => 0)
  }

  /** Words written to a block are read back from it. */
  lemma PaddedWordsAt(ws: seq<nat>, i: nat)
    requires |ws| <= NENTRY && i < |ws| && ws[i] < TWO32
    ensures WordAt(Pad(Words(ws)), i) == ws[i]
  {
    WordsAt(ws, i);
    var r := Pad(Words(ws));
    assert forall j :: 0 <= j < |Words(ws)| ==> r[j] == r[..|Words(ws)|][j];
  }

  // ------------------------------------------------------- bitmaps

  lemma {:induction false} WordByteBit(w: nat, i: nat, t: nat)
    requires i < 4 && t < 8
    ensures Bit(WordByte(w, i), t) == Bit(w, 8 * i + t)
  {
    Powers();
    var k := 8 * i;
    var q := w / Pow2(k);
    assert WordByte(w, i) == q % 256;
    ByteBit(q, t);
    QuotientBit(w, k, q, t);
  }

  /** What a reader takes bit `j` of a bitmap block to be. */
  predicate BitAt(bs: seq<byte>, j: nat)
    requires |bs| == BLKSIZE && j < BLKBITS
  {
    Bit(bs[j / 8], j % 8)
  }

  /** Bit `j % 32` of word `j / 32` of the buffer is bit `j % 8` of byte `j / 8`. */
  lemma {:induction false} WordsBitAt(ws: seq<nat>, j: nat)
    requires |ws| == NENTRY && j < BLKBITS
    ensures BitAt(Words(ws), j) == Bit(ws[j / 32], j % 32)
  {
    var i, t := j % 32 / 8, j % 8;
    assert j / 8 / 4 == j / 32 && j / 8 % 4 == i && 8 * i + t == j % 32;
    WordByteBit(ws[j / 32], i, t);
  }

  // ------------------------------------------------------- directory entries

  /** A C string: no byte of it is zero. */
  ghost predicate IsName(name: seq<byte>) {
    forall i :: 0 <= i < |name| ==> name[i] != 0
  }

  /** strcpy of `name` into the entry's 256-byte buffer, which keeps its old bytes behind the terminator. */
  function CopyName(buf: seq<byte>, name: seq<byte>): (r: seq<byte>)
    requires |buf| == 256 && |name| <= 255
    ensures |r| == 256
  {
    name + [0] + buf[|name| + 1..]
  }

  /** add_entry writes the first 256 bytes of the 260-byte entry: the number and 252 bytes of the name. */
  function EntryBytes(ino: nat, buf: seq<byte>): (r: seq<byte>)
    requires |buf| == 256
    ensures |r| == 256
  {
    Words([ino]) + buf[..NAME_BYTES]
  }

  function UpToNul(bs: seq<byte>): (r: seq<byte>)
    ensures |r| <= |bs| && r == bs[..|r|]
  {
    if bs == [] || bs[0] == 0 then [] else [bs[0]] + UpToNul(bs[1..])
  }

  /** The name a reader finds in an entry block. */
  function EntryName(block: seq<byte>): seq<byte>
    requires |block| == BLKSIZE
  {
    UpToNul(block[4..260])
  }

  lemma {:induction false} UpToNulAt(bs: seq<byte>, n: nat)
    requires n < |bs| && bs[n] == 0 && forall i :: 0 <= i < n ==> bs[i] != 0
    ensures UpToNul(bs) == bs[..n]
  {
    if n > 0 {
      UpToNulAt(bs[1..], n - 1);
      assert [bs[0]] + bs[1..][..n - 1] == bs[..n];
    }
  }

  /** Where the bytes of the buffer go in the block. */
  lemma {:induction false} EntryBlockAt(ino: nat, buf: seq<byte>)
    requires ino < TWO32 && |buf| == 256
    ensures var block := Pad(EntryBytes(ino, buf));
            && WordAt(block, 0) == ino
            && (forall k :: 0 <= k < NAME_BYTES ==> block[4 + k] == buf[k])
            && (forall k :: 256 <= k < BLKSIZE ==> block[k] == 0)
  {
    var e := EntryBytes(ino, buf);
    var block := Pad(e);
    assert forall j :: 0 <= j < 256 ==> block[j] == block[..256][j] == e[j];
    WordsAt([ino], 0);
    assert forall j :: 0 <= j < 4 ==> e[j] == Words([ino])[j];
    assert forall k :: 0 <= k < NAME_BYTES ==> e[4 + k] == buf[..NAME_BYTES][k];
  }

  lemma {:induction false} CopiedName(buf: seq<byte>, name: seq<byte>)
    requires |buf| == 256 && |name| <= 255
    ensures CopyName(buf, name)[|name|] == 0 && forall k :: 0 <= k < |name| ==> CopyName(buf, name)[k] == name[k]
  {
  }

  /** A reader gets the number back, and the name cut to 252 bytes: all of it exactly when it is no longer. */
  lemma {:induction false} EntryReadBack(ino: nat, buf: seq<byte>, name: seq<byte>)
    requires ino < TWO32 && |buf| == 256 && |name| <= 255 && IsName(name)
    ensures var block := Pad(EntryBytes(ino, CopyName(buf, name)));
            && WordAt(block, 0) == ino
            && EntryName(block) == (if |name| <= NAME_BYTES then name else name[..NAME_BYTES])
            && (EntryName(block) == name <==> |name| <= NAME_BYTES)
  {
    var copy := CopyName(buf, name);
    var block := Pad(EntryBytes(ino, copy));
    EntryBlockAt(ino, copy);
    CopiedName(buf, name);
    var n := if |name| <= NAME_BYTES then |name| else NAME_BYTES;
    var tail := block[4..260];
    forall i | 0 <= i < n ensures tail[i] == name[i] { assert tail[i] == block[4 + i]; }
    assert tail[n] == block[4 + n];
    UpToNulAt(tail, n);
    assert tail[..n] == name[..n];
  }
}
