/** What a reader of a finished image finds, byte by byte and entry by entry. */
module SfsFound {
  import opened SfsBytes
  import opened SfsModel
  import opened SfsReader
  import opened SfsTree
  import opened SfsRuns
  import opened SfsVisits
  import opened SfsCreate

  // ------------------------------------------------------- files

  lemma {:induction false} ChunkByte(content: seq<byte>, j: nat)
    requires j < |content|
    ensures j / 4096 < |Chunks(content)| && j % 4096 < |Chunks(content)[j / 4096]|
    ensures Chunks(content)[j / 4096][j % 4096] == content[j]
    decreases |content|
  {
    if j >= BLKSIZE {
      ChunkByte(content[BLKSIZE..], j - BLKSIZE);
      assert (j - BLKSIZE) / 4096 == j / 4096 - 1 && (j - BLKSIZE) % 4096 == j % 4096;
    }
  }

  /** Byte `j` of a file stands in block `j / 4096` of it, and there are no more blocks than that takes. */
  lemma {:induction false} FileByteFound(img: Image, ino: nat, content: seq<byte>, j: nat)
    requires ReadsBack(img, ino, Chunks(content)) && j < |content|
    ensures HasBlock(img, ino, j / 4096) && img[Resolve(img, ino, j / 4096)][j % 4096] == content[j]
    ensures 4096 * (InodeBlocks(img, ino) - 1) < |content| <= 4096 * InodeBlocks(img, ino)
  {
    ChunkByte(content, j);
    ChunksCounted(content);
    var c := Chunks(content)[j / 4096];
    assert Pad(c)[..|c|][j % 4096] == c[j % 4096];
  }

  // ------------------------------------------------------- directories

  /** How many of these objects are stored. */
  function Stored(kids: seq<Layout>): nat {
    if |kids| == 0 then 0 else Stored(kids[..|kids| - 1]) + if kids[|kids| - 1].Absent? then 0 else 1
  }

  lemma {:induction false} ShownCounted(entries: seq<Entry>, kids: seq<Layout>)
    requires |entries| == |kids|
    ensures |Shown(entries, kids)| == Stored(kids)
  {
    if |entries| > 0 { ShownCounted(entries[..|entries| - 1], kids[..|kids| - 1]); }
  }

  lemma {:induction false} ShownAt(entries: seq<Entry>, kids: seq<Layout>, i: nat)
    requires |entries| == |kids| && i < |kids| && !kids[i].Absent?
    ensures Stored(kids[..i]) < |Shown(entries, kids)|
    ensures Shown(entries, kids)[Stored(kids[..i])] == (entries[i].name, kids[i].h)
    decreases |entries|
  {
    var n := |entries| - 1;
    ShownCounted(entries[..n], kids[..n]);
    if i < n {
      ShownAt(entries[..n], kids[..n], i);
      assert kids[..n][..i] == kids[..i];
    }
  }

  /** Block `k` of the directory in block `ino` is an entry for `number` under the first 252 bytes of `name`. */
  ghost predicate EntryAt(img: Image, ino: nat, k: nat, name: seq<byte>, number: nat) {
    && k < InodeBlocks(img, ino) && HasBlock(img, ino, k)
    && WordAt(img[Resolve(img, ino, k)], 0) == number
    && EntryName(img[Resolve(img, ino, k)]) == if |name| <= 252 then name else name[..252]
  }

  lemma {:induction false} NameFound(img: Image, inos: seq<nat>, ino: nat, names: seq<(seq<byte>, nat)>, k: nat)
    requires ShowsNames(img, inos, ino, names) && k < |names|
    ensures names[k].1 < |inos| && EntryAt(img, ino, k, names[k].0, inos[names[k].1])
  {
  }

  /** What a directory lists: itself, its parent, and the objects stored in it. */
  ghost function Names(h: nat, parent: nat, entries: seq<Entry>, kids: seq<Layout>): seq<(seq<byte>, nat)>
    requires |entries| == |kids|
  {
    [(DOT, h), (DOTDOT, parent)] + Shown(entries, kids)
  }

  lemma {:induction false} OwnFound(img: Image, inos: seq<nat>, h: nat, parent: nat, names: seq<(seq<byte>, nat)>)
    requires h < |inos| && ShowsNames(img, inos, inos[h], names) && |names| >= 2
    requires names[0] == (DOT, h) && names[1] == (DOTDOT, parent)
    ensures parent < |inos| && EntryAt(img, inos[h], 0, [46], inos[h]) && EntryAt(img, inos[h], 1, [46, 46], inos[parent])
  {
    NameFound(img, inos, inos[h], names, 0);
    NameFound(img, inos, inos[h], names, 1);
  }

  lemma {:induction false} NamesAt(h: nat, parent: nat, entries: seq<Entry>, kids: seq<Layout>, i: nat)
    requires |entries| == |kids| && i < |kids| && !kids[i].Absent?
    ensures 2 + Stored(kids[..i]) < |Names(h, parent, entries, kids)|
    ensures Names(h, parent, entries, kids)[2 + Stored(kids[..i])] == (entries[i].name, kids[i].h)
  {
    ShownAt(entries, kids, i);
  }

  lemma {:induction false} KidFound(img: Image, inos: seq<nat>, ino: nat, h: nat, parent: nat, entries: seq<Entry>,
                                    kids: seq<Layout>, i: nat)
    requires |entries| == |kids| && ShowsNames(img, inos, ino, Names(h, parent, entries, kids))
    requires i < |kids| && !kids[i].Absent?
    ensures kids[i].h < |inos| && EntryAt(img, ino, 2 + Stored(kids[..i]), entries[i].name, inos[kids[i].h])
  {
    NamesAt(h, parent, entries, kids, i);
    NameFound(img, inos, ino, Names(h, parent, entries, kids), 2 + Stored(kids[..i]));
  }

  /** The entry for object `i` of a directory stands behind those for the objects stored before it. */
  ghost predicate KidAt(img: Image, inos: seq<nat>, ino: nat, entries: seq<Entry>, kids: seq<Layout>, i: nat)
    requires i < |entries| == |kids|
  {
    kids[i].Absent? || (kids[i].h < |inos|
                        && EntryAt(img, ino, 2 + Stored(kids[..i]), entries[i].name, inos[kids[i].h]))
  }

  /** A directory has an entry for itself, one for its parent, one for each object stored, in order, and no other. */
  lemma {:induction false} EntriesFound(img: Image, inos: seq<nat>, h: nat, parent: nat, entries: seq<Entry>,
                                        kids: seq<Layout>)
    requires ShowsDir(img, inos, h, parent, entries, kids)
    ensures parent < |inos| && InodeBlocks(img, inos[h]) == 2 + Stored(kids)
    ensures EntryAt(img, inos[h], 0, [46], inos[h]) && EntryAt(img, inos[h], 1, [46, 46], inos[parent])
    ensures forall i :: 0 <= i < |kids| ==> KidAt(img, inos, inos[h], entries, kids, i)
  {
    ShownCounted(entries, kids);
    OwnFound(img, inos, h, parent, Names(h, parent, entries, kids));
    forall i | 0 <= i < |kids| ensures KidAt(img, inos, inos[h], entries, kids, i) {
      if !kids[i].Absent? { KidFound(img, inos, inos[h], h, parent, entries, kids, i); }
    }
  }
}
