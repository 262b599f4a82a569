/**
  What lab8/tools/mksfs.c needs to store a directory tree: for every part of the tree the blocks it takes, and the
  reasons for which the program stops whatever the space.  Only what is being stored counts; the state of the
  builder enters through the host numbers met so far.
 */
module SfsPlan {
  import opened SfsBytes
  import opened SfsModel
  import opened SfsSteps
  import opened SfsRuns
  import opened SfsTree

  /** The blocks a file of `n` blocks takes. */
  function FileSize(n: nat): nat { n + IndexBlocks(n) }

  /** The blocks one more block takes. */
  function NextCost(n: nat): nat { 1 + IndexNeed(n) }

  lemma {:induction false} FileSizeStep(n: nat)
    ensures FileSize(n + 1) == FileSize(n) + NextCost(n)
  {
    IndexBlocksStep(n);
  }

  lemma {:induction false} FileSizeMonotone(m: nat, n: nat)
    requires m <= n
    ensures FileSize(m) <= FileSize(n)
    decreases n
  {
    if m < n {
      FileSizeMonotone(m, n - 1);
      FileSizeStep(n - 1);
    }
  }

  /** Either the program stops, or it takes `cost` blocks and has met the host numbers `seen` afterwards. */
  datatype Plan = Stop | Go(cost: nat, seen: set<nat>)

  function Plus(p: Plan, cost: nat): Plan {
    if p.Go? then p.(cost := p.cost + cost) else Stop
  }

  /** A file met before takes nothing. */
  function PlanFile(host: nat, content: seq<byte>, seen: set<nat>): Plan {
    if host in seen then Go(0, seen)
    else if |Chunks(content)| > LN_NBLKS then Stop
    else Go(1 + FileSize(|Chunks(content)|), seen + {host})
  }

  function PlanLink(host: nat, target: seq<byte>, seen: set<nat>): Plan {
    if |target| >= BLKSIZE then Stop else Go(2, seen + {host})
  }

  /** A directory whose number was met before stops the program. */
  function PlanDir(host: nat, entries: seq<Entry>, seen: set<nat>): Plan
    decreases entries, 1
  {
    if host in seen then Stop else Plus(PlanRest(entries, 2, seen + {host}), 3)
  }

  function PlanNode(node: Node, seen: set<nat>): Plan
    decreases node, 2
  {
    match node
    case Regular(host, content) => PlanFile(host, content, seen)
    case Symlink(host, target) => PlanLink(host, target, seen)
    case Directory(host, entries) => PlanDir(host, entries, seen)
    case Special => Go(0, seen)
  }

  /** The same, and an entry in a directory that has `n` blocks. */
  function Into(p: Plan, n: nat): Plan {
    if n >= LN_NBLKS then Stop else Plus(p, NextCost(n))
  }

  /** An entry of a directory that has `n` blocks. */
  function PlanEntry(e: Entry, n: nat, seen: set<nat>): Plan
    decreases e, 3
  {
    if Dotted(e.name) then Go(0, seen)
    else if |e.name| > 255 then Stop
    else if e.node.Special? then Go(0, seen)
    else Into(PlanNode(e.node, seen), n)
  }

  function Longer(e: Entry, n: nat): nat { if Listed(e) then n + 1 else n }

  function PlanRest(entries: seq<Entry>, n: nat, seen: set<nat>): Plan
    decreases entries, 0
  {
    if entries == [] then Go(0, seen)
    else
      var p := PlanEntry(entries[0], n, seen);
      if p.Stop? then Stop else Plus(PlanRest(entries[1..], Longer(entries[0], n), p.seen), p.cost)
  }

  /** The host numbers of these inodes. */
  ghost function Seen(inodes: seq<Inode>): set<nat> {
    set h | 0 <= h < |inodes| :: inodes[h].host
  }

  /** Success is what the plan says for `space` blocks, and then `left` blocks are left and `seen` has been met. */
  ghost predicate Meets(ok: bool, p: Plan, space: nat, left: nat, seen: set<nat>) {
    && (ok <==> p.Go? && p.cost <= space)
    && (ok ==> left == space - p.cost && seen == p.seen)
  }

  /** Success is what one more block for a file of `n` blocks takes. */
  ghost predicate Pays(ok: bool, n: nat, space: nat, left: nat) {
    && (ok <==> n < LN_NBLKS && NextCost(n) <= space)
    && (ok ==> left == space - NextCost(n))
  }

  /** The number of blocks of inode `h`. */
  ghost function Length(tracks: seq<Track>, h: nat): nat {
    if h < |tracks| then |tracks[h].data| else 0
  }

  lemma {:induction false} SeenSame(inodes: seq<Inode>, inodes': seq<Inode>)
    requires |inodes'| == |inodes| && SameInodes(inodes, inodes')
    ensures Seen(inodes') == Seen(inodes)
  {
    forall x | x in Seen(inodes) ensures x in Seen(inodes') {
      var h :| 0 <= h < |inodes| && inodes[h].host == x;
      assert inodes'[h].host == x;
    }
    forall x | x in Seen(inodes') ensures x in Seen(inodes) {
      var h :| 0 <= h < |inodes'| && inodes'[h].host == x;
      assert inodes[h].host == x;
    }
  }

  lemma {:induction false} SeenAdded(inodes: seq<Inode>, tracks: seq<Track>, inodes': seq<Inode>, tracks': seq<Track>,
                                     host: nat, kind: Kind)
    requires InodeAdded(inodes, tracks, inodes', tracks', host, kind)
    ensures Seen(inodes') == Seen(inodes) + {host}
  {
    assert |inodes'| == |inodes| + 1 && inodes'[|inodes|].host == host;
    forall x | x in Seen(inodes) ensures x in Seen(inodes') {
      var h :| 0 <= h < |inodes| && inodes[h].host == x;
      assert inodes'[h].host == x;
    }
    forall x | x in Seen(inodes') ensures x in Seen(inodes) + {host} {
      var h :| 0 <= h < |inodes'| && inodes'[h].host == x;
      if h < |inodes| { assert inodes[h].host == x; }
    }
  }
}
