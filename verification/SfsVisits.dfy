/**
  When lab8/tools/mksfs.c stops and how much space a tree takes, entry by entry in the order in which they are
  visited; limits and sizes in bytes and blocks.
 */
module SfsVisits {
  import opened SfsBytes
  import opened SfsModel
  import opened SfsSteps
  import opened SfsRuns
  import opened SfsTree
  import opened SfsPlan

  /** An entry, and the number of blocks its directory has when it is visited. */
  datatype Visit = Visit(e: Entry, place: nat)

  /** The entries visited, names with a dot in front excepted: a directory before what is in it. */
  function Visits(entries: seq<Entry>, place: nat): seq<Visit> {
    if |entries| == 0 then []
    else if |entries[0].name| > 0 && entries[0].name[0] == 46 then Visits(entries[1..], place)
    else
      var e := entries[0];
      [Visit(e, place)] + Inside(e.node) + Visits(entries[1..], if e.node.Special? then place else place + 1)
  }

  function Inside(node: Node): seq<Visit> {
    if node.Directory? then Visits(node.entries, 2) else []
  }

  /** The host number the visit adds to those met. */
  function Met(v: Visit): set<nat> {
    match v.e.node
    case Directory(host, _) => {host}
    case Regular(host, _) => {host}
    case Symlink(host, _) => {host}
    case Special => {}
  }

  function AllMet(vs: seq<Visit>): set<nat> {
    if |vs| == 0 then {} else Met(vs[0]) + AllMet(vs[1..])
  }

  /** A name or a target too long, a directory or a file too large, or a directory met before. */
  predicate Refused(v: Visit, met: set<nat>) {
    || |v.e.name| > 255
    || match v.e.node
       case Special => false
       case Regular(host, content) => v.place >= 32768 || (host !in met && |content| > 134217728)
       case Symlink(_, target) => v.place >= 32768 || |target| >= 4096
       case Directory(host, _) => v.place >= 32768 || host in met
  }

  predicate Accepted(vs: seq<Visit>, met: set<nat>) {
    |vs| == 0 || (!Refused(vs[0], met) && Accepted(vs[1..], met + Met(vs[0])))
  }

  /** The blocks that hold `n` bytes. */
  function BlocksFor(n: nat): nat { (n + 4095) / 4096 }

  /** The index blocks that `m` blocks need: one for every 1024 behind the first 12, and one more for a second such. */
  function IndexFor(m: nat): nat {
    if m <= 12 then 0 else if m <= 1036 then 1 else (m - 12 + 1023) / 1024 + 1
  }

  /** The blocks of a file or directory, index blocks included. */
  function Room(m: nat): nat { m + IndexFor(m) }

  /** The entry itself, and what it stands for unless that is there already. */
  function Price(v: Visit, met: set<nat>): int {
    var entry := Room(v.place + 1) - Room(v.place);
    match v.e.node
    case Special => 0
    case Regular(host, content) => entry + if host in met then 0 else 1 + Room(BlocksFor(|content|))
    case Symlink(_, _) => entry + 2
    case Directory(_, _) => entry + 3
  }

  function Total(vs: seq<Visit>, met: set<nat>): int {
    if |vs| == 0 then 0 else Price(vs[0], met) + Total(vs[1..], met + Met(vs[0]))
  }

  // ------------------------------------------------------- blocks

  lemma {:induction false} IndexForIs(m: nat)
    ensures IndexFor(m) == IndexBlocks(m)
  {
  }

  lemma {:induction false} EntryPrice(n: nat)
    ensures Room(n + 1) - Room(n) == NextCost(n)
  {
    IndexForIs(n);
    IndexForIs(n + 1);
    IndexBlocksStep(n);
  }

  lemma {:induction false} ChunksCounted(content: seq<byte>)
    ensures |Chunks(content)| == BlocksFor(|content|)
  {
    if |content| > BLKSIZE { ChunksCounted(content[BLKSIZE..]); }
  }

  // ------------------------------------------------------- the plan

  /** The plan is what the visits come to. */
  ghost predicate Comes(p: Plan, vs: seq<Visit>, met: set<nat>) {
    && (p.Go? <==> Accepted(vs, met))
    && (p.Go? ==> p.cost == Total(vs, met) && p.seen == met + AllMet(vs))
  }

  lemma {:induction false} Joined(us: seq<Visit>, vs: seq<Visit>, met: set<nat>)
    ensures Accepted(us + vs, met) <==> Accepted(us, met) && Accepted(vs, met + AllMet(us))
    ensures Total(us + vs, met) == Total(us, met) + Total(vs, met + AllMet(us))
    ensures AllMet(us + vs) == AllMet(us) + AllMet(vs)
    decreases |us|
  {
    if |us| == 0 {
      assert us + vs == vs && met + {} == met;
    } else {
      assert (us + vs)[1..] == us[1..] + vs;
      Joined(us[1..], vs, met + Met(us[0]));
      assert met + Met(us[0]) + AllMet(us[1..]) == met + AllMet(us);
    }
  }

  lemma {:induction false} One(v: Visit, met: set<nat>)
    ensures Accepted([v], met) <==> !Refused(v, met)
    ensures Total([v], met) == Price(v, met) && AllMet([v]) == Met(v)
  {
    assert [v][1..] == [];
  }

  /** A visit that stands for something, and what it comes to. */
  lemma {:induction false} VisitComes(v: Visit, met: set<nat>)
    requires !v.e.node.Directory? && !Dotted(v.e.name)
    ensures Comes(PlanEntry(v.e, v.place, met), [v], met)
  {
    One(v, met);
    EntryPrice(v.place);
    match v.e.node
    case Regular(host, content) =>
      ChunksCounted(content);
      IndexForIs(BlocksFor(|content|));
      assert host in met ==> met + {host} == met;
    case Symlink(host, _) =>
    case Special => assert met + {} == met;
  }

  lemma {:induction false} DirectoryComes(v: Visit, met: set<nat>)
    requires v.e.node.Directory? && !Dotted(v.e.name)
    ensures Comes(PlanEntry(v.e, v.place, met), [v] + Inside(v.e.node), met)
    decreases v.e, 0
  {
    var host, entries := v.e.node.host, v.e.node.entries;
    One(v, met);
    EntryPrice(v.place);
    Joined([v], Visits(entries, 2), met);
    RestComes(entries, 2, met + {host});
    assert PlanNode(v.e.node, met) == PlanDir(host, entries, met);
    assert met + AllMet([v]) == met + {host};
    assert met + {host} + AllMet(Visits(entries, 2)) == met + AllMet([v] + Visits(entries, 2));
  }

  lemma {:induction false} EntryComes(v: Visit, met: set<nat>)
    requires !Dotted(v.e.name)
    ensures Comes(PlanEntry(v.e, v.place, met), [v] + Inside(v.e.node), met)
    decreases v.e, 1
  {
    if v.e.node.Directory? {
      DirectoryComes(v, met);
    } else {
      assert [v] + [] == [v];
      VisitComes(v, met);
    }
  }

  lemma {:induction false} ThenRest(p: Plan, us: seq<Visit>, q: Plan, vs: seq<Visit>, met: set<nat>)
    requires Comes(p, us, met) && (p.Go? ==> Comes(q, vs, p.seen))
    ensures Comes(if p.Stop? then Stop else Plus(q, p.cost), us + vs, met)
  {
    Joined(us, vs, met);
    if p.Go? && q.Go? {
      assert met + AllMet(us) + AllMet(vs) == met + AllMet(us + vs);
    }
  }

  lemma {:induction false} RestComes(entries: seq<Entry>, place: nat, met: set<nat>)
    ensures Comes(PlanRest(entries, place, met), Visits(entries, place), met)
    decreases entries, 0
  {
    if |entries| == 0 {
      assert met + {} == met;
    } else {
      var e := entries[0];
      var p := PlanEntry(e, place, met);
      if Dotted(e.name) {
        RestComes(entries[1..], place, met);
      } else {
        var v := Visit(e, place);
        EntryComes(v, met);
        if p.Go? { RestComes(entries[1..], Longer(e, place), p.seen); }
        ThenRest(p, [v] + Inside(e.node), PlanRest(entries[1..], Longer(e, place), if p.Go? then p.seen else met),
                 Visits(entries[1..], Longer(e, place)), met);
      }
    }
  }
}
