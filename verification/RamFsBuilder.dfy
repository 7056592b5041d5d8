// The image builder (fsMaker): it fills the FAT and the clusters in place while it walks the host's
// directories. exit(1) is a false outcome.
module RamFsBuilder {
  import opened Machine
  import opened RamFs

  // --- Chains under construction ------------------------------------------------------------

  // The clusters of chain but the last are full; the last one is still to be written.
  ghost predicate ChainSoFar(d: Disk, cs: nat, data: seq<Byte>, chain: seq<nat>)
    requires DiskOK(d, cs)
  {
    && Linked(d.fat, chain)
    && Off(cs, |chain| - 1) <= |data|
    && Filled(d.cl, cs, data, chain, |chain| - 1)
  }

  // The chunk is what the data have from position at on, as far as they go.
  ghost predicate ChunkAt(chunk: seq<Byte>, data: seq<Byte>, at: nat) {
    forall j {:trigger chunk[j]} :: 0 <= j < |chunk| && at + j < |data| ==> chunk[j] == data[at + j]
  }

  lemma FilledSnoc(cl: seq<seq<Byte>>, cs: nat, data: seq<Byte>, chain: seq<nat>, chunk: seq<Byte>)
    requires |chain| >= 1 && Filled(cl, cs, data, chain, |chain| - 1) && Last(chain) < |cl| && Distinct(chain)
    requires |chunk| == cs && ChunkAt(chunk, data, Off(cs, |chain| - 1))
    ensures Filled(cl[Last(chain) := chunk], cs, data, chain, |chain|)
  {
    var cl' := cl[Last(chain) := chunk];
    forall i | 0 <= i < |chain| - 1 ensures cl'[chain[i]] == cl[chain[i]] {}
  }

  lemma LinkedSnoc(fat: seq<Word>, chain: seq<nat>, next: nat)
    requires Linked(fat, chain) && next < |fat| < WORD && fat[next] == FAT_EMPTY
    requires forall i :: 0 <= i < |chain| ==> chain[i] < FAT_END
    ensures Linked(fat[next := FAT_END][Last(chain) := next], chain + [next])
  {
    var fat', more := fat[next := FAT_END][Last(chain) := next], chain + [next];
    forall i | 0 <= i < |chain| ensures chain[i] != next {
      assert fat[chain[i]] == After(chain, i);
    }
    forall i | 0 <= i < |more| ensures fat'[more[i]] == After(more, i) {
      if i < |chain| - 1 {
        assert chain[i] != Last(chain);
      }
    }
  }

  // The last cluster is written with the rest of the data, less than a cluster.
  lemma LastChunk(d0: Disk, d1: Disk, cs: nat, data: seq<Byte>, chain: seq<nat>, chunk: seq<Byte>)
    requires DiskOK(d0, cs) && DiskOK(d1, cs) && ChainSoFar(d0, cs, data, chain) && |chunk| == cs
    requires d1.fat == d0.fat && d1.cl == d0.cl[Last(chain) := chunk]
    requires |data| < Off(cs, |chain|)
    requires ChunkAt(chunk, data, Off(cs, |chain| - 1))
    ensures FileHolds(d1, cs, data, chain)
  {
    FilledSnoc(d0.cl, cs, data, chain, chunk);
  }

  // The last cluster is filled and a new one is linked behind it.
  lemma FullChunk(d0: Disk, d1: Disk, cs: nat, data: seq<Byte>, chain: seq<nat>, chunk: seq<Byte>, next: nat)
    requires DiskOK(d0, cs) && DiskOK(d1, cs) && ChainSoFar(d0, cs, data, chain) && |chunk| == cs
    requires next < |d0.fat| && d0.fat[next] == FAT_EMPTY
    requires d1.fat == d0.fat[next := FAT_END][Last(chain) := next]
    requires d1.cl == d0.cl[Last(chain) := chunk]
    requires Off(cs, |chain|) <= |data|
    requires ChunkAt(chunk, data, Off(cs, |chain| - 1))
    ensures ChainSoFar(d1, cs, data, chain + [next])
  {
    LinkedSnoc(d0.fat, chain, next);
    FilledSnoc(d0.cl, cs, data, chain, chunk);
    var more := chain + [next];
    assert forall i :: 0 <= i < |chain| ==> more[i] == chain[i];
  }

  // A chain of the right length for a file, counted.
  lemma ChainLength(cs: nat, size: nat, m: nat)
    requires cs > 0 && m >= 1 && Off(cs, m - 1) <= size < Off(cs, m)
    ensures m == Quot(size, cs) + 1
  {
    OffQuot(size, cs, m - 1);
    OffQuot(size, cs, m);
  }

  // One cluster has the new contents x.
  ghost predicate Rewritten(d0: Disk, d1: Disk, c: nat, x: seq<Byte>) {
    c < |d0.cl| && d1.fat == d0.fat && d1.cl == d0.cl[c := x]
  }

  lemma RewrittenTwice(d0: Disk, d1: Disk, d2: Disk, c: nat)
    requires exists x :: Rewritten(d0, d1, c, x)
    requires exists x :: Rewritten(d1, d2, c, x)
    ensures Rewritten(d0, d2, c, d2.cl[c])
  {}

  lemma RewrittenExtends(d0: Disk, d1: Disk, c: nat, x: seq<Byte>)
    requires Rewritten(d0, d1, c, x) && |d0.fat| == |d0.cl| && d0.fat[c] != FAT_EMPTY
    ensures Extends(d0, d1, {}, {c})
  {}

  // A free cluster is marked, and perhaps linked behind another one.
  lemma LinkExtends(d0: Disk, d1: Disk, next: nat, last: nat)
    requires |d0.fat| == |d0.cl| && next < |d0.fat| && last < |d0.fat| < FAT_END
    requires d0.fat[next] == FAT_EMPTY && d0.fat[last] != FAT_EMPTY
    requires d1.cl == d0.cl && d1.fat == d0.fat[next := FAT_END][last := next]
    ensures Extends(d0, d1, {next}, {last})
  {}

  lemma MarkExtends(d0: Disk, d1: Disk, next: nat)
    requires |d0.fat| == |d0.cl| && next < |d0.fat| && d0.fat[next] == FAT_EMPTY
    requires d1.cl == d0.cl && d1.fat == d0.fat[next := FAT_END]
    ensures Extends(d0, d1, {next}, {})
  {}

  // What a file in the making has changed: its first cluster was there, the others were free.
  ghost predicate ChainExtends(d0: Disk, d1: Disk, chain: seq<nat>) {
    chain != [] && Extends(d0, d1, Elements(chain) - {chain[0]}, {chain[0]})
  }

  lemma ChainRewritten(d0: Disk, d1: Disk, d2: Disk, chain: seq<nat>, x: seq<Byte>)
    requires ChainExtends(d0, d1, chain) && Rewritten(d1, d2, Last(chain), x)
    ensures ChainExtends(d0, d2, chain)
  {
    assert Last(chain) in Elements(chain);
    RewrittenExtends(d1, d2, Last(chain), x);
    ExtendsTrans(d0, d1, d2, Elements(chain) - {chain[0]}, {chain[0]}, {}, {Last(chain)});
    assert {chain[0]} + ({Last(chain)} - (Elements(chain) - {chain[0]})) == {chain[0]};
    assert (Elements(chain) - {chain[0]}) + {} == Elements(chain) - {chain[0]};
  }

  lemma ChainLinked(d0: Disk, d1: Disk, d2: Disk, chain: seq<nat>, next: nat)
    requires ChainExtends(d0, d1, chain) && next < |d1.fat| < FAT_END && d1.fat[next] == FAT_EMPTY
    requires Last(chain) < |d1.fat| && d1.fat[Last(chain)] != FAT_EMPTY
    requires d2.cl == d1.cl && d2.fat == d1.fat[next := FAT_END][Last(chain) := next]
    ensures ChainExtends(d0, d2, chain + [next])
  {
    assert Last(chain) in Elements(chain);
    var e := Elements(chain) - {chain[0]};
    LinkExtends(d1, d2, next, Last(chain));
    ExtendsTrans(d0, d1, d2, e, {chain[0]}, {next}, {Last(chain)});
    assert {chain[0]} + ({Last(chain)} - e) == {chain[0]};
    assert next != chain[0];
    assert Elements(chain + [next]) - {chain[0]} == e + {next};
  }

  // How many clusters such a file has taken.
  lemma ChainCount(d0: Disk, d1: Disk, chain: seq<nat>)
    requires ChainExtends(d0, d1, chain) && Distinct(chain)
    ensures |Used(d1)| == |Used(d0)| + |chain| - 1
  {
    DistinctSize(chain);
    assert chain[0] in Elements(chain);
    ExtendsUsed(d0, d1, Elements(chain) - {chain[0]}, {chain[0]});
  }

  lemma ChainStart(d: Disk, cs: nat, data: seq<Byte>, start: nat)
    requires DiskOK(d, cs) && start < |d.fat| && d.fat[start] == FAT_END
    ensures ChainSoFar(d, cs, data, [start]) && ChainExtends(d, d, [start])
  {
    assert Elements([start]) - {start} == {};
    assert After([start], 0) == FAT_END;
  }

  // The file needs more clusters than were free.
  lemma NoRoom(d0: Disk, d1: Disk, cs: nat, data: seq<Byte>, chain: seq<nat>)
    requires cs > 0 && ChainExtends(d0, d1, chain) && Distinct(chain)
    requires Off(cs, |chain|) <= |data| && |Used(d1)| == |d0.fat|
    ensures Quot(|data|, cs) > |d0.fat| - |Used(d0)|
  {
    ChainCount(d0, d1, chain);
    OffQuot(|data|, cs, |chain|);
  }

  lemma Room(d0: Disk, d1: Disk, cs: nat, data: seq<Byte>, chain: seq<nat>)
    requires cs > 0 && DiskOK(d1, cs) && ChainExtends(d0, d1, chain) && FileHolds(d1, cs, data, chain)
    ensures Quot(|data|, cs) <= |d0.fat| - |Used(d0)|
    ensures |Used(d1)| == |Used(d0)| + Quot(|data|, cs)
  {
    ChainCount(d0, d1, chain);
    ChainLength(cs, |data|, |chain|);
    UsedIsFinite(d1);
  }

  // The acceptance of a tree is decided node by node.
  lemma AcceptStep(kids: seq<HostNode>, cs: nat, i: nat)
    requires cs > 0 && i < |kids| && !Skipped(kids[i])
    ensures Kept(kids[..i + 1]) == Kept(kids[..i]) + [KeptNode(kids[i])]
    ensures Need(kids[..i + 1], cs) == Need(kids[..i], cs) + NeedNode(kids[i], cs)
    ensures DirsFit(kids, cs) ==> SlotAt(|Kept(kids[..i])| + 1) <= cs
    ensures DirsFit(kids, cs) && kids[i].HostDir? ==> DirsFit(kids[i].kids, cs)
    ensures Need(kids[..i], cs) + NeedNode(kids[i], cs) <= Need(kids, cs)
  {
    assert kids[..i + 1][..i] == kids[..i];
    PrefixOfTree(kids, cs, i + 1);
  }

  // The directory `at` has gained the node n, whose raw form on the host is h.
  ghost predicate Gained(d0: Disk, d1: Disk, cs: nat, kids: seq<HostNode>, at: nat, ps: seq<Place>, h: HostNode,
                         p: Place)
    requires cs > 0
  {
    && DiskOK(d1, cs) && DirHolds(d1, cs, kids + [KeptNode(h)], at, ps + [p])
    && Extends(d0, d1, Clusters(p), {at})
    && |Used(d1)| == |Used(d0)| + NeedNode(h, cs)
  }

  // Cluster c was free, and is now marked as used, with a zero count in its first word.
  ghost predicate Cleared(d0: Disk, d1: Disk, c: nat) {
    && Extends(d0, d1, {c}, {}) && |Used(d1)| == |Used(d0)| + 1
    && d1.fat[c] == FAT_END && HEADER_SIZE <= |d1.cl[c]| && CountIn(d1.cl[c]) == 0
  }

  lemma ClearedBy(d0: Disk, d1: Disk, d2: Disk, c: nat, x: seq<Byte>)
    requires |d0.fat| == |d0.cl| && c < |d0.fat| && d0.fat[c] == FAT_EMPTY
    requires d1.cl == d0.cl && d1.fat == d0.fat[c := FAT_END] && Rewritten(d1, d2, c, x)
    requires HEADER_SIZE <= |x| && CountIn(x) == 0
    ensures Cleared(d0, d2, c)
  {
    MarkExtends(d0, d1, c);
    RewrittenExtends(d1, d2, c, x);
    ExtendsTrans(d0, d1, d2, {c}, {}, {}, {c});
    assert {} + ({c} - {c}) == {} && {c} + {} == {c};
    ExtendsUsed(d0, d2, {c}, {});
  }

  // Clusters in use and not named as touched are as they were.
  lemma Untouched(d0: Disk, d1: Disk, added: set<nat>, touched: set<nat>, at: nat)
    requires Extends(d0, d1, added, touched) && at in Used(d0) && at !in touched
    ensures at !in added && at in Used(d1) && d1.cl[at] == d0.cl[at] && d1.fat[at] == d0.fat[at]
  {}

  // A new file: a cluster is cleared, the data follow, and the directory gets a record.
  lemma FileExtends(d0: Disk, d2: Disk, d3: Disk, d4: Disk, at: nat, chain: seq<nat>, y: seq<Byte>)
    requires chain != [] && Extends(d0, d2, {chain[0]}, {}) && ChainExtends(d2, d3, chain)
    requires Rewritten(d3, d4, at, y) && at in Used(d0) && |d0.fat| == |d0.cl|
    ensures Extends(d0, d4, Elements(chain), {at})
    ensures at !in Elements(chain)
    ensures d3.cl[at] == d0.cl[at] && d4.fat[at] == d0.fat[at]
  {
    var c := chain[0];
    assert c in Elements(chain);
    ExtendsTrans(d0, d2, d3, {c}, {}, Elements(chain) - {c}, {c});
    assert {} + ({c} - {c}) == {};
    assert {c} + (Elements(chain) - {c}) == Elements(chain);
    Untouched(d0, d3, Elements(chain), {}, at);
    RewrittenExtends(d3, d4, at, y);
    ExtendsTrans(d0, d3, d4, Elements(chain), {}, {}, {at});
    assert {} + ({at} - Elements(chain)) == {at} && Elements(chain) + {} == Elements(chain);
  }

  lemma FileGained(d0: Disk, d2: Disk, d3: Disk, d4: Disk, cs: nat, kids: seq<HostNode>, at: nat, ps: seq<Place>,
                   h: HostNode, chain: seq<nat>)
    requires cs > 0 && DiskOK(d0, cs) && DiskOK(d2, cs) && DiskOK(d3, cs) && DiskOK(d4, cs)
    requires DirHolds(d0, cs, kids, at, ps) && d0.fat[0] != FAT_EMPTY && h.HostFile? && NameFits(h)
    requires chain != [] && Cleared(d0, d2, chain[0]) && ChainExtends(d2, d3, chain) && FileHolds(d3, cs, h.data, chain)
    requires SlotAt(|kids| + 1) <= cs < WORD && chain[0] < WORD
    requires Rewritten(d3, d4, at, AddedTo(d0.cl[at], |kids|, EntryFor(h, chain[0])))
    ensures Gained(d0, d4, cs, kids, at, ps, h, FilePlace(chain))
  {
    var p := FilePlace(chain);
    KidsAreUsed(d0, cs, kids, at, ps);
    FileExtends(d0, d2, d3, d4, at, chain, d4.cl[at]);
    Room(d2, d3, cs, h.data, chain);
    assert Used(d4) == Used(d3);
    AddedToReads(d0.cl[at], |kids|, EntryFor(h, chain[0]));
    assert Holds(d3, cs, h, p);
    HoldsFrame(d3, d4, cs, h, p);
    NodeAdded(d0, d4, cs, kids, at, ps, h, p);
  }

  // A new directory: a cluster is cleared, the parent gets a record, and then the directory is
  // filled.
  lemma DirExtends(d0: Disk, d2: Disk, d3: Disk, d4: Disk, at: nat, c: nat, below: set<nat>, y: seq<Byte>)
    requires Extends(d0, d2, {c}, {}) && Rewritten(d2, d3, at, y)
    requires Extends(d3, d4, below, {c}) && at in Used(d0) && |d0.fat| == |d0.cl|
    ensures Extends(d0, d4, {c} + below, {at})
    ensures at != c && d4.cl[at] == d3.cl[at] && d4.fat[at] == d0.fat[at]
  {
    Untouched(d0, d2, {c}, {}, at);
    RewrittenExtends(d2, d3, at, y);
    ExtendsTrans(d0, d2, d3, {c}, {}, {}, {at});
    assert {} + ({at} - {c}) == {at} && {c} + {} == {c};
    Untouched(d3, d4, below, {c}, at);
    ExtendsTrans(d0, d3, d4, {c}, {at}, below, {c});
    assert {at} + ({c} - {c}) == {at};
  }

  lemma DirGained(d0: Disk, d2: Disk, d3: Disk, d4: Disk, cs: nat, kids: seq<HostNode>, at: nat, ps: seq<Place>,
                  h: HostNode, c: nat, below: seq<Place>)
    requires cs > 0 && DiskOK(d0, cs) && DiskOK(d2, cs) && DiskOK(d3, cs) && DiskOK(d4, cs)
    requires DirHolds(d0, cs, kids, at, ps) && d0.fat[0] != FAT_EMPTY && h.HostDir? && NameFits(h)
    requires SlotAt(|kids| + 1) <= cs < WORD && c < WORD
    requires Cleared(d0, d2, c) && Rewritten(d2, d3, at, AddedTo(d0.cl[at], |kids|, EntryFor(KeptNode(h), c)))
    requires DirHolds(d4, cs, Kept(h.kids), c, below) && Extends(d3, d4, ClustersOf(below), {c})
    requires |Used(d4)| == |Used(d3)| + Need(h.kids, cs)
    ensures Gained(d0, d4, cs, kids, at, ps, h, DirPlace(c, below))
  {
    var n, p := KeptNode(h), DirPlace(c, below);
    KidsAreUsed(d0, cs, kids, at, ps);
    DirExtends(d0, d2, d3, d4, at, c, ClustersOf(below), d3.cl[at]);
    assert Used(d3) == Used(d2);
    AddedToReads(d0.cl[at], |kids|, EntryFor(n, c));
    assert Holds(d4, cs, n, p);
    NodeAdded(d0, d4, cs, kids, at, ps, n, p);
  }

  // The first i of the host's nodes are in the image.
  ghost predicate Progress(d0: Disk, d: Disk, cs: nat, kids: seq<HostNode>, i: nat, at: nat, ps: seq<Place>)
    requires cs > 0 && i <= |kids|
  {
    && DiskOK(d, cs) && DirHolds(d, cs, Kept(kids[..i]), at, ps)
    && Extends(d0, d, ClustersOf(ps), {at})
    && |Used(d)| == |Used(d0)| + Need(kids[..i], cs)
    && forall j :: 0 <= j < i && !Skipped(kids[j]) && kids[j].HostDir? ==> DirsFit(kids[j].kids, cs)
  }

  lemma Start(d0: Disk, cs: nat, kids: seq<HostNode>, at: nat)
    requires cs >= HEADER_SIZE && DiskOK(d0, cs) && at < |d0.fat| && d0.fat[at] == FAT_END && CountIn(d0.cl[at]) == 0
    ensures Progress(d0, d0, cs, kids, 0, at, [])
  {
    assert kids[..0] == [];
  }

  lemma SkipStep(d0: Disk, d: Disk, cs: nat, kids: seq<HostNode>, i: nat, at: nat, ps: seq<Place>)
    requires cs > 0 && i < |kids| && Skipped(kids[i]) && Progress(d0, d, cs, kids, i, at, ps)
    ensures Progress(d0, d, cs, kids, i + 1, at, ps)
  {
    assert kids[..i + 1][..i] == kids[..i];
  }

  lemma Advance(d0: Disk, d1: Disk, d2: Disk, cs: nat, kids: seq<HostNode>, i: nat, at: nat, ps: seq<Place>, p: Place)
    requires cs > 0 && i < |kids| && !Skipped(kids[i]) && Progress(d0, d1, cs, kids, i, at, ps)
    requires Gained(d1, d2, cs, Kept(kids[..i]), at, ps, kids[i], p)
    requires kids[i].HostDir? ==> DirsFit(kids[i].kids, cs)
    ensures Progress(d0, d2, cs, kids, i + 1, at, ps + [p])
  {
    AcceptStep(kids, cs, i);
    ClustersOfSnoc(ps, p);
    ExtendsTrans(d0, d1, d2, ClustersOf(ps), {at}, Clusters(p), {at});
    assert {at} + ({at} - ClustersOf(ps)) == {at};
  }

  lemma Done(d0: Disk, d: Disk, cs: nat, kids: seq<HostNode>, at: nat, ps: seq<Place>)
    requires cs > 0 && Progress(d0, d, cs, kids, |kids|, at, ps)
    ensures DirHolds(d, cs, Kept(kids), at, ps) && |Used(d)| == |Used(d0)| + Need(kids, cs)
    ensures DirsFit(kids, cs) && Need(kids, cs) <= |d0.fat| - |Used(d0)|
  {
    assert kids[..|kids|] == kids;
    UsedIsFinite(d);
  }

  lemma StillUsed(d0: Disk, d1: Disk, added: set<nat>, at: nat, c: nat)
    requires Extends(d0, d1, added, {at}) && c < |d0.fat| && d0.fat[c] != FAT_EMPTY
    ensures d1.fat[c] != FAT_EMPTY
  {}

  // When the next node is turned down, so is the tree.
  lemma TurnedDown(d0: Disk, d: Disk, cs: nat, kids: seq<HostNode>, i: nat, at: nat, ps: seq<Place>)
    requires cs > 0 && i < |kids| && !Skipped(kids[i]) && Progress(d0, d, cs, kids, i, at, ps)
    requires !(SlotAt(|Kept(kids[..i])| + 1) <= cs && (kids[i].HostDir? ==> DirsFit(kids[i].kids, cs))
               && NeedNode(kids[i], cs) <= |d0.fat| - |Used(d)|)
    ensures !(DirsFit(kids, cs) && Need(kids, cs) <= |d0.fat| - |Used(d0)|)
  {
    AcceptStep(kids, cs, i);
  }

  // --- The image and its builder ------------------------------------------------------------

  class Image {
    const clusterSize: nat
    const clusterNumber: nat
    const FAT: array<Word>
    const clusters: array<Byte>

    ghost predicate Valid() {
      && HEADER_SIZE <= clusterSize < 0x8000_0000
      && 1 <= clusterNumber == FAT.Length < 0xFFFF_FFFE
      && clusters.Length == Off(clusterSize, clusterNumber) < WORD
      && FAT as object != clusters
    }

    ghost function Disk(): (d: RamFs.Disk)
      reads FAT, clusters
      requires Valid()
      ensures DiskOK(d, clusterSize)
    {
      RamFs.Disk(FAT[..], View(clusters[..], clusterSize, clusterNumber))
    }

    // An empty image: the root directory is cluster 0. The area comes zeroed.
    constructor (clusterSize: nat, clusterNumber: nat)
      requires HEADER_SIZE <= clusterSize < 0x8000_0000
      requires 1 <= clusterNumber < 0xFFFF_FFFE && clusterSize * clusterNumber < WORD
      ensures Valid() && fresh(FAT) && fresh(clusters)
      ensures this.clusterSize == clusterSize && this.clusterNumber == clusterNumber
      ensures Used(Disk()) == {0} && Disk().fat[0] == FAT_END && CountIn(Disk().cl[0]) == 0
    {
      OffIs(clusterSize, clusterNumber);
      this.clusterSize := clusterSize;
      this.clusterNumber := clusterNumber;
      FAT := new Word[clusterNumber](_ => FAT_EMPTY);
      clusters := new Byte[clusterSize * clusterNumber](_ => 0);
      new;
      FAT[0] := FAT_END;
      OffMono(clusterSize, 0, clusterNumber);
      assert Disk().cl[0] == clusters[0..0 + clusterSize];
    }

    // The bytes bs are stored in cluster c from its byte off on.
    method PutAt(c: nat, off: nat, bs: seq<Byte>)
      requires Valid() && c < clusterNumber && off + |bs| <= clusterSize
      modifies clusters
      ensures Rewritten(old(Disk()), Disk(), c, Store(old(Disk()).cl[c], off, bs))
    {
      OffIs(clusterSize, c);
      StoreView(clusters[..], clusterSize, clusterNumber, c, off, bs);
      PutBytes(clusters, clusterSize * c + off, bs);
    }

    method WriteDirectoryHeader(c: nat, count: Word)
      requires Valid() && c < clusterNumber
      modifies clusters
      ensures Rewritten(old(Disk()), Disk(), c, StoreWord(old(Disk()).cl[c], 0, count))
    {
      PutAt(c, 0, WordBytes(count));
    }

    method ReadDirectoryHeader(c: nat) returns (count: Word)
      requires Valid() && c < clusterNumber
      ensures count == CountIn(Disk().cl[c])
    {
      OffIs(clusterSize, c);
      OffMono(clusterSize, c, clusterNumber);
      var at := clusterSize * c;
      count := WordAt(clusters[at..at + 4], 0);
      assert forall k :: 0 <= k < 4 ==> clusters[at..at + 4][k] == Disk().cl[c][k];
    }

    // The first free cluster, marked as used.
    method GetFreeCluster() returns (ok: bool, c: nat)
      requires Valid()
      modifies FAT
      ensures ok ==> c < clusterNumber && old(FAT[c]) == FAT_EMPTY && FAT[..] == old(FAT[..])[c := FAT_END]
      ensures ok ==> forall b :: 0 <= b < c ==> old(FAT[b]) != FAT_EMPTY
      ensures !ok ==> FAT[..] == old(FAT[..]) && |Used(old(Disk()))| == clusterNumber
      ensures ok ==> |Used(old(Disk()))| < clusterNumber
      ensures clusters[..] == old(clusters[..])
    {
      UsedIsFinite(Disk());
      c := 0;
      while c < clusterNumber && FAT[c] != FAT_EMPTY
        invariant c <= clusterNumber && forall b :: 0 <= b < c ==> FAT[b] != FAT_EMPTY
      {
        c := c + 1;
      }
      ok := c < clusterNumber;
      if ok {
        FAT[c] := FAT_END;
      }
    }

    method PutRecord(c: nat, i: nat, e: Entry)
      requires Valid() && c < clusterNumber && |e.name| < NAME_LENGTH && SlotAt(i + 1) <= clusterSize
      modifies clusters
      ensures Rewritten(old(Disk()), Disk(), c, PutEntry(old(Disk()).cl[c], i, e))
    {
      var at := HEADER_SIZE + NODE_SIZE * i;
      ghost var d0 := Disk();
      PutAt(c, at + CLUSTER_AT, WordBytes(e.cluster));
      ghost var d1 := Disk();
      PutAt(c, at, e.name + [0]);
      ghost var d2 := Disk();
      RewrittenTwice(d0, d1, d2, c);
      PutAt(c, at + SIZE_AT, WordBytes(e.size));
      ghost var d3 := Disk();
      RewrittenTwice(d0, d2, d3, c);
      PutAt(c, at + TYPE_AT, [e.kind]);
      ghost var d4 := Disk();
      RewrittenTwice(d0, d3, d4, c);
      PutAt(c, at + LOCK_AT, [0]);
      RewrittenTwice(d0, d4, Disk(), c);
    }

    method AddNodeToDirectory(c: nat, e: Entry) returns (ok: bool)
      requires Valid() && c < clusterNumber && |e.name| < NAME_LENGTH
      modifies clusters
      ensures ok <==> SlotAt(CountIn(old(Disk()).cl[c]) + 1) <= clusterSize
      ensures ok ==> Rewritten(old(Disk()), Disk(), c, AddedTo(old(Disk()).cl[c], CountIn(old(Disk()).cl[c]), e))
      ensures !ok ==> Disk() == old(Disk())
    {
      var count := ReadDirectoryHeader(c);
      if HEADER_SIZE + count * NODE_SIZE + NODE_SIZE > clusterSize {
        return false;
      }
      ghost var d0 := Disk();
      PutRecord(c, count, e);
      ghost var d1 := Disk();
      WriteDirectoryHeader(c, count + 1);
      RewrittenTwice(d0, d1, Disk(), c);
      return true;
    }

    // ifstream::read: the next bytes of the stream, as far as they go. The rest of the buffer
    // keeps what it had.
    method ReadChunk(buffer: array<Byte>, data: seq<Byte>, at: nat) returns (got: nat)
      requires at <= |data|
      modifies buffer
      ensures got == Min(buffer.Length, |data| - at)
      ensures ChunkAt(buffer[..], data, at)
    {
      got := 0;
      while got < buffer.Length && at + got < |data|
        invariant got <= buffer.Length && at + got <= |data|
        invariant forall j :: 0 <= j < got ==> buffer[j] == data[at + j]
      {
        buffer[got] := data[at + got];
        got := got + 1;
      }
    }

    // One chunk of the stream goes into the last cluster of the file's chain.
    method StoreChunk(c: nat, buffer: array<Byte>, data: seq<Byte>, at: nat, ghost d0: RamFs.Disk,
                      ghost chain: seq<nat>)
      returns (got: nat)
      requires Valid() && buffer != clusters && buffer as object != FAT && buffer.Length == clusterSize
      requires ChainExtends(d0, Disk(), chain) && ChainSoFar(Disk(), clusterSize, data, chain)
      requires Last(chain) == c && at == Off(clusterSize, |chain| - 1)
      modifies buffer, clusters
      ensures got == Min(clusterSize, |data| - at) && FAT[..] == old(FAT[..])
      ensures ChainExtends(d0, Disk(), chain)
      ensures Disk().cl == old(Disk()).cl[c := buffer[..]] && ChunkAt(buffer[..], data, at)
      ensures got < clusterSize ==> FileHolds(Disk(), clusterSize, data, chain)
    {
      got := ReadChunk(buffer, data, at);
      ghost var d1 := Disk();
      PutAt(c, 0, buffer[..]);
      assert Store(d1.cl[c], 0, buffer[..]) == buffer[..];
      ChainRewritten(d0, d1, Disk(), chain, buffer[..]);
      if got < clusterSize {
        LastChunk(d1, Disk(), clusterSize, data, chain, buffer[..]);
      }
    }

    // A new cluster is linked behind the last one, which the chunk has just filled.
    method LinkCluster(c: nat, data: seq<Byte>, chunk: seq<Byte>, ghost d0: RamFs.Disk, ghost d1: RamFs.Disk,
                       ghost chain: seq<nat>)
      returns (ok: bool, next: nat)
      requires Valid() && DiskOK(d1, clusterSize) && ChainSoFar(d1, clusterSize, data, chain) && Last(chain) == c
      requires ChainExtends(d0, Disk(), chain) && |d0.fat| == clusterNumber
      requires |chunk| == clusterSize && Disk().fat == d1.fat && Disk().cl == d1.cl[c := chunk]
      requires ChunkAt(chunk, data, Off(clusterSize, |chain| - 1)) && Off(clusterSize, |chain|) <= |data|
      modifies FAT
      ensures ok ==> ChainSoFar(Disk(), clusterSize, data, chain + [next]) && ChainExtends(d0, Disk(), chain + [next])
      ensures !ok ==> Quot(|data|, clusterSize) > clusterNumber - |Used(d0)|
    {
      ghost var d2 := Disk();
      ok, next := GetFreeCluster();
      if !ok {
        NoRoom(d0, d2, clusterSize, data, chain);
        return;
      }
      FAT[c] := next;
      FullChunk(d1, Disk(), clusterSize, data, chain, chunk, next);
      ChainLinked(d0, d2, Disk(), chain, next);
    }

    // The end of the file shows only in a read that falls short, so a file whose size is a
    // multiple of the cluster size gets one more cluster.
    method WriteFile(start: nat, data: seq<Byte>) returns (ok: bool, ghost chain: seq<nat>)
      requires Valid() && start < clusterNumber && FAT[start] == FAT_END
      modifies FAT, clusters
      ensures ok <==> Quot(|data|, clusterSize) <= clusterNumber - |Used(old(Disk()))|
      ensures ok ==> ChainExtends(old(Disk()), Disk(), chain) && chain[0] == start
      ensures ok ==> FileHolds(Disk(), clusterSize, data, chain)
    {
      ghost var d0 := Disk();
      var buffer := new Byte[clusterSize];
      var oldCluster, at, eof := start, 0, false;
      chain := [start];
      ChainStart(d0, clusterSize, data, start);
      while !eof
        invariant chain != [] && Last(chain) == oldCluster && chain[0] == start
        invariant ChainExtends(d0, Disk(), chain)
        invariant !eof ==> ChainSoFar(Disk(), clusterSize, data, chain) && at == Off(clusterSize, |chain| - 1)
        invariant eof ==> FileHolds(Disk(), clusterSize, data, chain)
        decreases if eof then 0 else |data| + 1 - at
      {
        ghost var d1 := Disk();
        var got := StoreChunk(oldCluster, buffer, data, at, d0, chain);
        at, eof := at + got, got < clusterSize;
        if !eof {
          var newCluster;
          ok, newCluster := LinkCluster(oldCluster, data, buffer[..], d0, d1, chain);
          if !ok {
            return;
          }
          oldCluster, chain := newCluster, chain + [newCluster];
        }
      }
      ok := true;
      Room(d0, Disk(), clusterSize, data, chain);
    }

    // A free cluster with an empty directory header.
    method NewCluster() returns (ok: bool, c: nat)
      requires Valid()
      modifies FAT, clusters
      ensures ok <==> |Used(old(Disk()))| < clusterNumber
      ensures ok ==> Cleared(old(Disk()), Disk(), c)
    {
      ghost var d0 := Disk();
      ok, c := GetFreeCluster();
      if ok {
        ghost var d1 := Disk();
        WriteDirectoryHeader(c, 0);
        PutCountReads(d1.cl[c], 0);
        ClearedBy(d0, d1, Disk(), c, Disk().cl[c]);
      }
    }

    // The record of a file whose data are in place.
    method RecordFile(at: nat, h: HostNode, newFile: nat, ghost d0: RamFs.Disk, ghost d2: RamFs.Disk,
                      ghost kids: seq<HostNode>, ghost ps: seq<Place>, ghost chain: seq<nat>)
      returns (ok: bool)
      requires Valid() && DiskOK(d0, clusterSize) && DiskOK(d2, clusterSize) && |d0.fat| == clusterNumber
      requires d0.fat[0] != FAT_EMPTY
      requires h.HostFile? && NameFits(h) && at < clusterNumber && newFile < clusterNumber
      requires DirHolds(d0, clusterSize, kids, at, ps) && Cleared(d0, d2, newFile)
      requires ChainExtends(d2, Disk(), chain) && chain[0] == newFile && FileHolds(Disk(), clusterSize, h.data, chain)
      modifies clusters
      ensures ok <==> SlotAt(|kids| + 1) <= clusterSize
      ensures ok ==> Gained(d0, Disk(), clusterSize, kids, at, ps, h, FilePlace(chain))
    {
      ghost var d3 := Disk();
      KidsAreUsed(d0, clusterSize, kids, at, ps);
      Untouched(d0, d2, {newFile}, {}, at);
      Untouched(d2, d3, Elements(chain) - {newFile}, {newFile}, at);
      ok := AddNodeToDirectory(at, EntryFor(h, newFile));
      if ok {
        FileGained(d0, d2, d3, Disk(), clusterSize, kids, at, ps, h, chain);
      }
    }

    method AddFile(at: nat, h: HostNode, ghost kids: seq<HostNode>, ghost ps: seq<Place>) returns (ok: bool,
                   ghost p: Place)
      requires Valid() && h.HostFile? && NameFits(h) && at < clusterNumber && FAT[0] != FAT_EMPTY
      requires DirHolds(Disk(), clusterSize, kids, at, ps)
      modifies FAT, clusters
      ensures ok <==>
        && SlotAt(|kids| + 1) <= clusterSize
        && NeedNode(h, clusterSize) <= clusterNumber - |Used(old(Disk()))|
      ensures ok ==> Gained(old(Disk()), Disk(), clusterSize, kids, at, ps, h, p)
    {
      ghost var d0 := Disk();
      p := DirPlace(0, []);
      var newFile;
      ok, newFile := NewCluster();
      if !ok {
        return;
      }
      ghost var d2 := Disk();
      ghost var chain;
      ok, chain := WriteFile(newFile, h.data);
      if !ok {
        return;
      }
      ok := RecordFile(at, h, newFile, d0, d2, kids, ps, chain);
      p := FilePlace(chain);
    }

    method AddDirectory(at: nat, h: HostNode, ghost kids: seq<HostNode>, ghost ps: seq<Place>) returns (ok: bool,
                        ghost p: Place)
      requires Valid() && h.HostDir? && NameFits(h) && at < clusterNumber && FAT[0] != FAT_EMPTY
      requires DirHolds(Disk(), clusterSize, kids, at, ps)
      modifies FAT, clusters
      ensures ok <==> SlotAt(|kids| + 1) <= clusterSize && DirsFit(h.kids, clusterSize)
                      && NeedNode(h, clusterSize) <= clusterNumber - |Used(old(Disk()))|
      ensures ok ==> Gained(old(Disk()), Disk(), clusterSize, kids, at, ps, h, p)
      decreases h, 0
    {
      ghost var d0 := Disk();
      p := DirPlace(0, []);
      KidsAreUsed(d0, clusterSize, kids, at, ps);
      var newDir;
      ok, newDir := NewCluster();
      if !ok {
        return;
      }
      ghost var d2 := Disk();
      Untouched(d0, d2, {newDir}, {}, at);
      ok := AddNodeToDirectory(at, EntryFor(KeptNode(h), newDir));
      if !ok {
        return;
      }
      ghost var d3 := Disk();
      assert Used(d3) == Used(d2);
      ghost var below;
      ok, below := GetDir(h.kids, newDir);
      if ok {
        p := DirPlace(newDir, below);
        DirGained(d0, d2, d3, Disk(), clusterSize, kids, at, ps, h, newDir, below);
      }
    }

    // A file or a directory.
    method AddKept(at: nat, h: HostNode, ghost kids: seq<HostNode>, ghost ps: seq<Place>) returns (ok: bool,
                   ghost p: Place)
      requires Valid() && NameFits(h) && at < clusterNumber && FAT[0] != FAT_EMPTY
      requires DirHolds(Disk(), clusterSize, kids, at, ps)
      modifies FAT, clusters
      ensures ok <==>
        && SlotAt(|kids| + 1) <= clusterSize && (h.HostDir? ==> DirsFit(h.kids, clusterSize))
        && NeedNode(h, clusterSize) <= clusterNumber - |Used(old(Disk()))|
      ensures ok ==> Gained(old(Disk()), Disk(), clusterSize, kids, at, ps, h, p)
      decreases h, 1
    {
      if h.HostFile? {
        ok, p := AddFile(at, h, kids, ps);
      } else {
        ok, p := AddDirectory(at, h, kids, ps);
      }
    }

    // The next of the host directory's nodes, if it is not passed over.
    method AddNode(kids: seq<HostNode>, i: nat, at: nat, ghost d0: RamFs.Disk,
                   ghost ps: seq<Place>) returns (ok: bool, ghost qs: seq<Place>)
      requires Valid() && NamesFit(kids) && i < |kids| && at < clusterNumber == |d0.fat| && FAT[0] != FAT_EMPTY
      requires Progress(d0, Disk(), clusterSize, kids, i, at, ps)
      modifies FAT, clusters
      ensures ok ==> Progress(d0, Disk(), clusterSize, kids, i + 1, at, qs)
      ensures !ok ==> !(DirsFit(kids, clusterSize) && Need(kids, clusterSize) <= clusterNumber - |Used(d0)|)
      decreases kids, 1
    {
      ghost var d1 := Disk();
      var h := kids[i];
      ok, qs := true, ps;
      if Skipped(h) {
        SkipStep(d0, d1, clusterSize, kids, i, at, ps);
        return;
      }
      ghost var p;
      ok, p := AddKept(at, h, Kept(kids[..i]), ps);
      if ok {
        qs := ps + [p];
        Advance(d0, d1, Disk(), clusterSize, kids, i, at, ps, p);
      } else {
        TurnedDown(d0, d1, clusterSize, kids, i, at, ps);
      }
    }

    // The host directory's nodes, one after the other.
    method GetDir(kids: seq<HostNode>, parent: nat) returns (ok: bool, ghost ps: seq<Place>)
      requires Valid() && NamesFit(kids) && parent < clusterNumber && FAT[0] != FAT_EMPTY
      requires FAT[parent] == FAT_END && CountIn(Disk().cl[parent]) == 0
      modifies FAT, clusters
      ensures ok <==> DirsFit(kids, clusterSize) && Need(kids, clusterSize) <= clusterNumber - |Used(old(Disk()))|
      ensures ok ==> DirHolds(Disk(), clusterSize, Kept(kids), parent, ps)
      ensures ok ==> Extends(old(Disk()), Disk(), ClustersOf(ps), {parent})
      ensures ok ==> |Used(Disk())| == |Used(old(Disk()))| + Need(kids, clusterSize)
      decreases kids, 2
    {
      ghost var d0 := Disk();
      ps := [];
      ok := true;
      var i := 0;
      Start(d0, clusterSize, kids, parent);
      while i < |kids|
        invariant i <= |kids|
        invariant Progress(d0, Disk(), clusterSize, kids, i, parent, ps)
        invariant FAT[0] != FAT_EMPTY
      {
        ok, ps := AddNode(kids, i, parent, d0, ps);
        if !ok {
          return;
        }
        StillUsed(d0, Disk(), ClustersOf(ps), parent, 0);
        i := i + 1;
      }
      assert kids[..|kids|] == kids;
      Done(d0, Disk(), clusterSize, kids, parent, ps);
    }
  }
}
