// The builder and the driver together: what is put into an image is what is read from it.
module RamFsRoundTrip {
  import opened Machine
  import opened CStrings
  import opened RamFs
  import opened RamFsBuilder
  import opened RamFsReader

  lemma {:induction false} KeptShort(ks: seq<HostNode>)
    requires NamesFit(ks)
    ensures ShortNames(Kept(ks))
    decreases ks
  {
    if ks != [] {
      var front, n := ks[..|ks| - 1], ks[|ks| - 1];
      assert forall m :: m in front ==> m in ks;
      KeptShort(front);
      if !Skipped(n) {
        assert n in ks && NameFits(n);
        if n.HostDir? { KeptShort(n.kids); }
      }
    }
  }

  lemma {:induction false} FoundName(es: seq<Entry>, name: CStr, i: nat)
    requires i <= |es|
    ensures FindNode(es, name, i) == NO_NODE || FindNode(es, name, i).name == name
    decreases |es| - i
  {
    if i < |es| && es[i].name != name { FoundName(es, name, i + 1); }
  }

  datatype Fetched = Nothing | Directory | File(bytes: seq<Byte>)

  // What a path is expected to give: what it names in the tree, of each directory the first
  // `slots` nodes.
  function Expected(kids: seq<HostNode>, slots: nat, path: CStr): Fetched {
    if Names(path) == [] then Nothing
    else match Lookup(kids, slots, Names(path))
         case None => Nothing
         case Some(HostDir(_, _)) => Directory
         case Some(HostFile(_, data)) => File(data)
  }

  // An image of n clusters can be made.
  predicate ImageSize(cs: nat, n: nat) { 1 <= n < 0xFFFF_FFFE && cs * n < WORD }

  // The tree fits into an image of n clusters: every directory into one cluster, and all nodes into
  // the clusters beside the root's.
  predicate FitsImage(host: seq<HostNode>, cs: nat, n: nat)
    requires cs > 0
  {
    DirsFit(host, cs) && Need(host, cs) <= n - 1
  }

  // An image is built from a host tree. It is accepted exactly when every directory fits into one
  // cluster and there are enough clusters; then every cluster in use belongs to exactly one node.
  method Build(clusterSize: nat, clusterNumber: nat, host: seq<HostNode>) returns (ok: bool, dev: Device,
               ghost ps: seq<Place>)
    requires HEADER_SIZE <= clusterSize < 0x8000_0000 && ImageSize(clusterSize, clusterNumber)
    requires NamesFit(host)
    ensures ok <==> FitsImage(host, clusterSize, clusterNumber)
    ensures dev.Valid() && dev.clusterSize == clusterSize && dev.clusterNumber == clusterNumber
    ensures ok ==> DirHolds(dev.Disk(), clusterSize, Kept(host), 0, ps) && ShortNames(Kept(host))
    ensures ok ==> Used(dev.Disk()) == {0} + ClustersOf(ps)
  {
    var img := new Image(clusterSize, clusterNumber);
    ghost var d0 := img.Disk();
    ok, ps := img.GetDir(host, 0);
    OffIs(clusterSize, clusterNumber);
    dev := Device(clusterNumber, clusterSize, img.FAT[..], img.clusters[..]);
    if ok {
      KeptShort(host);
      ExtendsUsed(d0, img.Disk(), ClustersOf(ps), {0});
    }
  }

  // A record that leads to a file opens it.
  lemma OpensFile(dev: Device, dir: nat, name: CStr, info: InodeInfo, n: HostNode, p: Place)
    requires dev.Valid() && dir < dev.clusterNumber && 0 !in name && n.HostFile? && First(p) < WORD
    requires Holds(dev.Disk(), dev.clusterSize, n, p)
    requires FindNode(Nodes(dev.Disk().cl[dir]), name, 0) == EntryFor(n, First(p))
    requires info.position == 0 && info.cluster == First(p) && info.directoryCluster == dir && info.name == name
    ensures info.Opens(dev, n.data, p.chain)
  {
    FoundName(Nodes(dev.Disk().cl[dir]), name, 0);
    FirstIsAt(dev.Disk(), dev.clusterSize, n, p);
  }

  // A path in a built image is opened and read to the end: what comes back is what the path names
  // in the host's tree, byte for byte.
  method Fetch(dev: Device, path: CStr, ghost kids: seq<HostNode>, ghost ps: seq<Place>) returns (r: Fetched)
    requires dev.Valid() && 0 !in path && |path| < 0x8000_0000
    requires DirHolds(dev.Disk(), dev.clusterSize, kids, 0, ps) && ShortNames(kids)
    ensures r == Expected(kids, ReaderSlots(dev.clusterSize), path)
  {
    var info, kind := GetNodeDescriptor(dev, path, kids, ps);
    if Names(path) == [] {
      return Nothing;
    }
    ghost var p := WalkIsLookup(dev.Disk(), dev.clusterSize, kids, 0, ps, Names(path));
    if info == null {
      return Nothing;
    }
    ghost var n := Lookup(kids, ReaderSlots(dev.clusterSize), Names(path)).value;
    if kind != FS_FILE {
      return Directory;
    }
    OpensFile(dev, info.directoryCluster, info.name, info, n, p);
    var bytes := ReadToEnd(dev, info, n.data, p.chain);
    return File(bytes);
  }

  // Asking for as many bytes as the record says.
  method ReadToEnd(dev: Device, info: InodeInfo, ghost data: seq<Byte>,
                   ghost chain: seq<nat>) returns (bytes: seq<Byte>)
    requires dev.Valid() && info.Opens(dev, data, chain) && info.position == 0
    modifies info
    ensures bytes == data
  {
    var node := GetNodeFromName(dev, info.directoryCluster, info.name);
    var buffer := new Byte[node.size];
    var panic, count := info.ReadFile(dev, buffer, node.size, data, chain);
    bytes := buffer[..count];
    assert Slice(data, 0, |data|) == data;
  }

  // Where every directory is within the reader's limit, the tree is read back whole: the names found
  // are exactly those that lead somewhere in the tree.
  lemma RoundTrip(host: seq<HostNode>, clusterSize: nat, path: CStr, n: HostNode)
    requires HEADER_SIZE <= clusterSize && UniqueNames(Kept(host)) && Names(path) != []
    requires Within(Kept(host), ReaderSlots(clusterSize))
    ensures Reaches(Kept(host), Names(path), n) ==>
      Expected(Kept(host), ReaderSlots(clusterSize), path) == FetchedFrom(n)
    ensures Expected(Kept(host), ReaderSlots(clusterSize), path) == Nothing ==> !Reaches(Kept(host), Names(path), n)
    ensures (forall m :: !Reaches(Kept(host), Names(path), m)) ==>
      Expected(Kept(host), ReaderSlots(clusterSize), path) == Nothing
  {
    var slots, names := ReaderSlots(clusterSize), Names(path);
    LookupReaches(Kept(host), slots, names, n);
    if Lookup(Kept(host), slots, names).Some? {
      LookupReaches(Kept(host), slots, names, Lookup(Kept(host), slots, names).value);
    }
  }

  function FetchedFrom(n: HostNode): Fetched { if n.HostFile? then File(n.data) else Directory }

  // --- Accepted trees -----------------------------------------------------------------------

  // There is an image that the builder puts the tree into.
  ghost predicate Accepted(host: seq<HostNode>, cs: nat)
    requires cs > 0
  {
    NamesFit(host) && exists n :: ImageSize(cs, n) && FitsImage(host, cs, n)
  }

  // The reader looks at as many records as the builder puts into a directory, or no image has clusters
  // for one node more than that.
  predicate LimitsAgree(cs: nat)
    requires HEADER_SIZE <= cs
  {
    WriterSlots(cs) == ReaderSlots(cs) || cs * (ReaderSlots(cs) + 2) >= WORD
  }

  // Then every accepted tree is within the reader's limit.
  lemma AcceptedWithin(host: seq<HostNode>, clusterSize: nat)
    requires HEADER_SIZE <= clusterSize && LimitsAgree(clusterSize) && Accepted(host, clusterSize)
    ensures Within(Kept(host), ReaderSlots(clusterSize))
  {
    var n :| ImageSize(clusterSize, n) && FitsImage(host, clusterSize, n);
    if WriterSlots(clusterSize) == ReaderSlots(clusterSize) {
      FitsWithin(host, clusterSize);
    } else {
      Fewer(clusterSize, n, ReaderSlots(clusterSize) + 2);
      NeedWithin(host, clusterSize, ReaderSlots(clusterSize));
    }
  }

  lemma Fewer(cs: nat, m: nat, n: nat)
    requires cs * m < cs * n
    ensures m < n
  {
    assert cs * n - cs * m == cs * (n - m);
  }

  lemma {:induction false} FitsWithin(host: seq<HostNode>, clusterSize: nat)
    requires HEADER_SIZE <= clusterSize && WriterSlots(clusterSize) == ReaderSlots(clusterSize)
    requires DirsFit(host, clusterSize)
    ensures Within(Kept(host), ReaderSlots(clusterSize))
    decreases host
  {
    SlotsAgree(clusterSize, |Kept(host)|);
    forall n | n in Kept(host) && n.HostDir? ensures Within(n.kids, ReaderSlots(clusterSize)) {
      var h := KeptFrom(host, n);
      FitsWithin(h.kids, clusterSize);
    }
  }

  // A tree that takes no more clusters than the limit has no directory beyond it.
  lemma {:induction false} NeedWithin(host: seq<HostNode>, cs: nat, slots: nat)
    requires cs > 0 && Need(host, cs) <= slots
    ensures Within(Kept(host), slots)
    decreases host
  {
    KeptNeeds(host, cs);
    forall n | n in Kept(host) && n.HostDir? ensures Within(n.kids, slots) {
      var h := KeptFrom(host, n);
      PartNeeds(host, cs, h);
      NeedWithin(h.kids, cs, slots);
    }
  }

  lemma {:induction false} KeptNeeds(ks: seq<HostNode>, cs: nat)
    requires cs > 0
    ensures |Kept(ks)| <= Need(ks, cs)
    decreases |ks|
  {
    if ks != [] { KeptNeeds(ks[..|ks| - 1], cs); }
  }

  lemma {:induction false} PartNeeds(ks: seq<HostNode>, cs: nat, h: HostNode)
    requires cs > 0 && h in ks && !Skipped(h)
    ensures NeedNode(h, cs) <= Need(ks, cs)
    decreases |ks|
  {
    var front, last := ks[..|ks| - 1], ks[|ks| - 1];
    if h in front {
      PartNeeds(front, cs, h);
    } else {
      assert h == last;
    }
  }

  lemma {:induction false} KeptFrom(ks: seq<HostNode>, n: HostNode) returns (h: HostNode)
    requires n in Kept(ks)
    ensures h in ks && !Skipped(h) && n == KeptNode(h)
    decreases |ks|
  {
    var front, last := ks[..|ks| - 1], ks[|ks| - 1];
    if n in Kept(front) {
      h := KeptFrom(front, n);
    } else {
      h := last;
    }
  }

  // --- Paths of nodes -----------------------------------------------------------------------

  predicate PlainName(name: CStr) { 0 !in name && SLASH !in name }

  predicate PlainNames(kids: seq<HostNode>)
    decreases kids, 1
  {
    forall n :: n in kids ==> PlainName(n.name) && (n.HostDir? ==> PlainNames(n.kids))
  }

  function PathOf(names: seq<CStr>): CStr
    requires |names| >= 1
  {
    [SLASH] + Join(names, SLASH)
  }

  // A path made of plain names is walked by these names, whatever stands before the first slash.
  lemma PathNames(prefix: CStr, names: seq<CStr>)
    requires PlainName(prefix) && |names| >= 1 && forall i :: 0 <= i < |names| ==> PlainName(names[i])
    ensures Names(prefix + PathOf(names)) == names && 0 !in prefix + PathOf(names)
  {
    var path: CStr, fs: seq<CStr> := prefix + PathOf(names), [prefix] + names;
    JoinCons(prefix, SLASH, names);
    assert prefix + [SLASH] + Join(names, SLASH) == path;
    assert path[0..] == path;
    FieldsUnique(path, SLASH, 0, fs);
    assert fs[1..] == names;
    JoinPlain(names);
  }

  lemma {:induction false} JoinPlain(names: seq<CStr>)
    requires |names| >= 1 && forall i :: 0 <= i < |names| ==> PlainName(names[i])
    ensures 0 !in Join(names, SLASH)
  {
    if |names| > 1 { JoinPlain(names[1..]); }
  }

  // --- The host's own tree ------------------------------------------------------------------

  // A file, or a directory that is not called ".", ".." or ".svn".
  predicate Ordinary(n: HostNode) {
    n.HostFile? || (n.name != [46] && n.name != [46, 46] && n.name != [46, 115, 118, 110])
  }

  lemma {:induction false} KeptSum(a: seq<HostNode>, b: seq<HostNode>)
    ensures Kept(a + b) == Kept(a) + Kept(b)
    decreases |b|
  {
    if b == [] {
      assert a + b == a;
    } else {
      var front, n := b[..|b| - 1], b[|b| - 1];
      assert (a + b)[..|a + b| - 1] == a + front;
      KeptSum(a, front);
    }
  }

  // Of a directory's nodes the image holds exactly the ordinary ones, in their order: files as they
  // are, and directories with what it holds of their own nodes.
  lemma KeptOrder(a: seq<HostNode>, n: HostNode, b: seq<HostNode>)
    ensures Kept([]) == []
    ensures !Ordinary(n) ==> Kept(a + [n] + b) == Kept(a) + Kept(b)
    ensures Ordinary(n) && n.HostFile? ==> Kept(a + [n] + b) == Kept(a) + [n] + Kept(b)
    ensures Ordinary(n) && n.HostDir? ==> Kept(a + [n] + b) == Kept(a) + [HostDir(n.name, Kept(n.kids))] + Kept(b)
  {
    KeptMiddle(a, n, b);
    KeptOne(n);
    assert Kept(a) + [] == Kept(a);
  }

  lemma KeptMiddle(a: seq<HostNode>, n: HostNode, b: seq<HostNode>)
    ensures Kept(a + [n] + b) == Kept(a) + Kept([n]) + Kept(b)
  {
    KeptSum(a + [n], b);
    KeptSum(a, [n]);
  }

  lemma KeptOne(n: HostNode)
    ensures Kept([n]) ==
      if !Ordinary(n) then [] else [if n.HostFile? then n else HostDir(n.name, Kept(n.kids))]
  {
    assert [n][..0] == [];
  }

  lemma {:induction false} IntoKept(ks: seq<HostNode>, h: HostNode)
    requires h in ks && Ordinary(h)
    ensures KeptNode(h) in Kept(ks)
    decreases |ks|
  {
    var front, n := ks[..|ks| - 1], ks[|ks| - 1];
    if h in front {
      IntoKept(front, h);
    } else {
      assert h == n;
    }
  }

  lemma KeptIff(ks: seq<HostNode>, m: HostNode)
    ensures m in Kept(ks) <==> exists h :: h in ks && Ordinary(h) && m == KeptNode(h)
  {
    if m in Kept(ks) {
      var h := KeptFrom(ks, m);
      assert Ordinary(h);
    }
    if h :| h in ks && Ordinary(h) && m == KeptNode(h) {
      IntoKept(ks, h);
    }
  }

  // The names lead from the host's nodes down to n, by ordinary ones only.
  ghost predicate Leads(ks: seq<HostNode>, names: seq<CStr>, n: HostNode)
    requires |names| >= 1
    decreases |names|
  {
    exists m :: m in ks && Ordinary(m) && m.name == names[0] &&
      if |names| == 1 then m == n else m.HostDir? && Leads(m.kids, names[1..], n)
  }

  // Where names lead in the image's tree is where they lead on the host.
  lemma {:induction false} LeadsKept(ks: seq<HostNode>, names: seq<CStr>, h: HostNode)
    requires |names| >= 1 && Leads(ks, names, h)
    ensures Reaches(Kept(ks), names, KeptNode(h))
    decreases |names|
  {
    var m :| m in ks && Ordinary(m) && m.name == names[0] &&
      if |names| == 1 then m == h else m.HostDir? && Leads(m.kids, names[1..], h);
    KeptIff(ks, KeptNode(m));
    if |names| > 1 { LeadsKept(m.kids, names[1..], h); }
  }

  lemma {:induction false} KeptLeads(ks: seq<HostNode>, names: seq<CStr>, n: HostNode) returns (h: HostNode)
    requires |names| >= 1 && Reaches(Kept(ks), names, n)
    ensures Leads(ks, names, h) && n == KeptNode(h)
    decreases |names|
  {
    var m :| m in Kept(ks) && m.name == names[0] &&
      if |names| == 1 then m == n else m.HostDir? && Reaches(m.kids, names[1..], n);
    KeptIff(ks, m);
    var k :| k in ks && Ordinary(k) && m == KeptNode(k);
    h := k;
    if |names| > 1 { h := KeptLeads(k.kids, names[1..], n); }
  }

  // The node is on the host, below ordinary directories only.
  ghost predicate OnHost(ks: seq<HostNode>, n: HostNode)
    decreases ks
  {
    exists m :: m in ks && Ordinary(m) && (m == n || (m.HostDir? && OnHost(m.kids, n)))
  }

  // It has names that lead to it.
  lemma {:induction false} HasNames(ks: seq<HostNode>, n: HostNode) returns (names: seq<CStr>)
    requires OnHost(ks, n) && PlainNames(Kept(ks))
    ensures |names| >= 1 && Leads(ks, names, n)
    ensures forall i :: 0 <= i < |names| ==> PlainName(names[i])
    decreases ks
  {
    var m :| m in ks && Ordinary(m) && (m == n || (m.HostDir? && OnHost(m.kids, n)));
    KeptIff(ks, KeptNode(m));
    assert KeptNode(m) in Kept(ks);
    if m == n {
      names := [n.name];
    } else {
      var rest := HasNames(m.kids, n);
      names := [m.name] + rest;
      assert names[1..] == rest;
    }
  }

  // Every node of the host's tree, if the tree is accepted where the limits agree, has a path, and this
  // path is expected to give that node.
  lemma EveryNode(host: seq<HostNode>, clusterSize: nat, n: HostNode) returns (path: CStr)
    requires HEADER_SIZE <= clusterSize && LimitsAgree(clusterSize) && Accepted(host, clusterSize)
    requires UniqueNames(Kept(host)) && PlainNames(Kept(host)) && OnHost(host, n)
    ensures 0 !in path && Names(path) != [] && Leads(host, Names(path), n)
    ensures Expected(Kept(host), ReaderSlots(clusterSize), path) == FetchedFrom(n)
  {
    var names := HasNames(host, n);
    PathNames([], names);
    path := PathOf(names);
    assert [] + path == path;
    LeadsKept(host, names, n);
    AcceptedWithin(host, clusterSize);
    RoundTrip(host, clusterSize, path, KeptNode(n));
  }

  // Building an image and reading a path from it: a path that leads to a node of the host's tree gives
  // exactly that node, and every other path gives nothing.
  method BuildAndFetch(clusterSize: nat, clusterNumber: nat, host: seq<HostNode>, path: CStr)
    returns (ok: bool, r: Fetched)
    requires HEADER_SIZE <= clusterSize < 0x8000_0000 && LimitsAgree(clusterSize)
    requires ImageSize(clusterSize, clusterNumber) && NamesFit(host) && UniqueNames(Kept(host))
    requires 0 !in path && |path| < 0x8000_0000 && Names(path) != []
    ensures ok <==> FitsImage(host, clusterSize, clusterNumber)
    ensures ok ==> forall n :: Leads(host, Names(path), n) ==> r == if n.HostFile? then File(n.data) else Directory
    ensures ok ==> (r == Nothing <==> forall n :: !Leads(host, Names(path), n))
  {
    var dev;
    ghost var ps;
    r := Nothing;
    ok, dev, ps := Build(clusterSize, clusterNumber, host);
    if ok {
      r := Fetch(dev, path, Kept(host), ps);
      AcceptedWithin(host, clusterSize);
      forall n | Leads(host, Names(path), n) ensures r == FetchedFrom(n) {
        LeadsKept(host, Names(path), n);
        RoundTrip(host, clusterSize, path, KeptNode(n));
      }
      FoundLeads(host, clusterSize, path);
    }
  }

  lemma FoundLeads(host: seq<HostNode>, clusterSize: nat, path: CStr)
    requires HEADER_SIZE <= clusterSize && UniqueNames(Kept(host)) && Names(path) != []
    requires Within(Kept(host), ReaderSlots(clusterSize))
    ensures Expected(Kept(host), ReaderSlots(clusterSize), path) == Nothing
       <==> forall n :: !Leads(host, Names(path), n)
  {
    var slots, names := ReaderSlots(clusterSize), Names(path);
    var found := Lookup(Kept(host), slots, names);
    if found.Some? {
      LookupReaches(Kept(host), slots, names, found.value);
      var h := KeptLeads(host, names, found.value);
      assert Leads(host, names, h);
    } else {
      forall n ensures !Leads(host, names, n) {
        if Leads(host, names, n) {
          LeadsKept(host, names, n);
          LookupReaches(Kept(host), slots, names, KeptNode(n));
        }
      }
    }
  }

  // --- Where the limits differ --------------------------------------------------------------

  // A name for each number, in binary.
  function NumberName(i: nat): (name: CStr)
    ensures PlainName(name)
  {
    if i == 0 then [] else NumberName(i / 2) + [if i % 2 == 0 then 97 else 98]
  }

  function TwoTo(m: nat): nat { if m == 0 then 1 else 2 * TwoTo(m - 1) }

  lemma {:induction false} NameShort(i: nat, m: nat)
    requires i < TwoTo(m)
    ensures |NumberName(i)| <= m
  {
    if i > 0 { NameShort(i / 2, m - 1); }
  }

  lemma {:induction false} NamesDiffer(i: nat, j: nat)
    ensures NumberName(i) == NumberName(j) ==> i == j
  {
    if i > 0 && j > 0 && NumberName(i) == NumberName(j) {
      var a, b := NumberName(i / 2), NumberName(j / 2);
      assert NumberName(i)[..|a|] == a && NumberName(j)[..|b|] == b;
      NamesDiffer(i / 2, j / 2);
    }
  }

  // n empty files, named by the numbers from 1 on.
  function Crowd(n: nat): (kids: seq<HostNode>)
    ensures |kids| == n && forall i :: 0 <= i < n ==> kids[i] == HostFile(NumberName(i + 1), [])
  {
    if n == 0 then [] else Crowd(n - 1) + [HostFile(NumberName(n), [])]
  }

  lemma {:induction false} CrowdIs(n: nat, cs: nat)
    requires cs > 0
    ensures Kept(Crowd(n)) == Crowd(n) && Need(Crowd(n), cs) == n
  {
    if n > 0 {
      CrowdIs(n - 1, cs);
      assert Crowd(n)[..n - 1] == Crowd(n - 1);
    }
  }

  // They are what a host's directory can hold.
  lemma CrowdFits(n: nat)
    requires n < 0x100_0000 - 1
    ensures NamesFit(Crowd(n)) && UniqueNames(Crowd(n)) && HostNames(Crowd(n))
  {
    assert TwoTo(8) == 0x100;
    assert TwoTo(16) == 0x1_0000;
    assert TwoTo(24) == 0x100_0000;
    forall i | 1 <= i <= n ensures 0 < |NumberName(i)| <= 24 {
      NameShort(i, 24);
    }
    forall i, j | 0 <= i < j < n ensures Crowd(n)[i].name != Crowd(n)[j].name {
      NamesDiffer(i + 1, j + 1);
    }
  }

  // Names as a host's directory has them.
  predicate HostNames(kids: seq<HostNode>)
    decreases kids, 1
  {
    forall n :: n in kids ==> n.name != [] && PlainName(n.name) && (n.HostDir? ==> HostNames(n.kids))
  }

  lemma {:induction false} HostNamesPlain(kids: seq<HostNode>)
    requires HostNames(kids)
    ensures PlainNames(kids)
    decreases kids
  {
    forall n | n in kids && n.HostDir? ensures PlainNames(n.kids) {
      HostNamesPlain(n.kids);
    }
  }

  // The last file of a directory with more than `slots` files is not found by any names.
  lemma LastHidden(n: nat, slots: nat, names: seq<CStr>)
    requires slots < n && |names| >= 1
    requires names == [NumberName(n)] || Reaches(Crowd(n), names, Crowd(n)[n - 1])
    ensures names == [NumberName(n)] && Reaches(Crowd(n), names, Crowd(n)[n - 1])
    ensures Lookup(Crowd(n), slots, names) == None
  {
    var i := IndexOf(Crowd(n), names[0], 0);
    assert Crowd(n)[n - 1] in Crowd(n);
    if i < n {
      NamesDiffer(i + 1, n);
    }
  }

  lemma CrowdSize(cs: nat, n: nat)
    requires HEADER_SIZE <= cs < 0x8000_0000 && !LimitsAgree(cs) && n == ReaderSlots(cs) + 1
    ensures ImageSize(cs, n + 1) && SlotAt(n) <= cs && n < 0x100_0000 - 1
  {
    SlotsAgree(cs, n);
    Fewer(HEADER_SIZE, n + 1, 0x4000_0000);
  }

  lemma CrowdAccepted(cs: nat, n: nat)
    requires HEADER_SIZE <= cs < 0x8000_0000 && !LimitsAgree(cs) && n == ReaderSlots(cs) + 1
    ensures NamesFit(Crowd(n)) && Kept(Crowd(n)) == Crowd(n) && UniqueNames(Crowd(n)) && HostNames(Crowd(n))
    ensures ImageSize(cs, n + 1) && FitsImage(Crowd(n), cs, n + 1)
  {
    CrowdSize(cs, n);
    CrowdIs(n, cs);
    CrowdFits(n);
  }

  lemma CrowdHidden(n: nat, slots: nat, path: CStr)
    requires slots < n && Names(path) == [NumberName(n)]
    ensures Expected(Crowd(n), slots, path) == Nothing
  {
    LastHidden(n, slots, Names(path));
  }

  // Where the limits differ, a directory with one file more than the reader looks at is accepted, in an
  // image with a cluster for each file, and its last file is not found.
  lemma FullDirectory(clusterSize: nat) returns (host: seq<HostNode>, clusterNumber: nat, names: seq<CStr>)
    requires HEADER_SIZE <= clusterSize < 0x8000_0000 && !LimitsAgree(clusterSize)
    ensures NamesFit(host) && Kept(host) == host && UniqueNames(host) && HostNames(host)
    ensures ImageSize(clusterSize, clusterNumber) && FitsImage(host, clusterSize, clusterNumber)
    ensures |host| == ReaderSlots(clusterSize) + 1 && host == Crowd(|host|)
    ensures |names| == 1 && PlainName(names[0]) && Reaches(host, names, host[|host| - 1])
    ensures Expected(host, ReaderSlots(clusterSize), PathOf(names)) == Nothing
  {
    var n := ReaderSlots(clusterSize) + 1;
    host, clusterNumber, names := Crowd(n), n + 1, [NumberName(n)];
    CrowdAccepted(clusterSize, n);
    PathNames([], names);
    assert [] + PathOf(names) == PathOf(names);
    LastHidden(n, ReaderSlots(clusterSize), names);
    CrowdHidden(n, ReaderSlots(clusterSize), PathOf(names));
  }

  // The limits agree if and only if no accepted tree has a directory that is longer than what the
  // reader looks at.
  lemma AgreeIff(clusterSize: nat)
    requires HEADER_SIZE <= clusterSize < 0x8000_0000
    ensures LimitsAgree(clusterSize)
       <==> forall host :: Accepted(host, clusterSize) ==> Within(Kept(host), ReaderSlots(clusterSize))
  {
    if LimitsAgree(clusterSize) {
      forall host | Accepted(host, clusterSize) ensures Within(Kept(host), ReaderSlots(clusterSize)) {
        AcceptedWithin(host, clusterSize);
      }
    } else {
      var host, n, names := FullDirectory(clusterSize);
      assert Accepted(host, clusterSize) && !Within(Kept(host), ReaderSlots(clusterSize));
    }
  }

  // A host's tree that an image is built from.
  ghost predicate HostTree(host: seq<HostNode>, cs: nat)
    requires cs > 0
  {
    Accepted(host, cs) && UniqueNames(Kept(host)) && HostNames(Kept(host))
  }

  // Some path leads to the node and gives it.
  ghost predicate ReadBack(host: seq<HostNode>, cs: nat, n: HostNode) {
    exists path :: Gives(host, cs, n, path)
  }

  ghost predicate Gives(host: seq<HostNode>, cs: nat, n: HostNode, path: CStr) {
    && Names(path) != [] && Leads(host, Names(path), n)
    && Expected(Kept(host), ReaderSlots(cs), path) == FetchedFrom(n)
  }

  // Where the limits differ, some node of a host's tree is not read back.
  lemma NotAllReadBack(clusterSize: nat) returns (host: seq<HostNode>, n: HostNode)
    requires HEADER_SIZE <= clusterSize < 0x8000_0000 && !LimitsAgree(clusterSize)
    ensures HostTree(host, clusterSize) && OnHost(host, n) && !ReadBack(host, clusterSize, n)
  {
    var m, names;
    host, m, names := FullDirectory(clusterSize);
    n := host[|host| - 1];
    assert n in host && Ordinary(n);
    forall path ensures !Gives(host, clusterSize, n, path) {
      if Names(path) != [] && Leads(host, Names(path), n) {
        LeadsKept(host, Names(path), n);
        LastHidden(|host|, ReaderSlots(clusterSize), Names(path));
      }
    }
  }

  // What the builder and the driver are for: every ordinary node of every host tree that an image
  // accepts is read back by a path, if and only if the limits agree at the cluster size.
  lemma ReadBackIff(clusterSize: nat)
    requires HEADER_SIZE <= clusterSize < 0x8000_0000
    ensures LimitsAgree(clusterSize) <==>
      forall host, n :: HostTree(host, clusterSize) && OnHost(host, n) ==> ReadBack(host, clusterSize, n)
  {
    if LimitsAgree(clusterSize) {
      forall host, n | HostTree(host, clusterSize) && OnHost(host, n) ensures ReadBack(host, clusterSize, n) {
        HostNamesPlain(Kept(host));
        var path := EveryNode(host, clusterSize, n);
        assert Gives(host, clusterSize, n, path);
      }
    } else {
      var host, n := NotAllReadBack(clusterSize);
    }
  }
}
