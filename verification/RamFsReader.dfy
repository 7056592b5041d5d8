// The kernel's ramFs driver: it finds nodes by name, walks FAT chains and keeps a cursor per open
// file. It only reads the image. kernelPanic is an outcome.
module RamFsReader {
  import opened Machine
  import opened CStrings
  import opened Finite
  import opened RamFs

  // --- Looking up a node --------------------------------------------------------------------

  // How many records of a directory the reader looks at.
  function ReaderSlots(cs: nat): nat { cs / (NODE_SIZE + 4) }

  lemma SlotsFit(cs: nat, i: nat)
    requires i < ReaderSlots(cs)
    ensures SlotAt(i + 1) <= cs
  {}

  const NO_NODE := Entry([], 0, 0, 0)

  function GetNode(cluster: seq<Byte>, i: nat): Entry
    requires HEADER_SIZE <= |cluster|
  {
    if i >= CountIn(cluster) then NO_NODE
    else if i < ReaderSlots(|cluster|) then SlotsFit(|cluster|, i); EntryIn(cluster, i)
    else NO_NODE
  }

  // What the reader sees of a directory.
  function Nodes(cluster: seq<Byte>): (es: seq<Entry>)
    requires HEADER_SIZE <= |cluster|
    ensures |es| == CountIn(cluster) && forall i :: 0 <= i < |es| ==> es[i] == GetNode(cluster, i)
  {
    seq(CountIn(cluster), i requires 0 <= i < CountIn(cluster) => GetNode(cluster, i))
  }

  // The first node with this name from i on; cluster 0 says that there is none.
  function FindNode(es: seq<Entry>, name: CStr, i: nat): Entry
    requires i <= |es|
    decreases |es| - i
  {
    if i == |es| then NO_NODE
    else if es[i].name == name then es[i]
    else FindNode(es, name, i + 1)
  }

  // The walk down a path, name by name: the directory of the last name, and its record.
  function WalkPath(d: Disk, cs: nat, dir: nat, names: seq<CStr>): Option<(nat, Entry)>
    requires DiskOK(d, cs) && HEADER_SIZE <= cs && |names| >= 1
    decreases |names|
  {
    if dir >= |d.cl| then None
    else
      var e := FindNode(Nodes(d.cl[dir]), Cut(names[0], NAME_LENGTH), 0);
      if e.cluster == 0 then None
      else if |names| == 1 then Some((dir, e))
      else if e.kind == FS_DIRECTORY then WalkPath(d, cs, e.cluster, names[1..])
      else None
  }

  // --- The tree it stands for ---------------------------------------------------------------

  function IndexOf(kids: seq<HostNode>, name: CStr, i: nat): (r: nat)
    requires i <= |kids|
    ensures i <= r <= |kids| && (r < |kids| ==> kids[r].name == name)
    ensures forall j :: i <= j < r ==> kids[j].name != name
    decreases |kids| - i
  {
    if i == |kids| || kids[i].name == name then i else IndexOf(kids, name, i + 1)
  }

  // Lookup in the tree, where of every directory only the first `slots` nodes are seen.
  function Lookup(kids: seq<HostNode>, slots: nat, names: seq<CStr>): Option<HostNode>
    requires |names| >= 1
    decreases |names|
  {
    var i := IndexOf(kids, names[0], 0);
    if i >= |kids| || i >= slots then None
    else if |names| == 1 then Some(kids[i])
    else if kids[i].HostDir? then Lookup(kids[i].kids, slots, names[1..])
    else None
  }

  predicate ShortNames(kids: seq<HostNode>)
    decreases kids, 1
  {
    forall n :: n in kids ==> |n.name| < NAME_LENGTH && (n.HostDir? ==> ShortNames(n.kids))
  }

  // Of each node, what the reader sees is its record, up to its limit.
  ghost predicate Seen(es: seq<Entry>, slots: nat, kids: seq<HostNode>, ps: seq<Place>) {
    && |es| == |kids| == |ps|
    && forall i :: 0 <= i < |kids| ==>
         && (kids[i].HostFile? ==> |kids[i].data| < WORD) && First(ps[i]) < WORD
         && es[i] == if i < slots then EntryFor(kids[i], First(ps[i])) else NO_NODE
  }

  lemma ListsSeen(cluster: seq<Byte>, kids: seq<HostNode>, ps: seq<Place>)
    requires HEADER_SIZE <= |cluster| && Lists(cluster, kids, ps)
    ensures Seen(Nodes(cluster), ReaderSlots(|cluster|), kids, ps)
  {}

  lemma CutIs(a: CStr, name: CStr)
    requires |a| < NAME_LENGTH
    ensures a == Cut(name, NAME_LENGTH) <==> a == name
  {}

  // Finding a name in a directory cluster is finding it among the nodes it records.
  lemma {:induction false} FindIsIndex(es: seq<Entry>, slots: nat, kids: seq<HostNode>, ps: seq<Place>, name: CStr,
                                       i: nat)
    requires Seen(es, slots, kids, ps) && ShortNames(kids) && i <= |kids|
    ensures var r := IndexOf(kids, name, i);
      FindNode(es, Cut(name, NAME_LENGTH), i) ==
      if r < |kids| && r < slots then EntryFor(kids[r], First(ps[r])) else NO_NODE
    decreases |kids| - i
  {
    if i < |kids| {
      assert kids[i] in kids;
      CutIs(kids[i].name, name);
      if es[i].name != Cut(name, NAME_LENGTH) {
        FindIsIndex(es, slots, kids, ps, name, i + 1);
      }
    }
  }

  // Walking a path in an image that holds a tree finds what Lookup finds in the tree: the record
  // leads to where that node is held.
  lemma {:induction false} WalkIsLookup(d: Disk, cs: nat, kids: seq<HostNode>, at: nat, ps: seq<Place>,
                                        names: seq<CStr>)
    returns (p: Place)
    requires DiskOK(d, cs) && HEADER_SIZE <= cs && |names| >= 1 && DirHolds(d, cs, kids, at, ps) && ShortNames(kids)
    ensures match Lookup(kids, ReaderSlots(cs), names)
      case None => WalkPath(d, cs, at, names) == None
      case Some(n) =>
        && Holds(d, cs, n, p) && First(p) < WORD
        && WalkPath(d, cs, at, names).Some?
        && var (dir, e) := WalkPath(d, cs, at, names).value;
        && e == EntryFor(n, First(p)) && dir < |d.cl|
        && e == FindNode(Nodes(d.cl[dir]), Cut(names[|names| - 1], NAME_LENGTH), 0)
    decreases |names|
  {
    p := DirPlace(0, []);
    ListsSeen(d.cl[at], kids, ps);
    FindIsIndex(Nodes(d.cl[at]), ReaderSlots(cs), kids, ps, names[0], 0);
    var i := IndexOf(kids, names[0], 0);
    if i < |kids| && i < ReaderSlots(cs) {
      p := ps[i];
      assert Holds(d, cs, kids[i], p) && kids[i] in kids;
      FirstIsAt(d, cs, kids[i], p);
      if |names| > 1 && kids[i].HostDir? {
        p := WalkIsLookup(d, cs, kids[i].kids, p.at, p.kids, names[1..]);
      }
    }
  }

  lemma FirstIsAt(d: Disk, cs: nat, n: HostNode, p: Place)
    requires DiskOK(d, cs) && Holds(d, cs, n, p)
    ensures First(p) in Clusters(p) && First(p) != 0 && First(p) < |d.fat|
  {
    match n
    case HostFile(_, _) => assert p.chain[0] in Elements(p.chain);
    case HostDir(_, _) =>
  }

  // --- What Lookup finds --------------------------------------------------------------------

  predicate UniqueNames(kids: seq<HostNode>)
    decreases kids, 1
  {
    && (forall i, j :: 0 <= i < j < |kids| ==> kids[i].name != kids[j].name)
    && forall n :: n in kids && n.HostDir? ==> UniqueNames(n.kids)
  }

  // The directories of the tree are not longer than what the reader looks at.
  predicate Within(kids: seq<HostNode>, slots: nat)
    decreases kids, 1
  {
    && |kids| <= slots
    && forall n :: n in kids && n.HostDir? ==> Within(n.kids, slots)
  }

  // The names lead from these nodes down to n.
  ghost predicate Reaches(kids: seq<HostNode>, names: seq<CStr>, n: HostNode)
    requires |names| >= 1
    decreases |names|
  {
    exists m :: m in kids && m.name == names[0] &&
      if |names| == 1 then m == n else m.HostDir? && Reaches(m.kids, names[1..], n)
  }

  // Seeing all nodes, Lookup finds exactly what the names lead to.
  lemma {:induction false} LookupReaches(kids: seq<HostNode>, slots: nat, names: seq<CStr>, n: HostNode)
    requires |names| >= 1 && UniqueNames(kids) && Within(kids, slots)
    ensures Lookup(kids, slots, names) == Some(n) <==> Reaches(kids, names, n)
    decreases |names|
  {
    var i := IndexOf(kids, names[0], 0);
    if i < |kids| {
      assert kids[i] in kids;
      forall m | m in kids && m.name == names[0] ensures m == kids[i] {
        var j :| 0 <= j < |kids| && kids[j] == m;
      }
      if |names| > 1 && kids[i].HostDir? {
        LookupReaches(kids[i].kids, slots, names[1..], n);
      }
    }
  }

  // The limit matters exactly when some directory is longer: then some path is found in the tree
  // and not by the reader.
  lemma {:induction false} LimitSeen(kids: seq<HostNode>, slots: nat, all: nat, names: seq<CStr>)
    requires |names| >= 1 && Within(kids, slots) && Within(kids, all)
    ensures Lookup(kids, slots, names) == Lookup(kids, all, names)
    decreases |names|
  {
    var i := IndexOf(kids, names[0], 0);
    if i < |kids| && |names| > 1 && kids[i].HostDir? {
      assert kids[i] in kids;
      LimitSeen(kids[i].kids, slots, all, names[1..]);
    }
  }

  lemma {:induction false} LimitHides(kids: seq<HostNode>, slots: nat, all: nat) returns (names: seq<CStr>)
    requires UniqueNames(kids) && Within(kids, all) && !Within(kids, slots)
    ensures |names| >= 1 && Lookup(kids, all, names).Some? && Lookup(kids, slots, names).None?
    decreases kids
  {
    if |kids| > slots {
      names := [kids[slots].name];
    } else {
      var n :| n in kids && n.HostDir? && !Within(n.kids, slots);
      var i :| 0 <= i < |kids| && kids[i] == n;
      var rest := LimitHides(n.kids, slots, all);
      names := [n.name] + rest;
      assert names[1..] == rest;
    }
  }

  // How many records the builder puts into a directory.
  function WriterSlots(cs: nat): nat
    requires HEADER_SIZE <= cs
  {
    (cs - HEADER_SIZE) / NODE_SIZE
  }

  // The builder's test is this limit, which is never below the reader's.
  lemma SlotsAgree(cs: nat, kids: nat)
    requires HEADER_SIZE <= cs
    ensures SlotAt(kids) <= cs <==> kids <= WriterSlots(cs)
    ensures ReaderSlots(cs) <= WriterSlots(cs)
  {}

  // At 1024 bytes, which the makefile uses, both are 6. At 6400 bytes they are 41 and 40.
  lemma SlotsDiffer()
    ensures WriterSlots(1024) == ReaderSlots(1024) == 6
    ensures WriterSlots(6400) == 41 && ReaderSlots(6400) == 40
  {}

  // --- The cursor, on the file's bytes ------------------------------------------------------

  // What a read of n bytes at position p returns.
  function Slice(data: seq<Byte>, p: nat, n: nat): seq<Byte>
    requires p <= |data|
  {
    data[p..p + Min(n, |data| - p)]
  }

  // Where a seek leads. The sum is unsigned where it is compared with the size, and signed where
  // it is compared with 0.
  function SeekTo(size: Word, p: Word, offset: int): Word
  {
    if (p + offset) % WORD <= size && AsInt(p + offset) >= 0 then (p + offset) % WORD
    else if AsInt(p + offset) < 0 then 0
    else size
  }

  function Clamped(size: Word, t: int): Word { if t < 0 then 0 else if t > size then size else t }

  // The position for every sum t: kept inside the file below 2^31, the start from there to 2^32, and the
  // sum less 2^32 from there on.
  function SoughtAt(size: Word, t: int): int {
    if t < 0x8000_0000 then Clamped(size, t) else if t < 0x1_0000_0000 then 0 else t - 0x1_0000_0000
  }

  // A seek never leaves the file, and it clamps exactly while the sum fits an int; the first sum
  // that does not sends the cursor to the start instead of the end.
  lemma SeekClamps(size: Word, p: Word, offset: int)
    requires p <= size && -0x8000_0000 <= offset < 0x8000_0000
    ensures SeekTo(size, p, offset) <= size
    ensures SeekTo(size, p, offset) == Clamped(size, p + offset) <==> p + offset < 0x8000_0000
    ensures SeekTo(size, p, offset) == SoughtAt(size, p + offset)
  {
    var t := p + offset;
    if t < 0 {
      assert t % WORD == t + WORD;
    } else if t < WORD {
      assert t % WORD == t;
    } else {
      assert t % WORD == t - WORD;
    }
  }

  // In a file of 2^31 bytes, a seek by one from the last byte goes to the start.
  lemma SeekWraps()
    ensures SeekTo(0x8000_0000, 0x7FFF_FFFF, 1) == 0 && Clamped(0x8000_0000, 0x7FFF_FFFF + 1) == 0x8000_0000
  {}

  // Reading n bytes and then m is reading n + m.
  lemma ReadTwice(data: seq<Byte>, p: nat, n: nat, m: nat)
    requires p <= |data|
    ensures var first := Slice(data, p, n);
      p + |first| <= |data| && first + Slice(data, p + |first|, m) == Slice(data, p, n + m)
  {}

  datatype CursorOp = Read(n: Word) | Seek(offset: int)

  predicate OffsetsFit(ops: seq<CursorOp>) {
    forall i :: 0 <= i < |ops| && ops[i].Seek? ==> -0x8000_0000 <= ops[i].offset < 0x8000_0000
  }

  // The first k of a run of reads and seeks: the bytes that were read, and where the cursor is.
  function RunCursor(data: seq<Byte>, p: nat, ops: seq<CursorOp>, k: nat): (r: (seq<Byte>, nat))
    requires p <= |data| < WORD && k <= |ops| && OffsetsFit(ops)
    ensures r.1 <= |data|
  {
    if k == 0 then ([], p) else CursorStep(data, RunCursor(data, p, ops, k - 1), ops[k - 1])
  }

  function CursorStep(data: seq<Byte>, r: (seq<Byte>, nat), op: CursorOp): (r': (seq<Byte>, nat))
    requires r.1 <= |data| < WORD && (op.Seek? ==> -0x8000_0000 <= op.offset < 0x8000_0000)
    ensures r'.1 <= |data|
  {
    match op
    case Read(n) => (r.0 + Slice(data, r.1, n), r.1 + |Slice(data, r.1, n)|)
    case Seek(offset) =>
      SeekClamps(|data|, r.1, offset);
      (r.0, SeekTo(|data|, r.1, offset))
  }

  // How much the operations from j to k ask for.
  function Total(ops: seq<CursorOp>, j: nat, k: nat): nat
    requires j <= k <= |ops|
  {
    if j == k then 0 else Total(ops, j, k - 1) + if ops[k - 1].Read? then ops[k - 1].n else 0
  }

  // Some read's 32-bit sum of cursor and count wraps.
  predicate RunPanics(data: seq<Byte>, p: nat, ops: seq<CursorOp>, k: nat)
    requires p <= |data| < WORD && OffsetsFit(ops) && k <= |ops|
  {
    k > 0 && (RunPanics(data, p, ops, k - 1)
              || (ops[k - 1].Read? && RunCursor(data, p, ops, k - 1).1 + ops[k - 1].n >= WORD))
  }

  // From r on, the next n bytes are read.
  predicate ReadOn(data: seq<Byte>, r: (seq<Byte>, nat), r': (seq<Byte>, nat), n: nat)
    requires r.1 <= |data|
  {
    r'.0 == r.0 + Slice(data, r.1, n) && r'.1 == r.1 + |Slice(data, r.1, n)|
  }

  lemma OneReadMore(data: seq<Byte>, r: (seq<Byte>, nat), last: (seq<Byte>, nat), t: nat, op: CursorOp)
    requires r.1 <= |data| < WORD && last.1 <= |data| && ReadOn(data, r, last, t) && op.Read?
    ensures ReadOn(data, r, CursorStep(data, last, op), t + op.n)
  {
    ReadTwice(data, r.1, t, op.n);
    var all, more := Slice(data, r.1, t), Slice(data, last.1, op.n);
    assert all + more == Slice(data, r.1, t + op.n);
    assert (r.0 + all) + more == r.0 + (all + more);
  }

  lemma NothingRead(data: seq<Byte>, r: (seq<Byte>, nat))
    requires r.1 <= |data|
    ensures ReadOn(data, r, r, 0)
  {}

  // However a file is cut into reads, the pieces make up one slice: what the reads from operation j to
  // operation k deliver is the slice at the cursor of before, as long as what they ask for together.
  // After a seek that is where it led, whatever was read and sought earlier.
  lemma {:induction false} ReadsJoin(data: seq<Byte>, p: nat, ops: seq<CursorOp>, j: nat, k: nat)
    requires p <= |data| < WORD && OffsetsFit(ops) && j <= k <= |ops|
    requires forall i :: j <= i < k ==> ops[i].Read?
    ensures ReadOn(data, RunCursor(data, p, ops, j), RunCursor(data, p, ops, k), Total(ops, j, k))
  {
    if j == k {
      NothingRead(data, RunCursor(data, p, ops, j));
    } else {
      var r, last := RunCursor(data, p, ops, j), RunCursor(data, p, ops, k - 1);
      ReadsJoin(data, p, ops, j, k - 1);
      OneReadMore(data, r, last, Total(ops, j, k - 1), ops[k - 1]);
      assert RunCursor(data, p, ops, k) == CursorStep(data, last, ops[k - 1]);
    }
  }

  // The loaded image. The driver only reads it.
  datatype Device = Device(clusterNumber: nat, clusterSize: nat, FAT: seq<Word>, clusters: seq<Byte>) {
    ghost predicate Valid() {
      && HEADER_SIZE <= clusterSize
      && 1 <= clusterNumber == |FAT| < 0xFFFF_FFFE
      && |clusters| == Off(clusterSize, clusterNumber) < WORD
    }

    ghost function Disk(): (d: RamFs.Disk)
      requires Valid()
      ensures DiskOK(d, clusterSize)
    {
      RamFs.Disk(FAT, View(clusters, clusterSize, clusterNumber))
    }
  }

  // --- The driver ---------------------------------------------------------------------------

  // Seeing a directory through the flat cluster area.
  method ReadNodeCount(dev: Device, dir: nat) returns (n: Word)
    requires dev.Valid() && dir < dev.clusterNumber
    ensures n == |Nodes(dev.Disk().cl[dir])|
  {
    OffIs(dev.clusterSize, dir);
    OffMono(dev.clusterSize, dir, dev.clusterNumber);
    var at := dev.clusterSize * dir;
    n := WordAt(dev.clusters[at..at + dev.clusterSize], 0);
  }

  method ReadNode(dev: Device, dir: nat, i: nat) returns (e: Entry)
    requires dev.Valid() && dir < dev.clusterNumber
    ensures e == GetNode(dev.Disk().cl[dir], i)
  {
    OffIs(dev.clusterSize, dir);
    OffMono(dev.clusterSize, dir, dev.clusterNumber);
    var at := dev.clusterSize * dir;
    e := GetNode(dev.clusters[at..at + dev.clusterSize], i);
  }

  method GetNodeFromName(dev: Device, dir: nat, name: CStr) returns (e: Entry)
    requires dev.Valid() && dir < dev.clusterNumber && 0 !in name
    ensures e == FindNode(Nodes(dev.Disk().cl[dir]), name, 0)
  {
    ghost var es := Nodes(dev.Disk().cl[dir]);
    var i := 0;
    var count := ReadNodeCount(dev, dir);
    while i < count
      invariant i <= |es| && FindNode(es, name, 0) == FindNode(es, name, i)
    {
      e := ReadNode(dev, dir, i);
      var order := StrCmp(name, e.name);
      if order == 0 {
        return;
      }
      i := i + 1;
    }
    e := NO_NODE;
  }

  // One step along a chain, in the FAT and in the data.
  lemma NextLink(fat: seq<Word>, chain: seq<nat>, c: nat, cs: nat)
    requires Linked(fat, chain) && |fat| < FAT_END && c < |chain|
    ensures fat[chain[c]] != FAT_EMPTY
    ensures fat[chain[c]] == FAT_END <==> c + 1 == |chain|
    ensures c + 1 < |chain| ==> fat[chain[c]] == chain[c + 1]
    ensures Off(cs, c) + cs == Off(cs, c + 1)
  {
    assert fat[chain[c]] == After(chain, c);
    assert c + 1 < |chain| ==> chain[c + 1] < |fat|;
  }

  lemma CopiesAll(bytes: seq<Byte>, data: seq<Byte>, from: nat)
    requires from + |bytes| <= |data| && Copies(bytes, data, from)
    ensures bytes == data[from..from + |bytes|]
  {
    assert bytes[..|bytes|] == bytes;
  }

  // Whether a chain goes on, and where.
  method FollowFAT(dev: Device, cluster: nat, ghost chain: seq<nat>, ghost c: nat) returns (end: bool, next: nat)
    requires dev.Valid() && Linked(dev.FAT, chain) && c < |chain| && cluster == chain[c]
    ensures end <==> c + 1 == |chain|
    ensures !end ==> next == chain[c + 1]
  {
    NextLink(dev.FAT, chain, c, dev.clusterSize);
    assert dev.FAT[chain[c]] == dev.FAT[cluster];
    end := dev.FAT[cluster] == FAT_EMPTY || dev.FAT[cluster] == FAT_END;
    next := if end then cluster else dev.FAT[cluster];
  }

  // Following a chain i links. The panic comes exactly when the chain is shorter.
  method GetCluster(dev: Device, base: nat, i: nat, ghost chain: seq<nat>) returns (panic: bool, c: nat)
    requires dev.Valid() && Linked(dev.FAT, chain) && chain[0] == base
    ensures panic <==> i >= |chain|
    ensures !panic ==> c == chain[i]
  {
    c := base;
    for k := 0 to i
      invariant k < |chain| && c == chain[k]
    {
      panic, c := FollowFAT(dev, c, chain, k);
      if panic {
        return;
      }
    }
    panic := false;
  }

  method ReadByte(dev: Device, c: nat, j: nat) returns (b: Byte)
    requires dev.Valid() && c < dev.clusterNumber && j < dev.clusterSize
    ensures b == dev.Disk().cl[c][j]
  {
    OffIs(dev.clusterSize, c);
    OffMono(dev.clusterSize, c, dev.clusterNumber);
    b := dev.clusters[c * dev.clusterSize + j];
  }

  lemma ChainBound(fat: seq<Word>, chain: seq<nat>, cs: nat)
    requires Linked(fat, chain)
    ensures |chain| <= |fat| && Off(cs, |chain|) <= Off(cs, |fat|)
  {
    DistinctSize(chain);
    SubsetSize(Elements(chain), Below(|fat|));
    if |chain| < |fat| {
      OffMono(cs, |chain|, |fat|);
    }
  }

  lemma HeldByte(d: Disk, cs: nat, data: seq<Byte>, chain: seq<nat>, c: nat, j: nat)
    requires DiskOK(d, cs) && FileHolds(d, cs, data, chain) && c < |chain| && j < cs && Off(cs, c) + j < |data|
    ensures d.cl[chain[c]][j] == data[Off(cs, c) + j]
  {}

  // These bytes are what the data have from position `from` on, as far as they go.
  ghost predicate Copies(bytes: seq<Byte>, data: seq<Byte>, from: nat)
    requires from <= |data|
  {
    var n := Min(|bytes|, |data| - from);
    bytes[..n] == data[from..from + n]
  }

  lemma CopiesSnoc(bytes: seq<Byte>, b: Byte, data: seq<Byte>, from: nat)
    requires from <= |data| && Copies(bytes, data, from)
    requires from + |bytes| < |data| ==> b == data[from + |bytes|]
    ensures Copies(bytes + [b], data, from)
  {
    if from + |bytes| < |data| {
      assert data[from..from + |bytes| + 1] == data[from..from + |bytes|] + [b];
    } else {
      assert (bytes + [b])[..|data| - from] == bytes[..|data| - from];
    }
  }

  // Byte clusterI of cluster c of the chain is byte p of the chain.
  ghost predicate At(chain: seq<nat>, cs: nat, cluster: nat, clusterI: nat, p: nat, c: nat) {
    && c < |chain| && cluster == chain[c] && clusterI < cs
    && Off(cs, c) + clusterI == p && Off(cs, c) + cs <= Off(cs, |chain|)
  }

  // The position moves on by one byte, perhaps into the next cluster.
  method NextPosition(dev: Device, cluster: nat, clusterI: nat, ghost p: nat, ghost c: nat, ghost chain: seq<nat>)
    returns (end: bool, nextCluster: nat, nextI: nat, ghost nextC: nat)
    requires dev.Valid() && Linked(dev.FAT, chain) && At(chain, dev.clusterSize, cluster, clusterI, p, c)
    ensures end <==> p + 1 == Off(dev.clusterSize, |chain|)
    ensures !end ==> At(chain, dev.clusterSize, nextCluster, nextI, p + 1, nextC)
  {
    nextCluster, nextI, nextC, end := cluster, clusterI + 1, c, false;
    if nextI == dev.clusterSize {
      end, nextCluster := FollowFAT(dev, cluster, chain, c);
      nextI, nextC := 0, c + 1;
      assert Off(dev.clusterSize, c + 1) == p + 1;
      if !end {
        OffMono(dev.clusterSize, nextC, |chain|);
      }
    }
  }

  method ReadHeld(dev: Device, cluster: nat, clusterI: nat, ghost p: nat, ghost c: nat, ghost data: seq<Byte>,
                  ghost chain: seq<nat>)
    returns (b: Byte)
    requires dev.Valid() && FileHolds(dev.Disk(), dev.clusterSize, data, chain)
    requires At(chain, dev.clusterSize, cluster, clusterI, p, c)
    ensures p < |data| ==> b == data[p]
  {
    b := ReadByte(dev, cluster, clusterI);
    if p < |data| {
      HeldByte(dev.Disk(), dev.clusterSize, data, chain, c, clusterI);
    }
  }

  // The copy loop: it stops after `count` bytes, or panics at the end of the chain.
  method CopyChain(dev: Device, buffer: array<Byte>, first: nat, firstI: nat, count: nat, ghost from: nat, ghost k: nat,
                   ghost data: seq<Byte>, ghost chain: seq<nat>)
    returns (panic: bool, i: nat)
    requires dev.Valid() && FileHolds(dev.Disk(), dev.clusterSize, data, chain)
    requires At(chain, dev.clusterSize, first, firstI, from, k) && from <= |data|
    requires count <= buffer.Length
    modifies buffer
    ensures panic <==> from + count >= Off(dev.clusterSize, |chain|)
    ensures !panic ==> i == count
    ensures i <= buffer.Length && Copies(buffer[..i], data, from)
    ensures forall j :: i <= j < buffer.Length ==> buffer[j] == old(buffer[j])
  {
    var cluster, clusterI, left := first, firstI, count;
    ghost var c := k;
    i, panic := 0, false;
    while left > 0
      invariant i + left == count
      invariant At(chain, dev.clusterSize, cluster, clusterI, from + i, c)
      invariant Copies(buffer[..i], data, from)
      invariant forall j :: i <= j < buffer.Length ==> buffer[j] == old(buffer[j])
    {
      ghost var was := buffer[..i];
      var b := ReadHeld(dev, cluster, clusterI, from + i, c, data, chain);
      CopiesSnoc(was, b, data, from);
      buffer[i] := b;
      assert buffer[..i + 1] == was + [b];
      panic, cluster, clusterI, c := NextPosition(dev, cluster, clusterI, from + i, c, chain);
      i, left := i + 1, left - 1;
      if panic {
        return;
      }
    }
  }

  // The cursor of an open file.
  class InodeInfo {
    const name: CStr
    const cluster: nat
    const directoryCluster: nat
    var position: nat

    constructor (name: CStr, cluster: nat, directoryCluster: nat)
      ensures this.name == name && this.cluster == cluster && this.directoryCluster == directoryCluster
      ensures position == 0
    {
      this.name, this.cluster, this.directoryCluster, position := name, cluster, directoryCluster, 0;
    }

    // It is the cursor of a file with these data.
    ghost predicate Opens(dev: Device, data: seq<Byte>, chain: seq<nat>)
      reads this
      requires dev.Valid()
    {
      && directoryCluster < dev.clusterNumber && 0 !in name && |data| < WORD && cluster < WORD
      && FindNode(Nodes(dev.Disk().cl[directoryCluster]), name, 0) == Entry(name, FS_FILE, |data|, cluster)
      && cluster != 0 && FileHolds(dev.Disk(), dev.clusterSize, data, chain) && chain[0] == cluster
      && position <= |data|
    }

    // The bytes from the cursor on, as far as asked for and as far as the file goes. The sum of
    // position and count is a 32-bit sum: where it wraps, the size no longer bounds the read and
    // it runs into the end of the chain.
    method ReadFile(dev: Device, buffer: array<Byte>, byteCount: Word, ghost data: seq<Byte>, ghost chain: seq<nat>)
      returns (panic: bool, i: nat)
      requires dev.Valid() && Opens(dev, data, chain) && byteCount <= buffer.Length
      modifies this, buffer
      ensures panic <==> old(position) + byteCount >= WORD
      ensures !panic ==> Opens(dev, data, chain) && position == old(position) + i
      ensures i <= buffer.Length
      ensures !panic ==> buffer[..i] == Slice(data, old(position), byteCount)
      ensures !panic ==> buffer[i..] == old(buffer[i..])
    {
      ghost var from := position;
      var daLeggere := ToRead(dev, byteCount, data, chain);
      var k, r := position / dev.clusterSize, position % dev.clusterSize;
      CursorAt(position, dev.clusterSize);
      ReachesCursor(dev.clusterSize, |data|, position, |chain|);
      OffMono(dev.clusterSize, k, |chain|);
      var first;
      panic, first := GetCluster(dev, cluster, k, chain);
      panic, i := CopyChain(dev, buffer, first, r, daLeggere, position, k, data, chain);
      if !panic {
        CopiesAll(buffer[..i], data, from);
        position := position + i;
      }
    }

    method Seek(dev: Device, offset: int, ghost data: seq<Byte>, ghost chain: seq<nat>) returns (panic: bool)
      requires dev.Valid() && Opens(dev, data, chain) && -0x8000_0000 <= offset < 0x8000_0000
      modifies this
      ensures !panic && Opens(dev, data, chain) && position == SeekTo(|data|, old(position), offset)
      ensures position == SoughtAt(|data|, old(position) + offset)
    {
      SeekClamps(|data|, position, offset);
      var node := GetNodeFromName(dev, directoryCluster, name);
      if node.cluster == 0 {
        return true;
      }
      if node.kind == FS_FILE {
        if (position + offset) % WORD <= node.size && AsInt(position + offset) >= 0 {
          position := (position + offset) % WORD;
        } else if AsInt(position + offset) < 0 {
          position := 0;
        } else {
          position := node.size;
        }
      }
      panic := false;
    }

    // How many bytes the loop is to copy.
    method ToRead(dev: Device, byteCount: Word, ghost data: seq<Byte>, ghost chain: seq<nat>) returns (n: nat)
      requires dev.Valid() && Opens(dev, data, chain)
      ensures position + byteCount < WORD ==> n == Min(byteCount, |data| - position)
      ensures position + byteCount >= WORD ==> n == byteCount
      ensures position + n >= Off(dev.clusterSize, |chain|) <==> position + byteCount >= WORD
    {
      ChainBound(dev.FAT, chain, dev.clusterSize);
      n := byteCount;
      var node := GetNodeFromName(dev, directoryCluster, name);
      Clamp(position, byteCount, node.size);
      if Add32(position, byteCount) > node.size {
        n := Sub32(node.size, position);
      }
    }
  }

  // A run of reads and seeks on an open file delivers what the run stands for, byte for byte, and
  // panics exactly if one of its reads does.
  method PerformAll(dev: Device, info: InodeInfo, ops: seq<CursorOp>, ghost data: seq<Byte>, ghost chain: seq<nat>)
    returns (panic: bool, bytes: seq<Byte>)
    requires dev.Valid() && info.Opens(dev, data, chain) && OffsetsFit(ops)
    modifies info
    ensures panic <==> RunPanics(data, old(info.position), ops, |ops|)
    ensures !panic ==>
      && info.Opens(dev, data, chain)
      && (bytes, info.position) == RunCursor(data, old(info.position), ops, |ops|)
  {
    ghost var p := info.position;
    var k := 0;
    panic, bytes := false, [];
    while k < |ops|
      invariant k <= |ops| && info.Opens(dev, data, chain)
      invariant !RunPanics(data, p, ops, k) && (bytes, info.position) == RunCursor(data, p, ops, k)
    {
      panic, bytes := PerformOne(dev, info, ops[k], bytes, data, chain);
      if panic {
        PanicStays(data, p, ops, k + 1, |ops|);
        return;
      }
      k := k + 1;
    }
  }

  method PerformOne(dev: Device, info: InodeInfo, op: CursorOp, bytes: seq<Byte>, ghost data: seq<Byte>,
                    ghost chain: seq<nat>)
    returns (panic: bool, bytes': seq<Byte>)
    requires dev.Valid() && info.Opens(dev, data, chain)
    requires op.Seek? ==> -0x8000_0000 <= op.offset < 0x8000_0000
    modifies info
    ensures panic <==> op.Read? && old(info.position) + op.n >= WORD
    ensures !panic ==> info.Opens(dev, data, chain)
    ensures !panic ==> (bytes', info.position) == CursorStep(data, (bytes, old(info.position)), op)
  {
    bytes' := bytes;
    match op
    case Read(n) =>
      var piece;
      panic, piece := ReadBytes(dev, info, n, data, chain);
      bytes' := bytes + piece;
    case Seek(offset) =>
      panic := info.Seek(dev, offset, data, chain);
  }

  lemma {:induction false} PanicStays(data: seq<Byte>, p: nat, ops: seq<CursorOp>, j: nat, k: nat)
    requires p <= |data| < WORD && OffsetsFit(ops) && j <= k <= |ops| && RunPanics(data, p, ops, j)
    ensures RunPanics(data, p, ops, k)
  {
    if j < k { PanicStays(data, p, ops, j, k - 1); }
  }

  // A read into a buffer of its own.
  method ReadBytes(dev: Device, info: InodeInfo, n: Word, ghost data: seq<Byte>, ghost chain: seq<nat>)
    returns (panic: bool, bytes: seq<Byte>)
    requires dev.Valid() && info.Opens(dev, data, chain)
    modifies info
    ensures panic <==> old(info.position) + n >= WORD
    ensures !panic ==> info.Opens(dev, data, chain) && bytes == Slice(data, old(info.position), n)
    ensures !panic ==> info.position == old(info.position) + |bytes|
  {
    var buffer, count := new Byte[n], 0;
    panic, count := info.ReadFile(dev, buffer, n, data, chain);
    bytes := buffer[..count];
  }

  lemma CursorAt(position: nat, cs: nat)
    requires cs > 0
    ensures position / cs == Quot(position, cs)
    ensures position % cs == position - Off(cs, Quot(position, cs))
  {
    QuotIs(position, cs);
    OffIs(cs, position / cs);
  }

  // The cursor's cluster is on the chain.
  lemma ReachesCursor(cs: nat, size: nat, position: nat, m: nat)
    requires cs > 0 && m > 0 && size < Off(cs, m) && position <= size
    ensures Quot(position, cs) < m
    ensures Off(cs, Quot(position, cs)) <= position < Off(cs, Quot(position, cs)) + cs
  {
    var q := Quot(position, cs);
    OffQuot(position, cs, q);
    OffQuot(position, cs, q + 1);
    OffQuot(position, cs, m);
  }

  lemma Clamp(position: Word, count: Word, size: Word)
    requires position <= size
    ensures Add32(position, count) > size <==> position + count < WORD && position + count > size
    ensures Sub32(size, position) == size - position
  {}

  // --- Opening a path -----------------------------------------------------------------------

  // What stands after the first slash, name by name; a path without one has no names.
  function Names(path: CStr): seq<CStr> { Fields(path, SLASH)[1..] }

  // A directory that is found leads to a directory of the tree.
  lemma StepDown(d: Disk, cs: nat, kids: seq<HostNode>, at: nat, ps: seq<Place>, name: CStr) returns (i: nat)
    requires DiskOK(d, cs) && HEADER_SIZE <= cs && DirHolds(d, cs, kids, at, ps) && ShortNames(kids)
    requires FindNode(Nodes(d.cl[at]), Cut(name, NAME_LENGTH), 0).kind == FS_DIRECTORY
    ensures i < |kids| == |ps| && kids[i].HostDir? && ps[i].DirPlace? && ShortNames(kids[i].kids)
    ensures FindNode(Nodes(d.cl[at]), Cut(name, NAME_LENGTH), 0).cluster == ps[i].at
    ensures DirHolds(d, cs, kids[i].kids, ps[i].at, ps[i].kids)
  {
    ListsSeen(d.cl[at], kids, ps);
    FindIsIndex(Nodes(d.cl[at]), ReaderSlots(cs), kids, ps, name, 0);
    i := IndexOf(kids, name, 0);
    assert i < |kids|;
    assert Holds(d, cs, kids[i], ps[i]) && kids[i] in kids;
  }

  // The path walk, on an image that holds a tree. The buffers have one byte more than the source
  // gives them, for the NUL that substr writes after max bytes.
  method GetNodeDescriptor(dev: Device, path: CStr, ghost kids: seq<HostNode>,
                           ghost ps: seq<Place>) returns (info: InodeInfo?, kind: Byte)
    requires dev.Valid() && 0 !in path && |path| < 0x8000_0000
    requires DirHolds(dev.Disk(), dev.clusterSize, kids, 0, ps) && ShortNames(kids)
    ensures info == null <==> Names(path) == [] || WalkPath(dev.Disk(), dev.clusterSize, 0, Names(path)).None?
    ensures info != null ==> var (dir, e) := WalkPath(dev.Disk(), dev.clusterSize, 0, Names(path)).value;
      && fresh(info) && 0 !in info.name && info.position == 0
      && info.cluster == e.cluster && info.directoryCluster == dir
      && info.name == Cut(Names(path)[|Names(path)| - 1], NAME_LENGTH) && kind == e.kind
  {
    var nodeName, tmpChar := new Byte[NAME_LENGTH + 1], new Byte[2];
    var depth, directory := 1, 0;
    ghost var d, cs, names := dev.Disk(), dev.clusterSize, Names(path);
    ghost var nodes, places := kids, ps;
    FieldsCount(path, SLASH, 0);
    info, kind := null, 0;
    var ret := Split(path, nodeName, NAME_LENGTH, SLASH, depth);
    depth := depth + 1;
    while ret >= 0
      invariant 2 <= depth && (ret >= 0 <==> depth - 2 < |names|)
      invariant info == null && (names == [] || ret >= 0)
      invariant ret >= 0 ==> Text(nodeName[..], Cut(names[depth - 2], NAME_LENGTH))
      invariant ret >= 0 ==> WalkPath(d, cs, 0, names) == WalkPath(d, cs, directory, names[depth - 2..])
      invariant ret >= 0 ==> DirHolds(d, cs, nodes, directory, places) && ShortNames(nodes)
      decreases |names| - depth + 2
    {
      TextReads(nodeName[..], Cut(names[depth - 2], NAME_LENGTH));
      var name := UpToNul(nodeName[..]);
      assert names[depth - 2..][0] == names[depth - 2] && names[depth - 2..][1..] == names[depth - 1..];
      var tmp := GetNodeFromName(dev, directory, name);
      if tmp.cluster == 0 {
        return;
      }
      var last := Split(path, tmpChar, 1, SLASH, depth);
      if last == -1 {
        info := new InodeInfo(name, tmp.cluster, directory);
        return info, tmp.kind;
      }
      if tmp.kind != FS_DIRECTORY {
        return;
      }
      ghost var i := StepDown(d, cs, nodes, directory, places, names[depth - 2]);
      nodes, places := nodes[i].kids, places[i].kids;
      directory := tmp.cluster;
      ret := Split(path, nodeName, NAME_LENGTH, SLASH, depth);
      depth := depth + 1;
    }
  }
}
