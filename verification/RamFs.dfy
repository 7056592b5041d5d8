// The ramFs image: what its FAT and its clusters mean. The image builder and the kernel's reader
// are two programs that share only this layout.
module RamFs {
  import opened Machine
  import opened CStrings
  import opened Finite

  const FAT_EMPTY: Word := 0xFFFF_FFFF
  const FAT_END: Word := 0xFFFF_FFFE
  const NAME_LENGTH := 128
  const FS_FILE: Byte := 1
  const FS_DIRECTORY: Byte := 2
  const SLASH: Byte := 47

  // --- Directory clusters -------------------------------------------------------------------

  // A directory is one cluster: a count, then packed node records. The record's fields lie where
  // the i386 C layout of the struct puts them.
  const HEADER_SIZE := 4
  const NODE_SIZE := 156
  const TYPE_AT := 140
  const SIZE_AT := 144
  const LOCK_AT := 148
  const CLUSTER_AT := 152

  datatype Entry = Entry(name: CStr, kind: Byte, size: Word, cluster: Word)

  function SlotAt(i: nat): nat { HEADER_SIZE + NODE_SIZE * i }

  function UpToNul(bs: seq<Byte>): (s: CStr)
    ensures 0 !in s && |s| <= |bs|
  {
    if bs == [] || bs[0] == 0 then [] else [bs[0]] + UpToNul(bs[1..])
  }

  function CountIn(cluster: seq<Byte>): Word
    requires HEADER_SIZE <= |cluster|
  {
    WordAt(cluster, 0)
  }

  function EntryIn(cluster: seq<Byte>, i: nat): Entry
    requires SlotAt(i + 1) <= |cluster|
  {
    var at := SlotAt(i);
    Entry(UpToNul(cluster[at..at + NAME_LENGTH]), cluster[at + TYPE_AT],
          WordAt(cluster, at + SIZE_AT), WordAt(cluster, at + CLUSTER_AT))
  }

  // The cluster after a record is written in slot i, field by field.
  function PutEntry(cluster: seq<Byte>, i: nat, e: Entry): (r: seq<Byte>)
    requires SlotAt(i + 1) <= |cluster| && |e.name| < NAME_LENGTH
    ensures |r| == |cluster|
  {
    var at := SlotAt(i);
    var r1 := StoreWord(cluster, at + CLUSTER_AT, e.cluster);
    var r2 := Store(r1, at, e.name + [0]);
    var r3 := StoreWord(r2, at + SIZE_AT, e.size);
    var r4 := Store(r3, at + TYPE_AT, [e.kind]);
    Store(r4, at + LOCK_AT, [0])
  }

  lemma {:induction false} UpToNulOf(s: CStr, rest: seq<Byte>)
    requires 0 !in s
    ensures UpToNul(s + [0] + rest) == s
  {
    var bs := s + [0] + rest;
    if s != [] {
      assert bs[1..] == s[1..] + [0] + rest;
      UpToNulOf(s[1..], rest);
    }
  }

  // Which byte a record's write leaves at position k.
  lemma PutEntryByte(cluster: seq<Byte>, i: nat, e: Entry, k: nat)
    requires SlotAt(i + 1) <= |cluster| && |e.name| < NAME_LENGTH && k < |cluster|
    ensures var at := SlotAt(i);
      PutEntry(cluster, i, e)[k] ==
      if k == at + LOCK_AT then 0
      else if k == at + TYPE_AT then e.kind
      else if at + SIZE_AT <= k < at + SIZE_AT + 4 then WordBytes(e.size)[k - at - SIZE_AT]
      else if at <= k <= at + |e.name| then (e.name + [0])[k - at]
      else if at + CLUSTER_AT <= k < at + CLUSTER_AT + 4 then WordBytes(e.cluster)[k - at - CLUSTER_AT]
      else cluster[k]
  {
    var at := SlotAt(i);
    FiveStores(cluster, at + CLUSTER_AT, WordBytes(e.cluster), at, e.name + [0], at + SIZE_AT, WordBytes(e.size),
               at + TYPE_AT, [e.kind], at + LOCK_AT, [0], k);
  }

  lemma FiveStores(m: seq<Byte>, a1: nat, b1: seq<Byte>, a2: nat, b2: seq<Byte>, a3: nat, b3: seq<Byte>,
                   a4: nat, b4: seq<Byte>, a5: nat, b5: seq<Byte>, k: nat)
    requires a1 + |b1| <= |m| && a2 + |b2| <= |m| && a3 + |b3| <= |m| && a4 + |b4| <= |m| && a5 + |b5| <= |m|
    requires k < |m|
    ensures Store(Store(Store(Store(Store(m, a1, b1), a2, b2), a3, b3), a4, b4), a5, b5)[k] ==
      if a5 <= k < a5 + |b5| then b5[k - a5]
      else if a4 <= k < a4 + |b4| then b4[k - a4]
      else if a3 <= k < a3 + |b3| then b3[k - a3]
      else if a2 <= k < a2 + |b2| then b2[k - a2]
      else if a1 <= k < a1 + |b1| then b1[k - a1]
      else m[k]
  {
    var m1 := Store(m, a1, b1);
    var m2 := Store(m1, a2, b2);
    var m3 := Store(m2, a3, b3);
    StoreAt(m, a1, b1, k);
    StoreAt(m1, a2, b2, k);
    StoreAt(m2, a3, b3, k);
    StoreAt(m3, a4, b4, k);
    StoreAt(Store(m3, a4, b4), a5, b5, k);
  }

  lemma StoredWord(r: seq<Byte>, a: nat, w: Word)
    requires a + 4 <= |r| && forall k :: 0 <= k < 4 ==> r[a + k] == WordBytes(w)[k]
    ensures WordAt(r, a) == w
  {
    WordRoundTrip(w);
    assert r[a + 0] == WordBytes(w)[0] && r[a + 1] == WordBytes(w)[1];
    assert r[a + 2] == WordBytes(w)[2] && r[a + 3] == WordBytes(w)[3];
  }

  // A slot with a record's bytes in place reads as that record.
  lemma SlotReads(r: seq<Byte>, i: nat, e: Entry)
    requires SlotAt(i + 1) <= |r| && |e.name| < NAME_LENGTH && 0 !in e.name
    requires r[SlotAt(i) + TYPE_AT] == e.kind
    requires forall k :: 0 <= k < 4 ==> r[SlotAt(i) + SIZE_AT + k] == WordBytes(e.size)[k]
    requires forall k :: 0 <= k < 4 ==> r[SlotAt(i) + CLUSTER_AT + k] == WordBytes(e.cluster)[k]
    requires forall k :: 0 <= k <= |e.name| ==> r[SlotAt(i) + k] == (e.name + [0])[k]
    ensures EntryIn(r, i) == e
  {
    var at := SlotAt(i);
    StoredWord(r, at + SIZE_AT, e.size);
    StoredWord(r, at + CLUSTER_AT, e.cluster);
    assert r[at + |e.name|] == (e.name + [0])[|e.name|] == 0;
    forall k | 0 <= k < |e.name| ensures r[at + k] == e.name[k] {
      assert r[at + k] == (e.name + [0])[k];
    }
    NameReads(r, at, e.name);
  }

  lemma TextReads(buffer: seq<Byte>, s: CStr)
    requires Text(buffer, s)
    ensures UpToNul(buffer) == s
  {
    UpToNulOf(s, buffer[|s| + 1..]);
    assert buffer == s + [0] + buffer[|s| + 1..];
  }

  // A record is read back from its slot, and the count and the earlier slots are as before.
  lemma PutEntryReads(cluster: seq<Byte>, r: seq<Byte>, i: nat, e: Entry)
    requires SlotAt(i + 1) <= |cluster| && |e.name| < NAME_LENGTH && 0 !in e.name
    requires r == PutEntry(cluster, i, e)
    ensures EntryIn(r, i) == e
    ensures r[4 + 156 * i + 140] == e.kind
    ensures WordAt(r, 4 + 156 * i + 144) == e.size && WordAt(r, 4 + 156 * i + 152) == e.cluster
    ensures CountIn(r) == CountIn(cluster)
    ensures forall j: nat :: j < i ==> EntryIn(r, j) == EntryIn(cluster, j)
  {
    var at := SlotAt(i);
    forall k: nat | k < at ensures r[k] == cluster[k] {
      PutEntryByte(cluster, i, e, k);
    }
    assert EntryIn(r, i) == e by {
      PutEntryByte(cluster, i, e, at + TYPE_AT);
      forall k: nat | k < 4
        ensures r[at + SIZE_AT + k] == WordBytes(e.size)[k]
        ensures r[at + CLUSTER_AT + k] == WordBytes(e.cluster)[k]
      {
        PutEntryByte(cluster, i, e, at + SIZE_AT + k);
        PutEntryByte(cluster, i, e, at + CLUSTER_AT + k);
      }
      forall k: nat | k <= |e.name| ensures r[at + k] == (e.name + [0])[k] {
        PutEntryByte(cluster, i, e, at + k);
      }
      SlotReads(r, i, e);
    }
    EarlierSlots(cluster, r, i);
  }

  lemma EarlierSlots(cluster: seq<Byte>, r: seq<Byte>, i: nat)
    requires |cluster| == |r| && SlotAt(i) <= |r|
    requires forall k: nat :: k < SlotAt(i) ==> r[k] == cluster[k]
    ensures CountIn(r) == CountIn(cluster)
    ensures forall j: nat :: j < i ==> EntryIn(r, j) == EntryIn(cluster, j)
  {
    forall j: nat | j < i ensures EntryIn(r, j) == EntryIn(cluster, j) {
      SameSlot(cluster, r, j, SlotAt(i));
    }
  }

  lemma NameReads(r: seq<Byte>, at: nat, name: CStr)
    requires at + NAME_LENGTH <= |r| && |name| < NAME_LENGTH && 0 !in name
    requires forall k :: 0 <= k < |name| ==> r[at + k] == name[k]
    requires r[at + |name|] == 0
    ensures UpToNul(r[at..at + NAME_LENGTH]) == name
  {
    var bs := r[at..at + NAME_LENGTH];
    UpToNulOf(name, bs[|name| + 1..]);
    assert bs == name + [0] + bs[|name| + 1..];
  }

  // What lies before a position decides the slots before it.
  lemma SameSlot(a: seq<Byte>, b: seq<Byte>, j: nat, upTo: nat)
    requires |a| == |b| && SlotAt(j + 1) <= upTo <= |a|
    requires forall k :: HEADER_SIZE <= k < upTo ==> a[k] == b[k]
    ensures EntryIn(a, j) == EntryIn(b, j)
  {
    var at := SlotAt(j);
    assert a[at..at + NAME_LENGTH] == b[at..at + NAME_LENGTH];
  }

  lemma PutCountReads(cluster: seq<Byte>, n: Word)
    requires HEADER_SIZE <= |cluster|
    ensures CountIn(StoreWord(cluster, 0, n)) == n
    ensures forall j: nat :: SlotAt(j + 1) <= |cluster| ==> EntryIn(StoreWord(cluster, 0, n), j) == EntryIn(cluster, j)
  {
    StoreWordRead(cluster, 0, n);
    var r := StoreWord(cluster, 0, n);
    forall j: nat | SlotAt(j + 1) <= |cluster| ensures EntryIn(r, j) == EntryIn(cluster, j) {
      SameSlot(cluster, r, j, |cluster|);
    }
  }

  // --- The whole image ----------------------------------------------------------------------

  // Where cluster (or chunk) i starts when clusters of cs bytes lie one after the other: i * cs,
  // written as a sum.
  function Off(cs: nat, i: nat): nat { if i == 0 then 0 else Off(cs, i - 1) + cs }

  lemma {:induction false} OffIs(cs: nat, i: nat)
    ensures Off(cs, i) == i * cs
  {
    if i > 0 { OffIs(cs, i - 1); }
  }

  lemma {:induction false} OffMono(cs: nat, i: nat, j: nat)
    requires i < j
    ensures Off(cs, i) + cs <= Off(cs, j)
    decreases j
  {
    if i + 1 < j { OffMono(cs, i, j - 1); }
  }

  // size / cs, written as a count.
  function Quot(size: nat, cs: nat): nat
    requires cs > 0
  {
    if size < cs then 0 else Quot(size - cs, cs) + 1
  }

  lemma {:induction false} OffQuot(size: nat, cs: nat, m: nat)
    requires cs > 0
    ensures m <= Quot(size, cs) <==> Off(cs, m) <= size
  {
    if m > 0 && size >= cs {
      OffQuot(size - cs, cs, m - 1);
    } else if m > 0 {
      OffMono(cs, 0, m);
    }
  }

  lemma QuotIs(size: nat, cs: nat)
    requires cs > 0
    ensures Quot(size, cs) == size / cs
  {
    var q: nat := size / cs;
    assert size == q * cs + size % cs;
    OffIs(cs, q);
    OffQuot(size, cs, q);
    OffQuot(size, cs, q + 1);
  }

  // The FAT and the clusters, cluster by cluster.
  datatype Disk = Disk(fat: seq<Word>, cl: seq<seq<Byte>>)

  predicate DiskOK(d: Disk, cs: nat) {
    && |d.cl| == |d.fat| < 0xFFFF_FFFE
    && forall c :: 0 <= c < |d.cl| ==> |d.cl[c]| == cs
  }

  function Used(d: Disk): set<nat> {
    set c: nat | c < |d.fat| && d.fat[c] != FAT_EMPTY
  }

  // What the builder puts into an image: the host's directory tree, in readdir order.
  datatype HostNode =
    | HostFile(name: CStr, data: seq<Byte>)
    | HostDir(name: CStr, kids: seq<HostNode>)

  // "." and ".." and ".svn", when they are directories, are passed over.
  predicate Skipped(n: HostNode) {
    n.HostDir? && (n.name == [46] || n.name == [46, 46] || n.name == [46, 115, 118, 110])
  }

  // The tree the image is to hold.
  function Kept(ks: seq<HostNode>): (r: seq<HostNode>)
    ensures |r| <= |ks|
    decreases ks, 1
  {
    if ks == [] then []
    else
      var n := ks[|ks| - 1];
      Kept(ks[..|ks| - 1]) + if Skipped(n) then [] else [KeptNode(n)]
  }

  function KeptNode(n: HostNode): (r: HostNode)
    ensures r.name == n.name && (r.HostFile? <==> n.HostFile?)
    decreases n, 0
  {
    match n
    case HostFile(_, _) => n
    case HostDir(name, kids) => HostDir(name, Kept(kids))
  }

  // The strings the builder copies into its records fit there.
  predicate NamesFit(ks: seq<HostNode>)
    decreases ks, 1
  {
    forall n :: n in ks && !Skipped(n) ==> NameFits(n)
  }

  predicate NameFits(n: HostNode)
    decreases n, 0
  {
    && 0 !in n.name && |n.name| < NAME_LENGTH
    && match n
       case HostFile(_, data) => |data| < WORD
       case HostDir(_, kids) => NamesFit(kids)
  }

  // How many clusters a tree takes: one for a directory, and one for a file beyond those that it
  // fills.
  function Need(ks: seq<HostNode>, cs: nat): nat
    requires cs > 0
    decreases ks, 1
  {
    if ks == [] then 0
    else
      var n := ks[|ks| - 1];
      Need(ks[..|ks| - 1], cs) + if Skipped(n) then 0 else NeedNode(n, cs)
  }

  function NeedNode(n: HostNode, cs: nat): (r: nat)
    requires cs > 0
    ensures r >= 1
    decreases n, 0
  {
    match n
    case HostFile(_, data) => Quot(|data|, cs) + 1
    case HostDir(_, kids) => 1 + Need(kids, cs)
  }

  // Every directory's records fit into its one cluster.
  predicate DirsFit(ks: seq<HostNode>, cs: nat)
    decreases ks, 1
  {
    && SlotAt(|Kept(ks)|) <= cs
    && forall n :: n in ks && !Skipped(n) && n.HostDir? ==> DirsFit(n.kids, cs)
  }

  // Where it is put.
  datatype Place =
    | FilePlace(chain: seq<nat>)
    | DirPlace(at: nat, kids: seq<Place>)

  function First(p: Place): nat {
    match p
    case FilePlace(chain) => if chain == [] then 0 else chain[0]
    case DirPlace(at, _) => at
  }

  function Elements(chain: seq<nat>): set<nat> { set c | c in chain }

  function Clusters(p: Place): set<nat>
    decreases p, 0
  {
    match p
    case FilePlace(chain) => Elements(chain)
    case DirPlace(at, kids) => {at} + ClustersOf(kids)
  }

  function ClustersOf(ps: seq<Place>): set<nat>
    decreases ps, 1
  {
    set i: nat, c: nat | i < |ps| && c in Clusters(ps[i]) :: c
  }

  function EntryFor(n: HostNode, cluster: Word): Entry
    requires n.HostFile? ==> |n.data| < WORD
  {
    match n
    case HostFile(name, data) => Entry(name, FS_FILE, |data|, cluster)
    case HostDir(name, _) => Entry(name, FS_DIRECTORY, 0, cluster)
  }

  ghost predicate Distinct(s: seq<nat>) {
    forall i, j :: 0 <= i < j < |s| ==> s[i] != s[j]
  }

  function After(chain: seq<nat>, i: nat): nat
    requires i < |chain|
  {
    if i + 1 < |chain| then chain[i + 1] else FAT_END
  }

  // The FAT leads along exactly these clusters, and there it ends.
  ghost predicate Linked(fat: seq<Word>, chain: seq<nat>) {
    && |chain| >= 1 && Distinct(chain)
    && (forall i :: 0 <= i < |chain| ==> chain[i] < |fat|)
    && (forall i {:trigger fat[chain[i]]} {:trigger After(chain, i)} :: 0 <= i < |chain| ==>
      fat[chain[i]] == After(chain, i))
  }

  // The first m clusters of the chain hold the data, cluster by cluster.
  ghost predicate Filled(cl: seq<seq<Byte>>, cs: nat, data: seq<Byte>, chain: seq<nat>, m: nat) {
    && m <= |chain|
    && (forall i :: 0 <= i < m ==> chain[i] < |cl| && |cl[chain[i]]| == cs)
    && (forall i, j {:trigger cl[chain[i]][j]} :: 0 <= i < m && 0 <= j < cs && Off(cs, i) + j < |data| ==>
      cl[chain[i]][j] == data[Off(cs, i) + j])
  }

  // The chain is linked, holds the data, and has Quot(|data|, cs) + 1 clusters.
  ghost predicate FileHolds(d: Disk, cs: nat, data: seq<Byte>, chain: seq<nat>)
    requires DiskOK(d, cs)
  {
    && Linked(d.fat, chain)
    && Off(cs, |chain| - 1) <= |data| < Off(cs, |chain|)
    && Filled(d.cl, cs, data, chain, |chain|)
  }

  // The directory cluster counts and records exactly these nodes, each with its first cluster.
  ghost predicate Lists(cluster: seq<Byte>, kids: seq<HostNode>, ps: seq<Place>) {
    && |ps| == |kids| && SlotAt(|kids|) <= |cluster|
    && CountIn(cluster) == |kids|
    && forall i :: 0 <= i < |kids| ==>
         && (kids[i].HostFile? ==> |kids[i].data| < WORD) && First(ps[i]) < WORD
         && EntryIn(cluster, i) == EntryFor(kids[i], First(ps[i]))
  }

  ghost predicate Apart(ps: seq<Place>) {
    forall i, j :: 0 <= i < j < |ps| ==> Clusters(ps[i]) !! Clusters(ps[j])
  }

  ghost predicate Holds(d: Disk, cs: nat, n: HostNode, p: Place)
    requires DiskOK(d, cs)
    decreases n, 0
  {
    && 0 !in Clusters(p)
    && match n
       case HostFile(_, data) => |data| < WORD && p.FilePlace? && FileHolds(d, cs, data, p.chain)
       case HostDir(_, kids) => p.DirPlace? && DirHolds(d, cs, kids, p.at, p.kids)
  }

  // Cluster `at` is the directory of exactly these nodes, in this order, and all the clusters
  // below it are separate.
  ghost predicate DirHolds(d: Disk, cs: nat, kids: seq<HostNode>, at: nat, ps: seq<Place>)
    requires DiskOK(d, cs)
    decreases kids, 1
  {
    && at < |d.fat| && d.fat[at] == FAT_END
    && Lists(d.cl[at], kids, ps)
    && (forall i :: 0 <= i < |kids| ==> Holds(d, cs, kids[i], ps[i]))
    && at !in ClustersOf(ps)
    && Apart(ps)
  }

  ghost predicate AgreeOn(d0: Disk, d1: Disk, s: set<nat>) {
    && |d0.fat| == |d1.fat| && |d0.cl| == |d1.cl|
    && (forall c :: c in s && c < |d0.fat| ==> d0.fat[c] == d1.fat[c])
    && (forall c :: c in s && c < |d0.cl| ==> d0.cl[c] == d1.cl[c])
  }

  lemma LinkedFrame(fat: seq<Word>, fat': seq<Word>, chain: seq<nat>)
    requires Linked(fat, chain) && |fat'| == |fat|
    requires forall i {:trigger chain[i]} :: 0 <= i < |chain| ==> fat'[chain[i]] == fat[chain[i]]
    ensures Linked(fat', chain)
  {
    forall i | 0 <= i < |chain| ensures fat'[chain[i]] == After(chain, i) {
      assert fat[chain[i]] == After(chain, i);
    }
  }

  lemma FilledFrame(cl: seq<seq<Byte>>, cl': seq<seq<Byte>>, cs: nat, data: seq<Byte>, chain: seq<nat>, m: nat)
    requires Filled(cl, cs, data, chain, m) && |cl'| == |cl|
    requires forall i {:trigger chain[i]} :: 0 <= i < m ==> cl'[chain[i]] == cl[chain[i]]
    ensures Filled(cl', cs, data, chain, m)
  {}

  lemma FileFrame(d0: Disk, d1: Disk, cs: nat, data: seq<Byte>, chain: seq<nat>)
    requires DiskOK(d0, cs) && DiskOK(d1, cs)
    requires FileHolds(d0, cs, data, chain) && AgreeOn(d0, d1, Elements(chain))
    ensures FileHolds(d1, cs, data, chain)
  {
    forall i {:trigger chain[i]} | 0 <= i < |chain|
      ensures d1.fat[chain[i]] == d0.fat[chain[i]] && d1.cl[chain[i]] == d0.cl[chain[i]]
    {
      assert chain[i] in Elements(chain);
    }
    LinkedFrame(d0.fat, d1.fat, chain);
    FilledFrame(d0.cl, d1.cl, cs, data, chain, |chain|);
  }

  // What a node's clusters hold depends on these clusters alone.
  lemma {:induction false} HoldsFrame(d0: Disk, d1: Disk, cs: nat, n: HostNode, p: Place)
    requires DiskOK(d0, cs) && DiskOK(d1, cs)
    requires Holds(d0, cs, n, p) && AgreeOn(d0, d1, Clusters(p))
    ensures Holds(d1, cs, n, p)
    decreases n
  {
    match n
    case HostFile(_, data) =>
      FileFrame(d0, d1, cs, data, p.chain);
    case HostDir(_, kids) =>
      forall i | 0 <= i < |kids| ensures Holds(d1, cs, kids[i], p.kids[i]) {
        assert Clusters(p.kids[i]) <= ClustersOf(p.kids);
        HoldsFrame(d0, d1, cs, kids[i], p.kids[i]);
      }
  }

  lemma ClustersOfSnoc(ps: seq<Place>, p: Place)
    ensures ClustersOf(ps + [p]) == ClustersOf(ps) + Clusters(p)
  {
    var qs := ps + [p];
    forall c | c in ClustersOf(ps) + Clusters(p) ensures c in ClustersOf(qs) {
      if c in Clusters(p) {
        assert qs[|ps|] == p;
      } else {
        var i: nat :| i < |ps| && c in Clusters(ps[i]);
        assert qs[i] == ps[i];
      }
    }
    forall c | c in ClustersOf(qs) ensures c in ClustersOf(ps) + Clusters(p) {
      var i: nat :| i < |qs| && c in Clusters(qs[i]);
      assert i < |ps| ==> qs[i] == ps[i];
    }
  }

  // The clusters of the nodes a directory already has keep their meaning.
  lemma KidsFrame(d0: Disk, d1: Disk, cs: nat, kids: seq<HostNode>, at: nat, ps: seq<Place>)
    requires DiskOK(d0, cs) && DiskOK(d1, cs)
    requires DirHolds(d0, cs, kids, at, ps) && AgreeOn(d0, d1, ClustersOf(ps))
    ensures forall i :: 0 <= i < |kids| ==> Holds(d1, cs, kids[i], ps[i])
  {
    forall i | 0 <= i < |kids| ensures Holds(d1, cs, kids[i], ps[i]) {
      assert Clusters(ps[i]) <= ClustersOf(ps);
      HoldsFrame(d0, d1, cs, kids[i], ps[i]);
    }
  }

  // The parent's cluster after a record is appended to it.
  function AddedTo(cluster: seq<Byte>, count: nat, e: Entry): (r: seq<Byte>)
    requires SlotAt(count + 1) <= |cluster| && count + 1 < WORD && |e.name| < NAME_LENGTH
    ensures |r| == |cluster|
  {
    StoreWord(PutEntry(cluster, count, e), 0, count + 1)
  }

  // What a reader sees once a record is appended.
  ghost predicate Appended(before: seq<Byte>, after: seq<Byte>, count: nat, e: Entry) {
    && |after| == |before| && SlotAt(count + 1) <= |before|
    && CountIn(after) == count + 1 && EntryIn(after, count) == e
    && forall j: nat :: j < count ==> EntryIn(after, j) == EntryIn(before, j)
  }

  lemma AddedToReads(cluster: seq<Byte>, count: nat, e: Entry)
    requires SlotAt(count + 1) <= |cluster| && count + 1 < WORD
    requires |e.name| < NAME_LENGTH && 0 !in e.name
    ensures Appended(cluster, AddedTo(cluster, count, e), count, e)
  {
    var r := PutEntry(cluster, count, e);
    PutEntryReads(cluster, r, count, e);
    PutCountReads(r, count + 1);
  }

  lemma ListsSnoc(before: seq<Byte>, after: seq<Byte>, kids: seq<HostNode>, ps: seq<Place>, n: HostNode, p: Place)
    requires Lists(before, kids, ps)
    requires n.HostFile? ==> |n.data| < WORD
    requires First(p) < WORD
    requires Appended(before, after, |kids|, EntryFor(n, First(p)))
    ensures Lists(after, kids + [n], ps + [p])
  {
    var ks, qs := kids + [n], ps + [p];
    forall i | 0 <= i < |ks|
      ensures First(qs[i]) < WORD && (ks[i].HostFile? ==> |ks[i].data| < WORD)
      ensures EntryIn(after, i) == EntryFor(ks[i], First(qs[i]))
    {
      if i < |kids| {
        assert ks[i] == kids[i] && qs[i] == ps[i];
        assert EntryIn(after, i) == EntryIn(before, i);
      }
    }
  }

  lemma ApartSnoc(ps: seq<Place>, p: Place)
    requires Apart(ps) && Clusters(p) !! ClustersOf(ps)
    ensures Apart(ps + [p])
  {
    var qs := ps + [p];
    forall i, j | 0 <= i < j < |qs| ensures Clusters(qs[i]) !! Clusters(qs[j]) {
      assert Clusters(ps[i]) <= ClustersOf(ps);
    }
  }

  // A directory gains one node: its cluster gets the record and the new count, the rest of what
  // it held is untouched, and the new node's clusters are its own.
  lemma DirHoldsSnoc(d0: Disk, d1: Disk, cs: nat, kids: seq<HostNode>, at: nat, ps: seq<Place>, n: HostNode, p: Place)
    requires DiskOK(d0, cs) && DiskOK(d1, cs)
    requires DirHolds(d0, cs, kids, at, ps) && AgreeOn(d0, d1, ClustersOf(ps))
    requires Holds(d1, cs, n, p) && First(p) < WORD
    requires d1.fat[at] == FAT_END
    requires Appended(d0.cl[at], d1.cl[at], |kids|, EntryFor(n, First(p)))
    requires at !in Clusters(p) && Clusters(p) !! ClustersOf(ps)
    ensures DirHolds(d1, cs, kids + [n], at, ps + [p])
  {
    ClustersOfSnoc(ps, p);
    ListsSnoc(d0.cl[at], d1.cl[at], kids, ps, n, p);
    ApartSnoc(ps, p);
    KidsFrame(d0, d1, cs, kids, at, ps);
  }

  // --- The flat cluster area ----------------------------------------------------------------

  function ClusterOf(flat: seq<Byte>, cs: nat, n: nat, c: nat): (r: seq<Byte>)
    requires |flat| == Off(cs, n) && c < n
    ensures |r| == cs
  {
    OffMono(cs, c, n);
    flat[Off(cs, c)..Off(cs, c) + cs]
  }

  function View(flat: seq<Byte>, cs: nat, n: nat): (v: seq<seq<Byte>>)
    requires |flat| == Off(cs, n)
    ensures |v| == n && forall c :: 0 <= c < n ==> v[c] == ClusterOf(flat, cs, n, c)
  {
    seq(n, c requires 0 <= c < n => ClusterOf(flat, cs, n, c))
  }

  lemma SliceBeside(flat: seq<Byte>, a: nat, bs: seq<Byte>, lo: nat, hi: nat)
    requires a + |bs| <= |flat| && lo <= hi <= |flat| && (a + |bs| <= lo || hi <= a)
    ensures Store(flat, a, bs)[lo..hi] == flat[lo..hi]
  {}

  lemma SliceAround(flat: seq<Byte>, a: nat, bs: seq<Byte>, lo: nat, hi: nat)
    requires lo <= a && a + |bs| <= hi <= |flat|
    ensures Store(flat, a, bs)[lo..hi] == Store(flat[lo..hi], a - lo, bs)
  {}

  lemma SameCluster(flat: seq<Byte>, cs: nat, n: nat, c: nat, off: nat, bs: seq<Byte>)
    requires |flat| == Off(cs, n) && c < n && off + |bs| <= cs && Off(cs, c) + cs <= |flat|
    ensures ClusterOf(Store(flat, Off(cs, c) + off, bs), cs, n, c) == Store(ClusterOf(flat, cs, n, c), off, bs)
  {
    SliceAround(flat, Off(cs, c) + off, bs, Off(cs, c), Off(cs, c) + cs);
  }

  lemma OtherCluster(flat: seq<Byte>, cs: nat, n: nat, a: nat, bs: seq<Byte>, e: nat)
    requires |flat| == Off(cs, n) && e < n && a + |bs| <= |flat| && Off(cs, e) + cs <= |flat|
    requires a + |bs| <= Off(cs, e) || Off(cs, e) + cs <= a
    ensures ClusterOf(Store(flat, a, bs), cs, n, e) == ClusterOf(flat, cs, n, e)
  {
    SliceBeside(flat, a, bs, Off(cs, e), Off(cs, e) + cs);
  }

  lemma StoreCluster(flat: seq<Byte>, cs: nat, n: nat, c: nat, off: nat, bs: seq<Byte>, e: nat)
    requires |flat| == Off(cs, n) && c < n && e < n && off + |bs| <= cs && Off(cs, c) + cs <= |flat|
    ensures ClusterOf(Store(flat, Off(cs, c) + off, bs), cs, n, e) ==
      if e == c then Store(ClusterOf(flat, cs, n, c), off, bs) else ClusterOf(flat, cs, n, e)
  {
    if e == c {
      SameCluster(flat, cs, n, c, off, bs);
    } else {
      OffMono(cs, e, n);
      if e < c { OffMono(cs, e, c); } else { OffMono(cs, c, e); }
      OtherCluster(flat, cs, n, Off(cs, c) + off, bs, e);
    }
  }

  // A store within one cluster of the flat area is a store in that cluster.
  lemma StoreView(flat: seq<Byte>, cs: nat, n: nat, c: nat, off: nat, bs: seq<Byte>)
    requires |flat| == Off(cs, n) && c < n && off + |bs| <= cs
    ensures Off(cs, c) + cs <= |flat|
    ensures View(Store(flat, Off(cs, c) + off, bs), cs, n)
      == View(flat, cs, n)[c := Store(View(flat, cs, n)[c], off, bs)]
  {
    OffMono(cs, c, n);
    var v := View(flat, cs, n);
    var w := v[c := Store(v[c], off, bs)];
    var u := View(Store(flat, Off(cs, c) + off, bs), cs, n);
    forall e | 0 <= e < n ensures u[e] == w[e] {
      StoreCluster(flat, cs, n, c, off, bs, e);
      assert v[e] == ClusterOf(flat, cs, n, e);
    }
    assert u == w;
  }

  function Last(s: seq<nat>): nat
    requires s != []
  {
    s[|s| - 1]
  }

  lemma {:induction false} DistinctSize(chain: seq<nat>)
    requires Distinct(chain)
    ensures |Elements(chain)| == |chain|
  {
    if chain == [] {
      assert Elements(chain) == {};
    } else {
      var front := chain[..|chain| - 1];
      DistinctSize(front);
      assert chain == front + [Last(chain)];
      assert Last(chain) !in front;
      assert Elements(chain) == Elements(front) + {Last(chain)};
    }
  }

  // --- Growing an image ---------------------------------------------------------------------

  // d1 is d0 with the clusters of `added`, free before, put to use and those of `touched`, in use
  // before, rewritten; nothing else changes.
  ghost predicate Extends(d0: Disk, d1: Disk, added: set<nat>, touched: set<nat>) {
    && |d1.fat| == |d0.fat| && |d1.cl| == |d0.cl| == |d0.fat|
    && (forall c :: c in added ==> c < |d0.fat| && d0.fat[c] == FAT_EMPTY && d1.fat[c] != FAT_EMPTY)
    && (forall c :: c in touched ==> c < |d0.fat| && d0.fat[c] != FAT_EMPTY && d1.fat[c] != FAT_EMPTY)
    && (forall c :: 0 <= c < |d0.fat| && c !in added && c !in touched ==> d1.fat[c] == d0.fat[c])
    && (forall c :: 0 <= c < |d0.cl| && c !in added && c !in touched ==> d1.cl[c] == d0.cl[c])
  }

  lemma ExtendsTrans(d0: Disk, d1: Disk, d2: Disk, f1: set<nat>, t1: set<nat>, f2: set<nat>, t2: set<nat>)
    requires Extends(d0, d1, f1, t1) && Extends(d1, d2, f2, t2)
    ensures Extends(d0, d2, f1 + f2, t1 + (t2 - f1))
  {}

  lemma UsedIsFinite(d: Disk)
    ensures |Used(d)| <= |d.fat|
    ensures |Used(d)| == |d.fat| <==> forall c :: 0 <= c < |d.fat| ==> d.fat[c] != FAT_EMPTY
  {
    SubsetSize(Used(d), Below(|d.fat|));
    if forall c :: 0 <= c < |d.fat| ==> d.fat[c] != FAT_EMPTY {
      assert Used(d) == Below(|d.fat|);
    }
    if |Used(d)| == |d.fat| {
      assert Used(d) == Below(|d.fat|);
      forall c: nat | c < |d.fat| ensures d.fat[c] != FAT_EMPTY {
        assert c in Used(d);
      }
    }
  }

  // Added clusters are counted once.
  lemma ExtendsUsed(d0: Disk, d1: Disk, added: set<nat>, touched: set<nat>)
    requires Extends(d0, d1, added, touched)
    ensures Used(d1) == Used(d0) + added && Used(d0) !! added
    ensures |Used(d1)| == |Used(d0)| + |added|
  {
    assert forall c :: c in Used(d0) ==> c in Used(d1);
  }

  // Every cluster of a node that is held is in use.
  lemma {:induction false} HeldAreUsed(d: Disk, cs: nat, n: HostNode, p: Place)
    requires DiskOK(d, cs) && Holds(d, cs, n, p)
    ensures Clusters(p) <= Used(d)
    decreases n, 0
  {
    match n
    case HostFile(_, _) =>
      ChainIsUsed(d, p.chain);
    case HostDir(_, kids) =>
      KidsAreUsed(d, cs, kids, p.at, p.kids);
  }

  lemma ChainIsUsed(d: Disk, chain: seq<nat>)
    requires Linked(d.fat, chain) && |d.fat| < FAT_END
    ensures Elements(chain) <= Used(d)
  {
    forall i | 0 <= i < |chain| ensures chain[i] in Used(d) {
      assert d.fat[chain[i]] == After(chain, i);
      assert i + 1 < |chain| ==> chain[i + 1] < |d.fat|;
    }
  }

  lemma {:induction false} KidsAreUsed(d: Disk, cs: nat, kids: seq<HostNode>, at: nat, ps: seq<Place>)
    requires DiskOK(d, cs) && DirHolds(d, cs, kids, at, ps)
    ensures ClustersOf(ps) <= Used(d) && at in Used(d)
    decreases kids, 1
  {
    forall c | c in ClustersOf(ps) ensures c in Used(d) {
      var i: nat :| i < |ps| && c in Clusters(ps[i]);
      HeldAreUsed(d, cs, kids[i], ps[i]);
    }
  }

  // A node is added to a directory: only its own fresh clusters and the directory's change.
  lemma NodeAdded(d0: Disk, d1: Disk, cs: nat, kids: seq<HostNode>, at: nat, ps: seq<Place>, n: HostNode, p: Place)
    requires DiskOK(d0, cs) && DiskOK(d1, cs)
    requires DirHolds(d0, cs, kids, at, ps) && Extends(d0, d1, Clusters(p), {at})
    requires Holds(d1, cs, n, p) && First(p) < WORD
    requires d1.fat[at] == FAT_END
    requires Appended(d0.cl[at], d1.cl[at], |kids|, EntryFor(n, First(p)))
    ensures DirHolds(d1, cs, kids + [n], at, ps + [p])
  {
    KidsAreUsed(d0, cs, kids, at, ps);
    forall c | c in ClustersOf(ps) ensures c !in Clusters(p) && c != at {
      assert c in Used(d0);
    }
    DirHoldsSnoc(d0, d1, cs, kids, at, ps, n, p);
  }

  // --- Prefixes of a tree -------------------------------------------------------------------

  lemma {:induction false} PrefixOfTree(ks: seq<HostNode>, cs: nat, i: nat)
    requires i <= |ks| && cs > 0
    ensures Kept(ks[..i]) <= Kept(ks)
    ensures Need(ks[..i], cs) <= Need(ks, cs)
    decreases |ks|
  {
    if i < |ks| {
      var front := ks[..|ks| - 1];
      PrefixOfTree(front, cs, i);
      assert front[..i] == ks[..i];
    } else {
      assert ks[..i] == ks;
    }
  }
}
