// Reading through a descriptor: what stands behind it decides what is read.
module FileAccess {
  import opened Machine
  import opened CStrings
  import opened FileTable
  import opened FileLaws
  import opened Descriptors
  import RamFs
  import P = Pipes
  import R = RamFsReader
  import T = RamFsRoundTrip

  // The open descriptor with this key.
  ghost function NodeOf(f: OpenNodes, procID: nat, file: int): Node
    reads f, f.openNodes
    requires IsOpen(f.State().table, procID, file)
  {
    f.State().table[Find(f.State().table, procID, file, 0)]
  }

  // The objects behind the nodes, by address: pipes, and cursors of files. A descriptor that is open
  // has its object, of its kind.
  ghost predicate Behind(f: OpenNodes, procID: nat, file: int, pipes: map<nat, P.Pipe>, cursors: map<nat, R.InodeInfo>)
    reads f, f.openNodes
  {
    IsOpen(f.State().table, procID, file) ==>
      var n := NodeOf(f, procID, file);
      (n.kind.Pipe? ==> n.inode in pipes) && (n.kind.File? ==> n.inode in cursors)
  }

  // What a read through the descriptor changes besides the buffer: the pipe, or the cursor.
  ghost function Target(f: OpenNodes, procID: nat, file: int, pipes: map<nat, P.Pipe>,
                        cursors: map<nat, R.InodeInfo>): set<object>
    reads f, f.openNodes
    requires Behind(f, procID, file, pipes, cursors)
  {
    if !IsOpen(f.State().table, procID, file) then {}
    else
      var n := NodeOf(f, procID, file);
      match n.kind
      case File => {cursors[n.inode]}
      case Pipe => {pipes[n.inode], pipes[n.inode].buffer}
      case Directory => {}
  }

  // No file is so long that its length, as a signed number, is -1.
  lemma NotMinusOne(dev: R.Device, data: seq<Byte>, chain: seq<nat>, i: nat)
    requires dev.Valid() && RamFs.FileHolds(dev.Disk(), dev.clusterSize, data, chain) && i <= |data|
    ensures AsInt(i) != -1
  {
    R.ChainBound(dev.FAT, chain, dev.clusterSize);
  }

  // readFile. A task without such a descriptor gets -1. A file is read from its cursor on, a pipe
  // gives its oldest bytes, and a directory nothing.
  method ReadFile(f: OpenNodes, procID: nat, file: int, buffer: array<Byte>, byteCount: Word, dev: R.Device,
                  pipes: map<nat, P.Pipe>, cursors: map<nat, R.InodeInfo>, ghost data: seq<Byte>, ghost chain: seq<nat>)
    returns (panic: bool, r: int)
    requires f.Valid() && dev.Valid() && byteCount <= buffer.Length && Behind(f, procID, file, pipes, cursors)
    requires IsOpen(f.State().table, procID, file) ==>
      var n := NodeOf(f, procID, file);
      && (n.kind.Pipe? ==> pipes[n.inode].Valid() && pipes[n.inode].buffer != buffer)
      && (n.kind.File? ==> cursors[n.inode].Opens(dev, data, chain))
    modifies buffer, Target(f, procID, file, pipes, cursors)
    ensures !panic ==> (r == -1 <==> !IsOpen(f.State().table, procID, file))
    ensures !IsOpen(f.State().table, procID, file) ==> !panic && buffer[..] == old(buffer[..])
    ensures IsOpen(f.State().table, procID, file) && NodeOf(f, procID, file).kind.Directory? ==>
      !panic && r == 0 && buffer[..] == old(buffer[..])
    ensures IsOpen(f.State().table, procID, file) && NodeOf(f, procID, file).kind.Pipe? ==>
      var p := pipes[NodeOf(f, procID, file).inode];
      var q := old(p.Contents());
      && !panic && r == Min(byteCount, |q|) && p.Valid() && p.Contents() == q[r..]
      && buffer[..] == P.Given(old(buffer[..]), q, r, byteCount, old(p.buffer[p.inputPointer]))
    ensures IsOpen(f.State().table, procID, file) && NodeOf(f, procID, file).kind.File? ==>
      var c := cursors[NodeOf(f, procID, file).inode];
      var bytes := R.Slice(data, old(c.position), byteCount);
      && (panic <==> old(c.position) + byteCount >= WORD)
      && (!panic ==> r == AsInt(|bytes|) && |bytes| <= buffer.Length && buffer[..|bytes|] == bytes
                     && c.Opens(dev, data, chain) && c.position == old(c.position) + |bytes|)
  {
    var k := f.FindNode(procID, file);
    if k == f.openNodeNumber {
      return false, -1;
    }
    var n := f.openNodes[k];
    match n.kind
    case File =>
      var i;
      panic, i := cursors[n.inode].ReadFile(dev, buffer, byteCount, data, chain);
      r := AsInt(i);
      if !panic {
        NotMinusOne(dev, data, chain, i);
      }
    case Pipe =>
      panic := false;
      r := pipes[n.inode].Read(buffer, byteCount);
    case Directory =>
      return false, 0;
  }

  // The node of the tree that the path leads to, as far as the reader sees it.
  function Named(kids: seq<RamFs.HostNode>, slots: nat, path: CStr): Option<RamFs.HostNode> {
    if R.Names(path) == [] then None else R.Lookup(kids, slots, R.Names(path))
  }

  // Where the walk ends is where the named node is held.
  lemma Walked(dev: R.Device, path: CStr, kids: seq<RamFs.HostNode>, ps: seq<RamFs.Place>) returns (p: RamFs.Place)
    requires dev.Valid() && RamFs.DirHolds(dev.Disk(), dev.clusterSize, kids, 0, ps) && R.ShortNames(kids)
    ensures var found, names := Named(kids, R.ReaderSlots(dev.clusterSize), path), R.Names(path);
      && (found.None? <==> names == [] || R.WalkPath(dev.Disk(), dev.clusterSize, 0, names).None?)
      && (found.Some? ==>
            var (dir, e) := R.WalkPath(dev.Disk(), dev.clusterSize, 0, names).value;
            && RamFs.Holds(dev.Disk(), dev.clusterSize, found.value, p) && RamFs.First(p) < WORD
            && dir < dev.clusterNumber && e == RamFs.EntryFor(found.value, RamFs.First(p))
            && e == R.FindNode(R.Nodes(dev.Disk().cl[dir]), Cut(names[|names| - 1], RamFs.NAME_LENGTH), 0))
  {
    p := RamFs.DirPlace(0, []);
    if R.Names(path) != [] {
      p := R.WalkIsLookup(dev.Disk(), dev.clusterSize, kids, 0, ps, R.Names(path));
    }
  }

  // The path walk, and the cursor of the file that it finds, at the beginning.
  method FindPath(dev: R.Device, path: CStr, ghost kids: seq<RamFs.HostNode>, ghost ps: seq<RamFs.Place>)
    returns (info: R.InodeInfo?, kind: Byte, ghost data: seq<Byte>, ghost chain: seq<nat>)
    requires dev.Valid() && 0 !in path && |path| < 0x8000_0000
    requires RamFs.DirHolds(dev.Disk(), dev.clusterSize, kids, 0, ps) && R.ShortNames(kids)
    ensures var found := Named(kids, R.ReaderSlots(dev.clusterSize), path);
      && (info == null <==> found.None?)
      && (info != null ==> fresh(info) && (kind == RamFs.FS_FILE <==> found.value.HostFile?))
      && (info != null && kind == RamFs.FS_FILE ==>
            data == found.value.data && info.Opens(dev, data, chain) && info.position == 0)
  {
    info, kind := R.GetNodeDescriptor(dev, path, kids, ps);
    ghost var p := Walked(dev, path, kids, ps);
    data, chain := [], [];
    if info != null && kind == RamFs.FS_FILE {
      ghost var n := Named(kids, R.ReaderSlots(dev.clusterSize), path).value;
      T.OpensFile(dev, info.directoryCluster, info.name, info, n, p);
      data, chain := n.data, p.chain;
    }
  }

  // openFile on a path. A file is open under the new id then, with a cursor at its beginning, which gets
  // the address. What is no file is not opened.
  method OpenPath(f: OpenNodes, procID: nat, dev: R.Device, path: CStr, address: nat, ghost kids: seq<RamFs.HostNode>,
                  ghost ps: seq<RamFs.Place>)
    returns (panic: bool, id: int, info: R.InodeInfo?, ghost data: seq<Byte>, ghost chain: seq<nat>)
    requires f.Valid() && dev.Valid() && 0 !in path && |path| < 0x8000_0000 && address !in f.live
    requires RamFs.DirHolds(dev.Disk(), dev.clusterSize, kids, 0, ps) && R.ShortNames(kids)
    modifies f`openNodeNumber, f`live, f.openNodes
    ensures f.Valid() && (panic <==> |old(f.State()).table| == MAX_OPEN_NODES)
    ensures !panic ==>
      var found := Named(kids, R.ReaderSlots(dev.clusterSize), path);
      if found.Some? && found.value.HostFile? then
        && OnlyNew(old(f.State()).table, f.State().table, Node(id, procID, File, address)) && id != -1
        && info != null && fresh(info) && info.position == 0 && data == found.value.data
        && info.Opens(dev, data, chain)
      else id == -1 && f.State().table == old(f.State()).table
  {
    var kind;
    info, kind, data, chain := FindPath(dev, path, kids, ps);
    var found := if info == null then NotFound
                 else if kind == RamFs.FS_FILE then FoundFile(address) else FoundDirectory(address);
    panic, id := f.OpenFile(procID, found);
  }

  // A read through a file's descriptor while the cursor is at the beginning.
  method ReadFirst(f: OpenNodes, procID: nat, id: int, address: nat, info: R.InodeInfo, buffer: array<Byte>,
                   count: Word, dev: R.Device, ghost data: seq<Byte>, ghost chain: seq<nat>)
    returns (panic: bool, r: int)
    requires f.Valid() && dev.Valid() && count <= buffer.Length && IsOpen(f.State().table, procID, id)
    requires NodeOf(f, procID, id) == Node(id, procID, File, address)
    requires info.Opens(dev, data, chain) && info.position == 0
    modifies buffer, info
    ensures var n := Min(count, |data|); !panic && r == AsInt(n) && n <= buffer.Length && buffer[..n] == data[..n]
  {
    panic, r := ReadFile(f, procID, id, buffer, count, dev, map[], map[address := info], data, chain);
  }

  // A first read through the id that openFile returns gives the beginning of the file.
  method OpenAndRead(f: OpenNodes, procID: nat, dev: R.Device, path: CStr, address: nat, buffer: array<Byte>,
                     count: Word, ghost kids: seq<RamFs.HostNode>, ghost ps: seq<RamFs.Place>)
    returns (panic: bool, r: int)
    requires f.Valid() && dev.Valid() && 0 !in path && |path| < 0x8000_0000 && address !in f.live
    requires RamFs.DirHolds(dev.Disk(), dev.clusterSize, kids, 0, ps) && R.ShortNames(kids)
    requires count <= buffer.Length && buffer != f.openNodes as object
    modifies f`openNodeNumber, f`live, f.openNodes, buffer
    ensures panic <==> |old(f.State()).table| == MAX_OPEN_NODES
    ensures !panic ==>
      var found := Named(kids, R.ReaderSlots(dev.clusterSize), path);
      if found.Some? && found.value.HostFile? then
        var n := Min(count, |found.value.data|);
        r == AsInt(n) && n <= buffer.Length && buffer[..n] == found.value.data[..n]
      else r == -1
  {
    var id, info;
    ghost var data, chain;
    panic, id, info, data, chain := OpenPath(f, procID, dev, path, address, kids, ps);
    r := -1;
    if !panic && id != -1 {
      assert NodeOf(f, procID, id) == Node(id, procID, File, address);
      panic, r := ReadFirst(f, procID, id, address, info, buffer, count, dev, data, chain);
    }
  }
}
