// Copies into the memory of a task that is not mapped, one page at a time through a page of the
// kernel, and the byte-by-byte write at virtual addresses that they stand for.
module VirtualCopy {
  import opened Machine
  import opened Pages
  import opened PageTables
  import opened Tasks
  import opened AddressSpaces

  // --- Virtual addresses --------------------------------------------------------------------

  // Where the table sends an address, and the byte there.
  function Translate(pt: seq<Word>, v: Word): nat
    requires |pt| == ENTRIES
  {
    pt[EntryIndex(v)] / PAGE * PAGE + v % PAGE
  }

  function Load(pt: seq<Word>, mem: seq<Byte>, v: Word): Byte
    requires |pt| == ENTRIES
  {
    var a := Translate(pt, v);
    if a < |mem| then mem[a] else 0
  }

  function Loaded(pt: seq<Word>, mem: seq<Byte>, v: Word, count: nat): (bs: seq<Byte>)
    requires |pt| == ENTRIES && v + count <= WORD
    ensures |bs| == count && forall w: Word :: v <= w < v + count ==> bs[w - v] == Load(pt, mem, w)
  {
    if count == 0 then [] else Loaded(pt, mem, v, count - 1) + [Load(pt, mem, v + count - 1)]
  }

  // Where the address lies according to the task's own list; 0 if it has no page there.
  function PhysOf(s: seq<Page>, v: Word): nat {
    var j := IndexFrom(s, v / PAGE * PAGE, 0);
    if j < |s| then s[j].fis + v % PAGE else 0
  }

  // The pages have frames of their own, aligned and inside physical memory.
  ghost predicate OwnFrames(s: seq<Page>, size: nat) {
    && (forall j :: 0 <= j < |s| ==> s[j].fis % PAGE == 0 && 0 < s[j].fis <= size - PAGE)
    && forall i, j :: 0 <= i < j < |s| ==> s[i].fis != s[j].fis
  }

  // Every page that the area touches is there; the first one even if the area is empty but does
  // not start at a page's beginning.
  ghost predicate Covered(s: seq<Page>, dest: Word, count: nat) {
    forall v: Word :: v % PAGE == 0 && dest / PAGE * PAGE <= v < dest + count ==> HasPage(s, v)
  }

  // The byte of an address lies in its page's frame, as far from the beginning as in the page.
  lemma PhysAt(s: seq<Page>, size: nat, v: Word)
    requires OwnFrames(s, size) && HasPage(s, v / PAGE * PAGE)
    ensures PhysOf(s, v) < size && PhysOf(s, v) % PAGE == v % PAGE
    ensures PhysOf(s, v) / PAGE * PAGE == s[IndexFrom(s, v / PAGE * PAGE, 0)].fis
  {
    InPage(s[IndexFrom(s, v / PAGE * PAGE, 0)].fis, v % PAGE);
  }

  lemma PhysInjective(s: seq<Page>, size: nat, v: Word, w: Word)
    requires OwnFrames(s, size) && HasPage(s, v / PAGE * PAGE) && HasPage(s, w / PAGE * PAGE)
    ensures PhysOf(s, v) < size
    ensures PhysOf(s, v) == PhysOf(s, w) <==> v == w
  {
    PhysAt(s, size, v);
    PhysAt(s, size, w);
    var i, j := IndexFrom(s, v / PAGE * PAGE, 0), IndexFrom(s, w / PAGE * PAGE, 0);
    if PhysOf(s, v) == PhysOf(s, w) {
      assert s[i].fis == s[j].fis;
      assert i == j;
      assert v / PAGE * PAGE == s[i].log == w / PAGE * PAGE;
    }
  }

  // --- The byte-by-byte write ---------------------------------------------------------------

  function Put(mem: seq<Byte>, a: nat, b: Byte): (r: seq<Byte>)
    ensures |r| == |mem|
  {
    if a < |mem| then mem[a := b] else mem
  }

  // Memory after the first n bytes are written from dest on, in the task's address space.
  function Written(mem: seq<Byte>, s: seq<Page>, dest: Word, bs: seq<Byte>, n: nat): (r: seq<Byte>)
    requires n <= |bs| && dest + n <= WORD
    ensures |r| == |mem|
  {
    if n == 0 then mem else Put(Written(mem, s, dest, bs, n - 1), PhysOf(s, dest + n - 1), bs[n - 1])
  }

  lemma NextByte(mem: seq<Byte>, s: seq<Page>, dest: Word, bs: seq<Byte>, sp: nat)
    requires sp < |bs| && dest + |bs| <= WORD && PhysOf(s, dest + sp) < |mem|
    ensures Written(mem, s, dest, bs, sp + 1) == Written(mem, s, dest, bs, sp)[PhysOf(s, dest + sp) := bs[sp]]
  {}

  lemma InCovered(s: seq<Page>, dest: Word, count: nat, v: Word)
    requires Covered(s, dest, count) && dest <= v < dest + count
    ensures HasPage(s, v / PAGE * PAGE)
  {
    var base: Word := v / PAGE * PAGE;
    assert base % PAGE == 0 && dest / PAGE * PAGE <= base;
  }

  // A byte stays once it is written, as no later one goes to the same place.
  lemma {:induction false} WrittenStays(mem: seq<Byte>, s: seq<Page>, dest: Word, bs: seq<Byte>, n: nat, v: Word)
    requires n <= |bs| && dest + |bs| <= WORD && dest <= v < dest + n && PhysOf(s, v) < |mem|
    requires forall w: Word {:trigger PhysOf(s, w)} :: v < w < dest + n ==> PhysOf(s, w) != PhysOf(s, v)
    ensures Written(mem, s, dest, bs, n)[PhysOf(s, v)] == bs[v - dest]
  {
    if v < dest + n - 1 {
      WrittenStays(mem, s, dest, bs, n - 1, v);
      assert PhysOf(s, dest + n - 1) != PhysOf(s, v);
    }
  }

  lemma WrittenIn(mem: seq<Byte>, s: seq<Page>, dest: Word, bs: seq<Byte>, n: nat, v: Word)
    requires n <= |bs| && dest + |bs| <= WORD && OwnFrames(s, |mem|) && Covered(s, dest, |bs|) && dest <= v < dest + n
    ensures PhysOf(s, v) < |mem| && Written(mem, s, dest, bs, n)[PhysOf(s, v)] == bs[v - dest]
  {
    InCovered(s, dest, |bs|, v);
    PhysAt(s, |mem|, v);
    forall w: Word {:trigger PhysOf(s, w)} | v < w < dest + n ensures PhysOf(s, w) != PhysOf(s, v) {
      InCovered(s, dest, |bs|, w);
      PhysInjective(s, |mem|, v, w);
    }
    WrittenStays(mem, s, dest, bs, n, v);
  }

  lemma {:induction false} WrittenOut(mem: seq<Byte>, s: seq<Page>, dest: Word, bs: seq<Byte>, n: nat, a: nat)
    requires n <= |bs| && dest + n <= WORD && a < |mem|
    requires forall v: Word {:trigger PhysOf(s, v)} :: dest <= v < dest + n ==> PhysOf(s, v) != a
    ensures Written(mem, s, dest, bs, n)[a] == mem[a]
  {
    if n > 0 {
      WrittenOut(mem, s, dest, bs, n - 1, a);
      assert PhysOf(s, dest + n - 1) != a;
    }
  }

  // What the task sees: each byte of the area is the source's, and its other bytes are as before.
  // So is every byte of memory that is in no frame of the task.
  lemma CopyRefines(mem: seq<Byte>, s: seq<Page>, dest: Word, bs: seq<Byte>)
    requires dest + |bs| <= WORD && OwnFrames(s, |mem|) && Covered(s, dest, |bs|)
    ensures forall v: Word {:trigger PhysOf(s, v)} :: HasPage(s, v / PAGE * PAGE) ==>
      && PhysOf(s, v) < |mem|
      && Written(mem, s, dest, bs, |bs|)[PhysOf(s, v)]
         == if dest <= v < dest + |bs| then bs[v - dest] else mem[PhysOf(s, v)]
    ensures forall a: nat :: a < |mem| && NotIn(s, a) ==> Written(mem, s, dest, bs, |bs|)[a] == mem[a]
  {
    forall v: Word {:trigger PhysOf(s, v)} | HasPage(s, v / PAGE * PAGE)
      ensures PhysOf(s, v) < |mem|
      ensures Written(mem, s, dest, bs, |bs|)[PhysOf(s, v)]
        == if dest <= v < dest + |bs| then bs[v - dest] else mem[PhysOf(s, v)]
    {
      PhysInjective(s, |mem|, v, v);
      if dest <= v < dest + |bs| {
        WrittenIn(mem, s, dest, bs, |bs|, v);
      } else {
        forall w: Word {:trigger PhysOf(s, w)} | dest <= w < dest + |bs| ensures PhysOf(s, w) != PhysOf(s, v) {
          InCovered(s, dest, |bs|, w);
          PhysInjective(s, |mem|, w, v);
        }
        WrittenOut(mem, s, dest, bs, |bs|, PhysOf(s, v));
      }
    }
    forall a: nat | a < |mem| && NotIn(s, a) ensures Written(mem, s, dest, bs, |bs|)[a] == mem[a] {
      WrittenElsewhere(mem, s, dest, bs, |bs|, a);
    }
  }

  // The address is in no frame of the list.
  ghost predicate NotIn(s: seq<Page>, a: nat) {
    forall j :: 0 <= j < |s| ==> s[j].fis != a / PAGE * PAGE
  }

  lemma WrittenElsewhere(mem: seq<Byte>, s: seq<Page>, dest: Word, bs: seq<Byte>, n: nat, a: nat)
    requires n <= |bs| && dest + |bs| <= WORD && OwnFrames(s, |mem|) && Covered(s, dest, |bs|) && a < |mem|
    requires NotIn(s, a)
    ensures Written(mem, s, dest, bs, n)[a] == mem[a]
  {
    forall v: Word {:trigger PhysOf(s, v)} | dest <= v < dest + n ensures PhysOf(s, v) != a {
      InCovered(s, dest, |bs|, v);
      assert PhysOf(s, v) / PAGE * PAGE == s[IndexFrom(s, v / PAGE * PAGE, 0)].fis;
    }
    WrittenOut(mem, s, dest, bs, n, a);
  }

  // --- memcpyToTask -------------------------------------------------------------------------

  // The source is mapped, not through the temporary page, and not in a frame that is written.
  ghost predicate SourceMapped(pt: seq<Word>, size: nat, source: Word, count: nat, temp: nat, s: seq<Page>)
    requires |pt| == ENTRIES
  {
    forall v: Word :: source <= v < source + count ==> Readable(pt, size, v, temp, s)
  }

  ghost predicate Readable(pt: seq<Word>, size: nat, v: Word, temp: nat, s: seq<Page>)
    requires |pt| == ENTRIES
  {
    && EntryIndex(v) != temp / PAGE && pt[EntryIndex(v)] % 2 == PRESENT
    && Translate(pt, v) < size && NotIn(s, Translate(pt, v))
  }

  lemma TaskFrames(m: Memory, i: nat)
    requires m.Valid() && i < |m.tasks|
    ensures OwnFrames(m.tasks[i].pages, m.phys.Length)
  {
    var s := m.tasks[i].pages;
    forall j | 0 <= j < |s| ensures s[j].fis % PAGE == 0 && 0 < s[j].fis <= m.phys.Length - PAGE {
      FrameInside(m, i, j);
    }
    forall j, k | 0 <= j < k < |s| ensures s[j].fis != s[k].fis {
      DifferentFrames(m, i, j, k);
    }
  }

  lemma DifferentFrames(m: Memory, i: nat, j: nat, k: nat)
    requires m.Valid() && i < |m.tasks| && j < k < |m.tasks[i].pages|
    ensures m.tasks[i].pages[j].fis != m.tasks[i].pages[k].fis
  {
    var s := m.tasks[i].pages;
    if s[j].fis == s[k].fis {
      FrameTwice(s, j, k);
      CountsOne(m.tasks, i, |m.tasks|, s[j].fis);
    }
    assert OwnersOf(m.heapFrames, m.leaked, m.tasks, s[j].fis) <= 1;
  }

  // The table is as before, but the temporary page shows the frame fis.
  ghost predicate TempShows(pt: seq<Word>, table: seq<Word>, temp: nat, fis: Word) {
    && |pt| == |table| == ENTRIES && temp % PAGE == 0 && temp / PAGE < ENTRIES && fis % PAGE == 0
    && pt == table[temp / PAGE := Selector(fis, PRESENT + READWRITE)]
  }

  // A copy of the bytes bs from source in the table's address space to dest in the task's.
  ghost predicate Copying(before: seq<Byte>, table: seq<Word>, s: seq<Page>, source: Word, dest: Word, bs: seq<Byte>,
                          temp: nat) {
    && |table| == ENTRIES && source + |bs| <= WORD && dest + |bs| <= WORD
    && OwnFrames(s, |before|) && Covered(s, dest, |bs|)
    && SourceMapped(table, |before|, source, |bs|, temp, s)
    && forall v: Word :: source <= v < source + |bs| ==> bs[v - source] == Load(table, before, v)
  }

  // The next byte is still in its place in the source.
  lemma SourceByte(before: seq<Byte>, table: seq<Word>, pt: seq<Word>, s: seq<Page>, source: Word, dest: Word,
                   bs: seq<Byte>, sp: nat, temp: nat, fis: Word, v: Word)
    requires Copying(before, table, s, source, dest, bs, temp) && sp < |bs| && v == source + sp
    requires TempShows(pt, table, temp, fis)
    ensures Translate(pt, v) < |before| && Written(before, s, dest, bs, sp)[Translate(pt, v)] == bs[sp]
  {
    assert Readable(table, |before|, v, temp, s);
    assert Translate(pt, v) == Translate(table, v);
    WrittenElsewhere(before, s, dest, bs, sp, Translate(table, v));
    assert bs[v - source] == Load(table, before, v);
  }

  // The temporary page leads to the task's byte.
  lemma TargetByte(table: seq<Word>, pt: seq<Word>, s: seq<Page>, u: Word, temp: nat, start: Word, size: nat)
    requires OwnFrames(s, size) && start % PAGE == 0 && start <= u < start + PAGE && HasPage(s, start)
    requires temp + PAGE <= WORD && TempShows(pt, table, temp, s[IndexFrom(s, start, 0)].fis)
    ensures Translate(pt, temp + (u - start)) == PhysOf(s, u) < size
  {
    var d := u - start;
    assert u / PAGE * PAGE == start && u % PAGE == d;
    assert EntryIndex(temp + d) == temp / PAGE && (temp + d) % PAGE == d;
    PhysInjective(s, size, u, u);
  }

  lemma ByteCopied(before: seq<Byte>, table: seq<Word>, pt: seq<Word>, s: seq<Page>, source: Word, dest: Word,
                   bs: seq<Byte>, sp: nat, temp: nat, start: Word)
    requires Copying(before, table, s, source, dest, bs, temp) && sp < |bs| && temp + PAGE <= WORD
    requires start % PAGE == 0 && start <= dest + sp < start + PAGE && HasPage(s, start)
    requires TempShows(pt, table, temp, s[IndexFrom(s, start, 0)].fis)
    ensures var w := Written(before, s, dest, bs, sp);
      var from, to := Translate(pt, source + sp), Translate(pt, temp + (dest + sp - start));
      from < |before| && to < |before| && w[to := w[from]] == Written(before, s, dest, bs, sp + 1)
  {
    SourceByte(before, table, pt, s, source, dest, bs, sp, temp, s[IndexFrom(s, start, 0)].fis, source + sp);
    TargetByte(table, pt, s, dest + sp, temp, start, |before|);
    NextByte(before, s, dest, bs, sp);
    var w, from := Written(before, s, dest, bs, sp), Translate(pt, source + sp);
    assert w[from] == bs[sp] && Translate(pt, temp + (dest + sp - start)) == PhysOf(s, dest + sp);
  }

  // A byte is read and written through the table.
  method CopyByte(m: Memory, from: Word, to: Word, ghost pt: seq<Word>)
    requires m.Shape() && pt == m.pageTable[..] && Translate(pt, from) < m.phys.Length
    requires Translate(pt, to) < m.phys.Length
    modifies m.phys
    ensures pt == m.pageTable[..]
    ensures m.phys[..] == old(m.phys[..])[Translate(pt, to) := old(m.phys[..])[Translate(pt, from)]]
  {
    var b := m.phys[m.pageTable[EntryIndex(from)] / PAGE * PAGE + from % PAGE];
    m.phys[m.pageTable[EntryIndex(to)] / PAGE * PAGE + to % PAGE] := b;
  }

  method CopyNext(m: Memory, source: Word, dest: Word, start: Word, sp: nat, pointer: nat,
                  ghost before: seq<Byte>, ghost table: seq<Word>, ghost pt: seq<Word>, ghost s: seq<Page>,
                  ghost bs: seq<Byte>)
    requires m.Shape() && |before| == m.phys.Length && Copying(before, table, s, source, dest, bs, m.tempPage)
    requires sp < |bs| && pointer == dest + sp - start < PAGE && start % PAGE == 0 && HasPage(s, start)
    requires pt == m.pageTable[..] && TempShows(pt, table, m.tempPage, s[IndexFrom(s, start, 0)].fis)
    requires m.phys[..] == Written(before, s, dest, bs, sp)
    modifies m.phys
    ensures pt == m.pageTable[..] && m.phys[..] == Written(before, s, dest, bs, sp + 1)
  {
    ByteCopied(before, table, pt, s, source, dest, bs, sp, m.tempPage, start);
    CopyByte(m, source + sp, m.tempPage + pointer, pt);
  }

  // The inner loop: bytes go into the frame that the temporary page shows, until the page or the
  // source is at its end.
  method CopyIntoPage(m: Memory, source: Word, count: nat, dest: Word, start: Word, sourceFrom: nat,
                      ghost before: seq<Byte>, ghost table: seq<Word>, ghost s: seq<Page>, ghost bs: seq<Byte>)
    returns (sp: nat)
    requires m.Shape() && |bs| == count && |before| == m.phys.Length && sourceFrom <= count
    requires Copying(before, table, s, source, dest, bs, m.tempPage)
    requires start % PAGE == 0 && start <= dest + sourceFrom < start + PAGE && HasPage(s, start)
    requires TempShows(m.pageTable[..], table, m.tempPage, s[IndexFrom(s, start, 0)].fis)
    requires m.phys[..] == Written(before, s, dest, bs, sourceFrom)
    modifies m.phys
    ensures sp == Min(count, start + PAGE - dest) && m.phys[..] == Written(before, s, dest, bs, sp)
  {
    var pointer := dest + sourceFrom - start;
    sp := sourceFrom;
    ghost var pt := m.pageTable[..];
    while pointer < PAGE && sp < count
      invariant sourceFrom <= sp <= count && pointer == dest + sp - start && pointer <= PAGE
      invariant pt == m.pageTable[..] && m.phys[..] == Written(before, s, dest, bs, sp)
    {
      CopyNext(m, source, dest, start, sp, pointer, before, table, pt, s, bs);
      pointer := pointer + 1;
      sp := sp + 1;
    }
  }

  // One round of the outer loop: the page's frame is shown, and filled.
  method CopyPage(m: Memory, source: Word, count: nat, dest: Word, at: nat, start: Word, sourceFrom: nat,
                  ghost before: seq<Byte>, ghost table: seq<Word>, ghost bs: seq<Byte>)
    returns (sp: nat)
    requires m.Valid() && at < |m.tasks| && |bs| == count && |before| == m.phys.Length && sourceFrom <= count
    requires Copying(before, table, m.tasks[at].pages, source, dest, bs, m.tempPage)
    requires start % PAGE == 0 && start <= dest + sourceFrom < start + PAGE && HasPage(m.tasks[at].pages, start)
    requires SameButTemp(m.pageTable[..], table, m.tempPage)
    requires m.phys[..] == Written(before, m.tasks[at].pages, dest, bs, sourceFrom)
    modifies m.pageTable, m.phys
    ensures m.Valid() && SameButTemp(m.pageTable[..], table, m.tempPage)
    ensures sp == Min(count, start + PAGE - dest) && m.phys[..] == Written(before, m.tasks[at].pages, dest, bs, sp)
  {
    var j := m.GetPagina(at, start);
    var fis := m.tasks[at].pages[j].fis;
    m.SetPageSelector(EntryIndex(m.tempPage), fis, PRESENT + READWRITE);
    assert TempShows(m.pageTable[..], table, m.tempPage, fis);
    assert m.Valid();
    sp := CopyIntoPage(m, source, count, dest, start, sourceFrom, before, table, m.tasks[at].pages, bs);
  }

  // The copy is at the byte sp, which lies in the page at start, or it is done.
  ghost predicate Cursor(first: nat, start: nat, dest: nat, sp: nat, count: nat) {
    && start % PAGE == 0 && first <= start && sp <= count
    && (start <= dest + sp < start + PAGE || (sp == count && dest + count <= start))
  }

  lemma CursorNext(first: nat, start: nat, dest: nat, sp: nat, count: nat)
    requires Cursor(first, start, dest, sp, count) && start < dest + count
    ensures start <= dest + sp < start + PAGE && dest <= start + PAGE
    ensures Cursor(first, start + PAGE, dest, Min(count, start + PAGE - dest), count)
  {}

  method MemcpyToTask(m: Memory, source: Word, count: nat, dest: Word, procID: nat, ghost i: nat)
    requires m.Valid() && i < |m.tasks| && i == IndexOfTask(m.tasks, procID, 0)
    requires source + count <= WORD && dest + count <= m.heapStart && Covered(m.tasks[i].pages, dest, count)
    requires SourceMapped(m.pageTable[..], m.phys.Length, source, count, m.tempPage, m.tasks[i].pages)
    modifies m.pageTable, m.phys
    ensures m.Valid() && SameButTemp(m.pageTable[..], old(m.pageTable[..]), m.tempPage)
    ensures m.phys[..] == Written(old(m.phys[..]), m.tasks[i].pages, dest,
                                  Loaded(old(m.pageTable[..]), old(m.phys[..]), source, count), count)
  {
    ghost var before, table := m.phys[..], m.pageTable[..];
    var at := m.GetTask(procID);
    ghost var bs := Loaded(table, before, source, count);
    TaskFrames(m, at);
    var startMem := dest / PAGE * PAGE;
    var sp := 0;
    ghost var first := startMem;
    assert Copying(before, table, m.tasks[at].pages, source, dest, bs, m.tempPage);
    while startMem < dest + count
      invariant m.Valid() && 0 <= sp && Cursor(first, startMem, dest, sp, count)
      invariant m.phys[..] == Written(before, m.tasks[at].pages, dest, bs, sp)
      invariant SameButTemp(m.pageTable[..], table, m.tempPage)
      decreases dest + count - startMem
    {
      CursorNext(first, startMem, dest, sp, count);
      assert HasPage(m.tasks[at].pages, startMem);
      sp := CopyPage(m, source, count, dest, at, startMem, sp, before, table, bs);
      startMem := startMem + PAGE;
    }
  }

  ghost predicate SameButTemp(pt: seq<Word>, table: seq<Word>, temp: nat) {
    |pt| == |table| == ENTRIES && temp / PAGE < ENTRIES && pt == table[temp / PAGE := pt[temp / PAGE]]
  }
}
