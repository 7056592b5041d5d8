// fork: a task is copied page by page into frames that were free.
module ForkTask {
  import opened Machine
  import opened Pages
  import opened PageTables
  import opened Tasks
  import opened AddressSpaces
  import opened VirtualCopy
  import opened TaskMemory

  // The pages of the list are mapped with their frames.
  ghost predicate MappedPages(pt: seq<Word>, s: seq<Page>) {
    |pt| == ENTRIES && forall j :: 0 <= j < |s| ==> pt[EntryIndex(s[j].log)] == UserEntry(s[j])
  }

  lemma AgreeingIsMapped(pt: seq<Word>, s: seq<Page>, lo: nat, hi: nat)
    requires |pt| == ENTRIES && UserPages(s, lo, hi) && Agrees(pt, s, lo, hi)
    ensures MappedPages(pt, s)
  {
    forall j | 0 <= j < |s| ensures pt[EntryIndex(s[j].log)] == UserEntry(s[j]) {
      assert UserPage(s[j].log, lo, hi);
      assert s[IndexFrom(s, s[j].log, 0)].log == s[j].log;
    }
  }

  // Bytes of a page that is mapped are read as its frame's bytes.
  lemma LoadedPage(pt: seq<Word>, mem: seq<Byte>, p: Page, count: nat)
    requires |pt| == ENTRIES && p.log % PAGE == 0 && pt[EntryIndex(p.log)] == UserEntry(p) && count <= PAGE
    requires p.fis % PAGE == 0 && p.fis + PAGE <= |mem| && p.log + count <= WORD
    ensures Loaded(pt, mem, p.log, count) == mem[p.fis..p.fis + count]
  {
    var bs := Loaded(pt, mem, p.log, count);
    forall k | 0 <= k < count ensures bs[k] == mem[p.fis + k] {
      var w: Word := p.log + k;
      assert bs[w - p.log] == Load(pt, mem, w);
      MappedByte(pt, p, k);
    }
  }

  lemma MappedByte(pt: seq<Word>, p: Page, k: nat)
    requires |pt| == ENTRIES && p.log % PAGE == 0 && p.log + k < WORD && pt[EntryIndex(p.log)] == UserEntry(p)
    requires p.fis % PAGE == 0 && k < PAGE
    ensures Translate(pt, p.log + k) == p.fis + k && pt[EntryIndex(p.log + k)] % 2 == PRESENT
  {
    var e := pt[EntryIndex(p.log)];
    InPage(p.log, k);
    InPage(p.fis, PRESENT + READWRITE + USER);
    assert e == p.fis + (PRESENT + READWRITE + USER);
    assert e / PAGE * PAGE == p.fis && e % 2 == PRESENT;
  }

  // Bytes that are written from a page's beginning on go to its frame.
  lemma WrittenPage(mem: seq<Byte>, s: seq<Page>, p: Page, bs: seq<Byte>)
    requires |bs| <= PAGE && p.log % PAGE == 0 && p.log + |bs| <= WORD && OwnFrames(s, |mem|) && Covered(s, p.log, |bs|)
    requires HasPage(s, p.log) && s[IndexFrom(s, p.log, 0)] == p
    ensures p.fis + PAGE <= |mem| && Written(mem, s, p.log, bs, |bs|) == Store(mem, p.fis, bs)
  {
    var written, stored := Written(mem, s, p.log, bs, |bs|), Store(mem, p.fis, bs);
    forall a: nat | a < |mem| ensures written[a] == stored[a] {
      StoreAt(mem, p.fis, bs, a);
      if p.fis <= a < p.fis + |bs| {
        WrittenPageIn(mem, s, p, bs, a, p.log + (a - p.fis));
      } else {
        WrittenPageOut(mem, s, p, bs, a);
      }
    }
    assert written == stored;
  }

  lemma WrittenPageIn(mem: seq<Byte>, s: seq<Page>, p: Page, bs: seq<Byte>, a: nat, v: Word)
    requires p.log % PAGE == 0 && p.log + |bs| <= WORD && OwnFrames(s, |mem|) && Covered(s, p.log, |bs|)
    requires HasPage(s, p.log) && s[IndexFrom(s, p.log, 0)] == p && |bs| <= PAGE
    requires p.fis <= a < p.fis + |bs| && v == p.log + (a - p.fis)
    ensures a < |mem| && Written(mem, s, p.log, bs, |bs|)[a] == bs[a - p.fis]
  {
    PageByte(s, p, v);
    assert PhysOf(s, v) == a;
    WrittenIn(mem, s, p.log, bs, |bs|, v);
  }

  lemma WrittenPageOut(mem: seq<Byte>, s: seq<Page>, p: Page, bs: seq<Byte>, a: nat)
    requires |bs| <= PAGE && p.log % PAGE == 0 && p.log + |bs| <= WORD
    requires HasPage(s, p.log) && s[IndexFrom(s, p.log, 0)] == p && a < |mem| && !(p.fis <= a < p.fis + |bs|)
    ensures Written(mem, s, p.log, bs, |bs|)[a] == mem[a]
  {
    forall v: Word {:trigger PhysOf(s, v)} | p.log <= v < p.log + |bs| ensures PhysOf(s, v) != a {
      PageByte(s, p, v);
    }
    WrittenOut(mem, s, p.log, bs, |bs|, a);
  }

  lemma PageByte(s: seq<Page>, p: Page, v: Word)
    requires p.log % PAGE == 0 && p.log <= v < p.log + PAGE && HasPage(s, p.log) && s[IndexFrom(s, p.log, 0)] == p
    ensures PhysOf(s, v) == p.fis + (v - p.log)
  {
    InPage(p.log, v - p.log);
  }

  // A mapped page of task i can be read while task c is written.
  lemma SourceIsMapped(m: Memory, i: nat, k: nat, c: nat, count: nat)
    requires m.Valid() && i < c < |m.tasks| && k < |m.tasks[i].pages| && MappedPages(m.pageTable[..], m.tasks[i].pages)
    requires count <= PAGE
    ensures SourceMapped(m.pageTable[..], m.phys.Length, m.tasks[i].pages[k].log, count, m.tempPage, m.tasks[c].pages)
  {
    var p, s := m.tasks[i].pages[k], m.tasks[c].pages;
    TaskFrames(m, i);
    forall l | 0 <= l < |s| ensures s[l].fis != p.fis {
      NoSharing(m, i, c, k, l);
    }
    forall v: Word | p.log <= v < p.log + count ensures Readable(m.pageTable[..], m.phys.Length, v, m.tempPage, s) {
      MappedByte(m.pageTable[..], p, v - p.log);
      InPage(p.fis, v - p.log);
      InPage(p.log, v - p.log);
    }
  }

  // The pages c are copies of the first pages of s: at the same addresses, with the same bytes in
  // frames that were free; the memory outside these frames is as before.
  ghost predicate Copies(s: seq<Page>, c: seq<Page>, mem0: seq<Byte>, mem: seq<Byte>) {
    && |c| <= |s| && |mem| == |mem0|
    && (forall j :: 0 <= j < |c| ==> SamePage(s[j], c[j], mem0, mem))
    && forall a: nat {:trigger NotIn(c, a)} :: a < |mem| && NotIn(c, a) ==> mem[a] == mem0[a]
  }

  ghost predicate SamePage(p: Page, q: Page, mem0: seq<Byte>, mem: seq<Byte>) {
    && p.log == q.log && |mem| == |mem0| && p.fis + PAGE <= |mem0| && q.fis + PAGE <= |mem|
    && mem[q.fis..q.fis + PAGE] == mem0[p.fis..p.fis + PAGE]
  }

  // A store to one frame leaves another as it is.
  lemma OtherFrame(mem: seq<Byte>, f: nat, bs: seq<Byte>, g: nat)
    requires f % PAGE == 0 && g % PAGE == 0 && f != g && |bs| <= PAGE && f + |bs| <= |mem| && g + PAGE <= |mem|
    ensures Store(mem, f, bs)[g..g + PAGE] == mem[g..g + PAGE]
  {
    assert g + PAGE <= f || f + PAGE <= g;
    forall k | g <= k < g + PAGE ensures Store(mem, f, bs)[k] == mem[k] {
      StoreAt(mem, f, bs, k);
    }
  }

  lemma FrameOf(f: nat, a: nat)
    requires f % PAGE == 0 && f <= a < f + PAGE
    ensures a / PAGE * PAGE == f
  {
    InPage(f, a - f);
  }

  // The parent's frames are not written.
  lemma ParentKept(s: seq<Page>, c: seq<Page>, mem0: seq<Byte>, mem: seq<Byte>, f: Word, k: nat)
    requires Copies(s, c, mem0, mem) && f % PAGE == 0 && k < PAGE && f + PAGE <= |mem|
    requires forall j :: 0 <= j < |c| ==> f != c[j].fis
    ensures mem[f + k] == mem0[f + k]
  {
    FrameOf(f, f + k);
    assert NotIn(c, f + k);
  }

  // One more page is copied.
  lemma CopiesOne(s: seq<Page>, c: seq<Page>, mem0: seq<Byte>, mem: seq<Byte>, p: Page, q: Page, mem': seq<Byte>)
    requires |c| < |s| && Copies(s, c, mem0, mem) && p == s[|c|] && q.log == p.log
    requires p.fis % PAGE == 0 && q.fis % PAGE == 0 && p.fis + PAGE <= |mem| && q.fis + PAGE <= |mem|
    requires forall j :: 0 <= j < |c| ==> c[j].fis % PAGE == 0 && c[j].fis != q.fis && c[j].fis != p.fis
    requires mem' == Store(mem, q.fis, mem[p.fis..p.fis + PAGE])
    ensures Copies(s, c + [q], mem0, mem')
  {
    var c', bs := c + [q], mem[p.fis..p.fis + PAGE];
    forall k | p.fis <= k < p.fis + PAGE ensures mem[k] == mem0[k] {
      ParentKept(s, c, mem0, mem, p.fis, k - p.fis);
    }
    assert bs == mem0[p.fis..p.fis + PAGE];
    assert mem'[q.fis..q.fis + PAGE] == bs;
    forall j | 0 <= j < |c'| ensures SamePage(s[j], c'[j], mem0, mem') {
      if j < |c| {
        assert SamePage(s[j], c[j], mem0, mem);
        OtherFrame(mem, q.fis, bs, c[j].fis);
      }
    }
    forall a: nat | a < |mem'| && NotIn(c', a) ensures mem'[a] == mem0[a] {
      NotInFront(c, q, a);
      StoreAt(mem, q.fis, bs, a);
      if q.fis <= a < q.fis + PAGE {
        FrameOf(q.fis, a);
      }
    }
  }

  lemma NotInFront(c: seq<Page>, q: Page, a: nat)
    requires NotIn(c + [q], a)
    ensures NotIn(c, a) && q.fis != a / PAGE * PAGE
  {
    assert (c + [q])[|c|] == q;
    forall j | 0 <= j < |c| ensures c[j].fis != a / PAGE * PAGE {
      assert (c + [q])[j] == c[j];
    }
  }

  // --- The copy of one page -----------------------------------------------------------------

  lemma LastIs(c: seq<Page>, q: Page)
    requires !HasPage(c, q.log)
    ensures HasPage(c + [q], q.log) && (c + [q])[IndexFrom(c + [q], q.log, 0)] == q
  {
    var k := IndexFrom(c + [q], q.log, 0);
    assert (c + [q])[|c|] == q;
    if k < |c| {
      assert (c + [q])[k] == c[k];
    }
  }

  // The bytes of the parent's page go into the child's frame.
  method CopyFrame(m: Memory, p: Page, count: nat, id: nat, ghost i: nat, ghost k: nat, ghost n: nat, ghost q: Page)
    requires m.Valid() && i < n < |m.tasks| && n == IndexOfTask(m.tasks, id, 0) && k < |m.tasks[i].pages|
    requires p == m.tasks[i].pages[k]
    requires MappedPages(m.pageTable[..], m.tasks[i].pages) && count <= PAGE
    requires var c := m.tasks[n].pages; HasPage(c, p.log) && q == c[IndexFrom(c, p.log, 0)]
    modifies m.pageTable, m.phys
    ensures m.Valid() && SameButTemp(m.pageTable[..], old(m.pageTable[..]), m.tempPage)
    ensures p.fis + count <= m.phys.Length && q.fis + count <= m.phys.Length
    ensures m.phys[..] == Store(old(m.phys[..]), q.fis, old(m.phys[..])[p.fis..p.fis + count])
  {
    ghost var c, table, before := m.tasks[n].pages, m.pageTable[..], m.phys[..];
    TaskFrames(m, i);
    TaskFrames(m, n);
    SourceIsMapped(m, i, k, n, count);
    BelowHeap(p.log, m.heapStart);
    forall v: Word | v % PAGE == 0 && p.log / PAGE * PAGE <= v < p.log + count ensures HasPage(c, v) {
      assert v == p.log;
    }
    LoadedPage(table, before, p, count);
    WrittenPage(before, c, q, Loaded(table, before, p.log, count));
    MemcpyToTask(m, p.log, count, p.log, id, n);
  }

  lemma BelowHeap(log: nat, hi: nat)
    requires log % PAGE == 0 && hi % PAGE == 0 && log < hi
    ensures log + PAGE <= hi
  {}

  // --- fork ---------------------------------------------------------------------------------

  lemma NewestTask(before: seq<Task>, t: Task)
    requires t.procID !in IDs(before)
    ensures IndexOfTask(before + [t], t.procID, 0) == |before|
  {
    assert (before + [t])[|before|] == t;
    assert forall j :: 0 <= j < |before| ==> before[j].procID in IDs(before);
  }

  lemma NewestWithPage(before: seq<Task>, t: Task, c: seq<Page>, q: Page)
    requires Sorted(c) && (c == [] || c[|c| - 1].log < q.log)
    ensures WithPage(before + [t.(pages := c)], |before|, q) == before + [t.(pages := c + [q])]
  {
    Appends(c, q);
  }

  // The child gets a page behind those that it has.
  method GivePage(m: Memory, log: Word, ghost before: seq<Task>, ghost t: Task, id: nat, ghost c: seq<Page>)
    returns (panic: bool, ghost q: Page)
    requires m.Valid() && m.tasks == before + [t.(pages := c)] && t.procID == id && id !in IDs(before)
    requires m.userStart <= log < m.heapStart && log % PAGE == 0 && (c == [] || c[|c| - 1].log < log)
    modifies m`heapEnd, m`heapFrames, m`tasks, m`leaked, m.bitmap, m.pageTable
    ensures panic ==> m.Full()
    ensures !panic ==> m.Valid() && m.tasks == before + [t.(pages := c + [q])] && m.leaked == old(m.leaked)
    ensures !panic ==> q.log == log && !m.MarkedIn(old(m.bitmap[..]), q.fis)
    ensures forall b: Word :: m.MarkedIn(old(m.bitmap[..]), b) ==> m.MarkedIn(m.bitmap[..], b)
    ensures m.pageTable[..m.heapStart / PAGE] == old(m.pageTable[..m.heapStart / PAGE])
  {
    ghost var fis := 0;
    NewestTask(before, t.(pages := c));
    assert c == m.tasks[|before|].pages;
    panic, fis := m.AllocaNuovaPagina(id, log);
    q := Page(log, fis);
    NewestWithPage(before, t, c, q);
    Appends(c, q);
    assert Fis([]) == [];
  }

  // Entries of the user area are as before.
  ghost predicate UserEntriesKept(pt: seq<Word>, table: seq<Word>, temp: nat, hi: nat) {
    && |pt| == |table| == ENTRIES
    && forall e: nat :: e < hi / PAGE && e < ENTRIES && e != temp / PAGE ==> pt[e] == table[e]
  }

  lemma FrontKept(pt: seq<Word>, table: seq<Word>, temp: nat, hi: nat)
    requires |pt| == |table| == ENTRIES && hi / PAGE <= ENTRIES && pt[..hi / PAGE] == table[..hi / PAGE]
    ensures UserEntriesKept(pt, table, temp, hi)
  {
    forall e: nat | e < hi / PAGE ensures pt[e] == table[e] {
      assert pt[..hi / PAGE][e] == table[..hi / PAGE][e];
    }
  }

  lemma StillMapped(pt: seq<Word>, table: seq<Word>, temp: nat, s: seq<Page>, lo: nat, hi: nat)
    requires UserEntriesKept(pt, table, temp, hi) && MappedPages(table, s) && UserPages(s, lo, hi)
    requires temp % PAGE == 0 && temp < lo && lo % PAGE == 0 && hi % PAGE == 0
    ensures MappedPages(pt, s)
  {
    forall j | 0 <= j < |s| ensures pt[EntryIndex(s[j].log)] == UserEntry(s[j]) {
      assert lo / PAGE <= EntryIndex(s[j].log) < hi / PAGE;
    }
  }

  // The frames of the child so far, and the new one, are apart from each other and from the parent's.
  lemma ApartFrames(m: Memory, i: nat, k: nat, before: seq<Task>, t: Task, c: seq<Page>, q: Page)
    requires m.Valid() && m.tasks == before + [t.(pages := c + [q])] && i < |before| && k < |before[i].pages|
    ensures forall j :: 0 <= j < |c| ==> c[j].fis % PAGE == 0 && c[j].fis != q.fis && c[j].fis != before[i].pages[k].fis
    ensures q.fis % PAGE == 0 && q.fis + PAGE <= m.phys.Length
    ensures before[i].pages[k].fis % PAGE == 0 && before[i].pages[k].fis + PAGE <= m.phys.Length
  {
    var c', n := c + [q], |before|;
    assert m.tasks[n].pages == c' && m.tasks[i] == before[i] && c'[|c|] == q;
    TaskFrames(m, n);
    TaskFrames(m, i);
    forall j | 0 <= j < |c|
      ensures c[j].fis % PAGE == 0 && c[j].fis != q.fis && c[j].fis != before[i].pages[k].fis
    {
      assert c'[j] == c[j];
      NoSharing(m, i, n, k, j);
    }
  }

  // One round of the loop: a page of the parent is copied to the child.
  method ForkPage(m: Memory, i: nat, k: nat, id: nat, ghost before: seq<Task>, ghost t: Task, ghost c: seq<Page>,
                  ghost mem0: seq<Byte>)
    returns (panic: bool, ghost q: Page)
    requires m.Valid() && m.tasks == before + [t.(pages := c)] && t.procID == id && id !in IDs(before)
    requires i < |before| && |c| == k < |before[i].pages|
    requires Copies(before[i].pages, c, mem0, m.phys[..]) && MappedPages(m.pageTable[..], before[i].pages)
    modifies m`heapEnd, m`heapFrames, m`tasks, m`leaked, m.bitmap, m.pageTable, m.phys
    ensures panic ==> m.Full()
    ensures !panic ==> m.Valid() && m.tasks == before + [t.(pages := c + [q])] && m.leaked == old(m.leaked)
    ensures !panic ==> Copies(before[i].pages, c + [q], mem0, m.phys[..])
    ensures !panic ==> MappedPages(m.pageTable[..], before[i].pages)
    ensures !panic ==> !m.MarkedIn(old(m.bitmap[..]), q.fis)
    ensures forall b: Word :: m.MarkedIn(old(m.bitmap[..]), b) ==> m.MarkedIn(m.bitmap[..], b)
  {
    var p := m.tasks[i].pages[k];
    ghost var s, table, mem := before[i].pages, m.pageTable[..], m.phys[..];
    assert c == [] || c[k - 1].log < p.log by {
      if k > 0 {
        assert SamePage(s[k - 1], c[k - 1], mem0, mem) && s[k - 1].log < s[k].log;
      }
    }
    panic, q := GivePage(m, p.log, before, t, id, c);
    if !panic {
      Appends(c, q);
      CopyGiven(m, p, i, k, id, before, t, c, q, mem0, table);
    }
  }

  // The page that the child was given is filled.
  method CopyGiven(m: Memory, p: Page, i: nat, k: nat, id: nat, ghost before: seq<Task>, ghost t: Task,
                   ghost c: seq<Page>, ghost q: Page, ghost mem0: seq<Byte>, ghost table: seq<Word>)
    requires m.Valid() && m.tasks == before + [t.(pages := c + [q])] && t.procID == id && id !in IDs(before)
    requires i < |before| && |c| == k < |before[i].pages| && p == before[i].pages[k] && q.log == p.log
    requires !HasPage(c, q.log)
    requires |table| == ENTRIES && m.pageTable[..m.heapStart / PAGE] == table[..m.heapStart / PAGE]
    requires MappedPages(table, before[i].pages)
    requires Copies(before[i].pages, c, mem0, m.phys[..])
    modifies m.pageTable, m.phys
    ensures m.Valid() && Copies(before[i].pages, c + [q], mem0, m.phys[..])
    ensures MappedPages(m.pageTable[..], before[i].pages)
  {
    ghost var mem, pt := m.phys[..], m.pageTable[..];
    ChildIsCopied(m, i, k, id, before, t, c, q, table);
    ApartFrames(m, i, k, before, t, c, q);
    assert m.tasks[|before|].pages == c + [q];
    CopyFrame(m, p, PAGE, id, i, k, |before|, q);
    CopiesOne(before[i].pages, c, mem0, mem, p, q, m.phys[..]);
    StillMapped(m.pageTable[..], pt, m.tempPage, m.tasks[i].pages, m.userStart, m.heapStart);
  }

  // After the page is given, it can be copied.
  lemma ChildIsCopied(m: Memory, i: nat, k: nat, id: nat, before: seq<Task>, t: Task, c: seq<Page>, q: Page,
                      table: seq<Word>)
    requires m.Valid() && m.tasks == before + [t.(pages := c + [q])] && t.procID == id && id !in IDs(before)
    requires i < |before| && k < |before[i].pages| && q.log == before[i].pages[k].log && !HasPage(c, q.log)
    requires |table| == ENTRIES && m.pageTable[..m.heapStart / PAGE] == table[..m.heapStart / PAGE]
    requires MappedPages(table, before[i].pages)
    ensures IndexOfTask(m.tasks, id, 0) == |before| && MappedPages(m.pageTable[..], m.tasks[i].pages)
    ensures m.tasks[i] == before[i]
    ensures UserEntriesKept(m.pageTable[..], table, m.tempPage, m.heapStart)
    ensures HasPage(c + [q], q.log) && (c + [q])[IndexFrom(c + [q], q.log, 0)] == q
  {
    NewestTask(before, t.(pages := c + [q]));
    LastIs(c, q);
    assert m.tasks[i] == before[i];
    FrontKept(m.pageTable[..], table, m.tempPage, m.heapStart);
    StillMapped(m.pageTable[..], table, m.tempPage, before[i].pages, m.userStart, m.heapStart);
  }

  // A new task with the parent's fields, but its own id and no pages.
  method AddChild(m: Memory, t: Task, state: TaskState, wake: nat) returns (panic: bool, id: nat)
    requires m.Valid()
    modifies m`heapEnd, m`heapFrames, m`tasks, m.bitmap, m.pageTable
    ensures panic ==> m.Full()
    ensures !panic ==> m.Valid() && m.tasks == old(m.tasks) + [t.(procID := id, pages := [])]
    ensures !panic ==> PROCID_MIN <= id && id !in IDs(old(m.tasks))
    ensures forall b: Word :: m.MarkedIn(old(m.bitmap[..]), b) ==> m.MarkedIn(m.bitmap[..], b)
    ensures m.pageTable[..m.heapStart / PAGE] == old(m.pageTable[..m.heapStart / PAGE])
  {
    panic, id := AddTask(m, state, wake);
    if !panic {
      ghost var added := m.tasks;
      m.tasks := m.tasks[|m.tasks| - 1 := t.(procID := id, pages := [])];
      SameFrames(m, added);
    }
  }

  // The frames of c were free in the bitmap words0, and what was taken there still is in words.
  ghost predicate NewFrames(m: Memory, words0: seq<Word>, words: seq<Word>, c: seq<Page>)
    requires m.frames <= 32 * |words0| && m.frames <= 32 * |words|
  {
    && (forall j :: 0 <= j < |c| ==> !m.MarkedIn(words0, c[j].fis))
    && forall b: Word :: m.MarkedIn(words0, b) ==> m.MarkedIn(words, b)
  }

  lemma NewFramesNext(m: Memory, words0: seq<Word>, words: seq<Word>, words': seq<Word>, c: seq<Page>, q: Page)
    requires m.frames <= 32 * |words0| && m.frames <= 32 * |words| && m.frames <= 32 * |words'|
    requires NewFrames(m, words0, words, c)
    requires !m.MarkedIn(words, q.fis) && forall b: Word :: m.MarkedIn(words, b) ==> m.MarkedIn(words', b)
    ensures NewFrames(m, words0, words', c + [q])
  {}

  // The loop: every page of the parent is copied.
  method ForkPages(m: Memory, i: nat, id: nat, ghost before: seq<Task>, ghost t: Task)
    returns (panic: bool, ghost c: seq<Page>)
    requires m.Valid() && m.tasks == before + [t.(pages := [])] && t.procID == id && id !in IDs(before)
    requires i < |before| && MappedPages(m.pageTable[..], before[i].pages)
    modifies m`heapEnd, m`heapFrames, m`tasks, m`leaked, m.bitmap, m.pageTable, m.phys
    ensures panic ==> m.Full()
    ensures !panic ==> m.Valid() && m.tasks == before + [t.(pages := c)] && m.leaked == old(m.leaked)
    ensures !panic ==> |c| == |before[i].pages| && Copies(before[i].pages, c, old(m.phys[..]), m.phys[..])
    ensures !panic ==> forall j :: 0 <= j < |c| ==> !m.MarkedIn(old(m.bitmap[..]), c[j].fis)
  {
    c := [];
    ghost var s, mem0, words0 := before[i].pages, m.phys[..], m.bitmap[..];
    var k, n := 0, |m.tasks[i].pages|;
    while k < n
      invariant m.Valid() && k == |c| <= n == |s| && m.leaked == old(m.leaked)
      invariant m.tasks == before + [t.(pages := c)]
      invariant Copies(s, c, mem0, m.phys[..]) && MappedPages(m.pageTable[..], s)
      invariant NewFrames(m, words0, m.bitmap[..], c)
    {
      ghost var q, words;
      words := m.bitmap[..];
      panic, q := ForkPage(m, i, k, id, before, t, c, mem0);
      if panic {
        return;
      }
      NewFramesNext(m, words0, words, m.bitmap[..], c, q);
      c := c + [q];
      k := k + 1;
    }
    panic := false;
  }

  // fork, as far as memory goes. The child is the parent but for its id and its pages; these are
  // copies of the parent's in frames that were free, and no other memory changes.
  method Fork(m: Memory, procID: nat, state: TaskState, wake: nat, ghost i: nat)
    returns (panic: bool, id: nat, ghost c: seq<Page>)
    requires m.Valid() && i < |m.tasks| && i == IndexOfTask(m.tasks, procID, 0)
    requires MappedPages(m.pageTable[..], m.tasks[i].pages)
    modifies m`heapEnd, m`heapFrames, m`tasks, m`leaked, m.bitmap, m.pageTable, m.phys
    ensures panic ==> m.Full()
    ensures !panic ==> m.Valid() && PROCID_MIN <= id && id !in IDs(old(m.tasks)) && m.leaked == old(m.leaked)
    ensures !panic ==> m.tasks == old(m.tasks) + [old(m.tasks)[i].(procID := id, pages := c)]
    ensures !panic ==> |c| == |old(m.tasks)[i].pages| && Copies(old(m.tasks)[i].pages, c, old(m.phys[..]), m.phys[..])
    ensures !panic ==> forall j :: 0 <= j < |c| ==> !m.MarkedIn(old(m.bitmap[..]), c[j].fis)
  {
    c := [];
    var at := m.GetTask(procID);
    ghost var before, table := m.tasks, m.pageTable[..];
    var t := m.tasks[at];
    panic, id := AddChild(m, t, state, wake);
    if panic {
      return;
    }
    FrontKept(m.pageTable[..], table, m.tempPage, m.heapStart);
    StillMapped(m.pageTable[..], table, m.tempPage, before[at].pages, m.userStart, m.heapStart);
    panic, c := ForkPages(m, at, id, before, t.(procID := id));
  }

  lemma {:induction false} SameLogs(s: seq<Page>, c: seq<Page>, log: Word, k: nat)
    requires k <= |s| == |c| && forall j :: 0 <= j < |s| ==> s[j].log == c[j].log
    ensures IndexFrom(s, log, k) == IndexFrom(c, log, k)
    decreases |s| - k
  {
    if k < |s| { SameLogs(s, c, log, k + 1); }
  }

  lemma SlicesAt(x: seq<Byte>, y: seq<Byte>, a: nat, b: nat, k: nat)
    requires a + PAGE <= |x| && b + PAGE <= |y| && x[a..a + PAGE] == y[b..b + PAGE] && k < PAGE
    ensures x[a + k] == y[b + k]
  {
    assert x[a..a + PAGE][k] == x[a + k] && y[b..b + PAGE][k] == y[b + k];
  }

  lemma CopiedLogs(s: seq<Page>, c: seq<Page>, mem0: seq<Byte>, mem: seq<Byte>, log: Word)
    requires |c| == |s| && Copies(s, c, mem0, mem)
    ensures IndexFrom(s, log, 0) == IndexFrom(c, log, 0)
  {
    forall j | 0 <= j < |s| ensures s[j].log == c[j].log {
      assert SamePage(s[j], c[j], mem0, mem);
    }
    SameLogs(s, c, log, 0);
  }

  // A byte of page j, for the child and for the parent.
  lemma ForkedByte(s: seq<Page>, c: seq<Page>, mem0: seq<Byte>, mem: seq<Byte>, j: nat, k: nat)
    requires |c| == |s| && Copies(s, c, mem0, mem) && j < |s| && k < PAGE && s[j].fis % PAGE == 0
    requires forall l :: 0 <= l < |c| ==> s[j].fis != c[l].fis
    ensures c[j].fis + k < |mem| && s[j].fis + k < |mem| && c[j].fis != s[j].fis
    ensures mem[c[j].fis + k] == mem0[s[j].fis + k] == mem[s[j].fis + k]
  {
    assert SamePage(s[j], c[j], mem0, mem);
    SlicesAt(mem, mem0, c[j].fis, s[j].fis, k);
    ParentKept(s, c, mem0, mem, s[j].fis, k);
  }

  // Isolation: at every address of the parent's pages the child reads what the parent had there,
  // and so does the parent, who has another frame.
  lemma ForkedView(s: seq<Page>, c: seq<Page>, mem0: seq<Byte>, mem: seq<Byte>, v: Word)
    requires |c| == |s| && Copies(s, c, mem0, mem) && OwnFrames(s, |mem|) && HasPage(s, v / PAGE * PAGE)
    requires forall i, j :: 0 <= i < |s| && 0 <= j < |c| ==> s[i].fis != c[j].fis
    ensures HasPage(c, v / PAGE * PAGE) && PhysOf(c, v) != PhysOf(s, v)
    ensures PhysOf(c, v) < |mem| && mem[PhysOf(c, v)] == mem0[PhysOf(s, v)]
    ensures PhysOf(s, v) < |mem| && mem[PhysOf(s, v)] == mem0[PhysOf(s, v)]
  {
    CopiedLogs(s, c, mem0, mem, v / PAGE * PAGE);
    ForkedByte(s, c, mem0, mem, IndexFrom(s, v / PAGE * PAGE, 0), v % PAGE);
  }
}
