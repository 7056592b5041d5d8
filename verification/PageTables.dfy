// The page table as one array of 2^20 entries, and what a change of task does to it.
module PageTables {
  import opened Machine
  import opened Pages

  const ENTRIES := 0x10_0000

  // Flag bits of an entry. A task's page has all three of them.
  const PRESENT := 1
  const READWRITE := 2
  const USER := 4

  // An entry: the frame's address and the flags.
  function Selector(addr: Word, flags: nat): Word
    requires flags < PAGE
  {
    addr / PAGE * PAGE + flags
  }

  function EntryIndex(v: Word): nat { v / PAGE }

  function UserEntry(p: Page): Word { Selector(p.fis, PRESENT + READWRITE + USER) }

  // --- Lists of pages in the user area ------------------------------------------------------

  ghost predicate UserPages(s: seq<Page>, lo: nat, hi: nat) {
    Sorted(s) && forall j :: 0 <= j < |s| ==> lo <= s[j].log < hi && s[j].log % PAGE == 0
  }

  // --- A change of task ---------------------------------------------------------------------

  // The first k pages of a list are taken out of the table.
  function Unmapped(pt: seq<Word>, s: seq<Page>, k: nat): (r: seq<Word>)
    requires |pt| == ENTRIES && k <= |s|
    ensures |r| == ENTRIES
  {
    if k == 0 then pt else Unmapped(pt, s, k - 1)[EntryIndex(s[k - 1].log) := Selector(0, 0)]
  }

  // The first k pages of a list are put into the table.
  function Mapped(pt: seq<Word>, s: seq<Page>, k: nat): (r: seq<Word>)
    requires |pt| == ENTRIES && k <= |s|
    ensures |r| == ENTRIES
  {
    if k == 0 then pt else Mapped(pt, s, k - 1)[EntryIndex(s[k - 1].log) := UserEntry(s[k - 1])]
  }

  function Switched(pt: seq<Word>, from: seq<Page>, to: seq<Page>): (r: seq<Word>)
    requires |pt| == ENTRIES
    ensures |r| == ENTRIES
  {
    Mapped(Unmapped(pt, from, |from|), to, |to|)
  }

  // The page of the list that an entry belongs to.
  ghost predicate OnEntry(s: seq<Page>, k: nat, e: nat) {
    k <= |s| && exists j :: 0 <= j < k && EntryIndex(s[j].log) == e
  }

  lemma {:induction false} UnmappedAt(pt: seq<Word>, s: seq<Page>, k: nat, e: nat)
    requires |pt| == ENTRIES && k <= |s| && e < ENTRIES
    ensures Unmapped(pt, s, k)[e] == if OnEntry(s, k, e) then 0 else pt[e]
  {
    if k > 0 { UnmappedAt(pt, s, k - 1, e); }
  }

  lemma {:induction false} MappedOff(pt: seq<Word>, s: seq<Page>, k: nat, e: nat)
    requires |pt| == ENTRIES && k <= |s| && e < ENTRIES && !OnEntry(s, k, e)
    ensures Mapped(pt, s, k)[e] == pt[e]
  {
    if k > 0 { MappedOff(pt, s, k - 1, e); }
  }

  lemma {:induction false} MappedOn(pt: seq<Word>, s: seq<Page>, k: nat, j: nat, lo: nat, hi: nat)
    requires |pt| == ENTRIES && j < k <= |s| && UserPages(s, lo, hi)
    ensures Mapped(pt, s, k)[EntryIndex(s[j].log)] == UserEntry(s[j])
  {
    if j < k - 1 {
      MappedOn(pt, s, k - 1, j, lo, hi);
      assert s[j].log < s[k - 1].log;
    }
  }

  // --- Agreement of the table with a list ---------------------------------------------------

  // An address of a page of the user area.
  predicate UserPage(v: Word, lo: nat, hi: nat) { lo <= v < hi && v % PAGE == 0 }

  // What the entry of v should be when the list is s.
  function EntryFor(s: seq<Page>, v: Word): Word {
    var j := IndexFrom(s, v, 0);
    if j < |s| then UserEntry(s[j]) else 0
  }

  // The user entries are exactly those of the list s.
  ghost predicate Agrees(pt: seq<Word>, s: seq<Page>, lo: nat, hi: nat)
    requires |pt| == ENTRIES
  {
    forall v: Word :: UserPage(v, lo, hi) ==> pt[EntryIndex(v)] == EntryFor(s, v)
  }

  lemma OnEntryIff(s: seq<Page>, v: Word, lo: nat, hi: nat)
    requires UserPages(s, lo, hi) && UserPage(v, lo, hi)
    ensures OnEntry(s, |s|, EntryIndex(v)) <==> HasPage(s, v)
  {
    if HasPage(s, v) {
      assert EntryIndex(s[IndexFrom(s, v, 0)].log) == EntryIndex(v);
    }
  }

  // An entry of the user area after the change: the new list's, or none if the old list had it,
  // or else what was there.
  lemma SwitchedAt(pt: seq<Word>, from: seq<Page>, to: seq<Page>, v: Word, lo: nat, hi: nat)
    requires |pt| == ENTRIES && UserPages(from, lo, hi) && UserPages(to, lo, hi) && UserPage(v, lo, hi)
    ensures Switched(pt, from, to)[EntryIndex(v)]
         == if HasPage(to, v) then EntryFor(to, v) else if HasPage(from, v) then 0 else pt[EntryIndex(v)]
  {
    var mid := Unmapped(pt, from, |from|);
    UnmappedAt(pt, from, |from|, EntryIndex(v));
    OnEntryIff(from, v, lo, hi);
    OnEntryIff(to, v, lo, hi);
    if HasPage(to, v) {
      MappedOn(mid, to, |to|, IndexFrom(to, v, 0), lo, hi);
    } else {
      MappedOff(mid, to, |to|, EntryIndex(v));
    }
  }

  // Entries below and above the user area, the heap's among them, are not touched.
  lemma SwitchedOutside(pt: seq<Word>, from: seq<Page>, to: seq<Page>, e: nat, lo: nat, hi: nat)
    requires |pt| == ENTRIES && UserPages(from, lo, hi) && UserPages(to, lo, hi) && e < ENTRIES
    requires lo % PAGE == 0 && hi % PAGE == 0 && (e < lo / PAGE || hi / PAGE <= e)
    ensures Switched(pt, from, to)[e] == pt[e]
  {
    UnmappedAt(pt, from, |from|, e);
    MappedOff(Unmapped(pt, from, |from|), to, |to|, e);
  }

  // If the table has exactly the pages of `mapped`, then after the change it has exactly those of
  // the new list if and only if no page of `mapped` is on neither list. With the old list mapped
  // this always holds. After exit the old list counts as empty, and after exec the old list
  // is the new one already: then every page that the task had before must be on the new list.
  lemma SwitchAgreesIff(pt: seq<Word>, mapped: seq<Page>, from: seq<Page>, to: seq<Page>, lo: nat, hi: nat)
    requires |pt| == ENTRIES && UserPages(mapped, lo, hi) && UserPages(from, lo, hi) && UserPages(to, lo, hi)
    requires Agrees(pt, mapped, lo, hi)
    ensures Agrees(Switched(pt, from, to), to, lo, hi)
       <==> forall v: Word :: UserPage(v, lo, hi) && HasPage(mapped, v) ==> HasPage(from, v) || HasPage(to, v)
  {
    var after := Switched(pt, from, to);
    forall v: Word | UserPage(v, lo, hi)
      ensures after[EntryIndex(v)] == EntryFor(to, v) <==> (HasPage(mapped, v) ==> HasPage(from, v) || HasPage(to, v))
    {
      SwitchedAt(pt, from, to, v, lo, hi);
      assert HasPage(mapped, v) ==> EntryFor(mapped, v) > 0;
    }
    if Agrees(after, to, lo, hi) {
      forall v: Word | UserPage(v, lo, hi) && HasPage(mapped, v) ensures HasPage(from, v) || HasPage(to, v) {
        assert after[EntryIndex(v)] == EntryFor(to, v);
      }
    }
  }

  // The table after a run of changes, from each list to the next.
  function SwitchedAll(pt: seq<Word>, lists: seq<seq<Page>>): (r: seq<Word>)
    requires |pt| == ENTRIES && |lists| > 0
    ensures |r| == ENTRIES
  {
    if |lists| == 1 then pt
    else Switched(SwitchedAll(pt, lists[..|lists| - 1]), lists[|lists| - 2], lists[|lists| - 1])
  }

  // Over any run of changes between lists that stay as they are while they are mapped, the table has
  // exactly the last list's pages, and the other entries are those of the beginning.
  lemma {:induction false} RunAgrees(pt: seq<Word>, lists: seq<seq<Page>>, lo: nat, hi: nat)
    requires |pt| == ENTRIES && |lists| > 0 && lo % PAGE == 0 && hi % PAGE == 0
    requires forall i :: 0 <= i < |lists| ==> UserPages(lists[i], lo, hi)
    requires Agrees(pt, lists[0], lo, hi)
    ensures Agrees(SwitchedAll(pt, lists), lists[|lists| - 1], lo, hi)
    ensures forall e: nat :: e < ENTRIES && (e < lo / PAGE || hi / PAGE <= e) ==> SwitchedAll(pt, lists)[e] == pt[e]
  {
    if |lists| > 1 {
      var front := lists[..|lists| - 1];
      RunAgrees(pt, front, lo, hi);
      var mid, from, to := SwitchedAll(pt, front), lists[|lists| - 2], lists[|lists| - 1];
      SwitchAgreesIff(mid, from, from, to, lo, hi);
      forall e: nat | e < ENTRIES && (e < lo / PAGE || hi / PAGE <= e) ensures Switched(mid, from, to)[e] == pt[e] {
        SwitchedOutside(mid, from, to, e, lo, hi);
      }
    }
  }

  // exit forgets the running task before the change: its page at v stays mapped unless the next task
  // has one there itself.
  lemma ExitLeavesPages(pt: seq<Word>, exited: seq<Page>, to: seq<Page>, v: Word, lo: nat, hi: nat)
    requires |pt| == ENTRIES && UserPages(exited, lo, hi) && UserPages(to, lo, hi) && UserPage(v, lo, hi)
    requires Agrees(pt, exited, lo, hi) && HasPage(exited, v) && !HasPage(to, v)
    ensures Switched(pt, [], to)[EntryIndex(v)] == EntryFor(exited, v) && !Agrees(Switched(pt, [], to), to, lo, hi)
  {
    assert !HasPage([], v);
    SwitchedAt(pt, [], to, v, lo, hi);
    assert EntryFor(exited, v) > 0 == EntryFor(to, v);
  }
}
