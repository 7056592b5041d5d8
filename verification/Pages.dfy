// Physical frames and page lists: the bitmap of frames and the list of pages that a task has.
module Pages {
  import opened Machine

  // The address at offset k in the page at base.
  lemma InPage(base: nat, k: nat)
    requires base % PAGE == 0 && k < PAGE
    ensures (base + k) / PAGE == base / PAGE && (base + k) / PAGE * PAGE == base && (base + k) % PAGE == k
  {}

  // --- The bitmap ---------------------------------------------------------------------------

  function Bit(w: nat, k: nat): bool {
    if k == 0 then w % 2 == 1 else Bit(w / 2, k - 1)
  }

  // The word with bit k set or cleared.
  function WithBit(w: nat, k: nat, v: bool): nat {
    if k == 0 then w / 2 * 2 + (if v then 1 else 0) else 2 * WithBit(w / 2, k - 1, v) + w % 2
  }

  function Pow2(k: nat): nat { if k == 0 then 1 else 2 * Pow2(k - 1) }

  lemma {:induction false} WithBitIs(w: nat, k: nat, v: bool, j: nat)
    ensures Bit(WithBit(w, k, v), j) == if j == k then v else Bit(w, j)
    decreases k
  {
    if k > 0 && j > 0 {
      WithBitIs(w / 2, k - 1, v, j - 1);
      assert WithBit(w, k, v) / 2 == WithBit(w / 2, k - 1, v);
    } else if j > 0 {
      assert WithBit(w, k, v) / 2 == w / 2;
    }
  }

  lemma {:induction false} WithBitFits(w: nat, k: nat, v: bool, m: nat)
    requires k < m && w < Pow2(m)
    ensures WithBit(w, k, v) < Pow2(m)
  {
    if k > 0 { WithBitFits(w / 2, k - 1, v, m - 1); }
  }

  function BitOf(words: seq<Word>, x: nat): bool
    requires x < 32 * |words|
  {
    Bit(words[x / 32], x % 32)
  }

  // setBitExt, on an array of words.
  method SetBitExt(words: array<Word>, x: nat, v: bool)
    requires x < 32 * words.Length
    modifies words
    ensures BitOf(words[..], x) == v
    ensures forall y: nat :: y < 32 * words.Length && y != x ==> BitOf(words[..], y) == BitOf(old(words[..]), y)
  {
    var off1, off2 := x / 32, x % 32;
    ghost var was := words[..];
    assert Pow2(32) == WORD by {
      assert Pow2(8) == 256;
      assert Pow2(16) == 0x1_0000;
      assert Pow2(24) == 0x100_0000;
    }
    WithBitFits(words[off1], off2, v, 32);
    words[off1] := WithBit(words[off1], off2, v);
    WithBitIs(was[off1], off2, v, off2);
    forall y: nat | y < 32 * words.Length && y != x ensures BitOf(words[..], y) == BitOf(was, y) {
      if y / 32 == off1 {
        WithBitIs(was[off1], off2, v, y % 32);
      }
    }
  }

  // --- Page lists ---------------------------------------------------------------------------

  // A page of a task: its logical address and its frame's physical address.
  datatype Page = Page(log: Word, fis: Word)

  ghost predicate Sorted(s: seq<Page>) {
    forall i, j :: 0 <= i < j < |s| ==> s[i].log < s[j].log
  }

  // The first page with this address from i on; |s| if there is none.
  function IndexFrom(s: seq<Page>, log: Word, i: nat): (k: nat)
    requires i <= |s|
    ensures i <= k <= |s| && (k < |s| ==> s[k].log == log)
    ensures forall j :: i <= j < k ==> s[j].log != log
    decreases |s| - i
  {
    if i == |s| || s[i].log == log then i else IndexFrom(s, log, i + 1)
  }

  predicate HasPage(s: seq<Page>, log: Word) { IndexFrom(s, log, 0) < |s| }

  // Insertion behind position i, the way the code does it: the new page is linked to the
  // successor's successor, and the successor is lost.
  function AddFrom(s: seq<Page>, p: Page, i: nat): seq<Page>
    requires i < |s|
    decreases |s| - i
  {
    if i + 1 == |s| then s + [p]
    else if s[i].log <= p.log < s[i + 1].log then s[..i + 1] + [p] + s[i + 2..]
    else AddFrom(s, p, i + 1)
  }

  function AddPage(s: seq<Page>, p: Page): seq<Page> {
    if s == [] then [p] else if p.log < s[0].log then [p] + s else AddFrom(s, p, 0)
  }

  // Whether the new page goes to one of the ends.
  predicate AtAnEnd(s: seq<Page>, log: Word) {
    s == [] || log < s[0].log || s[|s| - 1].log < log
  }

  // Where a page belongs: behind all that lie below it.
  function Above(s: seq<Page>, log: Word, i: nat): (k: nat)
    requires i <= |s|
    ensures i <= k <= |s| && (k < |s| ==> s[k].log > log) && forall j :: i <= j < k ==> s[j].log <= log
    decreases |s| - i
  {
    if i == |s| || s[i].log > log then i else Above(s, log, i + 1)
  }

  // What an insertion loses: nothing at the ends, and otherwise the first page above the new one.
  function Lost(s: seq<Page>, log: Word): seq<Page> {
    var k := Above(s, log, 0);
    if AtAnEnd(s, log) || k == |s| then [] else [s[k]]
  }

  lemma {:induction false} AddFromIs(s: seq<Page>, p: Page, i: nat)
    requires Sorted(s) && i < |s| && s[i].log < p.log && !HasPage(s, p.log)
    ensures var k := Above(s, p.log, i);
      i < k && AddFrom(s, p, i) == if k < |s| then s[..k] + [p] + s[k + 1..] else s + [p]
    decreases |s| - i
  {
    if i + 1 < |s| && s[i + 1].log <= p.log {
      AddFromIs(s, p, i + 1);
    }
  }

  // A page that the list does not have yet goes where it belongs. At the ends nothing else
  // changes; anywhere else the page above it is gone.
  lemma AddPageIs(s: seq<Page>, p: Page)
    requires Sorted(s) && !HasPage(s, p.log)
    ensures var k := Above(s, p.log, 0);
      && (AtAnEnd(s, p.log) <==> k == 0 || k == |s|)
      && AddPage(s, p) == s[..k] + [p] + s[k + |Lost(s, p.log)|..]
  {
    var k := Above(s, p.log, 0);
    if s != [] && s[0].log < p.log {
      AddFromIs(s, p, 0);
      if k == |s| {
        assert AtAnEnd(s, p.log) && AddPage(s, p) == s + [p];
        assert s + [p] == s[..|s|] + [p] + s[|s|..];
      } else {
        assert !AtAnEnd(s, p.log);
      }
    } else {
      assert k == 0 && AtAnEnd(s, p.log);
      assert [p] + s == s[..0] + [p] + s[0..];
    }
  }

  lemma AddPageSorted(s: seq<Page>, p: Page)
    requires Sorted(s) && !HasPage(s, p.log)
    ensures Sorted(AddPage(s, p))
  {
    AddPageIs(s, p);
  }

  // A page above the whole list is appended, and nothing is lost.
  lemma Appends(s: seq<Page>, p: Page)
    requires Sorted(s) && (s == [] || s[|s| - 1].log < p.log)
    ensures !HasPage(s, p.log) && AddPage(s, p) == s + [p] && Lost(s, p.log) == []
  {
    assert forall j :: 0 <= j < |s| ==> s[j].log < p.log;
    AddPageIs(s, p);
    var k := Above(s, p.log, 0);
    assert k == |s| && s[..k] + [p] + s[k..] == s + [p];
  }

  // What is lost and what is there make up the old list and the new page.
  lemma AddsExactly(s: seq<Page>, p: Page)
    requires Sorted(s) && !HasPage(s, p.log)
    ensures multiset(AddPage(s, p)) + multiset(Lost(s, p.log)) == multiset(s) + multiset{p}
  {
    AddPageIs(s, p);
    var k, lost := Above(s, p.log, 0), Lost(s, p.log);
    assert s == s[..k] + lost + s[k + |lost|..];
    Exchanged(s[..k], lost, s[k + |lost|..], p);
  }

  lemma Exchanged<T>(a: seq<T>, lost: seq<T>, b: seq<T>, p: T)
    ensures multiset(a + [p] + b) + multiset(lost) == multiset(a + lost + b) + multiset{p}
  {}

  // The intended insertion happens exactly at the ends.
  lemma AddsIff(s: seq<Page>, p: Page)
    requires Sorted(s) && !HasPage(s, p.log)
    ensures multiset(AddPage(s, p)) == multiset(s) + multiset{p} <==> AtAnEnd(s, p.log)
  {
    AddsExactly(s, p);
    AddPageIs(s, p);
    if !AtAnEnd(s, p.log) {
      assert |AddPage(s, p)| == |s|;
      assert |multiset(AddPage(s, p))| == |s|;
    }
  }

  // A list of three in which the middle one is put in last loses the third.
  lemma MiddleIsLost(a: Page, b: Page, c: Page)
    requires a.log < b.log < c.log
    ensures AddPage(AddPage(AddPage([], a), c), b) == [a, b]
  {
    assert AddPage([a], c) == [a, c];
  }
}
