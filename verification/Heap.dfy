// The kernel heap: an address-ordered list of blocks whose headers lie in the same memory that the
// blocks are cut from. Requests are first fit; the heap grows by whole pages.
module Heap {
  import opened Machine

  const HEADER := 8  // a size word and a next word

  // at is the address of the header; the payload follows it.
  datatype Block = Block(at: nat, size: Word) {
    function End(): nat { at + HEADER + size }
  }

  // --- The list of blocks -------------------------------------------------------------------

  // Where the first i blocks end.
  function EndOf(blocks: seq<Block>, start: nat, i: nat): nat
    requires i <= |blocks|
  {
    if i == 0 then start else blocks[i - 1].End()
  }

  // The blocks lie between start and end, one after the other, without overlap.
  ghost predicate Laid(blocks: seq<Block>, start: nat, end: nat) {
    && (forall i {:trigger EndOf(blocks, start, i)} :: 0 <= i < |blocks| ==> EndOf(blocks, start, i) <= blocks[i].at)
    && EndOf(blocks, start, |blocks|) <= end
  }

  // The first gap that holds n bytes and a header; |blocks| if there is none.
  function FirstFit(blocks: seq<Block>, start: nat, n: nat, i: nat): (k: nat)
    requires i <= |blocks|
    ensures i <= k <= |blocks|
    decreases |blocks| - i
  {
    if i == |blocks| || blocks[i].at - EndOf(blocks, start, i) >= n + HEADER then i
    else FirstFit(blocks, start, n, i + 1)
  }

  // The list after a request for n bytes.
  function Insert(blocks: seq<Block>, start: nat, n: Word): seq<Block> {
    InsertAt(blocks, start, n, FirstFit(blocks, start, n, 0))
  }

  function InsertAt(blocks: seq<Block>, start: nat, n: Word, k: nat): seq<Block>
    requires k <= |blocks|
  {
    blocks[..k] + [Block(EndOf(blocks, start, k), n)] + blocks[k..]
  }

  function Remove(blocks: seq<Block>, i: nat): seq<Block>
    requires i < |blocks|
  {
    blocks[..i] + blocks[i + 1..]
  }

  lemma {:induction false} Ascends(blocks: seq<Block>, start: nat, end: nat, i: nat, j: nat)
    requires Laid(blocks, start, end) && i <= j <= |blocks|
    ensures EndOf(blocks, start, i) <= EndOf(blocks, start, j)
    decreases j
  {
    if i < j {
      Ascends(blocks, start, end, i, j - 1);
      assert EndOf(blocks, start, j - 1) <= blocks[j - 1].at;
    }
  }

  // Earlier blocks end before later ones start, and all of them lie inside.
  lemma InOrder(blocks: seq<Block>, start: nat, end: nat, i: nat, j: nat)
    requires Laid(blocks, start, end) && i <= j <= |blocks|
    ensures start <= EndOf(blocks, start, i) <= EndOf(blocks, start, j) <= end
    ensures j < |blocks| ==> EndOf(blocks, start, i) <= blocks[j].at
  {
    Ascends(blocks, start, end, 0, i);
    Ascends(blocks, start, end, i, j);
    Ascends(blocks, start, end, j, |blocks|);
    assert j < |blocks| ==> EndOf(blocks, start, j) <= blocks[j].at;
  }

  // There are n bytes and a header to be had behind the first k blocks.
  ghost predicate Room(blocks: seq<Block>, start: nat, end: nat, n: nat, k: nat)
    requires k <= |blocks|
  {
    EndOf(blocks, start, k) + HEADER + n <= if k < |blocks| then blocks[k].at else end
  }

  // A gap that is big enough takes a block.
  lemma InsertLaid(blocks: seq<Block>, start: nat, end: nat, n: Word, k: nat)
    requires Laid(blocks, start, end) && k <= |blocks|
    requires Room(blocks, start, end, n, k)
    ensures Laid(InsertAt(blocks, start, n, k), start, end)
  {
    var more := InsertAt(blocks, start, n, k);
    forall i | 0 <= i < |more| ensures EndOf(more, start, i) <= more[i].at {
      if i < k {
        assert EndOf(blocks, start, i) <= blocks[i].at;
      } else if i > k + 1 {
        assert EndOf(blocks, start, i - 1) <= blocks[i - 1].at;
      }
    }
    assert k < |blocks| ==> EndOf(more, start, |more|) == EndOf(blocks, start, |blocks|);
  }

  lemma RemoveLaid(blocks: seq<Block>, start: nat, end: nat, k: nat)
    requires Laid(blocks, start, end) && k < |blocks|
    ensures Laid(Remove(blocks, k), start, end)
  {
    var less := Remove(blocks, k);
    forall i | 0 <= i < |less| ensures EndOf(less, start, i) <= less[i].at {
      if i < k {
        assert EndOf(blocks, start, i) <= blocks[i].at;
      } else {
        InOrder(blocks, start, end, if i == k then k else i + 1, i + 1);
      }
    }
    InOrder(blocks, start, end, k, |blocks|);
    assert k + 1 < |blocks| ==> EndOf(less, start, |less|) == EndOf(blocks, start, |blocks|);
  }

  // Freeing the block that a request got gives the list from before the request.
  lemma FreeUndoes(blocks: seq<Block>, start: nat, n: Word)
    ensures Remove(Insert(blocks, start, n), FirstFit(blocks, start, n, 0)) == blocks
  {
    var k := FirstFit(blocks, start, n, 0);
    var more := Insert(blocks, start, n);
    assert more[..k] == blocks[..k] && more[k + 1..] == blocks[k..];
  }

  lemma {:induction false} FirstFitIs(blocks: seq<Block>, start: nat, n: nat, i: nat, k: nat)
    requires i <= k <= |blocks|
    ensures FirstFit(blocks, start, n, i) == k <==>
      (forall j :: i <= j < k ==> blocks[j].at - EndOf(blocks, start, j) < n + HEADER)
      && (k < |blocks| ==> blocks[k].at - EndOf(blocks, start, k) >= n + HEADER)
    decreases |blocks| - i
  {
    if i < k && blocks[i].at - EndOf(blocks, start, i) < n + HEADER {
      FirstFitIs(blocks, start, n, i + 1, k);
    }
  }

  // A place for n bytes and a header that touches no block.
  ghost predicate Free(blocks: seq<Block>, start: nat, a: nat, n: nat) {
    && start <= a
    && forall i :: 0 <= i < |blocks| ==> a + HEADER + n <= blocks[i].at || blocks[i].End() <= a
  }

  // First fit is lowest address: no free place lies lower than the one that a request gets.
  lemma {:induction false} LowestAddress(blocks: seq<Block>, start: nat, end: nat, n: Word, a: nat, i: nat)
    requires Laid(blocks, start, end) && Free(blocks, start, a, n) && i <= |blocks| && EndOf(blocks, start, i) <= a
    ensures EndOf(blocks, start, FirstFit(blocks, start, n, i)) <= a
    decreases |blocks| - i
  {
    if i < |blocks| && blocks[i].at - EndOf(blocks, start, i) < n + HEADER {
      assert a + HEADER + n <= blocks[i].at || blocks[i].End() <= a;
      LowestAddress(blocks, start, end, n, a, i + 1);
    }
  }

  // The gap in front of block j.
  function Gap(blocks: seq<Block>, start: nat, j: nat): int
    requires j < |blocks|
  {
    blocks[j].at - EndOf(blocks, start, j)
  }

  // No gap in front of the first i blocks holds n bytes and a header.
  ghost predicate NoFit(blocks: seq<Block>, start: nat, n: nat, i: nat)
    requires i <= |blocks|
  {
    forall j :: 0 <= j < i ==> Gap(blocks, start, j) < n + HEADER
  }

  // Up to place i the list without block i is as before, and its gap there takes the block.
  lemma Vacated(blocks: seq<Block>, start: nat, end: nat, i: nat)
    requires Laid(blocks, start, end) && i < |blocks|
    ensures var less := Remove(blocks, i);
      && EndOf(less, start, i) == EndOf(blocks, start, i)
      && (forall j :: 0 <= j < i ==> Gap(less, start, j) == Gap(blocks, start, j))
      && (i < |less| ==> Gap(less, start, i) >= blocks[i].size + HEADER)
  {
    if i + 1 < |blocks| {
      InOrder(blocks, start, end, i + 1, i + 1);
      InOrder(blocks, start, end, i, i);
    }
  }

  // An earlier gap that is big enough leads to an earlier place.
  lemma {:induction false} FitsEarlier(blocks: seq<Block>, start: nat, end: nat, n: nat, i: nat, j: nat)
    requires Laid(blocks, start, end) && i <= j < |blocks| && Gap(blocks, start, j) >= n + HEADER
    ensures EndOf(blocks, start, FirstFit(blocks, start, n, i)) < blocks[j].at
    decreases j - i
  {
    if Gap(blocks, start, i) >= n + HEADER {
      InOrder(blocks, start, end, i, j);
      assert EndOf(blocks, start, i) < blocks[i].at;
      if i < j { InOrder(blocks, start, end, i + 1, j); }
    } else {
      FitsEarlier(blocks, start, end, n, i + 1, j);
    }
  }

  // A freed block's place is handed out again for a request of its size exactly when the block was
  // put right behind its predecessor and no earlier gap is big enough.
  lemma ReusedIff(blocks: seq<Block>, start: nat, end: nat, i: nat)
    requires Laid(blocks, start, end) && i < |blocks|
    ensures EndOf(Remove(blocks, i), start, FirstFit(Remove(blocks, i), start, blocks[i].size, 0)) == blocks[i].at
      <==> blocks[i].at == EndOf(blocks, start, i) && NoFit(blocks, start, blocks[i].size, i)
  {
    var less, n := Remove(blocks, i), blocks[i].size;
    Vacated(blocks, start, end, i);
    if NoFit(blocks, start, n, i) {
      forall j | 0 <= j < i ensures less[j].at - EndOf(less, start, j) < n + HEADER {
        assert Gap(less, start, j) == Gap(blocks, start, j);
      }
      FirstFitIs(less, start, n, 0, i);
    } else {
      var j :| 0 <= j < i && Gap(blocks, start, j) >= n + HEADER;
      assert Gap(less, start, j) == Gap(blocks, start, j) && less[j] == blocks[j];
      RemoveLaid(blocks, start, end, i);
      FitsEarlier(less, start, end, n, 0, j);
      InOrder(blocks, start, end, j + 1, i);
    }
  }

  // --- The headers in memory ----------------------------------------------------------------

  function NextOf(blocks: seq<Block>, i: nat): nat
    requires i < |blocks|
  {
    if i + 1 < |blocks| then blocks[i + 1].at else 0
  }

  function Head(blocks: seq<Block>): nat { if blocks == [] then 0 else blocks[0].at }

  ghost predicate HeaderAt(mem: seq<Byte>, b: Block, next: nat) {
    b.at + HEADER <= |mem| && WordAt(mem, b.at) == b.size && WordAt(mem, b.at + 4) == next
  }

  // Following the headers from the list pointer gives these blocks.
  ghost predicate Threaded(mem: seq<Byte>, list: nat, blocks: seq<Block>) {
    && list == Head(blocks)
    && forall i {:trigger NextOf(blocks, i)} :: 0 <= i < |blocks| ==> HeaderAt(mem, blocks[i], NextOf(blocks, i))
  }

  lemma SameWord(m: seq<Byte>, m': seq<Byte>, a: nat)
    requires |m| == |m'| && a + 4 <= |m| && forall k :: a <= k < a + 4 ==> m[k] == m'[k]
    ensures WordAt(m, a) == WordAt(m', a)
  {}

  // The two memories agree from lo up to hi.
  ghost predicate Same(m: seq<Byte>, m': seq<Byte>, lo: nat, hi: nat) {
    |m| == |m'| && hi <= |m| && forall a :: lo <= a < hi ==> m[a] == m'[a]
  }

  lemma SameHeader(m: seq<Byte>, m': seq<Byte>, b: Block, next: nat)
    requires HeaderAt(m, b, next) && Same(m, m', b.at, b.at + HEADER)
    ensures HeaderAt(m', b, next)
  {
    SameWord(m, m', b.at);
    SameWord(m, m', b.at + 4);
  }

  // A new block is put in at place k: its header is written, and the word that led to its successor
  // now leads to it. The bytes of all other headers are untouched.
  ghost predicate PutIn(m: seq<Byte>, m': seq<Byte>, blocks: seq<Block>, start: nat, end: nat, n: Word, k: nat) {
    && Laid(blocks, start, end) && k <= |blocks| && end <= |m| == |m'|
    && var b := Block(EndOf(blocks, start, k), n);
       && HeaderAt(m', b, if k < |blocks| then blocks[k].at else 0)
       && (k < |blocks| ==> b.End() <= blocks[k].at)
       && (k > 0 ==> WordAt(m', blocks[k - 1].at + 4) == b.at && Same(m, m', blocks[k - 1].at, blocks[k - 1].at + 4))
       && (forall a :: 0 <= a < |m| && !(b.at <= a < b.at + HEADER)
                       && !(k > 0 && blocks[k - 1].at + 4 <= a < blocks[k - 1].at + HEADER)
             ==> m'[a] == m[a])
  }

  // Headers before place k: only the last one of them leads elsewhere.
  lemma FrontThreaded(m: seq<Byte>, m': seq<Byte>, blocks: seq<Block>, start: nat, end: nat, n: Word, k: nat, i: nat)
    requires PutIn(m, m', blocks, start, end, n, k) && Threaded(m, Head(blocks), blocks) && i < k
    ensures HeaderAt(m', blocks[i], if i + 1 < k then blocks[i + 1].at else EndOf(blocks, start, k))
  {
    InOrder(blocks, start, end, i + 1, k);
    assert HeaderAt(m, blocks[i], NextOf(blocks, i));
    if i + 1 < k {
      InOrder(blocks, start, end, i + 1, k - 1);
      SameHeader(m, m', blocks[i], NextOf(blocks, i));
    } else {
      SameWord(m, m', blocks[i].at);
    }
  }

  lemma BackThreaded(m: seq<Byte>, m': seq<Byte>, blocks: seq<Block>, start: nat, end: nat, n: Word, k: nat, i: nat)
    requires PutIn(m, m', blocks, start, end, n, k) && Threaded(m, Head(blocks), blocks) && k <= i < |blocks|
    ensures HeaderAt(m', blocks[i], NextOf(blocks, i))
  {
    InOrder(blocks, start, end, k, i);
    if i > k { InOrder(blocks, start, end, k + 1, i); }
    assert HeaderAt(m, blocks[i], NextOf(blocks, i));
    SameHeader(m, m', blocks[i], NextOf(blocks, i));
  }

  lemma ThreadIn(m: seq<Byte>, m': seq<Byte>, blocks: seq<Block>, start: nat, end: nat, n: Word, k: nat)
    requires PutIn(m, m', blocks, start, end, n, k) && Threaded(m, Head(blocks), blocks)
    ensures Threaded(m', Head(InsertAt(blocks, start, n, k)), InsertAt(blocks, start, n, k))
  {
    var more := InsertAt(blocks, start, n, k);
    forall i | 0 <= i < |more| ensures HeaderAt(m', more[i], NextOf(more, i)) {
      if i < k {
        FrontThreaded(m, m', blocks, start, end, n, k, i);
      } else if i > k {
        BackThreaded(m, m', blocks, start, end, n, k, i - 1);
      }
    }
  }

  // A block is threaded out at place k: the word that led to it leads to its successor.
  lemma ThreadOut(m: seq<Byte>, m': seq<Byte>, blocks: seq<Block>, start: nat, end: nat, k: nat)
    requires Laid(blocks, start, end) && k < |blocks| && end <= |m| == |m'|
    requires Threaded(m, Head(blocks), blocks)
    requires k > 0 ==> blocks[k - 1].at + HEADER <= |m| && WordAt(m', blocks[k - 1].at + 4) == NextOf(blocks, k)
    requires forall a :: 0 <= a < |m| && !(k > 0 && blocks[k - 1].at + 4 <= a < blocks[k - 1].at + HEADER) ==>
      m'[a] == m[a]
    ensures Threaded(m', Head(Remove(blocks, k)), Remove(blocks, k))
  {
    var less := Remove(blocks, k);
    forall i | 0 <= i < |less| ensures HeaderAt(m', less[i], NextOf(less, i)) {
      if i < k {
        assert HeaderAt(m, blocks[i], NextOf(blocks, i));
        if i + 1 < k {
          InOrder(blocks, start, end, i + 1, k - 1);
          SameHeader(m, m', blocks[i], NextOf(blocks, i));
        } else {
          SameWord(m, m', blocks[i].at);
        }
      } else {
        assert HeaderAt(m, blocks[i + 1], NextOf(blocks, i + 1));
        if k > 0 { InOrder(blocks, start, end, k, i + 1); }
        SameHeader(m, m', blocks[i + 1], NextOf(blocks, i + 1));
      }
    }
  }

  // The payload bytes of these blocks are the same in both memories.
  ghost predicate PayloadsKept(m: seq<Byte>, m': seq<Byte>, blocks: seq<Block>) {
    forall i {:trigger blocks[i]} :: 0 <= i < |blocks| ==> Same(m, m', blocks[i].at + HEADER, blocks[i].End())
  }

  // The stores that write a header, and those that link a block of n bytes at `at` in front of
  // next, behind pre if there is one.
  function HeaderStores(m: seq<Byte>, at: nat, n: Word, next: Word): (r: seq<Byte>)
    requires at + HEADER <= |m|
    ensures |r| == |m|
  {
    StoreWord(StoreWord(m, at + 4, next), at, n)
  }

  function LinkStores(m: seq<Byte>, pre: nat, at: Word, n: Word, next: Word): (r: seq<Byte>)
    requires pre + HEADER <= |m| && at + HEADER <= |m|
    ensures |r| == |m|
  {
    HeaderStores(if pre == 0 then m else StoreWord(m, pre + 4, at), at, n, next)
  }

  lemma HeaderStoresAre(m: seq<Byte>, m': seq<Byte>, at: nat, n: Word, next: Word)
    requires at + HEADER <= |m| && m' == HeaderStores(m, at, n, next)
    ensures HeaderAt(m', Block(at, n), next)
    ensures OnlyWithin(m, m', at, at + HEADER)
  {
    StoreWordRead(m, at + 4, next);
    StoreWordRead(StoreWord(m, at + 4, next), at, n);
  }

  // Nothing changes outside [lo, hi).
  ghost predicate OnlyWithin(m: seq<Byte>, m': seq<Byte>, lo: nat, hi: nat) {
    |m'| == |m| && forall a :: 0 <= a < |m| && !(lo <= a < hi) ==> m'[a] == m[a]
  }

  lemma LinkStoresAre(m: seq<Byte>, m': seq<Byte>, pre: nat, at: Word, n: Word, next: Word)
    returns (m1: seq<Byte>)
    requires pre + HEADER <= |m| && at + HEADER <= |m| && m' == LinkStores(m, pre, at, n, next)
    ensures HeaderAt(m', Block(at, n), next)
    ensures pre != 0 && pre + HEADER <= at ==> WordAt(m', pre + 4) == at && Same(m, m', pre, pre + 4)
    ensures if pre == 0 then m1 == m else OnlyWithin(m, m1, pre + 4, pre + HEADER)
    ensures OnlyWithin(m1, m', at, at + HEADER)
  {
    m1 := if pre == 0 then m else StoreWord(m, pre + 4, at);
    HeaderStoresAre(m1, m', at, n, next);
    if pre != 0 {
      LinkWord(m, m1, m', pre, at);
    }
  }

  lemma LinkWord(m: seq<Byte>, m1: seq<Byte>, m': seq<Byte>, pre: nat, at: Word)
    requires pre + HEADER <= |m| && at + HEADER <= |m| && m1 == StoreWord(m, pre + 4, at)
    requires OnlyWithin(m1, m', at, at + HEADER)
    ensures OnlyWithin(m, m1, pre + 4, pre + HEADER)
    ensures pre + HEADER <= at ==> WordAt(m', pre + 4) == at && Same(m, m', pre, pre + 4)
  {
    StoreWordRead(m, pre + 4, at);
    if pre + HEADER <= at {
      SameWord(m1, m', pre + 4);
    }
  }

  // Headers at the end of block k - 1 and of block k - 1 itself lie outside every payload.
  lemma PayloadsUntouched(m: seq<Byte>, m': seq<Byte>, blocks: seq<Block>, start: nat, end: nat, k: nat)
    requires Laid(blocks, start, end) && k <= |blocks| && end <= |m| == |m'|
    requires k < |blocks| ==> EndOf(blocks, start, k) + HEADER <= blocks[k].at
    requires forall a ::
      (0 <= a < |m| && !(EndOf(blocks, start, k) <= a < EndOf(blocks, start, k) + HEADER)
       && !(k > 0 && blocks[k - 1].at + 4 <= a < blocks[k - 1].at + HEADER)) ==> m'[a] == m[a]
    ensures PayloadsKept(m, m', blocks)
  {
    forall i | 0 <= i < |blocks| ensures Same(m, m', blocks[i].at + HEADER, blocks[i].End()) {
      InOrder(blocks, start, end, i + 1, |blocks|);
      if i < k {
        InOrder(blocks, start, end, i + 1, k);
        if i + 1 < k { InOrder(blocks, start, end, i + 1, k - 1); }
      } else if k < i {
        InOrder(blocks, start, end, k, i);
        InOrder(blocks, start, end, k + 1, i);
      }
    }
  }

  // Where the gap is big enough, the stores insert the block and touch no payload.
  lemma Linked(m: seq<Byte>, m': seq<Byte>, blocks: seq<Block>, start: nat, end: nat, n: Word, k: nat, pre: nat,
               at: Word, next: Word)
    requires 0 < start && end < WORD && Laid(blocks, start, end) && k <= |blocks| && |m| == WORD
    requires Threaded(m, Head(blocks), blocks)
    requires Room(blocks, start, end, n, k)
    requires pre == (if k > 0 then blocks[k - 1].at else 0) && at == EndOf(blocks, start, k)
    requires next == if k < |blocks| then blocks[k].at else 0
    requires at + HEADER <= |m| && pre + HEADER <= |m| && m' == LinkStores(m, pre, at, n, next)
    ensures Laid(InsertAt(blocks, start, n, k), start, end)
    ensures Threaded(m', Head(InsertAt(blocks, start, n, k)), InsertAt(blocks, start, n, k))
    ensures PayloadsKept(m, m', blocks)
  {
    if k > 0 { InOrder(blocks, start, end, k - 1, k - 1); }
    var m1 := LinkStoresAre(m, m', pre, at, n, next);
    InsertLaid(blocks, start, end, n, k);
    ThreadIn(m, m', blocks, start, end, n, k);
    PayloadsUntouched(m, m', blocks, start, end, k);
  }

  // Where the code looks for a place: at the front, and then behind block after block.
  lemma Searched(blocks: seq<Block>, start: nat, end: nat, n: Word, k: nat)
    requires Laid(blocks, start, end) && end < WORD && k < |blocks| && n + HEADER < WORD && blocks[k].at < WORD
    ensures EndOf(blocks, start, k) < WORD
    ensures Sub32(blocks[k].at, EndOf(blocks, start, k)) == blocks[k].at - EndOf(blocks, start, k)
    ensures Add32(n, HEADER) == n + HEADER
  {
    InOrder(blocks, start, end, k, k);
  }

  // --- Requests -----------------------------------------------------------------------------

  function Grown(end: nat, n: Word): nat { end + PAGE * ((n + HEADER) / PAGE + 1) }

  // Behind the last block, which ends at `at`: a request stays inside the heap, with or without
  // growth.
  predicate FitsLast(at: nat, end: nat, n: Word) {
    && n + HEADER < WORD
    && (at + HEADER + n < end || (at + HEADER + n < WORD && Grown(end, n) < WORD))
  }

  // When a request gets a block inside the heap. The test that a gap is big enough and the test
  // for growth are 32-bit sums, and a request into the empty list is not tested at all.
  predicate Fits(blocks: seq<Block>, start: nat, end: nat, n: Word) {
    && n + HEADER < WORD
    && if blocks == [] then start + HEADER + n <= end
       else FirstFit(blocks, start, n, 0) < |blocks| || FitsLast(EndOf(blocks, start, |blocks|), end, n)
  }

  // Whether a request makes the heap grow.
  predicate Grows(blocks: seq<Block>, start: nat, end: nat, n: Word) {
    && blocks != [] && FirstFit(blocks, start, n, 0) == |blocks|
    && EndOf(blocks, start, |blocks|) + HEADER + n >= end
  }

  // --- Runs ---------------------------------------------------------------------------------

  // The block whose payload begins at the pointer, from block i on; |blocks| if there is none.
  function BlockAt(blocks: seq<Block>, pointer: nat, i: nat): (k: nat)
    requires i <= |blocks|
    ensures i <= k <= |blocks| && (k < |blocks| ==> blocks[k].at + HEADER == pointer)
    ensures forall j :: i <= j < k ==> blocks[j].at + HEADER != pointer
    decreases |blocks| - i
  {
    if i == |blocks| || blocks[i].at + HEADER == pointer then i else BlockAt(blocks, pointer, i + 1)
  }

  datatype HeapOp = Request(n: Word) | Release(pointer: nat)

  // The blocks, the end of the heap, and the frames that are left for growing.
  datatype HeapState = HeapState(blocks: seq<Block>, end: nat, frames: nat)

  function PagesFor(n: Word): nat { (n + HEADER) / PAGE + 1 }

  // Every request is one that the heap can serve, given frames.
  predicate Serves(s: HeapState, start: nat, op: HeapOp) {
    op.Request? ==> Fits(s.blocks, start, s.end, op.n)
  }

  // A request that needs more frames than there are, and the release of what is not there, panic.
  predicate OpPanics(s: HeapState, start: nat, op: HeapOp) {
    match op
    case Request(n) => Grows(s.blocks, start, s.end, n) && s.frames < PagesFor(n)
    case Release(p) => BlockAt(s.blocks, p, 0) == |s.blocks|
  }

  function Step(s: HeapState, start: nat, op: HeapOp): HeapState
    requires !OpPanics(s, start, op)
  {
    match op
    case Request(n) =>
      if Grows(s.blocks, start, s.end, n) then
        HeapState(Insert(s.blocks, start, n), Grown(s.end, n), s.frames - PagesFor(n))
      else
        s.(blocks := Insert(s.blocks, start, n))
    case Release(p) => s.(blocks := Remove(s.blocks, BlockAt(s.blocks, p, 0)))
  }

  predicate RunServes(s: HeapState, start: nat, ops: seq<HeapOp>)
    decreases |ops|
  {
    ops != [] ==>
      && Serves(s, start, ops[0])
      && (!OpPanics(s, start, ops[0]) ==> RunServes(Step(s, start, ops[0]), start, ops[1..]))
  }

  predicate RunPanics(s: HeapState, start: nat, ops: seq<HeapOp>)
    decreases |ops|
  {
    ops != [] && (OpPanics(s, start, ops[0]) || RunPanics(Step(s, start, ops[0]), start, ops[1..]))
  }

  function Run(s: HeapState, start: nat, ops: seq<HeapOp>): HeapState
    requires !RunPanics(s, start, ops)
    decreases |ops|
  {
    if ops == [] then s else Run(Step(s, start, ops[0]), start, ops[1..])
  }

  ghost predicate Sound(s: HeapState, start: nat) {
    0 < start && start + PAGE <= s.end < WORD && s.end % PAGE == 0 && Laid(s.blocks, start, s.end)
  }

  lemma LaidLonger(blocks: seq<Block>, start: nat, end: nat, end': nat)
    requires Laid(blocks, start, end) && end <= end'
    ensures Laid(blocks, start, end')
  {}

  lemma GrownPages(end: nat, n: Word)
    requires end % PAGE == 0
    ensures Grown(end, n) % PAGE == 0 && end + n + HEADER < Grown(end, n)
  {}

  lemma StepSound(s: HeapState, start: nat, op: HeapOp)
    requires Sound(s, start) && Serves(s, start, op) && !OpPanics(s, start, op)
    ensures Sound(Step(s, start, op), start)
  {
    match op
    case Request(n) =>
      var k, s' := FirstFit(s.blocks, start, n, 0), Step(s, start, op);
      FirstFitIs(s.blocks, start, n, 0, k);
      InOrder(s.blocks, start, s.end, k, |s.blocks|);
      GrownPages(s.end, n);
      LaidLonger(s.blocks, start, s.end, s'.end);
      InsertLaid(s.blocks, start, s'.end, n, k);
    case Release(p) => RemoveLaid(s.blocks, start, s.end, BlockAt(s.blocks, p, 0));
  }

  // After every run the blocks are address-ordered, apart from each other and inside the heap.
  lemma {:induction false} RunLaid(s: HeapState, start: nat, ops: seq<HeapOp>)
    requires Sound(s, start) && RunServes(s, start, ops) && !RunPanics(s, start, ops)
    ensures var s' := Run(s, start, ops);
      && Sound(s', start)
      && (forall i :: 0 <= i < |s'.blocks| ==> start <= s'.blocks[i].at && s'.blocks[i].End() <= s'.end)
      && forall i, j :: 0 <= i < j < |s'.blocks| ==> s'.blocks[i].End() <= s'.blocks[j].at
    decreases |ops|
  {
    if ops == [] {
      forall i | 0 <= i < |s.blocks| ensures start <= s.blocks[i].at && s.blocks[i].End() <= s.end {
        InOrder(s.blocks, start, s.end, i, i);
        InOrder(s.blocks, start, s.end, i + 1, i + 1);
      }
      forall i, j | 0 <= i < j < |s.blocks| ensures s.blocks[i].End() <= s.blocks[j].at {
        InOrder(s.blocks, start, s.end, i + 1, j);
      }
    } else {
      StepSound(s, start, ops[0]);
      RunLaid(Step(s, start, ops[0]), start, ops[1..]);
    }
  }

  // A first request, from a heap of one page, lies inside exactly if it leaves room for its header.
  lemma FirstRequestOverruns(start: nat, n: Word)
    ensures Fits([], start, start + PAGE, n) <==> n <= PAGE - HEADER
    ensures Laid(Insert([], start, n), start, start + PAGE) <==> n <= PAGE - HEADER
    ensures !Laid(Insert([], start, 0xFF9), start, start + PAGE)
  {
    assert Insert([], start, n) == [Block(start, n)] && EndOf([Block(start, n)], start, 1) == start + HEADER + n;
    assert Insert([], start, 0xFF9) == [Block(start, 0xFF9)];
    assert EndOf([Block(start, 0xFF9)], start, 1) == start + PAGE + 1;
  }

  lemma GrowthFits(at: nat, end: Word, n: Word)
    requires 0 < at <= end && end % PAGE == 0
    ensures FitsLast(at, end, n) ==>
      && Add32(Add32(at, HEADER), n) == at + HEADER + n && Add32(HEADER, n) == n + HEADER
      && at + HEADER + n <= Grown(end, n)
    ensures !FitsLast(at, end, n) ==>
      var grown := (end + PAGE * (Add32(HEADER, n) / PAGE + 1)) % WORD;
      at + HEADER + n > if Add32(Add32(at, HEADER), n) >= end then grown else end
  {}

  // Growth is by the fewest pages that put n bytes and a header strictly inside, behind the old end,
  // and takes a frame for each of them.
  lemma GrowthIsLeast(end: nat, n: Word)
    ensures Grown(end, n) - PAGE <= end + HEADER + n < Grown(end, n)
    ensures PAGE * PagesFor(n) == Grown(end, n) - end
    ensures forall frames: nat :: frames < PagesFor(n) <==> end + PAGE * frames <= end + HEADER + n
  {
    var c, m := PagesFor(n), n + HEADER;
    assert m == PAGE * (m / PAGE) + m % PAGE;
  }

  // The block b has been put into the list, and nothing else has changed.
  ghost predicate PutIntoList(before: seq<Block>, blocks: seq<Block>, b: Block) {
    exists k :: 0 <= k < |blocks| && blocks[k] == b && blocks[..k] + blocks[k + 1..] == before
  }

  // A request gets a block of its size, at the lowest address at which it is free.
  lemma RequestIs(blocks: seq<Block>, start: nat, end: nat, n: Word)
    requires Laid(blocks, start, end)
    ensures var at := EndOf(blocks, start, FirstFit(blocks, start, n, 0));
      && PutIntoList(blocks, Insert(blocks, start, n), Block(at, n))
      && forall a :: Free(blocks, start, a, n) ==> at <= a
  {
    var k := FirstFit(blocks, start, n, 0);
    var at, more := EndOf(blocks, start, k), Insert(blocks, start, n);
    assert more[k] == Block(at, n) && more[..k] == blocks[..k] && more[k + 1..] == blocks[k..];
    assert more[..k] + more[k + 1..] == blocks;
    forall a | Free(blocks, start, a, n) ensures at <= a {
      LowestAddress(blocks, start, end, n, a, 0);
    }
  }

  class KernelHeap {
    const mem: array<Byte>  // the address space
    const heapStart: nat
    var kmallocList: nat
    var heapEnd: nat
    var freeFrames: nat  // what getFreePage still has
    ghost var blocks: seq<Block>

    ghost predicate Valid()
      reads this, mem
    {
      && mem.Length == WORD
      && 0 < heapStart && heapStart + PAGE <= heapEnd < WORD && heapEnd % PAGE == 0
      && Laid(blocks, heapStart, heapEnd)
      && Threaded(mem[..], kmallocList, blocks)
    }

    ghost function State(): HeapState
      reads this
    {
      HeapState(blocks, heapEnd, freeFrames)
    }

    // initPaging gives the heap its first page.
    constructor (mem: array<Byte>, heapStart: nat, freeFrames: nat)
      requires mem.Length == WORD && 0 < heapStart && heapStart % PAGE == 0 && heapStart + PAGE < WORD
      ensures Valid() && blocks == [] && heapEnd == heapStart + PAGE
      ensures this.mem == mem && this.heapStart == heapStart
    {
      this.mem, this.heapStart, this.freeFrames := mem, heapStart, freeFrames;
      kmallocList, heapEnd, blocks := 0, heapStart + PAGE, [];
    }

    method IncreaseHeapSize() returns (panic: bool)
      modifies this`heapEnd, this`freeFrames
      ensures panic <==> old(freeFrames) == 0
      ensures panic ==> heapEnd == old(heapEnd) && freeFrames == old(freeFrames)
      ensures !panic ==> heapEnd == (old(heapEnd) + PAGE) % WORD && freeFrames == old(freeFrames) - 1
    {
      if freeFrames == 0 {
        return true;
      }
      freeFrames, heapEnd := freeFrames - 1, (heapEnd + PAGE) % WORD;
      panic := false;
    }

    // Growth by c pages; the end wraps with the address space.
    method Grow(c: nat) returns (panic: bool)
      requires heapEnd < WORD
      modifies this`heapEnd, this`freeFrames
      ensures panic <==> old(freeFrames) < c
      ensures freeFrames <= old(freeFrames)
      ensures !panic ==> freeFrames == old(freeFrames) - c && heapEnd == (old(heapEnd) + PAGE * c) % WORD
    {
      for k := 0 to c
        invariant freeFrames == old(freeFrames) - k && heapEnd == (old(heapEnd) + PAGE * k) % WORD
      {
        panic := IncreaseHeapSize();
        if panic {
          return;
        }
      }
      panic := false;
    }

    method ReadWord(a: nat) returns (w: Word)
      requires a + 4 <= mem.Length
      ensures w == WordAt(mem[..], a)
    {
      w := WordAt(mem[a..a + 4], 0);
    }

    // The stores that put a block into the list, and the list pointer if it becomes the first.
    method Link(pre: nat, at: Word, byte: Word, next: Word)
      requires mem.Length == WORD && at + HEADER <= WORD && pre + HEADER <= WORD
      modifies this`kmallocList, mem
      ensures mem[..] == LinkStores(old(mem[..]), pre, at, byte, next)
      ensures kmallocList == if pre == 0 then at else old(kmallocList)
    {
      if pre == 0 {
        kmallocList := at;
      } else {
        PutBytes(mem, pre + 4, WordBytes(at));
      }
      PutBytes(mem, at + 4, WordBytes(next));
      PutBytes(mem, at, WordBytes(byte));
    }

    // A block of `byte` bytes behind the first k blocks.
    method Place(pre: nat, at: Word, byte: Word, next: Word, ghost k: nat)
      requires Valid() && k <= |blocks| && at == EndOf(blocks, heapStart, k)
      requires pre == if k > 0 then blocks[k - 1].at else 0
      requires next == if k < |blocks| then blocks[k].at else 0
      modifies this`kmallocList, this`blocks, mem
      ensures Room(old(blocks), heapStart, heapEnd, byte, k) ==>
        && Valid() && blocks == InsertAt(old(blocks), heapStart, byte, k)
        && PayloadsKept(old(mem[..]), mem[..], old(blocks))
    {
      ghost var m := mem[..];
      InOrder(blocks, heapStart, heapEnd, k, k);
      if k > 0 { InOrder(blocks, heapStart, heapEnd, k - 1, k - 1); }
      Link(pre, at, byte, next);
      if Room(blocks, heapStart, heapEnd, byte, k) {
        Linked(m, mem[..], blocks, heapStart, heapEnd, byte, k, pre, at, next);
        blocks := InsertAt(blocks, heapStart, byte, k);
      }
    }

    // Where growing was needed: the block behind the last one.
    method PlaceLast(pre: nat, at: Word, byte: Word, ghost end: nat)
      requires mem.Length == WORD && 0 < heapStart && blocks != [] && Laid(blocks, heapStart, end)
      requires Threaded(mem[..], kmallocList, blocks)
      requires end < WORD && end % PAGE == 0
      requires pre == blocks[|blocks| - 1].at && at == EndOf(blocks, heapStart, |blocks|)
      modifies this`kmallocList, this`blocks, mem
      ensures end <= heapEnd < WORD && heapStart + PAGE <= end && heapEnd % PAGE == 0
              && at + HEADER + byte <= heapEnd ==>
        && Valid() && blocks == InsertAt(old(blocks), heapStart, byte, |old(blocks)|)
        && PayloadsKept(old(mem[..]), mem[..], old(blocks))
    {
      ghost var m := mem[..];
      InOrder(blocks, heapStart, end, |blocks| - 1, |blocks|);
      InOrder(blocks, heapStart, end, |blocks| - 1, |blocks| - 1);
      Link(pre, at, byte, 0);
      if end <= heapEnd < WORD && at + HEADER + byte <= heapEnd {
        Linked(m, mem[..], blocks, heapStart, heapEnd, byte, |blocks|, pre, at, 0);
        blocks := InsertAt(blocks, heapStart, byte, |blocks|);
      }
    }

    // Growth for a block behind the last one, if the heap is too short.
    method GrowFor(at: Word, byte: Word) returns (panic: bool)
      requires 0 < at <= heapEnd < WORD && heapEnd % PAGE == 0
      modifies this`heapEnd, this`freeFrames
      ensures FitsLast(at, old(heapEnd), byte) ==>
        && (panic <==> at + HEADER + byte >= old(heapEnd) && old(freeFrames) < PagesFor(byte))
        && (!panic ==> freeFrames == old(freeFrames) - if at + HEADER + byte >= old(heapEnd) then PagesFor(byte) else 0)
        && (!panic ==>
          heapEnd == if at + HEADER + byte >= old(heapEnd) then Grown(old(heapEnd), byte) else old(heapEnd))
        && (!panic ==> at + HEADER + byte <= heapEnd)
      ensures !panic && !FitsLast(at, old(heapEnd), byte) ==> at + HEADER + byte > heapEnd
      ensures freeFrames <= old(freeFrames)
      ensures !panic ==> heapEnd == (old(heapEnd) + PAGE * (old(freeFrames) - freeFrames)) % WORD
    {
      GrowthFits(at, heapEnd, byte);
      panic := false;
      if Add32(Add32(at, HEADER), byte) >= heapEnd {
        panic := Grow(Add32(HEADER, byte) / PAGE + 1);
      }
    }

    // The walk along the list, in 32-bit arithmetic.
    method FindGap(byte: Word) returns (found: bool, pre: nat, at: Word, next: Word, ghost k: nat)
      requires Valid() && kmallocList != 0
      ensures blocks != [] && k <= |blocks| && at == EndOf(blocks, heapStart, k)
      ensures pre == if k > 0 then blocks[k - 1].at else 0
      ensures next == if k < |blocks| then blocks[k].at else 0
      ensures found <==> k < |blocks|
      ensures byte + HEADER < WORD ==> k == FirstFit(blocks, heapStart, byte, 0)
      ensures found && byte + HEADER < WORD ==> Room(blocks, heapStart, heapEnd, byte, k)
    {
      found := TestFront(byte);
      if found {
        return true, 0, heapStart, kmallocList, 0;
      }
      pre, k := kmallocList, 1;
      next := NextWord(pre, 0);
      while next != 0
        invariant 1 <= k <= |blocks| && pre == blocks[k - 1].at && next == NextOf(blocks, k - 1)
        invariant byte + HEADER < WORD ==> FirstFit(blocks, heapStart, byte, 0) == FirstFit(blocks, heapStart, byte, k)
        decreases |blocks| - k
      {
        found, at := TestGap(pre, next, byte, k);
        if found {
          return true, pre, at, next, k;
        }
        pre := next;
        next := NextWord(pre, k);
        k := k + 1;
      }
      if k < |blocks| { InOrder(blocks, heapStart, heapEnd, k, k); }
      at := BehindBlock(pre, k - 1);
      found := false;
    }

    // Whether the gap in front of the first block is big enough.
    method TestFront(byte: Word) returns (ok: bool)
      requires Valid() && kmallocList != 0
      ensures blocks != [] && kmallocList < WORD && heapStart < WORD
      ensures byte + HEADER < WORD ==> (ok <==> Room(blocks, heapStart, heapEnd, byte, 0))
    {
      EmptyList();
      InOrder(blocks, heapStart, heapEnd, 0, 0);
      InOrder(blocks, heapStart, heapEnd, 1, |blocks|);
      Searched(blocks, heapStart, heapEnd, if byte + HEADER < WORD then byte else 0, 0);
      ok := Sub32(kmallocList, heapStart) >= Add32(byte, HEADER);
    }

    // Whether the gap between two blocks is big enough.
    method TestGap(pre: nat, next: Word, byte: Word, ghost k: nat) returns (ok: bool, at: Word)
      requires Valid() && 0 < k < |blocks| && pre == blocks[k - 1].at && next == blocks[k].at
      ensures at == EndOf(blocks, heapStart, k)
      ensures byte + HEADER < WORD ==> (ok <==> Room(blocks, heapStart, heapEnd, byte, k))
    {
      at := BehindBlock(pre, k - 1);
      InOrder(blocks, heapStart, heapEnd, k + 1, |blocks|);
      Searched(blocks, heapStart, heapEnd, if byte + HEADER < WORD then byte else 0, k);
      ok := Sub32(next, at) >= Add32(byte, HEADER);
    }

    // Reading a block's header.
    method BehindBlock(at: nat, ghost i: nat) returns (end: Word)
      requires Valid() && i < |blocks| && at == blocks[i].at
      ensures end == EndOf(blocks, heapStart, i + 1)
    {
      assert HeaderAt(mem[..], blocks[i], NextOf(blocks, i));
      InOrder(blocks, heapStart, heapEnd, i + 1, i + 1);
      var size := ReadWord(at);
      end := Add32(at + HEADER, size);
    }

    method NextWord(at: nat, ghost i: nat) returns (next: Word)
      requires Valid() && i < |blocks| && at == blocks[i].at
      ensures next == NextOf(blocks, i)
    {
      assert HeaderAt(mem[..], blocks[i], NextOf(blocks, i));
      next := ReadWord(at + 4);
    }

    // No gap is big enough: the block goes behind the last one.
    method Extend(pre: nat, at: Word, byte: Word) returns (panic: bool)
      requires Valid() && blocks != [] && at == EndOf(blocks, heapStart, |blocks|) && pre == blocks[|blocks| - 1].at
      modifies this, mem
      ensures FitsLast(at, old(heapEnd), byte) ==>
        (panic <==> at + HEADER + byte >= old(heapEnd) && old(freeFrames) < PagesFor(byte))
      ensures !panic && FitsLast(at, old(heapEnd), byte) ==>
        && Valid() && blocks == InsertAt(old(blocks), heapStart, byte, |old(blocks)|)
        && PayloadsKept(old(mem[..]), mem[..], old(blocks))
      ensures !panic && FitsLast(at, old(heapEnd), byte) ==>
        var grows := at + HEADER + byte >= old(heapEnd);
        && heapEnd == (if grows then Grown(old(heapEnd), byte) else old(heapEnd))
        && freeFrames == old(freeFrames) - if grows then PagesFor(byte) else 0
      ensures !panic && !FitsLast(at, old(heapEnd), byte) ==> at + HEADER + byte > heapEnd
      ensures freeFrames <= old(freeFrames)
      ensures !panic ==> heapEnd == (old(heapEnd) + PAGE * (old(freeFrames) - freeFrames)) % WORD
    {
      ghost var end := heapEnd;
      InOrder(blocks, heapStart, heapEnd, |blocks|, |blocks|);
      panic := GrowFor(at, byte);
      if !panic {
        PlaceLast(pre, at, byte, end);
      }
    }

    // kmalloc, in terms of the list: where the block goes, when the heap grows, and when frames run out.
    method Serve(byte: Word) returns (panic: bool, p: nat)
      requires Valid()
      modifies this, mem
      ensures !panic && Fits(old(blocks), heapStart, old(heapEnd), byte) ==>
        && Valid() && blocks == Insert(old(blocks), heapStart, byte)
        && p == EndOf(old(blocks), heapStart, FirstFit(old(blocks), heapStart, byte, 0)) + HEADER
        && PayloadsKept(old(mem[..]), mem[..], old(blocks))
        && heapEnd == if Grows(old(blocks), heapStart, old(heapEnd), byte) then Grown(old(heapEnd), byte)
                      else old(heapEnd)
      ensures !panic && !Fits(old(blocks), heapStart, old(heapEnd), byte) ==> p + byte > heapEnd
      ensures Fits(old(blocks), heapStart, old(heapEnd), byte) ==>
        (panic <==> Grows(old(blocks), heapStart, old(heapEnd), byte) && old(freeFrames) < PagesFor(byte))
      ensures !panic && Fits(old(blocks), heapStart, old(heapEnd), byte) ==>
        freeFrames == old(freeFrames) - if Grows(old(blocks), heapStart, old(heapEnd), byte) then PagesFor(byte) else 0
      ensures freeFrames <= old(freeFrames)
      ensures !panic ==> heapEnd == (old(heapEnd) + PAGE * (old(freeFrames) - freeFrames)) % WORD
    {
      panic := false;
      if kmallocList == 0 {
        EmptyList();
        Place(0, heapStart, byte, 0, 0);
        return false, heapStart + HEADER;
      }
      var found, pre, at, next, k := FindGap(byte);
      p := at + HEADER;
      if found {
        Place(pre, at, byte, next, k);
        return;
      }
      panic := Extend(pre, at, byte);
    }

    // kmalloc. A request that fits gets a block of its size at the lowest address at which it is free.
    // The heap grows only if there is no free place that ends strictly inside it, by the fewest pages
    // that make one, each with a frame; with fewer frames left it panics.
    method Kmalloc(byte: Word) returns (panic: bool, p: nat)
      requires Valid()
      modifies this, mem
      ensures Fits(old(blocks), heapStart, old(heapEnd), byte) ==>
        (panic <==> OpPanics(old(State()), heapStart, Request(byte)))
      ensures !panic && Fits(old(blocks), heapStart, old(heapEnd), byte) ==>
        && Valid() && State() == Step(old(State()), heapStart, Request(byte))
        && p == EndOf(old(blocks), heapStart, FirstFit(old(blocks), heapStart, byte, 0)) + HEADER
        && PayloadsKept(old(mem[..]), mem[..], old(blocks))
      ensures !panic && !Fits(old(blocks), heapStart, old(heapEnd), byte) ==> p + byte > heapEnd
      ensures !panic && Fits(old(blocks), heapStart, old(heapEnd), byte) ==>
        && PutIntoList(old(blocks), blocks, Block(p - HEADER, byte))
        && forall a: nat :: Free(old(blocks), heapStart, a, byte) ==> p - HEADER <= a
      ensures freeFrames <= old(freeFrames)
      ensures !panic ==> heapEnd == (old(heapEnd) + PAGE * (old(freeFrames) - freeFrames)) % WORD
      ensures !panic && Fits(old(blocks), heapStart, old(heapEnd), byte) ==>
        && PAGE * (old(freeFrames) - freeFrames) == heapEnd - old(heapEnd)
        && (heapEnd > old(heapEnd) ==> heapEnd - PAGE <= old(heapEnd) + HEADER + byte < heapEnd)
      ensures panic && Fits(old(blocks), heapStart, old(heapEnd), byte) ==>
        old(heapEnd) + PAGE * old(freeFrames) <= old(heapEnd) + HEADER + byte
      ensures (panic || heapEnd > old(heapEnd)) && Fits(old(blocks), heapStart, old(heapEnd), byte) ==>
        forall a: nat :: Free(old(blocks), heapStart, a, byte) ==> a + HEADER + byte >= old(heapEnd)
    {
      RequestIs(blocks, heapStart, heapEnd, byte);
      GrowthIsLeast(heapEnd, byte);
      panic, p := Serve(byte);
    }

    lemma EmptyList()
      requires Valid()
      ensures kmallocList == 0 <==> blocks == []
    {
      if blocks != [] { InOrder(blocks, heapStart, heapEnd, 0, 0); }
    }

    // The block whose payload starts at the pointer leaves the list; if there is none, the kernel
    // panics.
    method Kfree(pointer: nat) returns (panic: bool, ghost i: nat)
      requires Valid()
      modifies this`kmallocList, this`blocks, mem
      ensures panic ==> Valid() && blocks == old(blocks)
      ensures panic ==> forall j :: 0 <= j < |blocks| ==> blocks[j].at + HEADER != pointer
      ensures !panic ==> i < |old(blocks)| && old(blocks)[i].at + HEADER == pointer
      ensures !panic ==> Valid() && blocks == Remove(old(blocks), i) && PayloadsKept(old(mem[..]), mem[..], blocks)
      ensures !panic ==> blocks == old(blocks)[..i] + old(blocks)[i + 1..]
    {
      var temp, pre := kmallocList, 0;
      EmptyList();
      i := 0;
      while temp != 0
        invariant i <= |blocks| && Valid() && blocks == old(blocks) && mem[..] == old(mem[..])
        invariant temp == (if i < |blocks| then blocks[i].at else 0) && pre == if i > 0 then blocks[i - 1].at else 0
        invariant forall j :: 0 <= j < i ==> blocks[j].at + HEADER != pointer
        decreases |blocks| - i
      {
        var next := NextWord(temp, i);
        if temp + HEADER == pointer {
          Unlink(pre, next, i);
          return false, i;
        }
        pre, temp, i := temp, next, i + 1;
      }
      if i < |blocks| { InOrder(blocks, heapStart, heapEnd, i, i); }
      panic := true;
    }

    method Unlink(pre: nat, next: Word, ghost i: nat)
      requires Valid() && i < |blocks| && pre == (if i > 0 then blocks[i - 1].at else 0) && next == NextOf(blocks, i)
      modifies this`kmallocList, this`blocks, mem
      ensures Valid() && blocks == Remove(old(blocks), i) && PayloadsKept(old(mem[..]), mem[..], blocks)
    {
      ghost var m := mem[..];
      InOrder(blocks, heapStart, heapEnd, i, i);
      if i > 0 {
        InOrder(blocks, heapStart, heapEnd, i - 1, i - 1);
      }
      if pre == 0 {
        kmallocList := next;
      } else {
        PutBytes(mem, pre + 4, WordBytes(next));
        StoreWordRead(m, pre + 4, next);
      }
      ThreadOut(m, mem[..], blocks, heapStart, heapEnd, i);
      RemoveLaid(blocks, heapStart, heapEnd, i);
      PayloadsOut(m, mem[..], blocks, heapStart, heapEnd, i);
      blocks := Remove(blocks, i);
    }
  }

  // --- Runs on the heap in memory -----------------------------------------------------------

  // A request that fits.
  method Ask(h: KernelHeap, n: Word) returns (panic: bool, p: nat)
    requires h.Valid() && Fits(h.blocks, h.heapStart, h.heapEnd, n)
    modifies h, h.mem
    ensures panic <==> OpPanics(old(h.State()), h.heapStart, Request(n))
    ensures !panic ==> h.Valid() && h.State() == Step(old(h.State()), h.heapStart, Request(n))
    ensures !panic ==> PayloadsKept(old(h.mem[..]), h.mem[..], old(h.blocks))
    ensures !panic ==> p == EndOf(old(h.blocks), h.heapStart, FirstFit(old(h.blocks), h.heapStart, n, 0)) + HEADER
  {
    panic, p := h.Kmalloc(n);
  }

  // A release. The block is the one that BlockAt finds.
  method Give(h: KernelHeap, p: nat) returns (panic: bool)
    requires h.Valid()
    modifies h, h.mem
    ensures panic <==> OpPanics(old(h.State()), h.heapStart, Release(p))
    ensures !panic ==> h.Valid() && h.State() == Step(old(h.State()), h.heapStart, Release(p))
    ensures !panic ==> PayloadsKept(old(h.mem[..]), h.mem[..], h.blocks)
  {
    ghost var before, end, i := h.blocks, h.heapEnd, 0;
    panic, i := h.Kfree(p);
    if !panic {
      OnlyBlock(before, h.heapStart, end, i, p);
    }
  }

  // One operation. The bytes of every other block stay.
  method Perform(h: KernelHeap, op: HeapOp) returns (panic: bool)
    requires h.Valid() && Serves(h.State(), h.heapStart, op)
    modifies h, h.mem
    ensures panic <==> OpPanics(old(h.State()), h.heapStart, op)
    ensures !panic ==> h.Valid() && h.State() == Step(old(h.State()), h.heapStart, op)
    ensures !panic ==> OthersKept(old(h.blocks), h.blocks, op, old(h.mem[..]), h.mem[..])
  {
    ghost var before, end := h.blocks, h.heapEnd;
    match op
    case Request(n) =>
      var p;
      panic, p := Ask(h, n);
      if !panic {
        StillThere(before, h.heapStart, n);
      }
    case Release(p) =>
      panic := Give(h, p);
      if !panic {
        OnlyBlock(before, h.heapStart, end, BlockAt(before, p, 0), p);
      }
  }

  // Blocks that are not released are still there with their bytes.
  ghost predicate OthersKept(before: seq<Block>, blocks: seq<Block>, op: HeapOp, m: seq<Byte>, m': seq<Byte>) {
    |m| == |m'| && forall b :: b in before && op != Release(b.at + HEADER) ==>
      b in blocks && Same(m, m', b.at + HEADER, b.End())
  }

  // What is in the list stays in it when a block is inserted.
  lemma StillThere(blocks: seq<Block>, start: nat, n: Word)
    ensures forall b :: b in blocks ==> b in Insert(blocks, start, n)
  {
    var k := FirstFit(blocks, start, n, 0);
    assert blocks == blocks[..k] + blocks[k..];
  }

  // There is one block at a pointer, and the others stay when it goes.
  lemma OnlyBlock(blocks: seq<Block>, start: nat, end: nat, i: nat, p: nat)
    requires Laid(blocks, start, end) && i < |blocks| && blocks[i].at + HEADER == p
    ensures BlockAt(blocks, p, 0) == i
    ensures forall b :: b in blocks && b.at + HEADER != p ==> b in Remove(blocks, i)
  {
    forall j | 0 <= j < i ensures blocks[j].at + HEADER != p {
      InOrder(blocks, start, end, j + 1, i);
    }
    assert blocks == blocks[..i] + [blocks[i]] + blocks[i + 1..];
  }

  lemma BlocksInside(blocks: seq<Block>, start: nat, end: nat)
    requires Laid(blocks, start, end)
    ensures forall b :: b in blocks ==> b.End() <= end
  {
    forall i | 0 <= i < |blocks| ensures blocks[i].End() <= end {
      InOrder(blocks, start, end, i + 1, i + 1);
    }
  }

  // A run of operations, from any heap. It panics exactly where the run of the specification does.
  // Otherwise blocks and heap are those of the run, and the bytes of every block that is not released
  // are untouched.
  method PerformAll(h: KernelHeap, ops: seq<HeapOp>) returns (panic: bool)
    requires h.Valid() && RunServes(h.State(), h.heapStart, ops)
    modifies h, h.mem
    ensures panic <==> RunPanics(old(h.State()), h.heapStart, ops)
    ensures !panic ==> h.Valid() && h.State() == Run(old(h.State()), h.heapStart, ops)
    ensures !panic ==> forall b :: b in old(h.blocks) && Release(b.at + HEADER) !in ops ==>
      b in h.blocks && Same(old(h.mem[..]), h.mem[..], b.at + HEADER, b.End())
  {
    ghost var s0, m0 := h.State(), h.mem[..];
    panic := false;
    var k := 0;
    assert ops[0..] == ops;
    BlocksInside(h.blocks, h.heapStart, h.heapEnd);
    while k < |ops|
      invariant k <= |ops| && h.Valid() && RunServes(h.State(), h.heapStart, ops[k..])
      invariant RunPanics(s0, h.heapStart, ops) <==> RunPanics(h.State(), h.heapStart, ops[k..])
      invariant !RunPanics(s0, h.heapStart, ops) ==>
        Run(s0, h.heapStart, ops) == Run(h.State(), h.heapStart, ops[k..])
      invariant Kept(s0.blocks, ops[..k], h.blocks, m0, h.mem[..])
    {
      ghost var s, m := h.State(), h.mem[..];
      assert ops[k..][0] == ops[k] && ops[k..][1..] == ops[k + 1..];
      panic := Perform(h, ops[k]);
      if panic {
        return;
      }
      KeptOn(s0.blocks, ops, k, s.blocks, h.blocks, m0, m, h.mem[..]);
      k := k + 1;
    }
    assert ops[..k] == ops;
  }

  // The blocks that were not released are there with their bytes.
  ghost predicate Kept(before: seq<Block>, ops: seq<HeapOp>, blocks: seq<Block>, m0: seq<Byte>, m: seq<Byte>) {
    && |m| == |m0|
    && forall b :: b in before && Release(b.at + HEADER) !in ops ==>
        b in blocks && Same(m0, m, b.at + HEADER, b.End())
  }

  lemma KeptOn(before: seq<Block>, ops: seq<HeapOp>, k: nat, mid: seq<Block>, blocks: seq<Block>, m0: seq<Byte>,
               m: seq<Byte>, m': seq<Byte>)
    requires k < |ops| && Kept(before, ops[..k], mid, m0, m) && OthersKept(mid, blocks, ops[k], m, m')
    ensures Kept(before, ops[..k + 1], blocks, m0, m')
  {
    assert ops[..k + 1] == ops[..k] + [ops[k]];
  }

  // What a request got is freed: the list is that of before.
  method AskAndGive(h: KernelHeap, n: Word) returns (panic: bool, p: nat)
    requires h.Valid() && Fits(h.blocks, h.heapStart, h.heapEnd, n)
    modifies h, h.mem
    ensures panic <==> OpPanics(old(h.State()), h.heapStart, Request(n))
    ensures !panic ==> h.Valid() && h.State() == Step(old(h.State()), h.heapStart, Request(n)).(blocks := old(h.blocks))
    ensures !panic ==> p == EndOf(old(h.blocks), h.heapStart, FirstFit(old(h.blocks), h.heapStart, n, 0)) + HEADER
  {
    ghost var before, start := h.blocks, h.heapStart;
    panic, p := Ask(h, n);
    if !panic {
      InsertedAt(before, start, n);
      OnlyBlock(h.blocks, start, h.heapEnd, FirstFit(before, start, n, 0), p);
      FreeUndoes(before, start, n);
      panic := Give(h, p);
    }
  }

  // Asked for again, the next request of that size gets the same pointer, without growing the heap
  // further.
  method AskAgain(h: KernelHeap, n: Word) returns (panic: bool, p: nat, q: nat)
    requires h.Valid() && Fits(h.blocks, h.heapStart, h.heapEnd, n)
    modifies h, h.mem
    ensures panic <==> OpPanics(old(h.State()), h.heapStart, Request(n))
    ensures !panic ==> h.Valid() && p == q
    ensures !panic ==> h.State() == Step(old(h.State()), h.heapStart, Request(n))
  {
    q := 0;
    ghost var before, end := h.blocks, h.heapEnd;
    InOrder(before, h.heapStart, end, |before|, |before|);
    panic, p := AskAndGive(h, n);
    if !panic {
      AskedAgain(before, h.heapStart, end, h.heapEnd, n);
      panic, q := Ask(h, n);
    }
  }

  lemma InsertedAt(blocks: seq<Block>, start: nat, n: Word)
    ensures var k := FirstFit(blocks, start, n, 0);
      k < |Insert(blocks, start, n)| && Insert(blocks, start, n)[k] == Block(EndOf(blocks, start, k), n)
  {}

  lemma AskedAgain(blocks: seq<Block>, start: nat, end: nat, end': nat, n: Word)
    requires Fits(blocks, start, end, n) && EndOf(blocks, start, |blocks|) <= end && end % PAGE == 0
    requires end' == if Grows(blocks, start, end, n) then Grown(end, n) else end
    ensures Fits(blocks, start, end', n) && !Grows(blocks, start, end', n)
  {
    GrownPages(end, n);
  }

  // Only the next word of the block before changes.
  lemma PayloadsOut(m: seq<Byte>, m': seq<Byte>, blocks: seq<Block>, start: nat, end: nat, k: nat)
    requires Laid(blocks, start, end) && k < |blocks| && end <= |m| == |m'|
    requires forall a :: 0 <= a < |m| && !(k > 0 && blocks[k - 1].at + 4 <= a < blocks[k - 1].at + HEADER) ==>
      m'[a] == m[a]
    ensures PayloadsKept(m, m', Remove(blocks, k))
  {
    var less := Remove(blocks, k);
    forall j | 0 <= j < |less| ensures Same(m, m', less[j].at + HEADER, less[j].End()) {
      var i := if j < k then j else j + 1;
      assert less[j] == blocks[i];
      InOrder(blocks, start, end, i + 1, |blocks|);
      if i + 1 < k {
        InOrder(blocks, start, end, i + 1, k - 1);
      } else if i > k && k > 0 {
        InOrder(blocks, start, end, k, i);
      }
    }
  }
}
