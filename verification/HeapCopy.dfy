// The kernel's memcpy between two blocks of its heap, as fork copies a task's structure, and what the
// byte that it copies too many does to the list of blocks.
module HeapCopy {
  import opened Machine
  import opened Heap
  import opened Memcpy

  // A copy of count bytes between the payloads of two blocks, which lie in a memory of this size.
  predicate Between(blocks: seq<Block>, i: nat, j: nat, count: nat, size: nat) {
    && i < |blocks| && j < |blocks| && i != j && count < 0x8000_0000
    && count <= blocks[i].size && count <= blocks[j].size
    && blocks[i].End() < size && blocks[j].End() < size
  }

  // The byte behind the copy is the first one of the next block's header.
  predicate HitsHeader(blocks: seq<Block>, j: nat, count: nat)
    requires j < |blocks|
  {
    count == blocks[j].size && j + 1 < |blocks| && blocks[j + 1].at == blocks[j].End()
  }

  // Memory after memcpy has run from block i to block j.
  function CopiedOver(m: seq<Byte>, blocks: seq<Block>, i: nat, j: nat, count: nat): (m': seq<Byte>)
    requires Between(blocks, i, j, count, |m|)
    ensures |m'| == |m|
  {
    var source, dest := blocks[i].at + HEADER, blocks[j].at + HEADER;
    Ascending(m, source, dest, Copied(source, count, dest))
  }

  // Nothing changes below lo, nor from hi on.
  ghost predicate OnlyAt(m: seq<Byte>, m': seq<Byte>, lo: nat, hi: nat) {
    |m| == |m'| && forall a :: 0 <= a < |m| && !(lo <= a < hi) ==> m'[a] == m[a]
  }

  lemma Apart(blocks: seq<Block>, start: nat, end: nat, i: nat, j: nat)
    requires Laid(blocks, start, end) && i < |blocks| && j < |blocks| && i != j
    ensures i < j ==> blocks[i].End() <= blocks[j].at
    ensures j < i ==> blocks[j].End() <= blocks[i].at
  {
    if i < j {
      InOrder(blocks, start, end, i + 1, j);
    } else {
      InOrder(blocks, start, end, j + 1, i);
    }
  }

  lemma StoreOnlyAt(m: seq<Byte>, a: nat, bs: seq<Byte>)
    requires a + |bs| <= |m|
    ensures OnlyAt(m, Store(m, a, bs), a, a + |bs|)
  {
    forall k | 0 <= k < |m| && !(a <= k < a + |bs|) ensures Store(m, a, bs)[k] == m[k] {
      StoreAt(m, a, bs, k);
    }
  }

  // The first bytes of what is moved, and the one behind them.
  lemma StoreFirst(m: seq<Byte>, source: nat, dest: nat, n: nat, count: nat)
    requires source + n <= |m| && dest + n <= |m| && count <= n
    ensures var m' := Store(m, dest, m[source..source + n]);
      && m'[dest..dest + count] == m[source..source + count]
      && (count < n ==> m'[dest + count] == m[source + count])
  {
    var bs := m[source..source + n];
    var m' := Store(m, dest, bs);
    var to, from := m'[dest..dest + count], m[source..source + count];
    forall k | 0 <= k < count ensures to[k] == from[k] {
      StoreAt(m, dest, bs, dest + k);
      assert bs[k] == m[source + k];
    }
    assert to == from;
    if count < n {
      StoreAt(m, dest, bs, dest + count);
    }
  }

  // The area is copied, upwards with the byte behind it.
  lemma CopyIs(m: seq<Byte>, blocks: seq<Block>, start: nat, end: nat, i: nat, j: nat, count: nat)
    requires Laid(blocks, start, end) && Between(blocks, i, j, count, |m|)
    ensures var source, dest, m' := blocks[i].at + HEADER, blocks[j].at + HEADER, CopiedOver(m, blocks, i, j, count);
      && OnlyAt(m, m', dest, dest + if i < j then count + 1 else count)
      && m'[dest..dest + count] == m[source..source + count]
      && (i < j ==> m'[dest + count] == m[source + count])
  {
    Apart(blocks, start, end, i, j);
    var source, dest := blocks[i].at + HEADER, blocks[j].at + HEADER;
    var n := Copied(source, count, dest);
    assert n == if i < j then count + 1 else count;
    AscendingIs(m, source, dest, n);
    StoreOnlyAt(m, dest, m[source..source + n]);
    StoreFirst(m, source, dest, n, count);
  }

  // Writing up to n bytes into block j's payload, and one behind it, reaches no header but one that
  // follows at once.
  lemma OtherHeader(m: seq<Byte>, m': seq<Byte>, blocks: seq<Block>, start: nat, end: nat, j: nat, n: nat, l: nat)
    requires Laid(blocks, start, end) && j < |blocks| && l < |blocks| && n <= blocks[j].size + 1
    requires OnlyAt(m, m', blocks[j].at + HEADER, blocks[j].at + HEADER + n)
    requires n <= blocks[j].size || !(l == j + 1 && blocks[l].at == blocks[j].End())
    requires HeaderAt(m, blocks[l], NextOf(blocks, l))
    ensures HeaderAt(m', blocks[l], NextOf(blocks, l))
  {
    if l < j {
      Apart(blocks, start, end, l, j);
    } else if j < l {
      Apart(blocks, start, end, j, l);
      if j + 1 < l {
        Apart(blocks, start, end, j, j + 1);
        Apart(blocks, start, end, j + 1, l);
      }
    }
    assert Same(m, m', blocks[l].at, blocks[l].at + HEADER);
    SameHeader(m, m', blocks[l], NextOf(blocks, l));
  }

  // A header of which at most the first byte changes stays exactly if that byte does.
  lemma HitHeader(m: seq<Byte>, m': seq<Byte>, b: Block, next: nat, lo: nat)
    requires HeaderAt(m, b, next) && OnlyAt(m, m', lo, b.at + 1)
    ensures HeaderAt(m', b, next) <==> m'[b.at] == m[b.at]
  {
    var a := b.at;
    assert m'[a + 1] == m[a + 1] && m'[a + 2] == m[a + 2] && m'[a + 3] == m[a + 3];
    assert WordAt(m', a) - WordAt(m, a) == m'[a] as int - m[a] as int;
    SameWord(m, m', a + 4);
  }

  // The headers of all blocks.
  lemma HeadersIff(m: seq<Byte>, m': seq<Byte>, blocks: seq<Block>, start: nat, end: nat, j: nat, n: nat)
    requires Laid(blocks, start, end) && Threaded(m, Head(blocks), blocks)
    requires j < |blocks| && n <= blocks[j].size + 1 && blocks[j].End() < |m|
    requires OnlyAt(m, m', blocks[j].at + HEADER, blocks[j].at + HEADER + n)
    ensures Threaded(m', Head(blocks), blocks) <==>
      n == 0 || !HitsHeader(blocks, j, n - 1) || m'[blocks[j].End()] == m[blocks[j].End()]
  {
    forall l | 0 <= l < |blocks| && !(n > 0 && l == j + 1 && HitsHeader(blocks, j, n - 1))
      ensures HeaderAt(m', blocks[l], NextOf(blocks, l))
    {
      assert HeaderAt(m, blocks[l], NextOf(blocks, l));
      OtherHeader(m, m', blocks, start, end, j, n, l);
    }
    if n > 0 && HitsHeader(blocks, j, n - 1) {
      assert HeaderAt(m, blocks[j + 1], NextOf(blocks, j + 1));
      HitHeader(m, m', blocks[j + 1], NextOf(blocks, j + 1), blocks[j].at + HEADER);
    }
  }

  // After such a copy the area is the source's, and the headers in memory still are the list's if and
  // only if the copy goes downwards, or the byte behind it is no header's, or that byte was the one behind
  // the source already.
  lemma CopyKeepsList(m: seq<Byte>, blocks: seq<Block>, start: nat, end: nat, i: nat, j: nat, count: nat)
    requires Laid(blocks, start, end) && Threaded(m, Head(blocks), blocks) && Between(blocks, i, j, count, |m|)
    ensures var source, dest, m' := blocks[i].at + HEADER, blocks[j].at + HEADER, CopiedOver(m, blocks, i, j, count);
      && m'[dest..dest + count] == m[source..source + count]
      && (Threaded(m', Head(blocks), blocks) <==>
            j < i || !HitsHeader(blocks, j, count) || m[dest + count] == m[source + count])
  {
    CopyIs(m, blocks, start, end, i, j, count);
    HeadersIff(m, CopiedOver(m, blocks, i, j, count), blocks, start, end, j, if i < j then count + 1 else count);
  }

  // The copy on the heap itself.
  method CopyBlock(h: KernelHeap, source: nat, count: Word, dest: nat, ghost i: nat, ghost j: nat)
    requires h.Valid() && Between(h.blocks, i, j, count, h.mem.Length)
    requires source == h.blocks[i].at + HEADER && dest == h.blocks[j].at + HEADER
    modifies h.mem
    ensures h.mem[dest..dest + count] == old(h.mem[source..source + count])
    ensures h.Valid() <==>
      j < i || !HitsHeader(h.blocks, j, count) || old(h.mem[dest + count]) == old(h.mem[source + count])
  {
    ghost var m := h.mem[..];
    CopyKeepsList(m, h.blocks, h.heapStart, h.heapEnd, i, j, count);
    Copy(h.mem, source, count, dest);
    assert h.mem[..] == CopiedOver(m, h.blocks, i, j, count);
    assert h.mem[dest..dest + count] == h.mem[..][dest..dest + count];
  }
}
