// The kernel's memcpy, on one memory.
module Memcpy {
  import opened Machine

  // Memory after n bytes are copied one by one, the lowest first.
  function Ascending(mem: seq<Byte>, source: nat, dest: nat, n: nat): (r: seq<Byte>)
    requires source + n <= |mem| && dest + n <= |mem|
    ensures |r| == |mem|
  {
    if n == 0 then mem
    else var m := Ascending(mem, source, dest, n - 1); m[dest + n - 1 := m[source + n - 1]]
  }

  // How many bytes memcpy copies. Towards lower addresses it is what was asked for; otherwise a
  // signed counter goes down to 0 and not to 1.
  function Copied(source: nat, count: nat, dest: nat): nat {
    if dest < source then count else if count < 0x8000_0000 then count + 1 else 0
  }

  method Copy(mem: array<Byte>, source: nat, count: Word, dest: nat)
    requires source + count < mem.Length && dest + count < mem.Length
    modifies mem
    ensures mem[..] == Ascending(old(mem[..]), source, dest, Copied(source, count, dest))
  {
    ghost var before := mem[..];
    if dest < source {
      var p := 0;
      while p < count
        invariant p <= count && mem[..] == Ascending(before, source, dest, p)
      {
        mem[dest + p] := mem[source + p];
        p := p + 1;
      }
    } else {
      var p := AsInt(count);
      while p >= 0
        invariant count < 0x8000_0000 ==> -1 <= p <= count && mem[..] == Ascending(before, source, dest, count - p)
        invariant count >= 0x8000_0000 ==> p < 0 && mem[..] == before
      {
        mem[dest + (count - p)] := mem[source + (count - p)];
        p := p - 1;
      }
    }
  }

  lemma {:induction false} AscendingAt(mem: seq<Byte>, source: nat, dest: nat, n: nat, a: nat)
    requires source + n <= |mem| && dest + n <= |mem| && (dest <= source || source + n <= dest) && a < |mem|
    ensures Ascending(mem, source, dest, n)[a] == if dest <= a < dest + n then mem[source + (a - dest)] else mem[a]
  {
    if n > 0 {
      AscendingAt(mem, source, dest, n - 1, a);
      AscendingAt(mem, source, dest, n - 1, source + n - 1);
    }
  }

  // A copy downwards, or to a place behind the source, is the plain one.
  lemma AscendingIs(mem: seq<Byte>, source: nat, dest: nat, n: nat)
    requires source + n <= |mem| && dest + n <= |mem| && (dest <= source || source + n <= dest)
    ensures Ascending(mem, source, dest, n) == Store(mem, dest, mem[source..source + n])
  {
    forall a | 0 <= a < |mem|
      ensures Ascending(mem, source, dest, n)[a] == Store(mem, dest, mem[source..source + n])[a]
    {
      AscendingAt(mem, source, dest, n, a);
      StoreAt(mem, dest, mem[source..source + n], a);
    }
  }

  // What has been written stays.
  lemma {:induction false} AscendingKept(mem: seq<Byte>, source: nat, dest: nat, j: nat, n: nat, a: nat)
    requires j <= n && source + n <= |mem| && dest + n <= |mem| && a < dest + j
    ensures Ascending(mem, source, dest, n)[a] == Ascending(mem, source, dest, j)[a]
  {
    if j < n { AscendingKept(mem, source, dest, j, n - 1, a); }
  }

  // Upwards into its own source, memcpy repeats the first bytes over and over instead of moving the
  // area: a byte below the destination is moved, any other one is what has been copied there.
  lemma OverlapRepeats(mem: seq<Byte>, source: nat, dest: nat, n: nat, a: nat)
    requires source < dest && dest + n <= |mem| && source <= a < source + n
    ensures var r := Ascending(mem, source, dest, n); r[a + (dest - source)] == if a < dest then mem[a] else r[a]
  {
    var k := a - source;
    AscendingKept(mem, source, dest, k + 1, n, dest + k);
    AscendingKept(mem, source, dest, k, n, a);
    if a < dest {
      AscendingKept(mem, source, dest, 0, k, a);
    }
  }

  lemma {:induction false} AscendingOutside(mem: seq<Byte>, source: nat, dest: nat, n: nat, a: nat)
    requires source + n <= |mem| && dest + n <= |mem| && a < |mem| && (a < dest || dest + n <= a)
    ensures Ascending(mem, source, dest, n)[a] == mem[a]
  {
    if n > 0 { AscendingOutside(mem, source, dest, n - 1, a); }
  }

  // --- Whether memcpy does what was asked for -----------------------------------------------

  // The area moved, and nothing else changed.
  function Asked(mem: seq<Byte>, source: nat, count: nat, dest: nat): seq<Byte>
    requires source + count <= |mem| && dest + count <= |mem|
  {
    Store(mem, dest, mem[source..source + count])
  }

  // The byte at a is the one p below.
  ghost predicate RepeatsAt(mem: seq<Byte>, p: nat, a: nat) { p <= a < |mem| && mem[a] == mem[a - p] }

  // The area repeats itself every p bytes.
  ghost predicate Repeats(mem: seq<Byte>, source: nat, p: nat, count: nat) {
    forall a: nat :: source + p <= a < source + count ==> RepeatsAt(mem, p, a)
  }

  // The byte at a is p above in r.
  ghost predicate MovedAt(mem: seq<Byte>, r: seq<Byte>, p: nat, a: nat) { a + p < |r| == |mem| && r[a + p] == mem[a] }

  ghost predicate Moved(mem: seq<Byte>, r: seq<Byte>, source: nat, p: nat, count: nat) {
    forall a: nat :: source <= a < source + count ==> MovedAt(mem, r, p, a)
  }

  // The byte that is copied behind the area.
  function Extra(source: nat, count: nat, dest: nat): nat
    requires source < dest
  {
    source + if count < dest - source then count else count - (dest - source)
  }

  // Where the source repeats itself, each byte copied is the source's.
  lemma {:induction false} RepeatsMoved(mem: seq<Byte>, source: nat, dest: nat, count: nat, n: nat, a: nat)
    requires source < dest && count <= n && dest + n <= |mem| && source <= a < source + count
    requires Repeats(mem, source, dest - source, count)
    ensures MovedAt(mem, Ascending(mem, source, dest, n), dest - source, a)
  {
    OverlapRepeats(mem, source, dest, n, a);
    if dest <= a {
      RepeatsMoved(mem, source, dest, count, n, a - (dest - source));
      assert RepeatsAt(mem, dest - source, a);
    }
  }

  lemma MovedRepeats(mem: seq<Byte>, source: nat, dest: nat, count: nat, n: nat, a: nat)
    requires source < dest && count <= n && dest + n <= |mem| && dest <= a < source + count
    requires Moved(mem, Ascending(mem, source, dest, n), source, dest - source, count)
    ensures RepeatsAt(mem, dest - source, a)
  {
    OverlapRepeats(mem, source, dest, n, a);
    assert MovedAt(mem, Ascending(mem, source, dest, n), dest - source, a);
    assert MovedAt(mem, Ascending(mem, source, dest, n), dest - source, a - (dest - source));
  }

  // The area is moved exactly if it repeats itself with the distance of the two.
  lemma MovedIff(mem: seq<Byte>, source: nat, dest: nat, count: nat, n: nat)
    requires source < dest && count <= n && dest + n <= |mem|
    ensures Moved(mem, Ascending(mem, source, dest, n), source, dest - source, count)
       <==> Repeats(mem, source, dest - source, count)
  {
    var p, r := dest - source, Ascending(mem, source, dest, n);
    if Repeats(mem, source, p, count) {
      forall a: nat | source <= a < source + count ensures MovedAt(mem, r, p, a) {
        RepeatsMoved(mem, source, dest, count, n, a);
      }
    }
    if Moved(mem, r, source, p, count) {
      forall a: nat | source + p <= a < source + count ensures RepeatsAt(mem, p, a) {
        MovedRepeats(mem, source, dest, count, n, a);
      }
    }
  }

  // The byte behind the area becomes the one that lies a period below.
  lemma ExtraCopied(mem: seq<Byte>, source: nat, dest: nat, count: nat)
    requires source < dest && dest + count < |mem| && Repeats(mem, source, dest - source, count)
    ensures Ascending(mem, source, dest, count + 1)[dest + count] == mem[Extra(source, count, dest)]
  {
    OverlapRepeats(mem, source, dest, count + 1, source + count);
    if dest <= source + count {
      RepeatsMoved(mem, source, dest, count, count + 1, Extra(source, count, dest));
    }
  }

  // Copying one byte more is what was asked for exactly if the area is moved, and the byte behind its
  // new place does not change.
  lemma OneMoreIff(mem: seq<Byte>, source: nat, dest: nat, count: nat)
    requires source < dest && dest + count < |mem|
    ensures var r := Ascending(mem, source, dest, count + 1);
      r == Asked(mem, source, count, dest)
      <==> r[dest + count] == mem[dest + count] && Moved(mem, r, source, dest - source, count)
  {
    var r, asked := Ascending(mem, source, dest, count + 1), Asked(mem, source, count, dest);
    var bs := mem[source..source + count];
    var p: nat := dest - source;
    StoreAt(mem, dest, bs, dest + count);
    forall a: nat | source <= a < source + count ensures MovedAt(mem, asked, p, a) {
      StoreAt(mem, dest, bs, a + p);
    }
    if r[dest + count] == mem[dest + count] && Moved(mem, r, source, dest - source, count) {
      forall a | 0 <= a < |mem| ensures r[a] == asked[a] {
        OneMoreAt(mem, source, dest, count, a);
      }
    }
  }

  lemma OneMoreAt(mem: seq<Byte>, source: nat, dest: nat, count: nat, a: nat)
    requires source < dest && dest + count < |mem| && a < |mem|
    requires var r := Ascending(mem, source, dest, count + 1);
      r[dest + count] == mem[dest + count] && Moved(mem, r, source, dest - source, count)
    ensures Ascending(mem, source, dest, count + 1)[a] == Asked(mem, source, count, dest)[a]
  {
    StoreAt(mem, dest, mem[source..source + count], a);
    if dest <= a < dest + count {
      assert MovedAt(mem, Ascending(mem, source, dest, count + 1), dest - source, a - (dest - source));
    } else if a != dest + count {
      AscendingOutside(mem, source, dest, count + 1, a);
    }
  }

  // A copy to a higher address is what was asked for if and only if the source repeats itself with the
  // distance of the two areas, and the byte behind the destination was what is copied there.
  // This covers areas that are apart, where repeating says nothing, adjacent and overlapping ones.
  lemma UpwardsIff(mem: seq<Byte>, source: nat, count: nat, dest: nat)
    requires source < dest && dest + count < |mem| && count < 0x8000_0000
    ensures Ascending(mem, source, dest, Copied(source, count, dest)) == Asked(mem, source, count, dest)
       <==> Repeats(mem, source, dest - source, count) && mem[dest + count] == mem[Extra(source, count, dest)]
  {
    OneMoreIff(mem, source, dest, count);
    MovedIff(mem, source, dest, count, count + 1);
    if Repeats(mem, source, dest - source, count) {
      ExtraCopied(mem, source, dest, count);
    }
  }

  // A count that is negative as a signed number copies nothing: that is what was asked for exactly if the
  // areas are equal already.
  lemma HugeIff(mem: seq<Byte>, source: nat, count: nat, dest: nat)
    requires source <= dest && dest + count <= |mem| && count >= 0x8000_0000
    ensures Ascending(mem, source, dest, Copied(source, count, dest)) == Asked(mem, source, count, dest)
       <==> mem[dest..dest + count] == mem[source..source + count]
  {
    var bs := mem[source..source + count];
    assert Ascending(mem, source, dest, Copied(source, count, dest)) == mem;
    assert Store(mem, dest, bs)[dest..dest + count] == bs;
    if mem[dest..dest + count] == bs {
      StoreSelf(mem, dest, count);
    }
  }

  lemma StoreSelf(mem: seq<Byte>, a: nat, n: nat)
    requires a + n <= |mem|
    ensures Store(mem, a, mem[a..a + n]) == mem
  {}

  // Towards lower addresses, and onto itself, memcpy always does what was asked for.
  lemma DownwardsIs(mem: seq<Byte>, source: nat, count: nat, dest: nat)
    requires dest <= source && source + count < |mem| && (dest == source ==> count < 0x8000_0000)
    ensures Ascending(mem, source, dest, Copied(source, count, dest)) == Asked(mem, source, count, dest)
  {
    AscendingIs(mem, source, dest, Copied(source, count, dest));
    if dest == source {
      StoreSelf(mem, source, count);
      StoreSelf(mem, source, count + 1);
    }
  }

  // Adjacent areas: [1, 2, 2] with one byte copied from 0 to 1 becomes [1, 1, 1].
  lemma AdjacentOverwrites()
    ensures var mem: seq<Byte> := [1, 2, 2]; Ascending(mem, 0, 1, Copied(0, 1, 1)) == [1, 1, 1] != Asked(mem, 0, 1, 1)
  {
    var mem: seq<Byte> := [1, 2, 2];
    assert Ascending(mem, 0, 1, 0) == mem;
    assert Ascending(mem, 0, 1, 1) == [1, 1, 2];
    assert Ascending(mem, 0, 1, 2) == [1, 1, 1];
    StoreAt(mem, 1, mem[0..1], 2);
  }
}
