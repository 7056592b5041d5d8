// Bytes, 32-bit words and their little-endian form in memory, as both the kernel and the
// image builder see them on a 32-bit x86.
module Machine {

  const WORD := 0x1_0000_0000
  const PAGE := 0x1000

  datatype Option<T> = None | Some(value: T)

  type Byte = b: int | 0 <= b < 256
  type Word = w: int | 0 <= w < 0x1_0000_0000

  // Unsigned 32-bit addition and subtraction.
  function Add32(a: Word, b: Word): Word { (a + b) % WORD }

  function Sub32(a: Word, b: Word): Word { (a - b) % WORD }

  // A word modulo 2^32 read as a two's-complement int.
  function AsInt(w: int): int {
    var u := w % WORD;
    if u < 0x8000_0000 then u else u - WORD
  }

  function Min(a: int, b: int): int { if a <= b then a else b }

  function WordBytes(w: Word): (bs: seq<Byte>)
    ensures |bs| == 4
  {
    [w % 0x100, w / 0x100 % 0x100, w / 0x1_0000 % 0x100, w / 0x100_0000]
  }

  function WordAt(mem: seq<Byte>, a: nat): Word
    requires a + 4 <= |mem|
  {
    var b0: int, b1: int, b2: int, b3: int := mem[a], mem[a + 1], mem[a + 2], mem[a + 3];
    b0 + 0x100 * b1 + 0x1_0000 * b2 + 0x100_0000 * b3
  }

  // Memory after the bytes bs are stored from address a on.
  function Store(mem: seq<Byte>, a: nat, bs: seq<Byte>): (r: seq<Byte>)
    requires a + |bs| <= |mem|
    ensures |r| == |mem|
  {
    mem[..a] + bs + mem[a + |bs|..]
  }

  lemma StoreAt(mem: seq<Byte>, a: nat, bs: seq<Byte>, k: nat)
    requires a + |bs| <= |mem| && k < |mem|
    ensures Store(mem, a, bs)[k] == if a <= k < a + |bs| then bs[k - a] else mem[k]
  {}

  function StoreWord(mem: seq<Byte>, a: nat, w: Word): (r: seq<Byte>)
    requires a + 4 <= |mem|
    ensures |r| == |mem|
  {
    Store(mem, a, WordBytes(w))
  }

  lemma WordRoundTrip(w: Word)
    ensures WordAt(WordBytes(w), 0) == w
  {
    var q1, q2 := w / 0x100, w / 0x1_0000;
    assert q2 == q1 / 0x100;
    assert w / 0x100_0000 == q2 / 0x100;
  }

  // A stored word is read back, lies in memory with its lowest byte first, and every word that does
  // not overlap it is as before.
  lemma StoreWordRead(mem: seq<Byte>, a: nat, w: Word)
    requires a + 4 <= |mem|
    ensures WordAt(StoreWord(mem, a, w), a) == w
    ensures StoreWord(mem, a, w)[a..a + 4] == [w % 0x100, w / 0x100 % 0x100, w / 0x1_0000 % 0x100, w / 0x100_0000]
    ensures forall b: nat :: b + 4 <= |mem| && (b + 4 <= a || a + 4 <= b) ==>
      WordAt(StoreWord(mem, a, w), b) == WordAt(mem, b)
    ensures forall b: nat :: b < |mem| && (b < a || a + 4 <= b) ==> StoreWord(mem, a, w)[b] == mem[b]
  {
    WordRoundTrip(w);
    var r := StoreWord(mem, a, w);
    assert r[a] == WordBytes(w)[0] && r[a + 1] == WordBytes(w)[1];
    assert r[a + 2] == WordBytes(w)[2] && r[a + 3] == WordBytes(w)[3];
  }

  // The same store, done on an array byte by byte.
  method PutBytes(mem: array<Byte>, a: nat, bs: seq<Byte>)
    requires a + |bs| <= mem.Length
    modifies mem
    ensures mem[..] == Store(old(mem[..]), a, bs)
  {
    var k := 0;
    while k < |bs|
      invariant k <= |bs|
      invariant forall j :: 0 <= j < mem.Length ==> mem[j] == if a <= j < a + k then bs[j - a] else old(mem[j])
    {
      mem[a + k] := bs[k];
      k := k + 1;
    }
    assert mem[..] == Store(old(mem[..]), a, bs);
  }
}
