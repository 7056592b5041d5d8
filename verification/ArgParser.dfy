// The command line of a task: it is cut into arguments, which are laid out behind the data segment
// as a table of addresses and then the strings.
module ArgParser {
  import opened Machine
  import opened CStrings

  const SPACE: Byte := 32
  const QUOTE: Byte := 39

  // --- Quotes and spaces --------------------------------------------------------------------

  // Whether position x is inside quotes.
  predicate QuotedAt(s: CStr, x: nat)
    requires x <= |s|
  {
    x > 0 && (if s[x - 1] == QUOTE then !QuotedAt(s, x - 1) else QuotedAt(s, x - 1))
  }

  // The spaces before x, and those of them that are not quoted.
  function Spaces(s: CStr, x: nat): nat
    requires x <= |s|
  {
    if x == 0 then 0 else Spaces(s, x - 1) + if s[x - 1] == SPACE then 1 else 0
  }

  function Breaks(s: CStr, x: nat): nat
    requires x <= |s|
  {
    if x == 0 then 0 else Breaks(s, x - 1) + if s[x - 1] == SPACE && !QuotedAt(s, x - 1) then 1 else 0
  }

  // An even number of quotes lies between x0 and x.
  ghost predicate EvenQuotes(s: CStr, x0: nat, x: nat)
    requires x0 <= x <= |s|
  {
    multiset(s[x0..x])[39] % 2 == 0
  }

  lemma NextEven(s: CStr, x0: nat, x: nat)
    requires x0 < x <= |s|
    ensures EvenQuotes(s, x0, x) <==> (EvenQuotes(s, x0, x - 1) <==> s[x - 1] != 39)
  {
    assert s[x0..x] == s[x0..x - 1] + [s[x - 1]];
  }

  lemma {:induction false} QuotedIff(s: CStr, x: nat)
    requires x <= |s|
    ensures QuotedAt(s, x) <==> !EvenQuotes(s, 0, x)
  {
    if x > 0 {
      QuotedIff(s, x - 1);
      NextEven(s, 0, x);
    }
  }

  // A space with an even number of quotes since x0.
  ghost predicate OpenSpace(s: CStr, x0: nat, x: nat) {
    x0 <= x < |s| && s[x] == 32 && EvenQuotes(s, x0, x)
  }

  ghost function OpenSpaces(s: CStr, x0: nat, x: nat): set<nat> {
    set k: nat | k < x && OpenSpace(s, x0, k)
  }

  lemma OpenSpacesNext(s: CStr, x0: nat, x: nat)
    requires x0 < x <= |s|
    ensures |OpenSpaces(s, x0, x)| == |OpenSpaces(s, x0, x - 1)| + if OpenSpace(s, x0, x - 1) then 1 else 0
  {
    assert OpenSpaces(s, x0, x) == OpenSpaces(s, x0, x - 1) + if OpenSpace(s, x0, x - 1) then {x - 1} else {};
  }

  lemma {:induction false} BreaksAre(s: CStr, x: nat)
    requires x <= |s|
    ensures Breaks(s, x) == |OpenSpaces(s, 0, x)|
  {
    if x > 0 {
      BreaksAre(s, x - 1);
      QuotedIff(s, x - 1);
      OpenSpacesNext(s, 0, x);
    }
  }

  method ParseArgsNum(s: CStr) returns (n: nat)
    ensures n == Breaks(s, |s|) == |OpenSpaces(s, 0, |s|)|
  {
    BreaksAre(s, |s|);
    n := 0;
    var apice, c := false, 0;
    while c < |s|
      invariant c <= |s| && n == Breaks(s, c) && apice == QuotedAt(s, c)
    {
      if s[c] == QUOTE {
        apice := !apice;
      }
      if s[c] == SPACE && !apice {
        n := n + 1;
      }
      c := c + 1;
    }
  }

  // --- The arguments ------------------------------------------------------------------------

  datatype Scan = Scan(args: seq<CStr>, quoted: bool)

  function AddChar(args: seq<CStr>, ch: Byte): seq<CStr> {
    if args == [] then [] else args[|args| - 1 := args[|args| - 1] + [ch]]
  }

  // The arguments between the space at c0 and position c. An unquoted space begins a new one,
  // a quote only switches.
  function ScanTo(s: CStr, c0: nat, c: nat): Scan
    requires c0 <= c <= |s|
    decreases c
  {
    if c == c0 then Scan([], false)
    else
      var p, ch := ScanTo(s, c0, c - 1), s[c - 1];
      if ch == QUOTE then Scan(p.args, !p.quoted)
      else if ch == SPACE && !p.quoted then Scan(p.args + [[]], p.quoted)
      else Scan(AddChar(p.args, ch), p.quoted)
  }

  function Args(s: CStr, c0: nat): seq<CStr>
    requires c0 <= |s|
  {
    ScanTo(s, c0, |s|).args
  }

  // The string without its quotes.
  function Unquoted(s: CStr, x: nat, c: nat): seq<Byte>
    requires x <= c <= |s|
  {
    if c == x then [] else Unquoted(s, x, c - 1) + if s[c - 1] == QUOTE then [] else [s[c - 1]]
  }

  lemma {:induction false} JoinSnoc(fs: seq<CStr>, c: Byte, f: CStr)
    requires |fs| >= 1
    ensures Join(fs + [f], c) == Join(fs, c) + [c] + f
  {
    if |fs| == 1 {
      assert fs + [f] == [fs[0], f];
      assert (fs + [f])[1..] == [f];
    } else {
      JoinSnoc(fs[1..], c, f);
      assert (fs + [f])[1..] == fs[1..] + [f];
    }
  }

  lemma JoinAddChar(fs: seq<CStr>, c: Byte, ch: Byte)
    requires |fs| >= 1
    ensures Join(AddChar(fs, ch), c) == Join(fs, c) + [ch]
  {
    var front, f := fs[..|fs| - 1], fs[|fs| - 1];
    if front == [] {
      assert fs == [f] && AddChar(fs, ch) == [f + [ch]];
    } else {
      JoinSnoc(front, c, f);
      JoinSnoc(front, c, f + [ch]);
      assert fs == front + [f] && AddChar(fs, ch) == front + [f + [ch]];
      assert Join(front, c) + [c] + (f + [ch]) == Join(front, c) + [c] + f + [ch];
    }
  }

  // The arguments, joined by spaces, are the rest of the line without its quotes: quoted spaces are kept.
  lemma {:induction false} ArgsJoin(s: CStr, c0: nat, c: nat)
    requires c0 < c <= |s| && s[c0] == SPACE
    ensures |ScanTo(s, c0, c).args| >= 1 && Join(ScanTo(s, c0, c).args, SPACE) == Unquoted(s, c0 + 1, c)
    decreases c
  {
    if c > c0 + 1 {
      ArgsJoin(s, c0, c - 1);
      var p, ch := ScanTo(s, c0, c - 1), s[c - 1];
      if ch == SPACE && !p.quoted {
        JoinSnoc(p.args, SPACE, []);
      } else if ch != QUOTE {
        JoinAddChar(p.args, SPACE, ch);
      }
    } else {
      assert ScanTo(s, c0, c0) == Scan([], false);
    }
  }

  lemma {:induction false} ScanQuoted(s: CStr, c0: nat, c: nat)
    requires c0 <= c <= |s|
    ensures ScanTo(s, c0, c).quoted <==> !EvenQuotes(s, c0, c)
    decreases c
  {
    if c0 < c {
      ScanQuoted(s, c0, c - 1);
      NextEven(s, c0, c);
    }
  }

  // There is one argument for each open space from the first space on.
  lemma {:induction false} ArgsAre(s: CStr, c0: nat, c: nat)
    requires c0 <= c <= |s| && (c0 < |s| ==> s[c0] == SPACE)
    ensures |ScanTo(s, c0, c).args| == |OpenSpaces(s, c0, c)|
    decreases c
  {
    if c0 < c {
      ArgsAre(s, c0, c - 1);
      ScanQuoted(s, c0, c - 1);
      OpenSpacesNext(s, c0, c);
    }
  }

  // The argument of an open space x is what lies behind it up to the next one, y, or to the end,
  // without the quotes.
  lemma {:induction false} ArgBetween(s: CStr, c0: nat, x: nat, y: nat, c: nat)
    requires c0 <= x < y <= c <= |s| && OpenSpace(s, c0, x) && (y < c ==> OpenSpace(s, c0, y))
    requires forall z: nat :: x < z < y ==> !OpenSpace(s, c0, z)
    ensures var k, args := |ScanTo(s, c0, x).args|, ScanTo(s, c0, c).args;
      k < |args| && args[k] == Unquoted(s, x + 1, y) && (y == c <==> |args| == k + 1)
    decreases c
  {
    ScanQuoted(s, c0, c - 1);
    if c > x + 1 {
      assert y == c ==> !OpenSpace(s, c0, c - 1);
      ArgBetween(s, c0, x, if y == c then c - 1 else y, c - 1);
    }
  }

  // Quotes before the first space are not looked at again. If it is unquoted, the arguments are as many
  // as parseArgsNum counts; if not, every space counts for exactly one of the two.
  lemma {:induction false} ArgsCount(s: CStr, c0: nat, c: nat)
    requires c0 <= c <= |s| && Seek(s, SPACE, 0) == c0
    ensures ScanTo(s, c0, c).quoted == (QuotedAt(s, c) != QuotedAt(s, c0))
    ensures |ScanTo(s, c0, c).args| + (if QuotedAt(s, c0) then Breaks(s, c) else 0)
      == if QuotedAt(s, c0) then Spaces(s, c) else Breaks(s, c)
    decreases c
  {
    if c == c0 {
      NoSpaces(s, c0, c0);
    } else {
      ArgsCount(s, c0, c - 1);
    }
  }

  lemma {:induction false} NoSpaces(s: CStr, c0: nat, x: nat)
    requires x <= c0 <= |s| && Seek(s, SPACE, 0) == c0
    ensures Spaces(s, x) == 0 && Breaks(s, x) == 0
  {
    SeekIs(s, SPACE, 0, c0);
    if x > 0 { NoSpaces(s, c0, x - 1); }
  }

  // The table of addresses has exactly one slot for each argument if and only if the first space
  // is not quoted, or half of the spaces are.
  lemma SlotsIff(s: CStr, c0: nat)
    requires c0 < |s| && Seek(s, SPACE, 0) == c0
    ensures |Args(s, c0)| == Breaks(s, |s|) <==> !QuotedAt(s, c0) || Spaces(s, |s|) == 2 * Breaks(s, |s|)
  {
    ArgsCount(s, c0, |s|);
  }

  // A line whose only space is quoted: there is one argument, but no slot for it.
  lemma QuotedFirstSpace()
    ensures var s: CStr := [QUOTE, 97, SPACE, 98, QUOTE];
      Seek(s, SPACE, 0) == 2 && Breaks(s, |s|) == 0 && Args(s, 2) == [[98 as Byte]]
  {
    var s: CStr := [QUOTE, 97, SPACE, 98, QUOTE];
    SeekIs(s, SPACE, 0, 2);
    assert ScanTo(s, 2, 2) == Scan([], false);
    assert ScanTo(s, 2, 3) == Scan([[]], false);
    var none: CStr := [];
    assert AddChar([none], 98) == [[98]] by { assert none + [98] == [98]; }
    assert ScanTo(s, 2, 4) == Scan([[98]], false);
    assert !QuotedAt(s, 0);
    assert QuotedAt(s, 1);
    assert QuotedAt(s, 2);
    assert Breaks(s, 1) == 0;
    assert Breaks(s, 2) == 0;
    assert Breaks(s, 3) == 0;
    assert Breaks(s, 4) == 0;
  }

  // --- The layout ---------------------------------------------------------------------------

  // Where argument k begins in the buffer: behind a byte for each space and the arguments before.
  function Offset(args: seq<CStr>, k: nat): nat
    requires k <= |args|
  {
    if k == 0 then 1 else Offset(args, k - 1) + |args[k - 1]| + 1
  }

  // The buffer's bytes up to the last one that counts.
  function Total(args: seq<CStr>): nat { Offset(args, |args|) - 1 }

  lemma {:induction false} OffsetSame(a: seq<CStr>, b: seq<CStr>, k: nat)
    requires k <= |a| && k <= |b| && forall j :: 0 <= j < k ==> |a[j]| == |b[j]|
    ensures Offset(a, k) == Offset(b, k)
  {
    if k > 0 { OffsetSame(a, b, k - 1); }
  }

  lemma {:induction false} OffsetsGrow(args: seq<CStr>, j: nat, k: nat)
    requires j < k <= |args|
    ensures Offset(args, j) + |args[j]| + 1 <= Offset(args, k)
  {
    if j < k - 1 { OffsetsGrow(args, j, k - 1); }
  }

  // The argument a at position o, with a NUL behind it. If it is empty, its NUL is not written.
  ghost predicate Placed(buf: seq<Byte>, init: seq<Byte>, o: nat, a: CStr) {
    && |buf| == |init| && o + |a| < |buf|
    && if a == [] then buf[o] == init[o] else buf[o..o + |a|] == a && buf[o + |a|] == 0
  }

  ghost predicate AllPlaced(buf: seq<Byte>, init: seq<Byte>, args: seq<CStr>) {
    forall k: nat :: k < |args| ==> PlacedAt(buf, init, args, k)
  }

  ghost predicate PlacedAt(buf: seq<Byte>, init: seq<Byte>, args: seq<CStr>, k: nat) {
    k < |args| && Placed(buf, init, Offset(args, k), args[k])
  }

  // Nothing is written from position o on.
  ghost predicate UntouchedFrom(buf: seq<Byte>, init: seq<Byte>, o: nat) {
    |buf| == |init| && forall j :: o <= j < |buf| ==> buf[j] == init[j]
  }

  lemma PlaceCharAt(buf: seq<Byte>, init: seq<Byte>, args: seq<CStr>, ch: Byte, d: nat, k: nat)
    requires k < |args| && d == Offset(args, |args| - 1) + |args[|args| - 1]| && d + 1 < |buf| == |init|
    requires Placed(buf, init, Offset(args, k), args[k])
    ensures Placed(buf[d := ch][d + 1 := 0], init, Offset(args, k), AddChar(args, ch)[k])
  {
    var n := |args| - 1;
    if k < n {
      OffsetsGrow(args, k, n);
      PlacedKept(buf, buf[d := ch][d + 1 := 0], init, Offset(args, k), args[k], d);
    } else {
      PlacedLonger(buf, init, Offset(args, n), args[n], ch, d);
    }
  }

  lemma TotalAdded(args: seq<CStr>, ch: Byte)
    requires args != []
    ensures |AddChar(args, ch)| == |args| && Total(AddChar(args, ch)) == Total(args) + 1
    ensures Total(args) == Offset(args, |args| - 1) + |args[|args| - 1]|
  {
    var args', n := AddChar(args, ch), |args| - 1;
    OffsetSame(args, args', n);
    assert |args'[n]| == |args[n]| + 1;
  }

  // The next character of the last argument, at the end of the buffer.
  lemma PlaceChar(buf: seq<Byte>, init: seq<Byte>, args: seq<CStr>, ch: Byte, d: nat)
    requires args != [] && AllPlaced(buf, init, args) && |buf| == |init| && d == Total(args) && d + 1 < |buf|
    ensures Total(AddChar(args, ch)) == d + 1 && AllPlaced(buf[d := ch][d + 1 := 0], init, AddChar(args, ch))
  {
    var args', buf' := AddChar(args, ch), buf[d := ch][d + 1 := 0];
    TotalAdded(args, ch);
    forall k: nat | k < |args'| ensures PlacedAt(buf', init, args', k) {
      OffsetSame(args, args', k);
      assert PlacedAt(buf, init, args, k);
      PlaceCharAt(buf, init, args, ch, d, k);
    }
  }

  lemma PlacedKept(buf: seq<Byte>, buf': seq<Byte>, init: seq<Byte>, o: nat, a: CStr, d: nat)
    requires Placed(buf, init, o, a) && |buf'| == |buf| && o + |a| < d
    requires forall j :: 0 <= j < d && j < |buf| ==> buf'[j] == buf[j]
    ensures Placed(buf', init, o, a)
  {
    if a != [] {
      assert buf'[o..o + |a|] == buf[o..o + |a|];
    }
  }

  lemma PlacedLonger(buf: seq<Byte>, init: seq<Byte>, o: nat, a: CStr, ch: Byte, d: nat)
    requires Placed(buf, init, o, a) && d == o + |a| && d + 1 < |buf|
    ensures Placed(buf[d := ch][d + 1 := 0], init, o, a + [ch])
  {
    var buf' := buf[d := ch][d + 1 := 0];
    assert buf'[o..d] == buf[o..d] == a;
    assert buf'[o..d + 1] == buf'[o..d] + [buf'[d]];
  }

  // A new, empty argument begins one byte further.
  lemma PlaceNext(buf: seq<Byte>, init: seq<Byte>, args: seq<CStr>)
    requires AllPlaced(buf, init, args) && |buf| == |init| && Total(args) + 1 < |buf|
    requires UntouchedFrom(buf, init, Total(args) + 1)
    ensures var args' := args + [[]];
      && Total(args') == Total(args) + 1 && Offset(args', |args|) == Total(args) + 1
      && AllPlaced(buf, init, args') && UntouchedFrom(buf, init, Total(args') + 1)
  {
    var args' := args + [[]];
    OffsetSame(args, args', |args|);
    forall k: nat | k < |args'| ensures PlacedAt(buf, init, args', k) {
      OffsetSame(args, args', k);
      assert k < |args| ==> PlacedAt(buf, init, args, k);
    }
  }

  // The slots hold the addresses of the arguments behind the table of n addresses at base.
  ghost predicate SlotsFilled(slots: seq<Word>, base: nat, n: nat, args: seq<CStr>) {
    |args| <= |slots| && forall k: nat :: k < |args| ==> SlotAt(slots, base, n, args, k)
  }

  ghost predicate SlotAt(slots: seq<Word>, base: nat, n: nat, args: seq<CStr>, k: nat) {
    k < |args| && k < |slots| && slots[k] == base + 4 * n + Offset(args, k)
  }

  lemma SlotsKept(slots: seq<Word>, base: nat, n: nat, args: seq<CStr>, args': seq<CStr>)
    requires SlotsFilled(slots, base, n, args) && |args'| == |args|
    requires forall j :: 0 <= j < |args| - 1 ==> args'[j] == args[j]
    ensures SlotsFilled(slots, base, n, args')
  {
    forall k: nat | k < |args| ensures SlotAt(slots, base, n, args', k) {
      OffsetSame(args, args', k);
      assert SlotAt(slots, base, n, args, k);
    }
  }

  lemma SlotAdded(slots: seq<Word>, base: nat, n: nat, args: seq<CStr>, a: Word)
    requires SlotsFilled(slots, base, n, args) && |args| < |slots| && a == base + 4 * n + Total(args) + 1
    ensures SlotsFilled(slots[|args| := a], base, n, args + [[]])
  {
    var args', slots' := args + [[]], slots[|args| := a];
    forall k: nat | k < |args'| ensures SlotAt(slots', base, n, args', k) {
      OffsetSame(args, args', k);
      assert k < |args| ==> SlotAt(slots, base, n, args, k);
    }
  }

  // The table and the strings after the characters up to c.
  ghost predicate Laid(s: CStr, c0: nat, c: nat, slots: seq<Word>, buf: seq<Byte>, init: seq<Byte>, base: nat, n: nat,
                       i: nat, d: nat, apice: bool) {
    && c0 <= c <= |s| && |buf| == |init| == |s| + 1 && d <= c - c0
    && var p := ScanTo(s, c0, c);
    && apice == p.quoted && i == |p.args| && d == Total(p.args) && (c > c0 ==> p.args != [])
    && AllPlaced(buf, init, p.args) && UntouchedFrom(buf, init, d + 1) && SlotsFilled(slots, base, n, p.args)
  }

  lemma LaidQuote(s: CStr, c0: nat, c: nat, slots: seq<Word>, buf: seq<Byte>, init: seq<Byte>, base: nat, n: nat,
                  i: nat, d: nat, apice: bool)
    requires Laid(s, c0, c, slots, buf, init, base, n, i, d, apice) && c0 < c < |s| && s[c] == QUOTE
    ensures Laid(s, c0, c + 1, slots, buf, init, base, n, i, d, !apice)
  {}

  lemma LaidSpace(s: CStr, c0: nat, c: nat, slots: seq<Word>, buf: seq<Byte>, init: seq<Byte>, base: nat, n: nat,
                  i: nat, d: nat, a: Word)
    requires Laid(s, c0, c, slots, buf, init, base, n, i, d, false) && c < |s| && s[c] == SPACE
    requires i < |slots| && a == base + 4 * n + d + 1
    ensures Laid(s, c0, c + 1, slots[i := a], buf, init, base, n, i + 1, d + 1, false)
  {
    var args := ScanTo(s, c0, c).args;
    assert ScanTo(s, c0, c + 1).args == args + [[]];
    PlaceNext(buf, init, args);
    SlotAdded(slots, base, n, args, a);
  }

  lemma LaidChar(s: CStr, c0: nat, c: nat, slots: seq<Word>, buf: seq<Byte>, init: seq<Byte>, base: nat, n: nat,
                 i: nat, d: nat, apice: bool)
    requires Laid(s, c0, c, slots, buf, init, base, n, i, d, apice) && c0 < c < |s| && s[c] != QUOTE
    requires (s[c] != SPACE || apice)
    ensures d + 1 < |buf| && Laid(s, c0, c + 1, slots, buf[d := s[c]][d + 1 := 0], init, base, n, i, d + 1, apice)
  {
    var args := ScanTo(s, c0, c).args;
    var args' := AddChar(args, s[c]);
    assert ScanTo(s, c0, c + 1).args == args';
    PlaceChar(buf, init, args, s[c], d);
    SlotsKept(slots, base, n, args, args');
  }

  lemma {:induction false} ArgsGrow(s: CStr, c0: nat, c: nat, e: nat)
    requires c0 <= c <= e <= |s|
    ensures |ScanTo(s, c0, c).args| <= |ScanTo(s, c0, e).args|
    decreases e
  {
    if c < e { ArgsGrow(s, c0, c, e - 1); }
  }

  // One character. It overruns the table if it begins an argument that has no slot.
  method LayChar(s: CStr, ghost c0: nat, c: nat, slots: array<Word>, buffer: array<Byte>, ghost init: seq<Byte>,
                 segment: Word, n: nat, i: nat, d: nat, apice: bool)
    returns (overrun: bool, i': nat, d': nat, apice': bool)
    requires slots as object != buffer && slots.Length == n && c < |s| && segment + 4 * n + d + 2 < WORD
    requires (c == c0 ==> s[c] == SPACE)
    requires Laid(s, c0, c, slots[..], buffer[..], init, segment, n, i, d, apice)
    modifies slots, buffer
    ensures overrun ==> |ScanTo(s, c0, c + 1).args| > n
    ensures !overrun ==> Laid(s, c0, c + 1, slots[..], buffer[..], init, segment, n, i', d', apice')
  {
    overrun, i', d', apice' := false, i, d, apice;
    if s[c] == QUOTE {
      LaidQuote(s, c0, c, slots[..], buffer[..], init, segment, n, i, d, apice);
      apice' := !apice;
      return;
    }
    if s[c] == SPACE && !apice {
      if i == n {
        overrun := true;
        return;
      }
      LaySlot(slots, i, segment + 4 * n + d + 1, buffer);
      LaidSpace(s, c0, c, old(slots[..]), buffer[..], init, segment, n, i, d, segment + 4 * n + d + 1);
      i' := i + 1;
    } else {
      LaidChar(s, c0, c, slots[..], buffer[..], init, segment, n, i, d, apice);
      LayByte(buffer, d, s[c], slots);
    }
    d' := d + 1;
  }

  method LaySlot(slots: array<Word>, i: nat, a: Word, buffer: array<Byte>)
    requires i < slots.Length && slots as object != buffer
    modifies slots
    ensures slots[..] == old(slots[..])[i := a] && buffer[..] == old(buffer[..])
  {
    slots[i] := a;
  }

  method LayByte(buffer: array<Byte>, d: nat, ch: Byte, slots: array<Word>)
    requires d + 1 < buffer.Length && slots as object != buffer
    modifies buffer
    ensures buffer[..] == old(buffer[..])[d := ch][d + 1 := 0] && slots[..] == old(slots[..])
  {
    buffer[d] := ch;
    buffer[d + 1] := 0;
  }

  // The loop over the line from its first space on.
  method LayAll(s: CStr, c0: nat, slots: array<Word>, buffer: array<Byte>, segment: Word) returns (overrun: bool,
                i: nat, d: nat)
    requires slots as object != buffer && c0 < |s| && s[c0] == SPACE && buffer.Length == |s| + 1
    requires segment + 4 * slots.Length + |s| + 2 < WORD
    modifies slots, buffer
    ensures overrun <==> |Args(s, c0)| > slots.Length
    ensures !overrun ==>
      && i == |Args(s, c0)|
      && Laid(s, c0, |s|, slots[..], buffer[..], old(buffer[..]), segment, slots.Length, i, d,
              ScanTo(s, c0, |s|).quoted)
  {
    ghost var init := buffer[..];
    var c, apice := c0, false;
    overrun, i, d := false, 0, 0;
    LaidStart(s, c0, slots[..], init, segment, slots.Length);
    ghost var table, strings := slots[..], init;
    while c < |s|
      invariant c0 <= c <= |s| && d <= c - c0 && table == slots[..] && strings == buffer[..]
      invariant Laid(s, c0, c, table, strings, init, segment, slots.Length, i, d, apice)
    {
      overrun, i, d, apice := LayChar(s, c0, c, slots, buffer, init, segment, slots.Length, i, d, apice);
      if overrun {
        ArgsGrow(s, c0, c + 1, |s|);
        return;
      }
      table, strings := slots[..], buffer[..];
      c := c + 1;
    }
    LaidEnd(s, c0, table, strings, init, segment, slots.Length, i, d, apice);
  }

  lemma LaidStart(s: CStr, c0: nat, slots: seq<Word>, init: seq<Byte>, base: nat, n: nat)
    requires c0 <= |s| && |init| == |s| + 1
    ensures Laid(s, c0, c0, slots, init, init, base, n, 0, 0, false)
  {
    assert ScanTo(s, c0, c0) == Scan([], false);
  }

  lemma LaidEnd(s: CStr, c0: nat, slots: seq<Word>, buf: seq<Byte>, init: seq<Byte>, base: nat, n: nat, i: nat,
                d: nat, apice: bool)
    requires c0 <= |s| && Laid(s, c0, |s|, slots, buf, init, base, n, i, d, apice)
    ensures i == |Args(s, c0)| <= |slots| && apice == ScanTo(s, c0, |s|).quoted
  {}

  // parseAndLoadArgs, up to the copies into the task's memory. `segment` is the end of the data
  // segment. With more arguments than slots the table's block is overrun.
  method ParseAndLoadArgs(s: CStr, segment: Word)
    returns (overrun: bool, argc: nat, slots: array<Word>, buffer: array<Byte>, d: nat, ghost init: seq<Byte>)
    requires segment + 5 * |s| + 2 < WORD
    ensures Seek(s, SPACE, 0) + 1 >= |s| ==> argc == 0 && !overrun
    ensures var c0 := Seek(s, SPACE, 0);
      c0 + 1 < |s| ==> argc == Breaks(s, |s|) == slots.Length && (overrun <==> |Args(s, c0)| > argc)
    ensures var c0 := Seek(s, SPACE, 0);
      c0 + 1 < |s| && !overrun ==>
        Laid(s, c0, |s|, slots[..], buffer[..], init, segment, argc, |Args(s, c0)|, d, ScanTo(s, c0, |s|).quoted)
  {
    var n := ParseArgsNum(s);
    BreaksFew(s, |s|);
    slots := new Word[n];
    buffer := new Byte[|s| + 1];
    overrun, argc, d, init := false, n, 0, buffer[..];
    var c := 0;
    while c < |s| && s[c] != SPACE
      invariant c <= |s| && Seek(s, SPACE, 0) == Seek(s, SPACE, c)
    {
      c := c + 1;
    }
    if c == |s| || c + 1 == |s| {
      argc := 0;
      return;
    }
    var i;
    overrun, i, d := LayAll(s, c, slots, buffer, segment);
  }

  lemma {:induction false} BreaksFew(s: CStr, x: nat)
    requires x <= |s|
    ensures Breaks(s, x) <= x
  {
    if x > 0 { BreaksFew(s, x - 1); }
  }

  // --- What the task finds ------------------------------------------------------------------

  function SlotBytes(slots: seq<Word>): (bs: seq<Byte>)
    ensures |bs| == 4 * |slots|
  {
    if slots == [] then [] else SlotBytes(slots[..|slots| - 1]) + WordBytes(slots[|slots| - 1])
  }

  // The bytes that go to the end of the data segment.
  function Image(slots: seq<Word>, buf: seq<Byte>, d: nat): seq<Byte>
    requires d < |buf|
  {
    SlotBytes(slots) + buf[..d + 1]
  }

  lemma {:induction false} SlotRead(slots: seq<Word>, rest: seq<Byte>, k: nat)
    requires k < |slots|
    ensures WordAt(SlotBytes(slots) + rest, 4 * k) == slots[k]
  {
    var front, last := slots[..|slots| - 1], WordBytes(slots[|slots| - 1]);
    assert SlotBytes(slots) + rest == SlotBytes(front) + (last + rest);
    if k < |front| {
      SlotRead(front, last + rest, k);
    } else {
      var mem := SlotBytes(front) + (last + rest);
      WordRoundTrip(slots[k]);
      assert mem[4 * k] == last[0] && mem[4 * k + 1] == last[1];
      assert mem[4 * k + 2] == last[2] && mem[4 * k + 3] == last[3];
    }
  }

  // If there are as many slots as arguments, each slot holds the address of its argument, which is
  // inside the range, behind the table, and ends with a NUL if it is not empty.
  lemma Argv(s: CStr, c0: nat, slots: seq<Word>, buf: seq<Byte>, init: seq<Byte>, base: nat, d: nat, apice: bool,
             k: nat)
    requires c0 <= |s| && Laid(s, c0, |s|, slots, buf, init, base, |slots|, |slots|, d, apice)
    requires k < |slots| && Args(s, c0)[k] != []
    ensures d < |buf|
    ensures var m, a := Image(slots, buf, d), Args(s, c0)[k];
      var o := WordAt(m, 4 * k) - base;
      4 * |slots| < o && o + |a| < |m| && m[o..o + |a|] == a && m[o + |a|] == 0
  {
    var args := Args(s, c0);
    var a := args[k];
    assert PlacedAt(buf, init, args, k) && SlotAt(slots, base, |slots|, args, k);
    OffsetsGrow(args, k, |args|);
    var m, o := Image(slots, buf, d), Offset(args, k);
    SlotRead(slots, buf[..d + 1], k);
    ImageTail(slots, buf, d, o, o + |a|);
  }

  lemma ImageTail(slots: seq<Word>, buf: seq<Byte>, d: nat, i: nat, j: nat)
    requires i <= j <= d < |buf|
    ensures var m, n := Image(slots, buf, d), 4 * |slots|;
      |m| == n + d + 1 && m[n + i..n + j] == buf[i..j] && m[n + j] == buf[j]
  {
    var m, n := Image(slots, buf, d), 4 * |slots|;
    forall x | i <= x <= j ensures m[n + x] == buf[x] {
      assert m[n + x] == buf[..d + 1][x];
    }
  }

  // The arguments lie one behind the other.
  lemma ArgsApart(s: CStr, c0: nat, slots: seq<Word>, buf: seq<Byte>, init: seq<Byte>, base: nat, d: nat, apice: bool,
                  j: nat, k: nat)
    requires c0 <= |s| && Laid(s, c0, |s|, slots, buf, init, base, |slots|, |slots|, d, apice) && j < k < |slots|
    ensures slots[j] + |Args(s, c0)[j]| < slots[k]
  {
    var args := Args(s, c0);
    assert SlotAt(slots, base, |slots|, args, j) && SlotAt(slots, base, |slots|, args, k);
    OffsetsGrow(args, j, k);
  }

  // An empty argument has no terminator of its own: its byte is what the heap block held before.
  lemma EmptyArgument(s: CStr, c0: nat, slots: seq<Word>, buf: seq<Byte>, init: seq<Byte>, base: nat, d: nat,
                      apice: bool, k: nat)
    requires c0 <= |s| && Laid(s, c0, |s|, slots, buf, init, base, |slots|, |slots|, d, apice)
    requires k < |slots| && Args(s, c0)[k] == []
    ensures var o := slots[k] - base - 4 * |slots|; 0 < o < |buf| && buf[o] == init[o]
  {
    var args := Args(s, c0);
    assert PlacedAt(buf, init, args, k) && SlotAt(slots, base, |slots|, args, k);
    OffsetsGrow(args, k, |args|);
  }
}
