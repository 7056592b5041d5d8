// The string routines of the kernel that the path walk is made of. A char pointer that is only
// read is the byte sequence before its NUL; a buffer that is filled is an array.
module CStrings {
  import opened Machine

  // The bytes before the NUL. Where it matters that no byte is NUL, it is asked for.
  type CStr = seq<Byte>

  // --- What the routines mean ---------------------------------------------------------------

  // The first c in s at x or after it; |s| if there is none.
  function Seek(s: CStr, c: Byte, x: nat): (k: nat)
    requires x <= |s|
    ensures x <= k <= |s| && (k < |s| ==> s[k] == c)
    decreases |s| - x
  {
    if x == |s| || s[x] == c then x else Seek(s, c, x + 1)
  }

  lemma {:induction false} SeekIs(s: CStr, c: Byte, x: nat, k: nat)
    requires x <= k <= |s|
    ensures Seek(s, c, x) == k <==> (forall j :: x <= j < k ==> s[j] != c) && (k < |s| ==> s[k] == c)
    decreases |s| - x
  {
    if x < |s| && s[x] != c && x < k {
      SeekIs(s, c, x + 1, k);
    }
  }

  // The fields of s from x on, between its separators c.
  function FieldsFrom(s: CStr, c: Byte, x: nat): (fs: seq<CStr>)
    requires x <= |s|
    ensures |fs| >= 1
    decreases |s| - x
  {
    var k := Seek(s, c, x);
    if k == |s| then [s[x..]] else [s[x..k]] + FieldsFrom(s, c, k + 1)
  }

  function Fields(s: CStr, c: Byte): seq<CStr> { FieldsFrom(s, c, 0) }

  function Join(fs: seq<CStr>, c: Byte): seq<Byte>
    requires |fs| >= 1
  {
    if |fs| == 1 then fs[0] else fs[0] + [c] + Join(fs[1..], c)
  }

  // The index of the occurrence number i of c from x on, counted from 0, or -1.
  function NthFrom(s: CStr, c: Byte, x: nat, i: nat): (r: int)
    requires x <= |s|
    ensures r == -1 || x <= r < |s|
    decreases |s| - x
  {
    var k := Seek(s, c, x);
    if k == |s| then -1 else if i == 0 then k else NthFrom(s, c, k + 1, i - 1)
  }

  function Nth(s: CStr, c: Byte, i: nat): int { NthFrom(s, c, 0, i) }

  function Cut(s: CStr, max: nat): CStr { if |s| <= max then s else s[..max] }

  // What split finds: field i, except that field 0 of a string with no separator counts as
  // missing.
  function SplitField(s: CStr, c: Byte, i: nat): (bool, CStr) {
    var fs := Fields(s, c);
    if i < |fs| && (i == 0 ==> |fs| > 1) then (true, fs[i]) else (false, [])
  }

  // Joining all fields rebuilds the string.
  lemma {:induction false} JoinFields(s: CStr, c: Byte, x: nat)
    requires x <= |s|
    ensures Join(FieldsFrom(s, c, x), c) == s[x..]
    decreases |s| - x
  {
    var k := Seek(s, c, x);
    if k < |s| {
      assert FieldsFrom(s, c, x) == [s[x..k]] + FieldsFrom(s, c, k + 1);
      JoinFields(s, c, k + 1);
      JoinCons(s[x..k], c, FieldsFrom(s, c, k + 1));
      Around(s, x, k);
    }
  }

  lemma Around(s: CStr, x: nat, k: nat)
    requires x <= k < |s|
    ensures s[x..] == s[x..k] + [s[k]] + s[k + 1..]
  {}

  lemma JoinCons(f: CStr, c: Byte, fs: seq<CStr>)
    requires |fs| >= 1
    ensures Join([f] + fs, c) == f + [c] + Join(fs, c)
  {
    assert ([f] + fs)[1..] == fs;
  }

  lemma {:induction false} FieldsFree(s: CStr, c: Byte, x: nat, i: nat)
    requires x <= |s| && i < |FieldsFrom(s, c, x)|
    ensures c !in FieldsFrom(s, c, x)[i]
    decreases |s| - x
  {
    var k := Seek(s, c, x);
    SeekIs(s, c, x, k);
    if k < |s| && i > 0 {
      FieldsFree(s, c, k + 1, i - 1);
    }
  }

  lemma FirstJoined(s: CStr, c: Byte, x: nat, fs: seq<CStr>)
    requires x <= |s| && |fs| >= 1 && Join(fs, c) == s[x..]
    ensures var k := x + |fs[0]|;
      && k <= |s| && s[x..k] == fs[0]
      && (|fs| == 1 ==> k == |s|)
      && (|fs| > 1 ==> k < |s| && s[k] == c && Join(fs[1..], c) == s[k + 1..])
  {
    var k, t := x + |fs[0]|, s[x..];
    assert t[..|fs[0]|] == fs[0];
    if |fs| > 1 {
      assert t[|fs[0]|] == c;
      assert t[|fs[0]| + 1..] == Join(fs[1..], c);
    }
  }

  lemma FirstEnds(s: CStr, c: Byte, x: nat, f: CStr)
    requires x + |f| <= |s| && s[x..x + |f|] == f && c !in f && (x + |f| < |s| ==> s[x + |f|] == c)
    ensures Seek(s, c, x) == x + |f|
  {
    forall j | x <= j < x + |f| ensures s[j] != c {
      assert s[j] == s[x..x + |f|][j - x];
    }
    SeekIs(s, c, x, x + |f|);
  }

  // No other separator-free fields join to the same string.
  lemma {:induction false} FieldsUnique(s: CStr, c: Byte, x: nat, fs: seq<CStr>)
    requires x <= |s| && |fs| >= 1 && Join(fs, c) == s[x..]
    requires forall i :: 0 <= i < |fs| ==> c !in fs[i]
    ensures FieldsFrom(s, c, x) == fs
    decreases |fs|
  {
    FirstJoined(s, c, x, fs);
    FirstEnds(s, c, x, fs[0]);
    if |fs| > 1 {
      FieldsUnique(s, c, x + |fs[0]| + 1, fs[1..]);
      assert fs == [fs[0]] + fs[1..];
    } else {
      assert fs == [fs[0]];
    }
  }

  lemma {:induction false} FieldsCount(s: CStr, c: Byte, x: nat)
    requires x <= |s|
    ensures |FieldsFrom(s, c, x)| <= |s| - x + 1
    decreases |s| - x
  {
    var k := Seek(s, c, x);
    if k < |s| { FieldsCount(s, c, k + 1); }
  }

  lemma {:induction false} NthExists(s: CStr, c: Byte, x: nat, i: nat)
    requires x <= |s|
    ensures NthFrom(s, c, x, i) >= 0 <==> i + 1 < |FieldsFrom(s, c, x)|
    decreases |s| - x
  {
    var k := Seek(s, c, x);
    if k < |s| && i > 0 {
      NthExists(s, c, k + 1, i - 1);
    }
  }

  // Where field i begins and ends: behind the separator before it, and at the next one or at the end.
  function FieldStart(s: CStr, c: Byte, x: nat, i: nat): nat
    requires x <= |s|
  {
    if i == 0 then x else NthFrom(s, c, x, i - 1) + 1
  }

  function FieldStop(s: CStr, c: Byte, x: nat, i: nat): nat
    requires x <= |s|
  {
    if NthFrom(s, c, x, i) < 0 then |s| else NthFrom(s, c, x, i)
  }

  lemma NextField(s: CStr, c: Byte, x: nat, i: nat)
    requires x <= |s| && Seek(s, c, x) < |s| && 0 < i < |FieldsFrom(s, c, x)|
    ensures var next := Seek(s, c, x) + 1;
      && FieldsFrom(s, c, x)[i] == FieldsFrom(s, c, next)[i - 1]
      && FieldStart(s, c, x, i) == FieldStart(s, c, next, i - 1)
      && FieldStop(s, c, x, i) == FieldStop(s, c, next, i - 1)
  {}

  lemma {:induction false} FieldBetween(s: CStr, c: Byte, x: nat, i: nat, from: nat, to: nat)
    requires x <= |s| && i < |FieldsFrom(s, c, x)|
    requires from == FieldStart(s, c, x, i) && to == FieldStop(s, c, x, i)
    ensures x <= from <= to <= |s| && FieldsFrom(s, c, x)[i] == s[from..to]
    decreases |s| - x
  {
    var k := Seek(s, c, x);
    if k < |s| && i > 0 {
      NextField(s, c, x, i);
      FieldBetween(s, c, k + 1, i - 1, from, to);
    }
  }

  // Field i lies between two consecutive separators, or runs to the end of the string.
  lemma FieldSpan(s: CStr, c: Byte, x: nat, i: nat)
    requires x <= |s| && i < |FieldsFrom(s, c, x)|
    ensures var from, to := FieldStart(s, c, x, i), FieldStop(s, c, x, i);
      x <= from <= to <= |s| && FieldsFrom(s, c, x)[i] == s[from..to]
  {
    FieldBetween(s, c, x, i, FieldStart(s, c, x, i), FieldStop(s, c, x, i));
  }

  // --- The routines -------------------------------------------------------------------------

  // The buffer holds the string s and its NUL.
  predicate Text(buffer: seq<Byte>, s: CStr) {
    0 !in s && |s| < |buffer| && buffer[..|s|] == s && buffer[|s|] == 0
  }

  method StrLen(a: array<Byte>, ghost s: CStr) returns (n: nat)
    requires Text(a[..], s)
    ensures n == |s|
  {
    n := 0;
    assert forall k :: 0 <= k < |s| ==> a[k] == a[..][..|s|][k] == s[k];
    while a[n] != 0
      invariant n <= |s|
      decreases |s| - n
    {
      n := n + 1;
    }
  }

  // i counts down; the scan stops at the occurrence number i or at the end.
  method FindChar(s: CStr, c: Byte, i: nat) returns (r: int)
    requires |s| < 0x8000_0000 && i + 1 < WORD
    ensures r == Nth(s, c, i)
  {
    var left, x := i + 1, 0;
    if |s| == 0 {
      return -1;
    }
    while true
      invariant x <= |s| && (x == |s| ==> left != 0)
      invariant left > 0
      invariant Nth(s, c, i) == NthFrom(s, c, x, left - 1)
      invariant x < |s|
      decreases |s| - x
    {
      if s[x] == c {
        left := left - 1;
      }
      x := x + 1;
      if !(x < |s| && left != 0) {
        break;
      }
    }
    if left != 0 {
      return -1;
    }
    return x - 1;
  }

  function SubText(s: CStr, max: nat, start: nat, count: int): CStr
    requires start < |s| ==> start + count <= |s|
  {
    if start >= |s| then [] else Cut(s[start..if count < 0 then |s| else start + count], max)
  }

  // A negative count means up to the end; at most max bytes are copied, and then a NUL.
  method SubStr(s: CStr, out: array<Byte>, max: nat, start: nat, count: int)
    requires 0 !in s && |s| < 0x8000_0000 && max < out.Length
    requires start < |s| ==> start + count <= |s|
    modifies out
    ensures Text(out[..], SubText(s, max, start, count))
  {
    var n := count;
    if n < 0 {
      n := |s| - start;
    }
    if start >= |s| {
      out[0] := 0;
      return;
    }
    if n > max {
      n := max;
    }
    var i := 0;
    while n > 0
      invariant 0 <= n && i + n <= max && start + i + n <= |s|
      invariant i + n == Min(if count < 0 then |s| - start else count, max)
      invariant out[..i] == s[start..start + i]
    {
      out[i] := s[start + i];
      i, n := i + 1, n - 1;
    }
    out[i] := 0;
    assert s[start..start + i] == SubText(s, max, start, count);
  }

  // What the arguments that split computes for substr select. The count is negative exactly for
  // the last field.
  lemma SplitSelects(s: CStr, c: Byte, max: nat, i: nat)
    ensures i == 0 ==> var index := Nth(s, c, 0);
      && (SplitField(s, c, i).0 <==> index >= 0)
      && (index >= 0 ==> SubText(s, max, 0, index) == Cut(SplitField(s, c, i).1, max))
    ensures i > 0 ==> var index, medius := Nth(s, c, i - 1), Nth(s, c, i);
      && (SplitField(s, c, i).0 <==> index >= 0)
      && (index >= 0 ==>
            var count := (if medius < 0 then 0 else medius) - index - 1;
            && (medius < 0 ==> count < 0) && (medius >= 0 ==> 0 <= count && index + 1 + count <= |s|)
            && SubText(s, max, index + 1, count) == Cut(SplitField(s, c, i).1, max))
  {
    NthExists(s, c, 0, i);
    if i > 0 { NthExists(s, c, 0, i - 1); }
    if i < |Fields(s, c)| { FieldSpan(s, c, 0, i); }
  }

  method Split(s: CStr, out: array<Byte>, max: nat, c: Byte, i: nat) returns (r: int)
    requires 0 !in s && |s| < 0x8000_0000 && i + 1 < WORD && max < out.Length
    modifies out
    ensures var (found, field) := SplitField(s, c, i);
      && (found ==> r == |Cut(field, max)| && Text(out[..], Cut(field, max)))
      && (!found ==> r == -1 && (i == 0 ==> out[..] == old(out[..])) && (i > 0 ==> Text(out[..], [])))
  {
    ghost var field := Cut(SplitField(s, c, i).1, max);
    SplitSelects(s, c, max, i);
    if i == 0 {
      var index := FindChar(s, c, 0);
      if index < 0 {
        return index;
      }
      SubStr(s, out, max, 0, index);
      r := StrLen(out, field);
      return;
    }
    var index := FindChar(s, c, i - 1);
    if index < 0 {
      out[0] := 0;
      return index;
    }
    var medius := FindChar(s, c, i);
    if medius < 0 {
      medius := medius + 1;
    }
    SubStr(s, out, max, index + 1, medius - index - 1);
    r := StrLen(out, field);
  }

  // *s - *t at the first difference; 0 exactly for equal strings.
  method StrCmp(s: CStr, t: CStr) returns (r: int)
    requires 0 !in s && 0 !in t
    ensures r == 0 <==> s == t
  {
    var k := 0;
    while k < |s| && k < |t| && s[k] == t[k]
      invariant k <= |s| && k <= |t| && s[..k] == t[..k]
    {
      k := k + 1;
    }
    var a: int := if k < |s| then s[k] else 0;
    var b: int := if k < |t| then t[k] else 0;
    r := a - b;
    if k == |s| && k == |t| {
      assert s == s[..k] == t[..k] == t;
    }
  }
}
