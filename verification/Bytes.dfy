/** Bytes, options and the byte-string search shared by the other modules. */
module Bytes {

  type Byte = b: int | 0 <= b < 256

  datatype Option<+T> = None | Some(value: T)

  datatype Result<+T, +E> = Ok(value: T) | Err(error: E)

  const CR: Byte := 13
  const LF: Byte := 10

  /** `pattern` occurs in `data` at index `i`. */
  predicate OccursAt(data: seq<Byte>, pattern: seq<Byte>, i: nat) {
    i + |pattern| <= |data| && data[i..i + |pattern|] == pattern
  }

  lemma OccursOne(s: seq<Byte>, b: Byte, i: nat)
    ensures OccursAt(s, [b], i) <==> i < |s| && s[i] == b
  {
    if i < |s| { assert s[i..i + 1] == [s[i]]; }
  }

  /** The first occurrence of `pattern` at or after `from`. */
  function Find(data: seq<Byte>, pattern: seq<Byte>, from: nat): (r: Option<nat>)
    requires from <= |data|
    ensures r.Some? ==> from <= r.value <= r.value + |pattern| <= |data| && OccursAt(data, pattern, r.value)
    ensures r.Some? ==> forall i: nat | from <= i < r.value :: !OccursAt(data, pattern, i)
    ensures r.None? ==> forall i: nat | from <= i :: !OccursAt(data, pattern, i)
    decreases |data| - from
  {
    if OccursAt(data, pattern, from) then Some(from)
    else if from == |data| then None
    else Find(data, pattern, from + 1)
  }

  /** Occurrences before the end of `a` are not disturbed by what follows `a`. */
  lemma OccursInPrefix(a: seq<Byte>, b: seq<Byte>, pattern: seq<Byte>, i: nat)
    requires i + |pattern| <= |a|
    ensures OccursAt(a + b, pattern, i) <==> OccursAt(a, pattern, i)
  {
    assert (a + b)[i..i + |pattern|] == a[i..i + |pattern|];
  }

  /** A first occurrence stays the first occurrence when bytes arrive behind it. */
  lemma FindInPrefix(a: seq<Byte>, b: seq<Byte>, pattern: seq<Byte>)
    requires Find(a, pattern, 0).Some?
    ensures Find(a + b, pattern, 0) == Find(a, pattern, 0)
  {
    var k := Find(a, pattern, 0).value;
    FindIs(a + b, pattern, k) by {
      OccursInPrefix(a, b, pattern, k);
      forall i: nat | i < k ensures !OccursAt(a + b, pattern, i) {
        OccursInPrefix(a, b, pattern, i);
      }
    }
  }

  /** `Find` is determined by being the first occurrence. */
  lemma FindIs(data: seq<Byte>, pattern: seq<Byte>, k: nat)
    requires OccursAt(data, pattern, k)
    requires forall i: nat | i < k :: !OccursAt(data, pattern, i)
    ensures Find(data, pattern, 0) == Some(k)
  {
    var r := Find(data, pattern, 0);
    assert r.Some? && !(k < r.value);
  }

  /** A first occurrence inside `a` is the first occurrence of `a` alone. */
  lemma FindInFront(a: seq<Byte>, b: seq<Byte>, pattern: seq<Byte>)
    requires Find(a + b, pattern, 0).Some? && Find(a + b, pattern, 0).value + |pattern| <= |a|
    ensures Find(a, pattern, 0) == Find(a + b, pattern, 0)
  {
    OccursInPrefix(a, b, pattern, Find(a + b, pattern, 0).value);
    FindInPrefix(a, b, pattern);
  }

  /** Searching from an offset is searching the rest from its start. */
  lemma FindShift(data: seq<Byte>, pattern: seq<Byte>, from: nat)
    requires from <= |data|
    ensures var whole, rest := Find(data, pattern, from), Find(data[from..], pattern, 0);
            whole == if rest.Some? then Some(from + rest.value) else None
  {
    var rest := Find(data[from..], pattern, 0);
    forall i: nat | from <= i
      ensures OccursAt(data, pattern, i) <==> OccursAt(data[from..], pattern, i - from)
    {
      if i + |pattern| <= |data| {
        assert data[from..][i - from..i - from + |pattern|] == data[i..i + |pattern|];
      }
    }
    assert rest.Some? ==> OccursAt(data, pattern, from + rest.value);
  }

  predicate IsDigit(b: Byte) { 0x30 <= b <= 0x39 }

  predicate AllDigits(s: seq<Byte>) { forall i | 0 <= i < |s| :: IsDigit(s[i]) }

  /** The number written by decimal digits, leading zeros allowed. */
  function DigitsValue(s: seq<Byte>): (r: nat)
    requires AllDigits(s)
  {
    if s == [] then 0 else DigitsValue(s[..|s| - 1]) * 10 + (s[|s| - 1] as int - 0x30)
  }

  predicate IsHexDigit(b: Byte) {
    0x30 <= b <= 0x39 || 0x41 <= b <= 0x46 || 0x61 <= b <= 0x66
  }

  function HexDigitValue(b: Byte): (r: nat)
    requires IsHexDigit(b)
    ensures r < 16
  {
    if b <= 0x39 then b as int - 0x30 else if b <= 0x46 then b as int - 0x37 else b as int - 0x57
  }

  /** The value of a hexadecimal digit of either case. */
  function Nibble(b: Byte): (r: Option<nat>)
    ensures r.Some? <==> IsHexDigit(b)
    ensures r.Some? ==> r.value < 16
  {
    if IsHexDigit(b) then Some(HexDigitValue(b)) else None
  }

  /** ASCII lower case. */
  function LowerByte(b: Byte): Byte { if 0x41 <= b <= 0x5a then b + 0x20 else b }

  function Lower(s: seq<Byte>): (r: seq<Byte>)
    ensures |r| == |s|
  {
    seq(|s|, i requires 0 <= i < |s| => LowerByte(s[i]))
  }

  /** The concatenation of pieces. */
  function Flatten(pieces: seq<seq<Byte>>): seq<Byte> {
    if pieces == [] then [] else pieces[0] + Flatten(pieces[1..])
  }

  /** The bytes of an ASCII literal. */
  function Ascii(s: string): seq<Byte> {
    seq(|s|, i requires 0 <= i < |s| => if s[i] < 128 as char then s[i] as int else 0x3f)
  }
}
