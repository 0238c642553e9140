/** The stored form of a current secret and the previous one kept through a rotation. */
module SecretEnvelope {

  import opened Bytes

  const VERSION: Byte := 1
  const MAX_SECRET_BYTES := 1024
  const U32_LIMIT := 0x1_0000_0000

  datatype Resolved = Resolved(current: seq<Byte>, previous: Option<seq<Byte>>)

  predicate ValidBytes(secret: seq<Byte>) { 1 <= |secret| <= MAX_SECRET_BYTES }

  predicate ValidResolved(m: Resolved) {
    ValidBytes(m.current) && (m.previous.Some? ==> ValidBytes(m.previous.value))
  }

  /** `n` in `k` bytes, the highest first. */
  function BigEndian(n: nat, k: nat): (r: seq<Byte>)
    ensures |r| == k
  {
    if k == 0 then [] else BigEndian(n / 256, k - 1) + [n % 256]
  }

  function FromBigEndian(bytes: seq<Byte>): nat {
    if bytes == [] then 0 else FromBigEndian(bytes[..|bytes| - 1]) * 256 + bytes[|bytes| - 1] as int
  }

  /** How many numbers fit in `k` bytes. */
  function Room(k: nat): nat { if k == 0 then 1 else Room(k - 1) * 256 }

  lemma {:induction false} NumberRoundTrip(n: nat, k: nat)
    requires n < Room(k)
    ensures FromBigEndian(BigEndian(n, k)) == n
  {
    if k != 0 {
      NumberRoundTrip(n / 256, k - 1);
      assert BigEndian(n, k)[..k - 1] == BigEndian(n / 256, k - 1);
    }
  }

  lemma {:induction false} BytesRoundTrip(b: seq<Byte>)
    ensures FromBigEndian(b) < Room(|b|) && BigEndian(FromBigEndian(b), |b|) == b
    decreases |b|
  {
    if b != [] {
      var front, last := b[..|b| - 1], b[|b| - 1] as int;
      BytesRoundTrip(front);
      var n := FromBigEndian(front);
      assert (n * 256 + last) / 256 == n && (n * 256 + last) % 256 == last;
      assert front + [last] == b;
    }
  }

  function Field(bytes: seq<Byte>): seq<Byte>
    requires |bytes| < U32_LIMIT
  {
    BigEndian(|bytes|, 4) + bytes
  }

  function PreviousBytes(m: Resolved): seq<Byte> { if m.previous.Some? then m.previous.value else [] }

  function Encode(m: Resolved): seq<Byte>
    requires ValidResolved(m)
  {
    [VERSION] + (Field(m.current) + Field(PreviousBytes(m)))
  }

  /** A length and that many bytes taken off the front, with what remains. */
  function TakeField(s: seq<Byte>): Option<(seq<Byte>, seq<Byte>)> {
    if |s| < 4 then None
    else
      var n := FromBigEndian(s[..4]);
      if |s| < 4 + n then None else Some((s[4..4 + n], s[4 + n..]))
  }

  function Decode(data: seq<Byte>): Option<Resolved> {
    if data == [] || data[0] != VERSION then None
    else match TakeField(data[1..])
      case None => None
      case Some((current, rest)) => DecodePrevious(current, rest)
  }

  function DecodePrevious(current: seq<Byte>, rest: seq<Byte>): Option<Resolved> {
    match TakeField(rest)
    case None => None
    case Some((previous, tail)) =>
      var m := Resolved(current, if previous == [] then None else Some(previous));
      if tail == [] && ValidResolved(m) then Some(m) else None
  }

  lemma TakeFieldOf(bytes: seq<Byte>, rest: seq<Byte>)
    requires |bytes| < U32_LIMIT
    ensures TakeField(Field(bytes) + rest) == Some((bytes, rest))
  {
    hide BigEndian, FromBigEndian;
    var s := Field(bytes) + rest;
    assert Room(4) == U32_LIMIT;
    NumberRoundTrip(|bytes|, 4);
    assert s[..4] == BigEndian(|bytes|, 4);
    assert s[4..4 + |bytes|] == bytes && s[4 + |bytes|..] == rest;
  }

  lemma TakenField(s: seq<Byte>)
    requires TakeField(s).Some?
    ensures var (bytes, rest) := TakeField(s).value; |bytes| < U32_LIMIT && s == Field(bytes) + rest
  {
    hide BigEndian, FromBigEndian;
    assert Room(4) == U32_LIMIT;
    BytesRoundTrip(s[..4]);
    var n := FromBigEndian(s[..4]);
    assert s == s[..4] + s[4..4 + n] + s[4 + n..];
  }

  lemma DecodeEncode(m: Resolved)
    requires ValidResolved(m)
    ensures Decode(Encode(m)) == Some(m)
  {
    hide TakeField, Field;
    var data := Encode(m);
    assert data[1..] == Field(m.current) + Field(PreviousBytes(m));
    TakeFieldOf(m.current, Field(PreviousBytes(m)));
    TakeFieldOf(PreviousBytes(m), []);
    assert Field(PreviousBytes(m)) + [] == Field(PreviousBytes(m));
  }

  lemma EncodeDecode(data: seq<Byte>)
    requires Decode(data).Some?
    ensures ValidResolved(Decode(data).value) && Encode(Decode(data).value) == data
  {
    hide TakeField, Field;
    var m := Decode(data).value;
    assert data == [VERSION] + data[1..];
    TakenField(data[1..]);
    var rest := TakeField(data[1..]).value.1;
    TakenField(rest);
    assert Field(PreviousBytes(m)) + [] == Field(PreviousBytes(m));
  }

  /** The stored strings are exactly the encodings: each means one secret pair, and each pair has one string. */
  lemma EnvelopeIsExact(data: seq<Byte>, m: Resolved)
    ensures Decode(data) == Some(m) <==> ValidResolved(m) && Encode(m) == data
  {
    hide TakeField, Field, Decode, Encode;
    if Decode(data) == Some(m) { EncodeDecode(data); }
    if ValidResolved(m) { DecodeEncode(m); }
  }

  // ---------------------------------------------------------------- the buffer and the cursor

  method EncodeEnvelope(m: Resolved) returns (r: seq<Byte>)
    requires ValidResolved(m)
    ensures r == Encode(m)
  {
    hide BigEndian;
    r := [VERSION];
    r := r + BigEndian(|m.current|, 4);
    r := r + m.current;
    r := r + BigEndian(if m.previous.Some? then |m.previous.value| else 0, 4);
    if m.previous.Some? {
      r := r + m.previous.value;
    }
  }

  method ReadData(length: nat, data: seq<Byte>, cursor: nat) returns (value: Option<seq<Byte>>, next: nat)
    requires cursor <= |data|
    ensures cursor <= next <= |data|
    ensures value.Some? <==> length <= |data| - cursor
    ensures if value.Some? then next == cursor + length && value.value == data[cursor..next] else next == cursor
  {
    if cursor + length > |data| { return None, cursor; }
    return Some(data[cursor..cursor + length]), cursor + length;
  }

  method ReadLength(data: seq<Byte>, cursor: nat) returns (value: Option<nat>, next: nat)
    requires cursor <= |data|
    ensures cursor <= next <= |data|
    ensures value.Some? <==> 4 <= |data| - cursor
    ensures if value.Some? then next == cursor + 4 && value.value == FromBigEndian(data[cursor..next])
            else next == cursor
  {
    var bytes;
    bytes, next := ReadData(4, data, cursor);
    if bytes.None? { return None, next; }
    var total, i := 0, 0;
    while i < 4
      invariant 0 <= i <= 4 && total == FromBigEndian(bytes.value[..i])
    {
      assert bytes.value[..i + 1][..i] == bytes.value[..i];
      total, i := total * 256 + bytes.value[i] as int, i + 1;
    }
    assert bytes.value[..4] == bytes.value;
    return Some(total), next;
  }

  /** One field read at the cursor is the field taken off what the cursor has not passed. */
  lemma FieldAt(data: seq<Byte>, cursor: nat)
    requires cursor + 4 <= |data|
    ensures var n := FromBigEndian(data[cursor..cursor + 4]);
            TakeField(data[cursor..]) == if cursor + 4 + n > |data| then None
              else Some((data[cursor + 4..cursor + 4 + n], data[cursor + 4 + n..]))
  {
    hide FromBigEndian;
    var s, n := data[cursor..], FromBigEndian(data[cursor..cursor + 4]);
    assert s[..4] == data[cursor..cursor + 4];
    if 4 + n <= |s| {
      assert s[4..4 + n] == data[cursor + 4..cursor + 4 + n] && s[4 + n..] == data[cursor + 4 + n..];
    }
  }

  method DecodeEnvelope(data: seq<Byte>) returns (r: Option<Resolved>)
    ensures r == Decode(data)
  {
    hide FromBigEndian;
    if data == [] || data[0] != VERSION { return None; }
    var cursor := 1;
    var currentLength, current, previousLength;
    currentLength, cursor := ReadLength(data, cursor);
    if currentLength.None? { return None; }
    FieldAt(data, 1);
    current, cursor := ReadData(currentLength.value, data, cursor);
    if current.None? { return None; }
    ghost var second := cursor;
    previousLength, cursor := ReadLength(data, cursor);
    if previousLength.None? { return None; }
    FieldAt(data, second);
    var previous: Option<seq<Byte>> := None;
    if previousLength.value != 0 {
      previous, cursor := ReadData(previousLength.value, data, cursor);
      if previous.None? { return None; }
    }
    if cursor != |data| { return None; }
    assert data[cursor..] == [];
    var m := Resolved(current.value, previous);
    r := if ValidResolved(m) then Some(m) else None;
  }
}
