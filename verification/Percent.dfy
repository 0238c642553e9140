/** Percent-encoding of secret bytes, section 2.1 of RFC 3986. */
module Percent {

  import opened Bytes

  const PERCENT: Byte := 0x25

  predicate Unreserved(b: Byte) {
    IsDigit(b) || 0x41 <= b <= 0x5a || 0x61 <= b <= 0x7a || b == 0x2d || b == 0x2e || b == 0x5f || b == 0x7e
  }

  function UpperDigit(n: nat): Byte
    requires n < 16
  {
    if n < 10 then 0x30 + n else 0x37 + n
  }

  function EncodeByte(b: Byte): seq<Byte> {
    if Unreserved(b) then [b] else [PERCENT, UpperDigit(b / 16), UpperDigit(b % 16)]
  }

  function Encode(bytes: seq<Byte>): seq<Byte> {
    if bytes == [] then [] else EncodeByte(bytes[0]) + Encode(bytes[1..])
  }

  lemma {:induction false} EncodeSnoc(bytes: seq<Byte>, b: Byte)
    ensures Encode(bytes + [b]) == Encode(bytes) + EncodeByte(b)
    decreases |bytes|
  {
    hide EncodeByte;
    if bytes == [] {
      assert (bytes + [b])[1..] == [] && bytes + [b] == [b];
      assert EncodeByte(b) + [] == EncodeByte(b) && [] + EncodeByte(b) == EncodeByte(b);
    } else {
      assert (bytes + [b])[1..] == bytes[1..] + [b];
      EncodeSnoc(bytes[1..], b);
    }
  }

  /** The loop that pushes one byte or one escape at a time. */
  method PercentEncode(bytes: seq<Byte>) returns (encoded: seq<Byte>)
    ensures encoded == Encode(bytes)
  {
    hide Unreserved;
    encoded := [];
    for i := 0 to |bytes|
      invariant encoded == Encode(bytes[..i])
    {
      assert bytes[..i + 1] == bytes[..i] + [bytes[i]];
      EncodeSnoc(bytes[..i], bytes[i]);
      if Unreserved(bytes[i]) {
        encoded := encoded + [bytes[i]];
      } else {
        encoded := encoded + [PERCENT] + [UpperDigit(bytes[i] / 16)] + [UpperDigit(bytes[i] % 16)];
      }
    }
    assert bytes[..|bytes|] == bytes;
  }

  /** Decoding: every escape gives its byte, every other byte itself. */
  function Decode(s: seq<Byte>): Option<seq<Byte>>
    decreases |s|
  {
    if s == [] then Some([])
    else if s[0] != PERCENT then
      var rest := Decode(s[1..]);
      if rest.Some? then Some([s[0]] + rest.value) else None
    else if |s| < 3 || Nibble(s[1]).None? || Nibble(s[2]).None? then None
    else
      var rest := Decode(s[3..]);
      var b := Nibble(s[1]).value * 16 + Nibble(s[2]).value;
      if rest.Some? && b < 256 then Some([b] + rest.value) else None
  }

  lemma {:induction false} DecodeEncode(bytes: seq<Byte>)
    ensures Decode(Encode(bytes)) == Some(bytes)
    decreases |bytes|
  {
    if bytes != [] {
      var b, rest := bytes[0], Encode(bytes[1..]);
      DecodeEncode(bytes[1..]);
      var s := EncodeByte(b) + rest;
      if Unreserved(b) {
        assert s[1..] == rest;
      } else {
        assert s[3..] == rest && s[1] == UpperDigit(b / 16) && s[2] == UpperDigit(b % 16);
        assert Nibble(s[1]).value * 16 + Nibble(s[2]).value == b;
      }
      assert [b] + bytes[1..] == bytes;
    }
  }

  predicate Plain(b: Byte) { Unreserved(b) || b == PERCENT }

  lemma {:induction false} EncodeIsPlain(bytes: seq<Byte>)
    ensures forall i | 0 <= i < |Encode(bytes)| :: Plain(Encode(bytes)[i])
    decreases |bytes|
  {
    if bytes != [] { EncodeIsPlain(bytes[1..]); }
  }
}
