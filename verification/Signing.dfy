/** The webhook signing form, its signatures and their verification. */
module Signing {

  import opened Bytes
  import opened Decimal

  datatype SigningInput = SigningInput(timestamp: int, deliveryId: seq<Byte>, body: seq<Byte>)

  const PREFIX := Ascii("bondry-webhook-v1\n")

  // ---------------------------------------------------------------- canonical form

  function Canonical(x: SigningInput): seq<Byte> {
    PREFIX + (PrintInt(x.timestamp) + [LF]
      + (Print(|x.deliveryId|) + [LF] + (x.deliveryId + [LF] + (Print(|x.body|) + [LF] + x.body))))
  }

  /** Appends the form piece by piece. */
  method CanonicalWebhookBytes(x: SigningInput) returns (result: seq<Byte>)
    ensures result == Canonical(x)
  {
    result := PREFIX;
    result := result + PrintInt(x.timestamp);
    result := result + [LF];
    result := result + Print(|x.deliveryId|);
    result := result + [LF];
    result := result + x.deliveryId;
    result := result + [LF];
    result := result + Print(|x.body|);
    result := result + [LF];
    result := result + x.body;
  }

  /** The pieces the signer streams into the MAC. */
  function Pieces(x: SigningInput): seq<seq<Byte>> {
    [PREFIX, PrintInt(x.timestamp), [LF], Print(|x.deliveryId|), [LF], x.deliveryId, [LF], Print(|x.body|), [LF],
     x.body]
  }

  /** Streaming the pieces feeds the MAC exactly the canonical form. */
  lemma PiecesAreCanonical(x: SigningInput)
    ensures Flatten(Pieces(x)) == Canonical(x)
  {
    var body := Print(|x.body|) + [LF] + x.body;
    var id := x.deliveryId + [LF] + body;
    var ids := Print(|x.deliveryId|) + [LF] + id;
    var p7 := [Print(|x.body|), [LF], x.body];
    var p5 := [x.deliveryId, [LF]] + p7;
    var p3 := [Print(|x.deliveryId|), [LF]] + p5;
    var p1 := [PrintInt(x.timestamp), [LF]] + p3;
    FlattenTwo(Print(|x.body|), [LF], [x.body]);
    assert Flatten([x.body]) == x.body by { assert [x.body][1..] == []; }
    FlattenTwo(x.deliveryId, [LF], p7);
    FlattenTwo(Print(|x.deliveryId|), [LF], p5);
    FlattenTwo(PrintInt(x.timestamp), [LF], p3);
    assert p7 == [Print(|x.body|), [LF]] + [x.body];
    assert Pieces(x) == [PREFIX] + p1;
    assert Pieces(x)[1..] == p1;
  }

  lemma FlattenTwo(a: seq<Byte>, b: seq<Byte>, rest: seq<seq<Byte>>)
    ensures Flatten([a, b] + rest) == a + b + Flatten(rest)
  {
    assert ([a, b] + rest)[1..] == [b] + rest && ([b] + rest)[1..] == rest;
    assert Flatten([b] + rest) == b + Flatten(rest);
    assert a + (b + Flatten(rest)) == a + b + Flatten(rest);
  }

  /** A field that cannot hold a line feed is delimited by the next one. */
  lemma CutAtLineFeed(a: seq<Byte>, u: seq<Byte>, b: seq<Byte>, v: seq<Byte>)
    requires LF !in a && LF !in b
    requires a + [LF] + u == b + [LF] + v
    ensures a == b && u == v
  {
    var whole := a + [LF] + u;
    assert whole[|a|] == LF && whole[|b|] == LF;
    assert forall i | 0 <= i < |a| :: whole[i] == a[i] && a[i] != LF;
    assert forall i | 0 <= i < |b| :: whole[i] == b[i] && b[i] != LF;
    assert a == whole[..|a|] == b;
    assert u == whole[|a| + 1..] == v;
  }

  lemma PrintHasNoLineFeed(n: nat)
    ensures LF !in Print(n)
  {
  }

  /** A length-prefixed field is recovered whatever bytes it holds. */
  lemma CutField(a: seq<Byte>, u: seq<Byte>, b: seq<Byte>, v: seq<Byte>)
    requires Print(|a|) + [LF] + (a + u) == Print(|b|) + [LF] + (b + v)
    ensures a == b && u == v
  {
    PrintHasNoLineFeed(|a|);
    PrintHasNoLineFeed(|b|);
    CutAtLineFeed(Print(|a|), a + u, Print(|b|), b + v);
    ValueOfPrint(|a|);
    ValueOfPrint(|b|);
    assert a == (a + u)[..|a|] == b;
    assert u == (a + u)[|a|..] == v;
  }

  /** Different inputs never share a canonical form, over all timestamps, ids and bodies. */
  lemma CanonicalInjective(x: SigningInput, y: SigningInput)
    requires Canonical(x) == Canonical(y)
    ensures x == y
  {
    var bodyX, bodyY := Print(|x.body|) + [LF] + x.body, Print(|y.body|) + [LF] + y.body;
    var restX := Print(|x.deliveryId|) + [LF] + (x.deliveryId + [LF] + bodyX);
    var restY := Print(|y.deliveryId|) + [LF] + (y.deliveryId + [LF] + bodyY);
    var n := |PREFIX|;
    assert PrintInt(x.timestamp) + [LF] + restX == Canonical(x)[n..] == PrintInt(y.timestamp) + [LF] + restY;
    NoLineFeed(x.timestamp);
    NoLineFeed(y.timestamp);
    CutAtLineFeed(PrintInt(x.timestamp), restX, PrintInt(y.timestamp), restY);
    PrintIntInjective(x.timestamp, y.timestamp);
    assert x.deliveryId + [LF] + bodyX == x.deliveryId + ([LF] + bodyX);
    assert y.deliveryId + [LF] + bodyY == y.deliveryId + ([LF] + bodyY);
    CutField(x.deliveryId, [LF] + bodyX, y.deliveryId, [LF] + bodyY);
    assert bodyX == ([LF] + bodyX)[1..] == bodyY;
    assert x.body + [] == x.body && y.body + [] == y.body;
    CutField(x.body, [], y.body, []);
  }

  // ---------------------------------------------------------------- signatures

  const MAC_BYTES := 32

  type Tag = s: seq<Byte> | |s| == MAC_BYTES witness seq(MAC_BYTES, _ => 0)

  /** HMAC-SHA-256 as any function of key and message. */
  type Hmac = (seq<Byte>, seq<Byte>) -> Tag

  datatype Secrets = Secrets(current: seq<Byte>, previous: Option<seq<Byte>>)

  /** The streaming signer: every component is fed to the MAC in turn. */
  method SignComponents(hmac: Hmac, key: seq<Byte>, components: seq<seq<Byte>>) returns (tag: Tag)
    ensures tag == hmac(key, Flatten(components))
  {
    var message: seq<Byte> := [];
    for i := 0 to |components|
      invariant message + Flatten(components[i..]) == Flatten(components)
    {
      assert components[i..][1..] == components[i + 1..];
      message := message + components[i];
    }
    assert components[|components|..] == [] && message + [] == message;
    tag := hmac(key, message);
  }

  function Signed(hmac: Hmac, key: seq<Byte>, x: SigningInput): Tag { hmac(key, Canonical(x)) }

  method Sign(hmac: Hmac, key: seq<Byte>, x: SigningInput) returns (tag: Tag)
    ensures tag == Signed(hmac, key, x)
  {
    PiecesAreCanonical(x);
    tag := SignComponents(hmac, key, Pieces(x));
  }

  predicate Accepts(hmac: Hmac, secrets: Secrets, x: SigningInput, candidate: Tag) {
    candidate == Signed(hmac, secrets.current, x)
    || (secrets.previous.Some? && candidate == Signed(hmac, secrets.previous.value, x))
  }

  method VerifyWebhook(hmac: Hmac, secrets: Secrets, x: SigningInput, candidate: Tag) returns (matched: bool)
    ensures matched <==> Accepts(hmac, secrets, x, candidate)
  {
    var current := Sign(hmac, secrets.current, x);
    matched := current == candidate;
    if secrets.previous.Some? {
      var previous := Sign(hmac, secrets.previous.value, x);
      matched := matched || previous == candidate;
    }
  }

  /** Any of several candidates, against either secret, over streamed components. */
  method VerifyHmacSha256(hmac: Hmac, secrets: Secrets, components: seq<seq<Byte>>, candidates: seq<Tag>)
    returns (matched: bool)
    ensures matched <==> || hmac(secrets.current, Flatten(components)) in candidates
                         || (secrets.previous.Some? && hmac(secrets.previous.value, Flatten(components)) in candidates)
  {
    var current := SignComponents(hmac, secrets.current, components);
    matched := false;
    for i := 0 to |candidates|
      invariant matched <==> current in candidates[..i]
    {
      assert candidates[..i + 1] == candidates[..i] + [candidates[i]];
      matched := matched || current == candidates[i];
    }
    assert candidates[..|candidates|] == candidates;
    if secrets.previous.Some? {
      var previous := SignComponents(hmac, secrets.previous.value, components);
      var before := matched;
      for i := 0 to |candidates|
        invariant matched <==> before || previous in candidates[..i]
      {
        assert candidates[..i + 1] == candidates[..i] + [candidates[i]];
        matched := matched || previous == candidates[i];
      }
    }
  }

  /**
   * A signature is bound to its timestamp, delivery id and body: it verifies for another input only
   * if the MAC itself collides on the two canonical forms.
   */
  lemma SignatureIsBound(hmac: Hmac, key: seq<Byte>, signed: SigningInput, presented: SigningInput)
    requires hmac(key, Canonical(signed)) == hmac(key, Canonical(presented))
      ==> Canonical(signed) == Canonical(presented)
    ensures Accepts(hmac, Secrets(key, None), presented, Signed(hmac, key, signed)) <==> presented == signed
    ensures forall newer :: Accepts(hmac, Secrets(newer, Some(key)), signed, Signed(hmac, key, signed))
  {
    if Canonical(signed) == Canonical(presented) { CanonicalInjective(signed, presented); }
  }

  // ---------------------------------------------------------------- hexadecimal

  function HexDigit(n: nat): Byte
    requires n < 16
  {
    if n < 10 then 0x30 + n else 0x57 + n
  }

  function ToHex(bytes: seq<Byte>): (s: seq<Byte>)
    ensures |s| == 2 * |bytes|
  {
    if bytes == [] then []
    else ToHex(bytes[..|bytes| - 1]) + [HexDigit(bytes[|bytes| - 1] / 16), HexDigit(bytes[|bytes| - 1] % 16)]
  }

  method TagToHex(tag: Tag) returns (encoded: seq<Byte>)
    ensures encoded == ToHex(tag)
  {
    encoded := [];
    for i := 0 to |tag|
      invariant encoded == ToHex(tag[..i])
    {
      assert tag[..i + 1][..i] == tag[..i];
      encoded := encoded + [HexDigit(tag[i] / 16)] + [HexDigit(tag[i] % 16)];
    }
    assert tag[..|tag|] == tag;
  }

  lemma EmptyHex(value: seq<Byte>)
    ensures ToHex([]) == Lower(value[..0])
  {
  }

  lemma HexPair(value: seq<Byte>, i: nat, tag: seq<Byte>, b: Byte)
    requires 2 * i + 2 <= |value| && ToHex(tag) == Lower(value[..2 * i])
    requires Nibble(value[2 * i]).Some? && Nibble(value[2 * i + 1]).Some?
    requires b == Nibble(value[2 * i]).value * 16 + Nibble(value[2 * i + 1]).value
    ensures ToHex(tag + [b]) == Lower(value[..2 * (i + 1)])
  {
    var high, low := value[2 * i], value[2 * i + 1];
    assert b / 16 == Nibble(high).value && b % 16 == Nibble(low).value;
    assert (tag + [b])[..|tag|] == tag;
    assert value[..2 * i + 2] == value[..2 * i] + [high, low];
    assert Lower(value[..2 * i] + [high, low]) == Lower(value[..2 * i]) + Lower([high, low]);
    assert Lower([high, low]) == [HexDigit(b / 16), HexDigit(b % 16)];
  }

  /** The parser accepts exactly the spellings of a tag in 64 hexadecimal digits of either case. */
  method TagFromHex(value: seq<Byte>) returns (r: Option<Tag>)
    ensures r.Some? <==> |value| == 64 && forall i | 0 <= i < 64 :: IsHexDigit(value[i])
    ensures r.Some? ==> ToHex(r.value) == Lower(value)
  {
    hide ToHex, Lower;
    if |value| != 64 { return None; }
    var tag: seq<Byte> := [];
    EmptyHex(value);
    for i := 0 to 32
      invariant |tag| == i && ToHex(tag) == Lower(value[..2 * i])
      invariant forall j | 0 <= j < 2 * i :: IsHexDigit(value[j])
    {
      var high, low := Nibble(value[2 * i]), Nibble(value[2 * i + 1]);
      if high.None? || low.None? { return None; }
      var b: Byte := high.value * 16 + low.value;
      HexPair(value, i, tag, b);
      tag := tag + [b];
    }
    assert value[..64] == value;
    r := Some(tag);
  }

  lemma {:induction false} ToHexInjective(a: seq<Byte>, b: seq<Byte>)
    requires ToHex(a) == ToHex(b)
    ensures a == b
    decreases |a|
  {
    if a != [] {
      var n := |a| - 1;
      var s := ToHex(a);
      assert ToHex(a[..n]) == s[..2 * n] == ToHex(b[..n]);
      ToHexInjective(a[..n], b[..n]);
      assert s[2 * n] == HexDigit(a[n] / 16) == HexDigit(b[n] / 16)
        && s[2 * n + 1] == HexDigit(a[n] % 16) == HexDigit(b[n] % 16);
      assert a[n] == b[n];
      assert a == a[..n] + [a[n]] && b == b[..n] + [b[n]];
    }
  }

  /** Written signatures parse, and only the tag that was written can come back. */
  lemma HexRoundTrip(tag: Tag, parsed: Tag)
    requires ToHex(parsed) == Lower(ToHex(tag))
    ensures |ToHex(tag)| == 64 && (forall i | 0 <= i < 64 :: IsHexDigit(ToHex(tag)[i])) && parsed == tag
  {
    LowerOnHex(tag);
    assert Lower(ToHex(tag)) == ToHex(tag);
    ToHexInjective(parsed, tag);
  }

  lemma {:induction false} LowerOnHex(bytes: seq<Byte>)
    ensures forall i | 0 <= i < |ToHex(bytes)| :: IsHexDigit(ToHex(bytes)[i]) && !(0x41 <= ToHex(bytes)[i] <= 0x46)
    decreases |bytes|
  {
    if bytes != [] { LowerOnHex(bytes[..|bytes| - 1]); }
  }
}
