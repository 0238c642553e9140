/** The byte formats the programs exchange or keep, told by position and character. */
module WireFormats {

  import opened Bytes
  import opened Decimal
  import opened Splitting
  import Backoff
  import McpClient
  import Percent
  import SecretEnvelope
  import Signing

  // ---------------------------------------------------------------- the signed text

  /** The signed text is six lines, the last of them the body, whatever bytes it holds. */
  lemma SignedLines(x: Signing.SigningInput)
    ensures Signing.Canonical(x) ==
            Join([Ascii("bondry-webhook-v1"), PrintInt(x.timestamp), Print(|x.deliveryId|), x.deliveryId,
                  Print(|x.body|), x.body], LF)
  {
    hide Print, PrintInt;
    var lines :=
      [Ascii("bondry-webhook-v1"), PrintInt(x.timestamp), Print(|x.deliveryId|), x.deliveryId, Print(|x.body|), x.body];
    PrefixIsName();
    assert lines[5..] == [x.body] && lines[4..][1..] == lines[5..] && lines[3..][1..] == lines[4..];
    assert lines[2..][1..] == lines[3..] && lines[1..][1..] == lines[2..];
    assert Join(lines[4..], LF) == Print(|x.body|) + [LF] + x.body;
    assert Join(lines[3..], LF) == x.deliveryId + [LF] + Join(lines[4..], LF);
    assert Join(lines[2..], LF) == Print(|x.deliveryId|) + [LF] + Join(lines[3..], LF);
    assert Join(lines[1..], LF) == PrintInt(x.timestamp) + [LF] + Join(lines[2..], LF);
    assert Join(lines, LF) == Ascii("bondry-webhook-v1") + [LF] + Join(lines[1..], LF);
  }

  lemma PrefixIsName()
    ensures Signing.PREFIX == Ascii("bondry-webhook-v1") + [LF]
  {
  }

  /** Each byte of a tag is two digits, the high one first, in lower case. */
  lemma {:induction false} HexAt(bytes: seq<Byte>, i: nat)
    requires i < |bytes|
    ensures var digits := Ascii("0123456789abcdef");
            && Signing.ToHex(bytes)[2 * i] == digits[bytes[i] / 16]
            && Signing.ToHex(bytes)[2 * i + 1] == digits[bytes[i] % 16]
    decreases |bytes|
  {
    hide Signing.HexDigit, Ascii;
    var n := |bytes| - 1;
    LowerDigitAt(bytes[i] / 16);
    LowerDigitAt(bytes[i] % 16);
    assert |Signing.ToHex(bytes[..n])| == 2 * n;
    if i < n { HexAt(bytes[..n], i); }
  }

  lemma LowerDigitAt(n: nat)
    requires n < 16
    ensures |Ascii("0123456789abcdef")| == 16 && Ascii("0123456789abcdef")[n] == Signing.HexDigit(n)
  {
  }

  // ---------------------------------------------------------------- percent escapes

  predicate IsLetter(b: Byte) { 'A' as int <= b <= 'Z' as int || 'a' as int <= b <= 'z' as int }

  predicate IsNumeral(b: Byte) { '0' as int <= b <= '9' as int }

  /** Letters, digits and "-._~" stand for themselves; every other byte is an upper-case escape. */
  lemma EscapeOf(b: Byte)
    ensures var digits := Ascii("0123456789ABCDEF");
            Percent.EncodeByte(b) ==
            if IsLetter(b) || IsNumeral(b) || b in Ascii("-._~") then [b]
            else [Ascii("%")[0], digits[b / 16], digits[b % 16]]
  {
    var marks := Ascii("-._~");
    assert marks == [0x2d, 0x2e, 0x5f, 0x7e];
    HexDigitsAt(b / 16);
    HexDigitsAt(b % 16);
  }

  lemma HexDigitsAt(n: nat)
    requires n < 16
    ensures Ascii("0123456789ABCDEF")[n] == Percent.UpperDigit(n)
  {
  }

  /** An encoded text is the escapes of its bytes, one after another. */
  lemma {:induction false} EscapedInOrder(bytes: seq<Byte>)
    ensures Percent.Encode(bytes) ==
            Flatten(seq(|bytes|, i requires 0 <= i < |bytes| => Percent.EncodeByte(bytes[i])))
    decreases |bytes|
  {
    hide Percent.EncodeByte;
    if bytes != [] {
      EscapedInOrder(bytes[1..]);
      var pieces := seq(|bytes|, i requires 0 <= i < |bytes| => Percent.EncodeByte(bytes[i]));
      var rest := bytes[1..];
      assert pieces[1..] == seq(|rest|, i requires 0 <= i < |rest| => Percent.EncodeByte(rest[i]));
    }
  }

  // ---------------------------------------------------------------- bearer tokens

  /** A token is letters, digits and "-._~+/", at least one, and then any number of equals signs. */
  lemma BearerIff(token: seq<Byte>)
    ensures McpClient.ValidBearer(token) <==> exists n: nat :: TokenUpTo(token, n)
  {
    hide Find, OccursAt;
    var found := Find(token, [McpClient.PADDING], 0);
    var padding := if found.Some? then found.value else |token|;
    forall i: nat ensures OccursAt(token, [McpClient.PADDING], i) <==> i < |token| && token[i] == '=' as int {
      OccursOne(token, McpClient.PADDING, i);
    }
    forall b: Byte ensures McpClient.TokenByte(b) <==> InToken(b) { TokenBytes(b); }
    if McpClient.ValidBearer(token) { assert TokenUpTo(token, padding); }
    if n: nat :| TokenUpTo(token, n) {
      if n < |token| { assert OccursAt(token, [McpClient.PADDING], n); }
      assert padding == n;
    }
  }

  predicate InToken(b: Byte) { IsLetter(b) || IsNumeral(b) || b in Ascii("-._~+/") }

  predicate TokenUpTo(token: seq<Byte>, n: nat) {
    && 0 < n <= |token| && (forall i | 0 <= i < n :: InToken(token[i]))
    && forall i | n <= i < |token| :: token[i] == '=' as int
  }

  lemma TokenBytes(b: Byte)
    ensures McpClient.TokenByte(b) <==> InToken(b)
    ensures InToken(b) ==> b != '=' as int
  {
    assert Ascii("-._~+/") == [0x2d, 0x2e, 0x5f, 0x7e, 0x2b, 0x2f];
  }

  // ---------------------------------------------------------------- the stored pair

  function Number32(s: seq<Byte>, i: nat): int
    requires i + 4 <= |s|
  {
    ((s[i] as int * 256 + s[i + 1]) * 256 + s[i + 2]) * 256 + s[i + 3]
  }

  /** A version byte, then each secret after its length in four bytes; no previous secret is an empty one. */
  lemma StoredLayout(m: SecretEnvelope.Resolved)
    requires SecretEnvelope.ValidResolved(m)
    ensures var d, n := SecretEnvelope.Encode(m), |m.current|;
            var previous := if m.previous.Some? then m.previous.value else [];
            && |d| == 9 + n + |previous| && d[0] == 1
            && Number32(d, 1) == n && d[5..5 + n] == m.current
            && Number32(d, 5 + n) == |previous| && d[9 + n..] == previous
  {
    hide SecretEnvelope.BigEndian;
    var d, n := SecretEnvelope.Encode(m), |m.current|;
    var previous := SecretEnvelope.PreviousBytes(m);
    var size, size' := SecretEnvelope.BigEndian(n, 4), SecretEnvelope.BigEndian(|previous|, 4);
    assert d == [1] + size + m.current + size' + previous;
    assert d[1..5] == size && d[5 + n..9 + n] == size';
    BigEndianValue(n, d, 1);
    BigEndianValue(|previous|, d, 5 + n);
  }

  lemma BigEndianValue(n: nat, s: seq<Byte>, i: nat)
    requires n < SecretEnvelope.U32_LIMIT && i + 4 <= |s| && s[i..i + 4] == SecretEnvelope.BigEndian(n, 4)
    ensures Number32(s, i) == n
  {
    var t := SecretEnvelope.BigEndian(n, 4);
    FourBytes(n);
    assert s[i] == t[0] && s[i + 1] == t[1] && s[i + 2] == t[2] && s[i + 3] == t[3];
  }

  lemma FourBytes(n: nat)
    requires n < SecretEnvelope.U32_LIMIT
    ensures Number32(SecretEnvelope.BigEndian(n, 4), 0) == n
  {
    var a := n / 256;
    var b := a / 256;
    var c := b / 256;
    assert SecretEnvelope.BigEndian(c, 1) == [c];
    assert SecretEnvelope.BigEndian(b, 2) == [c, b % 256];
    assert SecretEnvelope.BigEndian(a, 3) == [c, b % 256, a % 256];
  }

  // ---------------------------------------------------------------- the hash

  /** The jitter is the hash of the identifier and the two bytes of the attempt count, low byte first. */
  lemma JitterOf(id: seq<Byte>, low: Byte, high: Byte)
    ensures Backoff.Jitter(id, low + 256 * high) == Backoff.Fnv1a(Backoff.FNV_OFFSET, id + [low, high]) % 4001
  {
    var attempts: nat := low + 256 * high;
    assert attempts % 256 == low && attempts / 256 == high;
  }

  /** The hash is the published one: FNV-1a of "fo". */
  lemma HashVector()
    ensures Backoff.Fnv1a(Backoff.FNV_OFFSET, Ascii("fo")) == 0x0898_5907_b541_d342
  {
    hide Backoff.FnvStep;
    var s := Ascii("fo");
    assert s == [0x66, 0x6f] && s[..2] == s;
    HashNext(s, 0);
    HashStep0();
    HashNext(s, 1);
    HashStep1();
  }

  lemma HashNext(s: seq<Byte>, i: nat)
    requires i < |s|
    ensures Backoff.Fnv1a(Backoff.FNV_OFFSET, s[..i + 1]) ==
            Backoff.FnvStep(Backoff.Fnv1a(Backoff.FNV_OFFSET, s[..i]), s[i])
  {
    assert s[..i + 1][..i] == s[..i];
  }

  /** One step, from the mixed value and the quotient of its product. */
  lemma HashStep(hash: nat, b: Byte, mixed: nat, quotient: nat, next: nat)
    requires hash < Backoff.U64_LIMIT && next < Backoff.U64_LIMIT
    requires mixed == hash - hash % 256 + (((hash % 256) as bv8) ^ (b as bv8)) as int
    requires mixed * Backoff.FNV_PRIME == quotient * Backoff.U64_LIMIT + next
    ensures Backoff.FnvStep(hash, b) == next
  {
  }

  lemma HashStep0()
    ensures Backoff.FnvStep(0xcbf2_9ce4_8422_2325, 0x66) == 0xaf63_db4c_8601_ead9
  {
    assert (0x25 as bv8 ^ 0x66 as bv8) == 0x43;
    HashStep(0xcbf2_9ce4_8422_2325, 0x66, 0xcbf2_9ce4_8422_2343, 0x00cb_f29c_e5de, 0xaf63_db4c_8601_ead9);
  }

  lemma HashStep1()
    ensures Backoff.FnvStep(0xaf63_db4c_8601_ead9, 0x6f) == 0x0898_5907_b541_d342
  {
    assert (0xd9 as bv8 ^ 0x6f as bv8) == 0xb6;
    HashStep(0xaf63_db4c_8601_ead9, 0x6f, 0xaf63_db4c_8601_eab6, 0x00af_63db_4db0, 0x0898_5907_b541_d342);
  }
}
