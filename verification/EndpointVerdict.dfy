/** When cleartext to a peer is accepted, told from the address's number and the letters of the host. */
module EndpointVerdict {

  import opened Bytes
  import opened Decimal
  import opened Splitting
  import opened Tally
  import opened Ipv4
  import opened EndpointPolicy

  // ---------------------------------------------------------------- IPv6 addresses as numbers

  const WORD := 0x1_0000_0000
  const THREE_WORDS := WORD * WORD * WORD

  function Word(b: seq<Byte>, i: nat): (w: int)
    requires i + 4 <= |b|
    ensures 0 <= w < WORD
  {
    Number(b[i], b[i + 1], b[i + 2], b[i + 3])
  }

  function Address6(b: seq<Byte>): int
    requires |b| == 16
  {
    ((Word(b, 0) * WORD + Word(b, 4)) * WORD + Word(b, 8)) * WORD + Word(b, 12)
  }

  /** The block of IPv6 addresses whose first 32 bits lie in this block of 32-bit numbers. */
  predicate In6(v: int, word: int, size: int)
    requires size > 0
  {
    v / (size * THREE_WORDS) == word / size
  }

  const SLASH_3 := 0x2000_0000
  const SLASH_7 := 0x200_0000
  const SLASH_20 := 0x1000

  /** The blocks of each IPv6 class: fc00::/7, fe80::/10, ff00::/8, 2001:db8::/32, 3fff::/20 and so on. */
  predicate InBlocks6(c: RustClass, v: int)
    requires !c.Public?
  {
    match c
    case Loopback => v == 1
    case Unspecified => v == 0
    case Private => In6(v, Number(0xfc, 0, 0, 0), SLASH_7)
    case LinkLocal => In6(v, Number(0xfe, 0x80, 0, 0), SLASH_10)
    case Multicast => In6(v, Number(0xff, 0, 0, 0), SLASH_8)
    case Documentation => In6(v, Number(0x20, 0x01, 0x0d, 0xb8), 1) || In6(v, Number(0x3f, 0xff, 0, 0), SLASH_20)
    case Reserved =>
      || (&& !In6(v, Number(0x20, 0, 0, 0), SLASH_3) && v > 1
          && !In6(v, Number(0xfc, 0, 0, 0), SLASH_7) && !In6(v, Number(0xfe, 0x80, 0, 0), SLASH_10)
          && !In6(v, Number(0xff, 0, 0, 0), SLASH_8))
      || In6(v, Number(0x20, 0x01, 0, 0), SLASH_24)
      || In6(v, Number(0x20, 0x01, 0x02, 0), SLASH_24)
    case CarrierGradeNat => false
  }

  lemma QuotientIs(v: nat, q: nat, size: nat)
    requires size > 0 && q * size <= v < q * size + size
    ensures v / size == q
  {
    var p := v / size;
    assert p * size <= v < p * size + size by { Remainder(v, size); }
    if p < q { ScaledGap(p, q, size); } else if q < p { ScaledGap(q, p, size); }
  }

  lemma Remainder(v: int, size: int)
    requires size > 0
    ensures (v / size) * size <= v < (v / size) * size + size
  {
  }

  /** Dividing by whole words reads the leading word. */
  lemma LeadingWord(word: nat, rest: nat, size: nat)
    requires size > 0 && rest < THREE_WORDS
    ensures size * THREE_WORDS > 0 && (word * THREE_WORDS + rest) / (size * THREE_WORDS) == word / size
  {
    var q, m := word / size, word % size;
    assert word == q * size + m;
    assert (q * size + m) * THREE_WORDS == q * (size * THREE_WORDS) + m * THREE_WORDS;
    assert m * THREE_WORDS + rest < (m + 1) * THREE_WORDS <= size * THREE_WORDS;
    QuotientIs(word * THREE_WORDS + rest, q, size * THREE_WORDS);
  }

  lemma BlockOfWord(b: seq<Byte>, word: int, size: int)
    requires |b| == 16 && size > 0
    ensures In6(Address6(b), word, size) <==> Word(b, 0) / size == word / size
  {
    var rest := (Word(b, 4) * WORD + Word(b, 8)) * WORD + Word(b, 12);
    assert Address6(b) == Word(b, 0) * THREE_WORDS + rest;
    LeadingWord(Word(b, 0), rest, size);
  }

  lemma WordBlocks(b: seq<Byte>)
    requires |b| == 16
    ensures var w := Word(b, 0);
            && (w / SLASH_3 == Number(0x20, 0, 0, 0) / SLASH_3 <==> b[0] / 32 == 1)
            && (w / SLASH_7 == Number(0xfc, 0, 0, 0) / SLASH_7 <==> b[0] / 2 == 0x7e)
            && (w / SLASH_8 == Number(0xff, 0, 0, 0) / SLASH_8 <==> b[0] == 0xff)
            && (w / SLASH_10 == Number(0xfe, 0x80, 0, 0) / SLASH_10 <==> b[0] == 0xfe && b[1] / 64 == 2)
  {
  }

  lemma LongBlocks(b: seq<Byte>)
    requires |b| == 16
    ensures var w := Word(b, 0);
            && (w / SLASH_20 == Number(0x3f, 0xff, 0, 0) / SLASH_20 <==> b[0] == 0x3f && b[1] == 0xff && b[2] / 16 == 0)
            && (w / SLASH_24 == Number(0x20, 0x01, 0, 0) / SLASH_24 <==> b[0] == 0x20 && b[1] == 0x01 && b[2] == 0)
            && (w / SLASH_24 == Number(0x20, 0x01, 2, 0) / SLASH_24 <==> b[0] == 0x20 && b[1] == 0x01 && b[2] == 2)
            && (w / 1 == Number(0x20, 0x01, 0x0d, 0xb8) / 1 <==> b[..4] == [0x20, 0x01, 0x0d, 0xb8])
  {
    assert b[..4] == [b[0], b[1], b[2], b[3]];
  }

  lemma SmallNumbers(b: seq<Byte>)
    requires |b| == 16
    ensures Address6(b) >= 0
    ensures Address6(b) == 0 <==> b == [0, 0, 0, 0, 0, 0, 0, 0, 0, 0, 0, 0, 0, 0, 0, 0]
    ensures Address6(b) == 1 <==> b == [0, 0, 0, 0, 0, 0, 0, 0, 0, 0, 0, 0, 0, 0, 0, 1]
  {
    hide Word;
    var zero, one := [0, 0, 0, 0, 0, 0, 0, 0, 0, 0, 0, 0, 0, 0, 0, 0], [0, 0, 0, 0, 0, 0, 0, 0, 0, 0, 0, 0, 0, 0, 0, 1];
    assert b == zero <==> forall i | 0 <= i < 16 :: b[i] == zero[i];
    assert b == one <==> forall i | 0 <= i < 16 :: b[i] == one[i];
    WordIs(b, 0);
    WordIs(b, 4);
    WordIs(b, 8);
    WordIs(b, 12);
    SmallWords(Word(b, 0), Word(b, 4), Word(b, 8), Word(b, 12));
  }

  lemma SmallWords(w0: nat, w1: nat, w2: nat, w3: nat)
    ensures var n := ((w0 * WORD + w1) * WORD + w2) * WORD + w3;
            && (n == 0 <==> w0 == 0 && w1 == 0 && w2 == 0 && w3 == 0)
            && (n == 1 <==> w0 == 0 && w1 == 0 && w2 == 0 && w3 == 1)
  {
  }

  lemma WordIs(b: seq<Byte>, i: nat)
    requires i + 4 <= |b|
    ensures Word(b, i) == 0 <==> b[i] == 0 && b[i + 1] == 0 && b[i + 2] == 0 && b[i + 3] == 0
    ensures Word(b, i) == 1 <==> b[i] == 0 && b[i + 1] == 0 && b[i + 2] == 0 && b[i + 3] == 1
    ensures Word(b, i) == 0xffff <==> b[i] == 0 && b[i + 1] == 0 && b[i + 2] == 0xff && b[i + 3] == 0xff
  {
  }

  /** Each IPv6 class but `Public` is exactly the addresses of its blocks, and `Public` is the rest. */
  lemma V6ClassesAreBlocks(b: seq<Byte>, c: RustClass)
    requires |b| == 16 && !c.Public?
    ensures ClassifyV6(b) == c <==> InBlocks6(c, Address6(b))
  {
    hide In6, Address6, Word, Number;
    BlockOfWord(b, Number(0x20, 0, 0, 0), SLASH_3);
    BlockOfWord(b, Number(0xfc, 0, 0, 0), SLASH_7);
    BlockOfWord(b, Number(0xff, 0, 0, 0), SLASH_8);
    BlockOfWord(b, Number(0xfe, 0x80, 0, 0), SLASH_10);
    BlockOfWord(b, Number(0x3f, 0xff, 0, 0), SLASH_20);
    BlockOfWord(b, Number(0x20, 0x01, 0, 0), SLASH_24);
    BlockOfWord(b, Number(0x20, 0x01, 2, 0), SLASH_24);
    BlockOfWord(b, Number(0x20, 0x01, 0x0d, 0xb8), 1);
    WordBlocks(b);
    LongBlocks(b);
    SmallNumbers(b);
    assert b[..4][0] == b[0] && b[..4][1] == b[1] && b[..4][2] == b[2];
  }

  /** ::ffff:0:0/96 is read as the IPv4 address in its last four bytes. */
  lemma MappedIsV4(b: seq<Byte>)
    requires |b| == 16
    ensures RustNormalized(V6(b)) == if Address6(b) / WORD == 0xffff then V4(b[12..]) else V6(b)
    ensures Address4(b[12..]) == Address6(b) % WORD
  {
    hide Word, Address6, Number;
    MappedPrefix(b);
    TopWords(b);
    assert Address4(b[12..]) == Word(b, 12) by { LastWord(b); }
  }

  lemma LastWord(b: seq<Byte>)
    requires |b| == 16
    ensures Address4(b[12..]) == Word(b, 12)
  {
    assert b[12..] == [b[12], b[13], b[14], b[15]];
  }

  lemma MappedPrefix(b: seq<Byte>)
    requires |b| == 16
    ensures b[..12] == [0, 0, 0, 0, 0, 0, 0, 0, 0, 0, 0xff, 0xff] <==>
            Word(b, 0) == 0 && Word(b, 4) == 0 && Word(b, 8) == 0xffff
  {
    hide Word;
    var mapped := [0, 0, 0, 0, 0, 0, 0, 0, 0, 0, 0xff, 0xff];
    assert b[..12] == mapped <==> forall i | 0 <= i < 12 :: b[i] == mapped[i];
    WordIs(b, 0);
    WordIs(b, 4);
    WordIs(b, 8);
  }

  lemma TopWords(b: seq<Byte>)
    requires |b| == 16
    ensures Address6(b) / WORD == 0xffff <==> Word(b, 0) == 0 && Word(b, 4) == 0 && Word(b, 8) == 0xffff
    ensures Address6(b) % WORD == Word(b, 12)
  {
    hide Word;
    assert Address6(b) / WORD == (Word(b, 0) * WORD + Word(b, 4)) * WORD + Word(b, 8);
  }

  /** The classes of an address on its number; IPv4-mapped addresses count as IPv4. */
  predicate Belongs(c: RustClass, a: Address)
    requires ValidAddress(a) && !c.Public?
  {
    if a.V4? then InBlocks(c, Address4(a.bytes))
    else if Address6(a.bytes) / WORD == 0xffff then InBlocks(c, Address6(a.bytes) % WORD)
    else InBlocks6(c, Address6(a.bytes))
  }

  lemma ClassifiedByNumber(a: Address, c: RustClass)
    requires ValidAddress(a) && !c.Public?
    ensures RustClassify(a) == c <==> Belongs(c, a)
  {
    hide InBlocks, InBlocks6, Address6, Address4, ClassifyV4, ClassifyV6, RustNormalized;
    if a.V4? {
      assert RustNormalized(a) == a by { V4IsNormal(a); }
      V4ClassesAreBlocks(a.bytes, c);
    } else {
      MappedIsV4(a.bytes);
      V4ClassesAreBlocks(a.bytes[12..], c);
      V6ClassesAreBlocks(a.bytes, c);
    }
  }

  lemma V4IsNormal(a: Address)
    requires ValidAddress(a) && a.V4?
    ensures RustNormalized(a) == a
  {
  }

  // ---------------------------------------------------------------- hosts

  /** The host without the brackets around it, if it has both. */
  ghost predicate Inside(host: seq<Byte>, inner: seq<Byte>) {
    if exists x: seq<Byte> :: Bracketed(host, x) then Bracketed(host, inner) else inner == host
  }

  predicate Bracketed(host: seq<Byte>, x: seq<Byte>) { host == Ascii("[") + x + Ascii("]") }

  lemma InsideIs(host: seq<Byte>, inner: seq<Byte>)
    ensures Inside(host, inner) <==> RustUnbracketed(host) == inner
  {
    if |host| >= 2 && host[0] == OPEN && EndsWith(host[1..], CLOSE) {
      var x := host[1..|host| - 1];
      assert host[1..][..|host| - 2] == x;
      assert Bracketed(host, x) by { assert host == [OPEN] + x + [CLOSE]; }
      forall y: seq<Byte> | Bracketed(host, y) ensures y == x { assert y == host[1..|host| - 1]; }
    } else {
      forall y: seq<Byte> ensures !Bracketed(host, y) {
        var text := Ascii("[") + y + Ascii("]");
        assert text[0] == OPEN && text[|text| - 1] == CLOSE;
      }
    }
  }

  /** One part of a dotted address: the decimal spelling, or any digits after a plus sign. */
  predicate SpellsOctet(part: seq<Byte>, v: nat) {
    v < 256
    && (|| part == Print(v)
        || (|part| > 1 && part[0] == '+' as int && AllDigits(part[1..]) && DigitsValue(part[1..]) == v))
  }

  lemma OctetIsSpelledIff(part: seq<Byte>, v: nat)
    ensures SpellsOctet(part, v) <==> v < 256 && Unpadded(part) && RustOctet(part) == Some(v)
  {
    hide DigitsValue, Print;
    if v < 256 && part == Print(v) { SpelledOctet(v); }
    if Unpadded(part) && RustOctet(part).Some? && part[0] != PLUS { PrintOfValue(part); }
  }

  /** Four parts between dots, the first of them spelling 127. */
  predicate Spells127(host: seq<Byte>, parts: seq<seq<Byte>>, values: seq<nat>) {
    && |parts| == 4 && |values| == 4 && host == Join(parts, '.' as int) && values[0] == 127
    && forall i | 0 <= i < 4 :: SpellsOctet(parts[i], values[i])
  }

  lemma DottedIs127(host: seq<Byte>)
    ensures (exists parts, values :: Spells127(host, parts, values)) <==>
            (var address := Canonical(RustOctet, host); address.Some? && address.value[0] == 127)
  {
    hide Split, Join, RustOctet, SpellsOctet, Print;
    var address := Canonical(RustOctet, host);
    if address.Some? && address.value[0] == 127 {
      var parts := Split(host, DOT);
      JoinSplit(host, DOT);
      var values: seq<nat> := seq(4, i requires 0 <= i < 4 => address.value[i]);
      forall i | 0 <= i < 4 ensures SpellsOctet(parts[i], values[i]) { OctetIsSpelledIff(parts[i], values[i]); }
      assert Spells127(host, parts, values);
    }
    if parts, values :| Spells127(host, parts, values) { SpelledIsRead(host, parts, values); }
  }

  lemma SpelledIsRead(host: seq<Byte>, parts: seq<seq<Byte>>, values: seq<nat>)
    requires Spells127(host, parts, values)
    ensures Canonical(RustOctet, host).Some? && Canonical(RustOctet, host).value[0] == 127
  {
    hide Split, Join, RustOctet, SpellsOctet, Print;
    forall i | 0 <= i < 4 ensures Unpadded(parts[i]) && RustOctet(parts[i]) == Some(values[i]) && DOT !in parts[i] {
      OctetIsSpelledIff(parts[i], values[i]);
      SpelledHasNoDot(parts[i], values[i]);
    }
    SplitJoin(parts, DOT);
  }

  lemma SpelledHasNoDot(part: seq<Byte>, v: nat)
    requires SpellsOctet(part, v)
    ensures DOT !in part
  {
    hide DigitsValue;
    if part != Print(v) { assert forall i | 1 <= i < |part| :: part[i] == part[1..][i - 1]; }
  }

  /** The names of the local machine. */
  ghost predicate NamesLoopback(host: seq<Byte>) {
    || Lower(host) == Ascii("localhost")
    || Lower(host) == Ascii("localhost.")
    || host == Ascii("::1")
    || exists parts, values :: Spells127(host, parts, values)
  }

  lemma LocalhostIs(host: seq<Byte>)
    ensures Lower(host) == Ascii("localhost") <==> SameIgnoringCase(host, LOCALHOST)
    ensures host == Ascii("::1") <==> host == V6_LOOPBACK
  {
    assert Lower(LOCALHOST) == LOCALHOST;
    if SameIgnoringCase(host, LOCALHOST) { assert Lower(host) == Lower(LOCALHOST); }
    if Lower(host) == LOCALHOST { assert forall i | 0 <= i < |host| :: LowerByte(host[i]) == Lower(host)[i]; }
  }

  lemma LocalhostDotIs(host: seq<Byte>)
    ensures Lower(host) == Ascii("localhost.") <==>
            EndsWith(host, DOT) && Lower(host[..|host| - 1]) == Ascii("localhost")
  {
    var name, dotted := Ascii("localhost"), Ascii("localhost.");
    assert dotted == name + [DOT];
    if host != [] {
      var front := host[..|host| - 1];
      assert Lower(host) == Lower(front) + [LowerByte(host[|host| - 1])];
      assert Lower(host)[..|front|] == Lower(front);
      assert |dotted| == |host| ==> dotted[..|front|] == name;
    }
  }

  lemma IntentIff(given: seq<Byte>)
    ensures RustLoopbackIntent(given) <==> exists inner :: Inside(given, inner) && NamesLoopback(inner)
  {
    hide RustUnbracketed, Canonical, SameIgnoringCase, Spells127, Lower;
    var host := RustUnbracketed(given);
    InsideIs(given, host);
    forall inner ensures Inside(given, inner) <==> inner == host { InsideIs(given, inner); }
    LocalhostIs(host);
    LocalhostDotIs(host);
    DottedIs127(host);
    if EndsWith(host, DOT) {
      LocalhostIs(host[..|host| - 1]);
      LastOfLocalhost(host);
      LastOfLocalhost(host[..|host| - 1]);
    } else {
      LastOfLocalhost(host);
    }
  }

  lemma LastOfLocalhost(host: seq<Byte>)
    ensures Lower(host) == Ascii("localhost") ==> !EndsWith(host, DOT)
  {
    var name := Ascii("localhost");
    if host != [] { assert Lower(host)[|host| - 1] == LowerByte(host[|host| - 1]); }
  }

  /** An IP literal by the looser test: a colon, or nothing but digits and dots. */
  predicate IsLiteral(host: seq<Byte>) {
    || (':' as int) in host
    || forall i | 0 <= i < |host| :: '0' as int <= host[i] <= '9' as int || host[i] == '.' as int
  }

  ghost predicate NamesLiteral(given: seq<Byte>) { exists inner :: Inside(given, inner) && IsLiteral(inner) }

  lemma LiteralIff(given: seq<Byte>)
    ensures RustLooksLikeLiteral(given) <==> NamesLiteral(given)
  {
    hide RustUnbracketed, Inside;
    var host := RustUnbracketed(given);
    forall inner ensures Inside(given, inner) <==> inner == host { InsideIs(given, inner); }
    assert Inside(given, host) && (RustLooksLikeLiteral(given) <==> IsLiteral(host));
  }

  // ---------------------------------------------------------------- the verdict

  predicate OnPort(e: Endpoint, evidence: Evidence) {
    evidence.Cleartext? && evidence.port == (if e.port.Some? then e.port.value else 80)
  }

  /** The host itself says loopback, or the caller allows a name that is no literal. */
  ghost predicate LoopbackIsMeant(policy: Policy, host: seq<Byte>) {
    || (exists inner :: Inside(host, inner) && NamesLoopback(inner))
    || (policy.hostnameLoopback && !NamesLiteral(host))
  }

  predicate HasScope(scope: Option<nat>) { scope.Some? && scope.value != 0 }

  /** Cleartext is accepted exactly for these peers, hosts and flags. */
  lemma AcceptedIff(policy: Policy, e: Endpoint, evidence: Evidence)
    requires evidence.Cleartext? ==> ValidAddress(evidence.address)
    ensures RustVerify(policy, e, evidence) == None <==>
            && OnPort(e, evidence)
            && (|| (Belongs(Loopback, evidence.address) && LoopbackIsMeant(policy, e.host))
                || (Belongs(Private, evidence.address) && policy.privateNetwork)
                || (Belongs(LinkLocal, evidence.address) && policy.linkLocal && HasScope(evidence.scope)))
  {
    hide RustClassify, Belongs, RustLoopbackIntent, RustLooksLikeLiteral, NamesLoopback, NamesLiteral, Inside;
    if evidence.Cleartext? { Read(evidence.address, e.host); }
  }

  lemma Read(address: Address, host: seq<Byte>)
    requires ValidAddress(address)
    ensures forall c: RustClass | !c.Public? :: RustClassify(address) == c <==> Belongs(c, address)
    ensures RustLoopbackIntent(host) <==> exists inner :: Inside(host, inner) && NamesLoopback(inner)
    ensures RustLooksLikeLiteral(host) <==> NamesLiteral(host)
  {
    hide RustClassify, Belongs, RustLoopbackIntent, RustLooksLikeLiteral, NamesLoopback, NamesLiteral, Inside;
    forall c: RustClass | !c.Public? ensures RustClassify(address) == c <==> Belongs(c, address) {
      ClassifiedByNumber(address, c);
    }
    IntentIff(host);
    LiteralIff(host);
  }

  /** And each refusal has one reason. */
  lemma RefusedBecause(policy: Policy, e: Endpoint, evidence: Evidence)
    requires evidence.Cleartext? ==> ValidAddress(evidence.address)
    ensures var r := RustVerify(policy, e, evidence);
            if evidence.Missing? then r == Some(MissingEvidence)
            else if !OnPort(e, evidence) then r == Some(EvidenceMismatch)
            else if Belongs(Loopback, evidence.address) then
              !LoopbackIsMeant(policy, e.host) ==> r == Some(LoopbackIntentRequired)
            else if Belongs(Private, evidence.address) then
              !policy.privateNetwork ==> r == Some(PrivateCleartextDenied)
            else if Belongs(LinkLocal, evidence.address) then
              && (!policy.linkLocal ==> r == Some(LinkLocalCleartextDenied))
              && (policy.linkLocal && !HasScope(evidence.scope) ==> r == Some(LinkLocalScopeRequired))
            else r == Some(CleartextDenied)
  {
    hide RustClassify, Belongs, RustLoopbackIntent, RustLooksLikeLiteral, NamesLoopback, NamesLiteral, Inside;
    if evidence.Cleartext? { Read(evidence.address, e.host); }
  }
}
