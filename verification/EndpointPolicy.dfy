/** The cleartext rules of the endpoint policy, in Rust and in Swift, and where they agree. */
module EndpointPolicy {

  import opened Bytes
  import opened Decimal
  import opened Splitting
  import opened Ipv4

  const COLON: Byte := 0x3a
  const OPEN: Byte := 0x5b
  const CLOSE: Byte := 0x5d

  const LOCALHOST := Ascii("localhost")
  const V6_LOOPBACK := Ascii("::1")

  datatype Policy = Policy(hostnameLoopback: bool, privateNetwork: bool, linkLocal: bool)

  /** An endpoint of scheme `http`, with its explicit port if any. */
  datatype Endpoint = Endpoint(host: seq<Byte>, port: Option<nat>)

  predicate ValidEndpoint(e: Endpoint) { e.port.Some? ==> 0 < e.port.value < 0x1_0000 }

  datatype Address = V4(bytes: seq<Byte>) | V6(bytes: seq<Byte>)

  predicate ValidAddress(a: Address) { |a.bytes| == if a.V4? then 4 else 16 }

  datatype Evidence = Missing | Tls(serverName: seq<Byte>) | Cleartext(address: Address, port: nat, scope: Option<nat>)

  datatype PolicyError =
    | MissingEvidence | EvidenceMismatch | LoopbackIntentRequired | PrivateCleartextDenied
    | LinkLocalCleartextDenied | LinkLocalScopeRequired | CleartextDenied

  predicate SameIgnoringCase(a: seq<Byte>, b: seq<Byte>) {
    |a| == |b| && forall i | 0 <= i < |a| :: LowerByte(a[i]) == LowerByte(b[i])
  }

  predicate EndsWith(s: seq<Byte>, b: Byte) { s != [] && s[|s| - 1] == b }

  // ---------------------------------------------------------------- Rust

  datatype RustClass =
    | Loopback | Private | LinkLocal | CarrierGradeNat | Unspecified | Multicast | Documentation | Reserved | Public

  function RustNormalized(a: Address): Address
    requires ValidAddress(a)
  {
    if a.V6? && a.bytes[..12] == [0, 0, 0, 0, 0, 0, 0, 0, 0, 0, 0xff, 0xff] then V4(a.bytes[12..]) else a
  }

  function ClassifyV4(b: seq<Byte>): RustClass
    requires |b| == 4
  {
    if b[0] == 127 then Loopback
    else if b == [0, 0, 0, 0] then Unspecified
    else if b[0] == 10 || (b[0] == 172 && 16 <= b[1] <= 31) || (b[0] == 192 && b[1] == 168) then Private
    else if b[0] == 169 && b[1] == 254 then LinkLocal
    else if b[0] == 100 && 64 <= b[1] <= 127 then CarrierGradeNat
    else if 224 <= b[0] <= 239 then Multicast
    else if b[..3] == [192, 0, 2] || b[..3] == [198, 51, 100] || b[..3] == [203, 0, 113] then Documentation
    else if b[0] == 0 || b[0] >= 240 || b[..3] == [192, 0, 0] || b[..3] == [192, 88, 99]
         || (b[0] == 198 && (b[1] == 18 || b[1] == 19)) then Reserved
    else Public
  }

  /** Masks are written as quotients: the top seven bits of `b` are `b / 2`, and so on. */
  function ClassifyV6(b: seq<Byte>): RustClass
    requires |b| == 16
  {
    if b == [0, 0, 0, 0, 0, 0, 0, 0, 0, 0, 0, 0, 0, 0, 0, 1] then Loopback
    else if b == [0, 0, 0, 0, 0, 0, 0, 0, 0, 0, 0, 0, 0, 0, 0, 0] then Unspecified
    else if b[0] / 2 == 0x7e then Private
    else if b[0] == 0xfe && b[1] / 64 == 2 then LinkLocal
    else if b[0] == 0xff then Multicast
    else if b[..4] == [0x20, 0x01, 0x0d, 0xb8] || (b[0] == 0x3f && b[1] == 0xff && b[2] / 16 == 0) then Documentation
    else if b[0] / 32 != 1 || (b[0] == 0x20 && b[1] == 0x01 && (b[2] == 0x00 || b[2] == 0x02)) then Reserved
    else Public
  }

  function RustClassify(a: Address): RustClass
    requires ValidAddress(a)
  {
    var normal := RustNormalized(a);
    if normal.V4? then ClassifyV4(normal.bytes) else ClassifyV6(normal.bytes)
  }

  function RustUnbracketed(host: seq<Byte>): seq<Byte> {
    if host == [] || host[0] != OPEN then host
    else
      var value := host[1..];
      if EndsWith(value, CLOSE) then value[..|value| - 1] else host
  }

  predicate RustLoopbackIntent(given: seq<Byte>) {
    var host := RustUnbracketed(given);
    var hostname := if EndsWith(host, DOT) then host[..|host| - 1] else host;
    || (!EndsWith(hostname, DOT) && SameIgnoringCase(hostname, LOCALHOST))
    || host == V6_LOOPBACK
    || (var address := Canonical(RustOctet, host); address.Some? && address.value[0] == 127)
  }

  predicate RustLooksLikeLiteral(given: seq<Byte>) {
    var host := RustUnbracketed(given);
    COLON in host || forall i | 0 <= i < |host| :: IsDigit(host[i]) || host[i] == DOT
  }

  /** A scope of zero is not recorded. */
  function RustScope(scope: Option<nat>): Option<nat> { if scope == Some(0) then None else scope }

  function RustVerify(policy: Policy, e: Endpoint, evidence: Evidence): Option<PolicyError>
    requires evidence.Cleartext? ==> ValidAddress(evidence.address)
  {
    match evidence
    case Missing => Some(MissingEvidence)
    case Tls(_) => Some(EvidenceMismatch)
    case Cleartext(address, port, scope) =>
      if port != (if e.port.Some? then e.port.value else 80) then Some(EvidenceMismatch)
      else match RustClassify(address)
        case Loopback =>
          if RustLoopbackIntent(e.host) then None
          else if policy.hostnameLoopback && !RustLooksLikeLiteral(e.host) then None
          else Some(LoopbackIntentRequired)
        case Private => if policy.privateNetwork then None else Some(PrivateCleartextDenied)
        case LinkLocal =>
          if policy.linkLocal && RustScope(scope).Some? then None
          else if policy.linkLocal then Some(LinkLocalScopeRequired)
          else Some(LinkLocalCleartextDenied)
        case _ => Some(CleartextDenied)
  }

  // ---------------------------------------------------------------- Swift

  datatype SwiftClass = LoopbackPeer | PrivatePeer | LinkLocalPeer | DeniedPeer

  predicate AllZero(s: seq<Byte>) { forall i | 0 <= i < |s| :: s[i] == 0 }

  /** Nothing for an address of the wrong length. */
  function SwiftNormalized(a: Address): (r: Option<Address>)
    ensures r.Some? ==> ValidAddress(r.value)
  {
    if !ValidAddress(a) then None
    else if a.V6? && AllZero(a.bytes[..10]) && a.bytes[10] == 0xff && a.bytes[11] == 0xff then Some(V4(a.bytes[12..]))
    else Some(a)
  }

  function SwiftClassify(a: Address): Option<SwiftClass> {
    match SwiftNormalized(a)
    case None => None
    case Some(V4(b)) =>
      if b[0] == 127 then Some(LoopbackPeer)
      else if b[0] == 10 || (b[0] == 172 && 16 <= b[1] <= 31) || (b[0] == 192 && b[1] == 168) then Some(PrivatePeer)
      else if b[0] == 169 && b[1] == 254 then Some(LinkLocalPeer)
      else Some(DeniedPeer)
    case Some(V6(b)) =>
      if AllZero(b[..15]) && b[15] == 1 then Some(LoopbackPeer)
      else if b[0] / 2 == 0x7e then Some(PrivatePeer)
      else if b[0] == 0xfe && b[1] / 64 == 2 then Some(LinkLocalPeer)
      else Some(DeniedPeer)
  }

  function SwiftUnbracketed(host: seq<Byte>): seq<Byte> {
    if host != [] && host[0] == OPEN && host[|host| - 1] == CLOSE then host[1..|host| - 1] else host
  }

  predicate SwiftLoopbackIntent(given: seq<Byte>) {
    var host := SwiftUnbracketed(given);
    var hostname := if EndsWith(host, DOT) then host[..|host| - 1] else host;
    || (!EndsWith(hostname, DOT) && SameIgnoringCase(hostname, LOCALHOST))
    || host == V6_LOOPBACK
    || (var address := Canonical(SwiftOctet, host); address.Some? && address.value[0] == 127)
  }

  predicate SwiftLooksLikeLiteral(given: seq<Byte>) {
    var host := SwiftUnbracketed(given);
    COLON in host || forall i | 0 <= i < |host| :: IsDigit(host[i]) || host[i] == DOT
  }

  function SwiftVerify(policy: Policy, e: Endpoint, evidence: Evidence): Option<PolicyError> {
    match evidence
    case Missing => Some(MissingEvidence)
    case Tls(_) => Some(EvidenceMismatch)
    case Cleartext(address, port, scope) =>
      var expected := if e.port.Some? then e.port.value else 80;
      if expected >= 0x1_0000 || expected == 0 || port != expected then Some(EvidenceMismatch)
      else match SwiftClassify(address)
        case None => Some(MissingEvidence)
        case Some(LoopbackPeer) =>
          if SwiftLoopbackIntent(e.host) then None
          else if policy.hostnameLoopback && !SwiftLooksLikeLiteral(e.host) then None
          else Some(LoopbackIntentRequired)
        case Some(PrivatePeer) => if policy.privateNetwork then None else Some(PrivateCleartextDenied)
        case Some(LinkLocalPeer) =>
          if !policy.linkLocal then Some(LinkLocalCleartextDenied)
          else if scope.None? || scope == Some(0) then Some(LinkLocalScopeRequired)
          else None
        case Some(DeniedPeer) => Some(CleartextDenied)
  }

  // ---------------------------------------------------------------- the two classifications

  function Coarse(c: RustClass): SwiftClass {
    match c
    case Loopback => LoopbackPeer
    case Private => PrivatePeer
    case LinkLocal => LinkLocalPeer
    case _ => DeniedPeer
  }

  lemma NormalizedAgree(a: Address)
    requires ValidAddress(a)
    ensures SwiftNormalized(a) == Some(RustNormalized(a))
  {
    if a.V6? {
      var mapped := [0, 0, 0, 0, 0, 0, 0, 0, 0, 0, 0xff, 0xff];
      assert a.bytes[..12] == mapped <==> forall i | 0 <= i < 12 :: a.bytes[i] == mapped[i];
      assert forall i | 0 <= i < 10 :: a.bytes[..10][i] == a.bytes[i];
    }
  }

  lemma V6LoopbackAgrees(b: seq<Byte>)
    requires |b| == 16
    ensures b == [0, 0, 0, 0, 0, 0, 0, 0, 0, 0, 0, 0, 0, 0, 0, 1] <==> AllZero(b[..15]) && b[15] == 1
  {
    var one := [0, 0, 0, 0, 0, 0, 0, 0, 0, 0, 0, 0, 0, 0, 0, 1];
    assert b == one <==> forall i | 0 <= i < 16 :: b[i] == one[i];
    assert forall i | 0 <= i < 15 :: b[..15][i] == b[i];
  }

  /** Swift's four classes are Rust's nine with the never-eligible ones together. */
  lemma ClassesAgree(a: Address)
    requires ValidAddress(a)
    ensures SwiftClassify(a) == Some(Coarse(RustClassify(a)))
  {
    hide RustNormalized, SwiftNormalized, AllZero;
    NormalizedAgree(a);
    var normal := RustNormalized(a);
    if normal.V6? { V6LoopbackAgrees(normal.bytes); }
  }

  lemma UnbracketedAgree(host: seq<Byte>)
    ensures RustUnbracketed(host) == SwiftUnbracketed(host)
  {
  }

  // ---------------------------------------------------------------- address blocks

  function Number(a: int, b: int, c: int, d: int): int { ((a * 256 + b) * 256 + c) * 256 + d }

  function Address4(b: seq<Byte>): int
    requires |b| == 4
  {
    Number(b[0], b[1], b[2], b[3])
  }

  /** The address lies in the aligned block of `size` addresses around `base`. */
  predicate In(v: int, base: int, size: int)
    requires size > 0
  {
    v / size == base / size
  }

  const SLASH_4 := 0x1000_0000
  const SLASH_8 := 0x100_0000
  const SLASH_10 := 0x40_0000
  const SLASH_12 := 0x10_0000
  const SLASH_15 := 0x2_0000
  const SLASH_16 := 0x1_0000
  const SLASH_24 := 0x100

  /** The blocks of each IPv4 class. */
  predicate InBlocks(c: RustClass, v: int)
    requires !c.Public?
  {
    match c
    case Loopback => In(v, Number(127, 0, 0, 0), SLASH_8)
    case Private =>
      || In(v, Number(10, 0, 0, 0), SLASH_8)
      || In(v, Number(172, 16, 0, 0), SLASH_12)
      || In(v, Number(192, 168, 0, 0), SLASH_16)
    case LinkLocal => In(v, Number(169, 254, 0, 0), SLASH_16)
    case CarrierGradeNat => In(v, Number(100, 64, 0, 0), SLASH_10)
    case Unspecified => v == 0
    case Multicast => In(v, Number(224, 0, 0, 0), SLASH_4)
    case Documentation =>
      || In(v, Number(192, 0, 2, 0), SLASH_24)
      || In(v, Number(198, 51, 100, 0), SLASH_24)
      || In(v, Number(203, 0, 113, 0), SLASH_24)
    case Reserved =>
      || (In(v, Number(0, 0, 0, 0), SLASH_8) && v != 0)
      || In(v, Number(240, 0, 0, 0), SLASH_4)
      || In(v, Number(192, 0, 0, 0), SLASH_24)
      || In(v, Number(192, 88, 99, 0), SLASH_24)
      || In(v, Number(198, 18, 0, 0), SLASH_15)
  }

  /** Membership in a block is a test on the leading bytes. */
  lemma Block24(b: seq<Byte>, x: Byte, y: Byte, z: Byte)
    requires |b| == 4
    ensures In(Address4(b), Number(x, y, z, 0), SLASH_24) <==> b[..3] == [x, y, z]
  {
    assert b[..3] == [b[0], b[1], b[2]];
  }

  lemma Block16(b: seq<Byte>, x: Byte, y: Byte)
    requires |b| == 4
    ensures In(Address4(b), Number(x, y, 0, 0), SLASH_16) <==> b[0] == x && b[1] == y
  {
  }

  lemma Block8(b: seq<Byte>, x: Byte)
    requires |b| == 4
    ensures In(Address4(b), Number(x, 0, 0, 0), SLASH_8) <==> b[0] == x
    ensures In(Address4(b), Number(x, 0, 0, 0), SLASH_4) <==> b[0] / 16 == x / 16
  {
  }

  lemma OddBlocks(b: seq<Byte>)
    requires |b| == 4
    ensures In(Address4(b), Number(172, 16, 0, 0), SLASH_12) <==> b[0] == 172 && 16 <= b[1] <= 31
    ensures In(Address4(b), Number(100, 64, 0, 0), SLASH_10) <==> b[0] == 100 && 64 <= b[1] <= 127
    ensures In(Address4(b), Number(198, 18, 0, 0), SLASH_15) <==> b[0] == 198 && (b[1] == 18 || b[1] == 19)
    ensures Address4(b) == 0 <==> b == [0, 0, 0, 0]
  {
    assert b == [b[0], b[1], b[2], b[3]];
  }

  /** Each IPv4 class but `Public` is exactly the addresses of its blocks, and `Public` is the rest. */
  lemma V4ClassesAreBlocks(b: seq<Byte>, c: RustClass)
    requires |b| == 4 && !c.Public?
    ensures ClassifyV4(b) == c <==> InBlocks(c, Address4(b))
  {
    hide In, Address4;
    Block8(b, 127);
    Block8(b, 10);
    Block8(b, 0);
    Block8(b, 224);
    Block8(b, 240);
    Block16(b, 192, 168);
    Block16(b, 169, 254);
    Block24(b, 192, 0, 2);
    Block24(b, 198, 51, 100);
    Block24(b, 203, 0, 113);
    Block24(b, 192, 0, 0);
    Block24(b, 192, 88, 99);
    OddBlocks(b);
    assert b[..3][0] == b[0] && b[..3][1] == b[1];
  }

  // ---------------------------------------------------------------- numeric hosts

  predicate NumericByte(b: Byte) { IsDigit(b) || b == DOT || b == PLUS || b == MINUS }

  lemma OctetIsNumeric(part: seq<Byte>)
    requires SwiftOctet(part).Some?
    ensures forall i | 0 <= i < |part| :: NumericByte(part[i])
  {
    hide DigitsValue;
    if part != [] && (part[0] == PLUS || part[0] == MINUS) {
      assert forall i | 1 <= i < |part| :: part[i] == part[1..][i - 1];
    }
  }

  lemma NumericHost(host: seq<Byte>, b: Byte)
    requires FourOctets(SwiftOctet, Split(host, DOT)) && !NumericByte(b)
    ensures b !in host
  {
    hide Split, Join, SwiftOctet;
    var parts := Split(host, DOT);
    JoinSplit(host, DOT);
    forall i | 0 <= i < |parts| ensures b !in parts[i] { OctetIsNumeric(parts[i]); }
    BytesOfJoin(parts, DOT, b);
  }

  /** The unbracketed host is an address in 127/8 but for a part spelled as minus zero. */
  predicate ReadsMinusZero(host: seq<Byte>) {
    var parts := Split(host, DOT);
    && FourOctets(SwiftOctet, parts) && SwiftOctet(parts[0]) == Some(127)
    && exists i :: 0 <= i < 4 && MinusZeros(parts[i])
  }

  /** Such a host is neither a loopback name nor an IP literal by the looser test. */
  lemma MinusZeroHost(host: seq<Byte>)
    requires ReadsMinusZero(host)
    ensures MINUS in host && COLON !in host && host != [] && NumericByte(host[0])
  {
    hide Split, SwiftOctet;
    var parts := Split(host, DOT);
    var i :| 0 <= i < 4 && MinusZeros(parts[i]);
    PartsOf(host, DOT, i);
    assert parts[i][0] in parts[i];
    NumericHost(host, COLON);
    if !NumericByte(host[0]) { NumericHost(host, host[0]); }
  }

  lemma NotLoopbackName(host: seq<Byte>)
    requires host != [] && NumericByte(host[0])
    ensures var hostname := if EndsWith(host, DOT) then host[..|host| - 1] else host;
            !SameIgnoringCase(hostname, LOCALHOST)
    ensures host != V6_LOOPBACK
  {
    var hostname := if EndsWith(host, DOT) then host[..|host| - 1] else host;
    if |hostname| == 9 { assert LowerByte(hostname[0]) != LowerByte(LOCALHOST[0]); }
  }

  lemma IntentsDiffer(given: seq<Byte>)
    ensures RustLoopbackIntent(given) ==> SwiftLoopbackIntent(given)
    ensures SwiftLoopbackIntent(given) && !RustLoopbackIntent(given) <==> ReadsMinusZero(RustUnbracketed(given))
  {
    hide Split, FourOctets, SwiftOctet, RustOctet, SameIgnoringCase, RustUnbracketed, SwiftUnbracketed, MinusZeros,
      NumericByte;
    UnbracketedAgree(given);
    var host := RustUnbracketed(given);
    CanonicalDiffers(host);
    FirstOctet(host);
    if ReadsMinusZero(host) {
      MinusZeroHost(host);
      NotLoopbackName(host);
    }
  }

  lemma FirstOctet(host: seq<Byte>)
    ensures Canonical(SwiftOctet, host).Some? <==> FourOctets(SwiftOctet, Split(host, DOT))
    ensures Canonical(SwiftOctet, host).Some?
      ==> SwiftOctet(Split(host, DOT)[0]) == Some(Canonical(SwiftOctet, host).value[0])
  {
    hide Split, SwiftOctet;
  }

  lemma LiteralsAgree(given: seq<Byte>)
    ensures RustLooksLikeLiteral(given) <==> SwiftLooksLikeLiteral(given)
    ensures ReadsMinusZero(RustUnbracketed(given)) ==> !RustLooksLikeLiteral(given)
  {
    hide ReadsMinusZero, RustUnbracketed, SwiftUnbracketed;
    UnbracketedAgree(given);
    if ReadsMinusZero(RustUnbracketed(given)) { MinusZeroHost(RustUnbracketed(given)); }
  }

  /** A loopback peer on the right port, without the hostname opt-in, for a host with a minus-zero part. */
  predicate Disagree(policy: Policy, e: Endpoint, evidence: Evidence)
    requires evidence.Cleartext? ==> ValidAddress(evidence.address)
  {
    && evidence.Cleartext? && evidence.port == (if e.port.Some? then e.port.value else 80)
    && RustClassify(evidence.address).Loopback? && !policy.hostnameLoopback
    && ReadsMinusZero(RustUnbracketed(e.host))
  }

  /**
   * Both policies give the same verdict and the same error for every cleartext endpoint, flag set
   * and peer, except in one family, where Swift accepts and Rust asks for loopback intent.
   */
  lemma PoliciesAgree(policy: Policy, e: Endpoint, evidence: Evidence)
    requires ValidEndpoint(e) && (evidence.Cleartext? ==> ValidAddress(evidence.address))
    ensures RustVerify(policy, e, evidence) == SwiftVerify(policy, e, evidence) <==> !Disagree(policy, e, evidence)
    ensures Disagree(policy, e, evidence) ==>
              && RustVerify(policy, e, evidence) == Some(LoopbackIntentRequired)
              && SwiftVerify(policy, e, evidence) == None
  {
    hide RustClassify, SwiftClassify, ReadsMinusZero, RustLoopbackIntent, SwiftLoopbackIntent, RustLooksLikeLiteral,
      SwiftLooksLikeLiteral, RustUnbracketed;
    if evidence.Cleartext? {
      ClassesAgree(evidence.address);
      IntentsDiffer(e.host);
      LiteralsAgree(e.host);
    }
  }

  /** In particular for every host without a minus sign. */
  lemma PoliciesAgreeWithoutMinus(policy: Policy, e: Endpoint, evidence: Evidence)
    requires ValidEndpoint(e) && (evidence.Cleartext? ==> ValidAddress(evidence.address)) && MINUS !in e.host
    ensures RustVerify(policy, e, evidence) == SwiftVerify(policy, e, evidence)
  {
    hide RustVerify, SwiftVerify, ReadsMinusZero, RustClassify;
    PoliciesAgree(policy, e, evidence);
    if ReadsMinusZero(RustUnbracketed(e.host)) { MinusZeroHost(RustUnbracketed(e.host)); }
  }

  /** The family is not empty: "127.0.0.-0" reached at 127.0.0.1. */
  lemma MinusZeroExample()
    ensures var host := Join([Print(127), Print(0), Print(0), [MINUS, ZERO]], DOT);
            Disagree(Policy(false, false, false), Endpoint(host, None), Cleartext(V4([127, 0, 0, 1]), 80, None))
  {
    hide Split, Join, RustOctet, Print;
    var parts := [Print(127), Print(0), Print(0), [MINUS, ZERO]];
    SpelledOctet(127);
    SpelledOctet(0);
    forall i | 0 <= i < 4
      ensures Unpadded(parts[i]) && SwiftOctet(parts[i]) == Some(if i == 0 then 127 else 0) && DOT !in parts[i]
    {
      OctetsDiffer(parts[i]);
      if i < 3 { PrintedIsNoMinus(if i == 0 then 127 else 0); }
    }
    SplitJoin(parts, DOT);
    assert MinusZeros(parts[3]);
    var host := Join(parts, DOT);
    JoinStarts(parts);
  }

  lemma PrintedIsNoMinus(n: nat)
    ensures !MinusZeros(Print(n))
  {
    assert IsDigit(Print(n)[0]);
  }

  lemma JoinStarts(parts: seq<seq<Byte>>)
    requires |parts| > 1 && parts[0] == Print(127)
    ensures RustUnbracketed(Join(parts, DOT)) == Join(parts, DOT)
  {
    assert IsDigit(Print(127)[0]) && Join(parts, DOT)[0] == Print(127)[0];
  }
}
