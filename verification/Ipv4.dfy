/** Reading dotted-decimal hosts, as the Rust and the Swift policies each do it. */
module Ipv4 {

  import opened Bytes
  import opened Decimal
  import opened Splitting

  const DOT: Byte := 0x2e
  const PLUS: Byte := 0x2b
  const ZERO: Byte := 0x30

  /** One octet of digits, any number of leading zeros. */
  function DigitsOctet(digits: seq<Byte>): Option<Byte> {
    if digits == [] || !AllDigits(digits) || DigitsValue(digits) > 255 then None else Some(DigitsValue(digits))
  }

  /** Rust reads an unsigned octet after an optional plus sign. */
  function RustOctet(part: seq<Byte>): Option<Byte> {
    DigitsOctet(if part != [] && part[0] == PLUS then part[1..] else part)
  }

  /** Swift also reads a minus sign, as long as the value stays zero. */
  function SwiftOctet(part: seq<Byte>): Option<Byte> {
    if part != [] && part[0] == MINUS then
      if DigitsOctet(part[1..]) == Some(0) then Some(0) else None
    else RustOctet(part)
  }

  predicate Unpadded(part: seq<Byte>) { part != [] && !(|part| > 1 && part[0] == ZERO) }

  /** Four parts, each unpadded and read as an octet. */
  predicate FourOctets(read: seq<Byte> -> Option<Byte>, parts: seq<seq<Byte>>) {
    |parts| == 4 && forall i | 0 <= i < 4 :: Unpadded(parts[i]) && read(parts[i]).Some?
  }

  function Canonical(read: seq<Byte> -> Option<Byte>, host: seq<Byte>): (r: Option<seq<Byte>>)
    ensures r.Some? ==> |r.value| == 4
  {
    var parts := Split(host, DOT);
    if FourOctets(read, parts) then
      Some(seq(4, i requires 0 <= i < 4 => read(parts[i]).value))
    else None
  }

  lemma CanonicalIs(read: seq<Byte> -> Option<Byte>, host: seq<Byte>, address: seq<Byte>)
    requires |address| == 4 && |Split(host, DOT)| == 4
    requires forall i | 0 <= i < 4 :: Unpadded(Split(host, DOT)[i]) && read(Split(host, DOT)[i]) == Some(address[i])
    ensures Canonical(read, host) == Some(address)
  {
    hide Split;
    assert Canonical(read, host).value == address;
  }

  /** Fills an array octet by octet, then asks for the end of the parts. */
  method RustCanonicalIpv4(host: seq<Byte>) returns (r: Option<seq<Byte>>)
    ensures r == Canonical(RustOctet, host)
  {
    hide RustOctet, Split;
    var address := new Byte[4];
    var parts, k := Split(host, DOT), 0;
    while k < 4
      invariant 0 <= k <= 4 && k <= |parts|
      invariant forall i | 0 <= i < k :: Unpadded(parts[i]) && RustOctet(parts[i]) == Some(address[i])
    {
      if k == |parts| { return None; }
      var part := parts[k];
      if part == [] || (|part| > 1 && part[0] == ZERO) { return None; }
      var octet := RustOctet(part);
      if octet.None? { return None; }
      address[k] := octet.value;
      k := k + 1;
    }
    if |parts| != 4 { return None; }
    CanonicalIs(RustOctet, host, address[..]);
    return Some(address[..]);
  }

  /** Counts the parts first, then appends octet by octet. */
  method SwiftCanonicalIpv4(host: seq<Byte>) returns (r: Option<seq<Byte>>)
    ensures r == Canonical(SwiftOctet, host)
  {
    hide SwiftOctet, Split;
    var parts := Split(host, DOT);
    if |parts| != 4 { return None; }
    var address: seq<Byte>, k := [], 0;
    while k < 4
      invariant 0 <= k <= 4 && |address| == k
      invariant forall i | 0 <= i < k :: Unpadded(parts[i]) && SwiftOctet(parts[i]) == Some(address[i])
    {
      var part := parts[k];
      if part == [] || (|part| > 1 && part[0] == ZERO) { return None; }
      var octet := SwiftOctet(part);
      if octet.None? { return None; }
      address := address + [octet.value];
      k := k + 1;
    }
    CanonicalIs(SwiftOctet, host, address);
    return Some(address);
  }

  // ---------------------------------------------------------------- canonical spelling

  function Spelled(address: seq<Byte>): seq<seq<Byte>> {
    seq(|address|, i requires 0 <= i < |address| => Print(address[i]))
  }

  /** The dotted-decimal printing of an address. */
  function Dotted(address: seq<Byte>): seq<Byte>
    requires |address| == 4
  {
    Join(Spelled(address), DOT)
  }

  lemma SpelledOctet(b: Byte)
    ensures Unpadded(Print(b)) && RustOctet(Print(b)) == Some(b) && DOT !in Print(b) && PLUS !in Print(b)
  {
    hide DigitsValue;
    ValueOfPrint(b);
    assert Print(b)[0] != PLUS;
  }

  /** Every address's printing is accepted and gives the address back. */
  lemma DottedIsCanonical(address: seq<Byte>)
    requires |address| == 4
    ensures Canonical(RustOctet, Dotted(address)) == Some(address)
  {
    hide Split, Join, RustOctet, Print;
    var parts := Spelled(address);
    forall i | 0 <= i < 4 ensures Unpadded(parts[i]) && RustOctet(parts[i]) == Some(address[i]) && DOT !in parts[i] {
      SpelledOctet(address[i]);
    }
    SplitJoin(parts, DOT);
    CanonicalIs(RustOctet, Dotted(address), address);
  }

  lemma OctetIsSpelled(part: seq<Byte>)
    requires Unpadded(part) && RustOctet(part).Some?
    ensures part == Print(RustOctet(part).value) <==> PLUS !in part
  {
    if part[0] == PLUS {
      assert Print(RustOctet(part).value)[0] != PLUS;
    } else {
      PrintOfValue(part);
    }
  }

  /**
   * An accepted host is the dotted-decimal printing of its address exactly when it has no plus sign;
   * in particular for every host of digits and dots.
   */
  lemma CanonicalIsDotted(host: seq<Byte>)
    requires Canonical(RustOctet, host).Some?
    ensures host == Dotted(Canonical(RustOctet, host).value) <==> PLUS !in host
  {
    hide Split, Join, RustOctet, Print;
    var parts, address := Split(host, DOT), Canonical(RustOctet, host).value;
    JoinSplit(host, DOT);
    if PLUS !in host {
      forall i | 0 <= i < 4 ensures parts[i] == Spelled(address)[i] {
        PartsOf(host, DOT, i);
        OctetIsSpelled(parts[i]);
      }
      assert parts == Spelled(address);
    }
    if host == Dotted(address) { DottedHasNoPlus(address); }
  }

  /** Every byte of a part is a byte of the whole. */
  lemma {:induction false} PartsOf(s: seq<Byte>, sep: Byte, i: nat)
    requires i < |Split(s, sep)|
    ensures forall b | b in Split(s, sep)[i] :: b in s
    decreases |s|
  {
    if s != [] {
      var rest := Split(s[1..], sep);
      if s[0] == sep {
        if i > 0 { PartsOf(s[1..], sep, i - 1); }
      } else {
        PartsOf(s[1..], sep, i);
      }
    }
  }

  lemma {:induction false} BytesOfJoin(parts: seq<seq<Byte>>, sep: Byte, b: Byte)
    requires parts != [] && b != sep && forall i | 0 <= i < |parts| :: b !in parts[i]
    ensures b !in Join(parts, sep)
    decreases |parts|
  {
    if |parts| > 1 { BytesOfJoin(parts[1..], sep, b); }
  }

  lemma DottedHasNoPlus(address: seq<Byte>)
    requires |address| == 4
    ensures PLUS !in Dotted(address)
  {
    hide Join, Print;
    forall i | 0 <= i < 4 ensures PLUS !in Spelled(address)[i] { SpelledOctet(address[i]); }
    BytesOfJoin(Spelled(address), DOT, PLUS);
  }

  /** A plus sign is accepted though it is no canonical spelling. */
  lemma PlusIsAccepted()
    ensures var host := [PLUS] + Dotted([127, 0, 0, 1]);
            Canonical(RustOctet, host) == Some([127, 0, 0, 1]) && host != Dotted([127, 0, 0, 1])
  {
    hide Split, Join, RustOctet, Print;
    var address: seq<Byte> := [127, 0, 0, 1];
    var parts := Spelled(address);
    var signed := parts[0 := [PLUS] + parts[0]];
    forall i | 0 <= i < 4 ensures Unpadded(signed[i]) && RustOctet(signed[i]) == Some(address[i]) && DOT !in signed[i] {
      SpelledOctet(address[i]);
      if i == 0 { SignedOctet(127); }
    }
    SplitJoin(signed, DOT);
    JoinSigned(parts, [PLUS]);
    CanonicalIs(RustOctet, [PLUS] + Dotted(address), address);
  }

  lemma SignedOctet(b: Byte)
    ensures var part := [PLUS] + Print(b); Unpadded(part) && RustOctet(part) == Some(b)
  {
    hide DigitsValue, Print;
    SpelledOctet(b);
    ValueOfPrint(b);
    assert ([PLUS] + Print(b))[1..] == Print(b);
  }

  lemma JoinSigned(parts: seq<seq<Byte>>, front: seq<Byte>)
    requires parts != []
    ensures Join(parts[0 := front + parts[0]], DOT) == front + Join(parts, DOT)
  {
    var changed := parts[0 := front + parts[0]];
    if |parts| > 1 { assert changed[1..] == parts[1..]; }
  }

  // ---------------------------------------------------------------- where the two readings differ

  /** A minus sign before zeros only. */
  predicate MinusZeros(part: seq<Byte>) {
    |part| > 1 && part[0] == MINUS && forall i | 1 <= i < |part| :: part[i] == ZERO
  }

  lemma {:induction false} ZeroValue(digits: seq<Byte>)
    requires AllDigits(digits)
    ensures DigitsValue(digits) == 0 <==> forall i | 0 <= i < |digits| :: digits[i] == ZERO
    decreases |digits|
  {
    if digits != [] { ZeroValue(digits[..|digits| - 1]); }
  }

  lemma OctetsDiffer(part: seq<Byte>)
    ensures SwiftOctet(part) == if MinusZeros(part) then Some(0) else RustOctet(part)
  {
    if part != [] && part[0] == MINUS {
      var digits := part[1..];
      assert forall i | 1 <= i < |part| :: part[i] == digits[i - 1];
      if AllDigits(digits) { ZeroValue(digits); }
    }
  }

  /** The address both read, or the one only Swift reads because of a minus sign before zeros. */
  lemma CanonicalDiffers(host: seq<Byte>)
    ensures var parts := Split(host, DOT);
            && (Canonical(RustOctet, host).Some? ==> Canonical(SwiftOctet, host) == Canonical(RustOctet, host))
            && (Canonical(SwiftOctet, host).Some? && Canonical(RustOctet, host).None?
                <==> FourOctets(SwiftOctet, parts) && exists i :: 0 <= i < 4 && MinusZeros(parts[i]))
  {
    hide Split, RustOctet, SwiftOctet, MinusZeros;
    var parts := Split(host, DOT);
    if |parts| == 4 {
      forall i | 0 <= i < 4
        ensures SwiftOctet(parts[i]) == if MinusZeros(parts[i]) then Some(0) else RustOctet(parts[i])
      {
        OctetsDiffer(parts[i]);
      }
      forall i | 0 <= i < 4 ensures MinusZeros(parts[i]) ==> RustOctet(parts[i]).None? {
        MinusIsNoRustOctet(parts[i]);
      }
      if Canonical(RustOctet, host).Some? { CanonicalIs(SwiftOctet, host, Canonical(RustOctet, host).value); }
    }
  }

  lemma MinusIsNoRustOctet(part: seq<Byte>)
    ensures MinusZeros(part) ==> RustOctet(part).None?
  {
    assert MinusZeros(part) ==> !IsDigit(part[0]);
  }
}
