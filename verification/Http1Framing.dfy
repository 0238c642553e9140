/** How a body is delimited, read off the headers themselves. */
module Http1Framing {

  import opened Bytes
  import opened Http1

  /** The header carries the name, in any case. */
  predicate Named(h: Header, name: string) { Lower(h.name) == Ascii(name) }

  predicate NoneNamed(headers: seq<Header>, name: string) { forall i | 0 <= i < |headers| :: !Named(headers[i], name) }

  /** Header `i` carries the name and no other does. */
  predicate OnlyNamed(headers: seq<Header>, name: string, i: nat) {
    && i < |headers| && Named(headers[i], name)
    && forall j | 0 <= j < |headers| && j != i :: !Named(headers[j], name)
  }

  /** Whether a body may follow, whatever the headers say. */
  predicate MayHaveBody(config: Config, status: int) {
    config.requestMethod != "HEAD" && !(100 <= status <= 199) && status != 204 && status != 304
  }

  /** One content length, in digits, and no transfer encoding. */
  ghost predicate AnnouncesLength(headers: seq<Header>, length: nat) {
    && NoneNamed(headers, "transfer-encoding")
    && exists i: nat :: OnlyNamed(headers, "content-length", i) && IsLength(headers[i].value, length)
  }

  predicate IsLength(value: seq<Byte>, length: nat) {
    value != [] && AllDigits(value) && DigitsValue(value) == length < INT_LIMIT
  }

  /** One transfer encoding, which is chunked in any case, and no content length. */
  ghost predicate AnnouncesChunks(headers: seq<Header>) {
    && NoneNamed(headers, "content-length")
    && exists i: nat :: OnlyNamed(headers, "transfer-encoding", i) && Lower(headers[i].value) == Ascii("chunked")
  }

  /** The framing the headers announce. */
  ghost predicate Frames(config: Config, status: int, headers: seq<Header>, framing: Framing) {
    match framing
    case Empty => !MayHaveBody(config, status)
    case ContentLength(length) =>
      MayHaveBody(config, status) && AnnouncesLength(headers, length) && length <= config.maximumBodyBytes
    case Chunked => MayHaveBody(config, status) && AnnouncesChunks(headers)
  }

  /** The headers announce a length above the limit. */
  ghost predicate TooLong(config: Config, status: int, headers: seq<Header>) {
    && MayHaveBody(config, status)
    && exists length: nat :: AnnouncesLength(headers, length) && length > config.maximumBodyBytes
  }

  // ---------------------------------------------------------------- values by name

  lemma {:induction false} NoValues(headers: seq<Header>, name: string)
    ensures ValuesOf(headers, Ascii(name)) == [] <==> NoneNamed(headers, name)
    decreases |headers|
  {
    hide Lower, Ascii;
    if headers != [] {
      var rest := headers[..|headers| - 1];
      NoValues(rest, name);
      assert forall i | 0 <= i < |rest| :: rest[i] == headers[i];
    }
  }

  lemma {:induction false} ValueOfOnly(headers: seq<Header>, name: string, i: nat)
    requires OnlyNamed(headers, name, i)
    ensures ValuesOf(headers, Ascii(name)) == [headers[i].value]
    decreases |headers|
  {
    hide Lower, Ascii;
    var n := |headers| - 1;
    var rest := headers[..n];
    assert forall j | 0 <= j < n :: rest[j] == headers[j];
    if i == n {
      NoValues(rest, name);
      assert [] + [headers[n].value] == [headers[n].value];
    } else {
      ValueOfOnly(rest, name, i);
    }
  }

  lemma {:induction false} OnlyOfValue(headers: seq<Header>, name: string) returns (i: nat)
    requires |ValuesOf(headers, Ascii(name))| == 1
    ensures OnlyNamed(headers, name, i)
    decreases |headers|
  {
    hide Lower, Ascii;
    var n := |headers| - 1;
    var rest := headers[..n];
    assert forall j | 0 <= j < n :: rest[j] == headers[j];
    if Named(headers[n], name) {
      NoValues(rest, name);
      i := n;
    } else {
      i := OnlyOfValue(rest, name);
    }
  }

  // ---------------------------------------------------------------- the framing decision

  lemma LengthIsRead(value: seq<Byte>, length: nat)
    ensures AllDigits(value) && ReadInt(value) == Some(length) <==> IsLength(value, length)
  {
    hide DigitsValue;
    if value != [] && AllDigits(value) { assert IsDigit(value[0]); }
  }

  lemma LengthsAnnounce(headers: seq<Header>, length: nat)
    ensures var lengths := ValuesOf(headers, Ascii("content-length"));
            var encodings := ValuesOf(headers, Ascii("transfer-encoding"));
            AnnouncesLength(headers, length)
            <==> |lengths| == 1 && encodings == [] && AllDigits(lengths[0]) && ReadInt(lengths[0]) == Some(length)
  {
    hide ValuesOf, Ascii, Lower, ReadInt, AllDigits, IsLength, NoneNamed, Named;
    var lengths := ValuesOf(headers, Ascii("content-length"));
    NoValues(headers, "transfer-encoding");
    if |lengths| == 1 {
      var i := OnlyOfValue(headers, "content-length");
      LengthIsRead(lengths[0], length);
    }
    forall i: nat | OnlyNamed(headers, "content-length", i) ensures lengths == [headers[i].value] {
      ValueOfOnly(headers, "content-length", i);
    }
  }

  lemma EncodingsAnnounce(headers: seq<Header>)
    ensures var lengths := ValuesOf(headers, Ascii("content-length"));
            var encodings := ValuesOf(headers, Ascii("transfer-encoding"));
            AnnouncesChunks(headers) <==> lengths == [] && |encodings| == 1 && Lower(encodings[0]) == Ascii("chunked")
  {
    hide ValuesOf, Ascii, Lower, NoneNamed, Named;
    var encodings := ValuesOf(headers, Ascii("transfer-encoding"));
    NoValues(headers, "content-length");
    if |encodings| == 1 { var i := OnlyOfValue(headers, "transfer-encoding"); }
    forall i: nat | OnlyNamed(headers, "transfer-encoding", i) ensures encodings == [headers[i].value] {
      ValueOfOnly(headers, "transfer-encoding", i);
    }
  }

  /**
   * The decision is what the headers announce; a length above the limit is too large, and whatever
   * announces nothing, or more than one thing, is invalid.
   */
  lemma FramingIsAnnounced(config: Config, status: int, headers: seq<Header>)
    ensures forall framing ::
      FramingOf(config, status, headers) == Ok(framing) <==> Frames(config, status, headers, framing)
    ensures FramingOf(config, status, headers) == Err(ResponseTooLarge) <==> TooLong(config, status, headers)
    ensures FramingOf(config, status, headers).Err? ==>
              FramingOf(config, status, headers).error in {ResponseTooLarge, InvalidResponse}
  {
    hide ValuesOf, Ascii, Lower, AnnouncesLength, AnnouncesChunks, ReadInt, AllDigits;
    EncodingsAnnounce(headers);
    forall length: nat
      ensures var lengths := ValuesOf(headers, Ascii("content-length"));
              var encodings := ValuesOf(headers, Ascii("transfer-encoding"));
              AnnouncesLength(headers, length)
              <==> |lengths| == 1 && encodings == [] && AllDigits(lengths[0]) && ReadInt(lengths[0]) == Some(length)
    {
      LengthsAnnounce(headers, length);
    }
    LengthIsNatural(ValuesOf(headers, Ascii("content-length")));
  }

  lemma LengthIsNatural(lengths: seq<seq<Byte>>)
    ensures |lengths| == 1 && AllDigits(lengths[0]) && ReadInt(lengths[0]).Some? ==> ReadInt(lengths[0]).value >= 0
  {
  }
}
