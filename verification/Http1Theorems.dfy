/** What holds of every response and every way of receiving it. */
module Http1Theorems {

  import opened Bytes
  import opened Http1
  import opened Http1Fragments
  import opened Http1Chunks

  // ---------------------------------------------------------------- memory

  /** What every reachable state keeps. */
  predicate Inv(config: Config, st: State) {
    && (st.framing.Some? ==> st.status.Some?)
    && (st.framing != Some(Chunked) ==> st.decoded == [])
    && (st.framing.Some? && st.framing.value.ContentLength? ==> st.framing.value.length <= config.maximumBodyBytes)
    && (st.decoded == [] || |st.decoded| <= config.maximumBodyBytes)
  }

  function Max(a: int, b: int): int { if a < b then b else a }

  lemma {:induction false} HeadsKeepInv(config: Config, st: State)
    requires Inv(config, st)
    ensures Inv(config, TakeHeads(config, st).state)
    ensures TakeHeads(config, st).Waiting? ==> |TakeHeads(config, st).state.buffer| <= MAX_HEADER_BYTES
    decreases |st.buffer|
  {
    hide Find, OccursAt, ReadHead, ValuesOf, ReadInt;
    if st.framing.None? {
      var step := TakeHead(config, st);
      if step.HeadTaken? { HeadsKeepInv(config, step.state); }
    }
  }

  lemma NeedMoreIsSmall(buffer: seq<Byte>, room: int)
    ensures NextChunk(buffer, room).NeedMore? ==> |buffer| <= Max(room, 0) + 131
  {
  }

  lemma {:induction false} WalkIsBounded(buffer: seq<Byte>, decoded: seq<Byte>, maximum: int)
    requires decoded == [] || |decoded| <= maximum
    ensures var walk := WalkChunks(buffer, decoded, maximum);
            && (walk.decoded == [] || |walk.decoded| <= maximum)
            && (walk.last.NeedMore? ==> |walk.rest| + |walk.decoded| <= Max(maximum, 0) + 131)
    decreases |buffer|
  {
    hide NextChunk;
    var step := NextChunk(buffer, maximum - |decoded|);
    NeedMoreIsSmall(buffer, maximum - |decoded|);
    if step.OneChunk? { WalkIsBounded(buffer[step.size..], decoded + step.data, maximum); }
  }

  /**
   * One call keeps the invariant; a call that returns nothing leaves a bounded amount behind,
   * and a returned body is within the limit.
   */
  lemma ConsumeIsBounded(config: Config, st: State, data: seq<Byte>, isComplete: bool)
    requires Inv(config, st)
    ensures var (outcome, next) := Consume(config, st, data, isComplete);
            && Inv(config, next)
            && (outcome.Pending? ==>
                  |next.buffer| + |next.decoded| <= Max(MAX_HEADER_BYTES, config.maximumBodyBytes + 131))
            && (outcome.Response? ==> |outcome.response.body| <= Max(config.maximumBodyBytes, 0))
  {
    hide TakeHeads, WalkChunks;
    HeadsKeepInv(config, st.Append(data));
    var heads := TakeHeads(config, st.Append(data));
    WalkIsBounded(heads.state.buffer, heads.state.decoded, config.maximumBodyBytes);
  }

  /** The same over a whole connection: any fragments from a new parser. */
  lemma {:induction false} FeedIsBounded(config: Config, st: State, fragments: seq<seq<Byte>>, isComplete: bool)
    requires fragments != [] && Inv(config, st)
    ensures var (outcome, next) := Feed(config, st, fragments, isComplete);
            && Inv(config, next)
            && (outcome.Pending? ==>
                  |next.buffer| + |next.decoded| <= Max(MAX_HEADER_BYTES, config.maximumBodyBytes + 131))
            && (outcome.Response? ==> |outcome.response.body| <= Max(config.maximumBodyBytes, 0))
    decreases |fragments|
  {
    ConsumeIsBounded(config, st, fragments[0], |fragments| == 1 && isComplete);
    var next := Consume(config, st, fragments[0], |fragments| == 1 && isComplete);
    if |fragments| > 1 && next.0.Pending? { FeedIsBounded(config, next.1, fragments[1..], isComplete); }
  }

  // ---------------------------------------------------------------- no early outcome

  /** A prefix of a stream whose heads parse is never refused for its heads. */
  lemma {:induction false} HeadsOfPrefix(config: Config, st: State, more: seq<Byte>)
    requires TakeHeads(config, st.Append(more)).Ready?
    ensures !TakeHeads(config, st).Fault?
    decreases |st.buffer|
  {
    hide Find, OccursAt, ReadHead, FramingOf;
    if st.framing.None? {
      if Find(st.buffer, HEAD_END, 0).None? {
        var k := Find(st.buffer + more, HEAD_END, 0).value;
        if k + 4 <= |st.buffer| { OccursInPrefix(st.buffer, more, HEAD_END, k); }
      } else {
        FindInPrefix(st.buffer, more, HEAD_END);
        var k := Find(st.buffer, HEAD_END, 0).value;
        assert (st.buffer + more)[..k] == st.buffer[..k];
        assert TakeHead(config, st).HeadTaken?;
        HeadTakenAppend(config, st, more);
        HeadsOfPrefix(config, TakeHead(config, st).state, more);
      }
    }
  }

  /** The cut `p` of the response `s` that the size-line guard refuses. */
  ghost predicate RefusedCut(config: Config, st: State, s: seq<Byte>, p: seq<Byte>) {
    var whole, part := TakeHeads(config, st.Append(s)), TakeHeads(config, st.Append(p));
    && part.Ready? && whole.state.framing == Some(Chunked)
    && exists chunks, last :: ValidStream(chunks, last) && whole.state.buffer == EncodeStream(chunks, last)
                              && CutsLongLine(chunks, last, part.state.buffer)
  }

  lemma NextOfStream(chunks: seq<Chunk>, last: seq<Byte>)
    requires ValidStream(chunks, last)
    ensures var b := EncodeStream(chunks, last);
            NextChunk(b, |b|) == if chunks == [] then LastChunk else OneChunk(chunks[0].data, |Encode(chunks[0])|)
  {
    hide NextChunk;
    var b := EncodeStream(chunks, last);
    if chunks == [] {
      NextOfLast(last, |b|);
    } else {
      NextOfEncoded(chunks[0], EncodeStream(chunks[1..], last), |b|);
    }
  }

  /** The encoding determines the chunks, so the cut does not depend on how the stream is read. */
  lemma {:induction false} EncodeStreamInjective(c1: seq<Chunk>, l1: seq<Byte>, c2: seq<Chunk>, l2: seq<Byte>)
    requires ValidStream(c1, l1) && ValidStream(c2, l2)
    requires EncodeStream(c1, l1) == EncodeStream(c2, l2)
    ensures c1 == c2 && l1 == l2
    decreases |c1|
  {
    hide NextChunk, ValidChunk, SizeLine;
    var b := EncodeStream(c1, l1);
    NextOfStream(c1, l1);
    NextOfStream(c2, l2);
    if c1 == [] {
      assert l1 == b[..|b| - 4] == l2;
    } else {
      var n, size := |Encode(c1[0])|, |c1[0].data|;
      assert Encode(c1[0]) == b[..n] == Encode(c2[0]);
      assert c1[0].line == b[..n][..n - size - 4] == c2[0].line;
      assert EncodeStream(c1[1..], l1) == b[n..] == EncodeStream(c2[1..], l2);
      EncodeStreamInjective(c1[1..], l1, c2[1..], l2);
      assert c1 == [c1[0]] + c1[1..] && c2 == [c2[0]] + c2[1..];
    }
  }

  /** An accepted chunked buffer, with the chunks it is made of. */
  lemma AcceptedStream(config: Config, st: State) returns (chunks: seq<Chunk>, last: seq<Byte>)
    requires st.framing == Some(Chunked)
    requires TakeBody(config, st).0.Response?
    ensures ValidStream(chunks, last) && st.buffer == EncodeStream(chunks, last)
    ensures |st.decoded| + |Joined(chunks)| <= config.maximumBodyBytes || chunks == []
  {
    hide WalkChunks, EncodeStream;
    DecodedIsCarried(st.buffer, st.decoded, config.maximumBodyBytes);
    var added :| Carries(st.buffer, added) && (|st.decoded + added| <= config.maximumBodyBytes || added == []);
    chunks, last :| ValidStream(chunks, last) && st.buffer == EncodeStream(chunks, last) && added == Joined(chunks);
    assert chunks != [] ==> Joined(chunks) != [];
  }

  lemma BodyOfPrefix(config: Config, st: State, more: seq<Byte>)
    requires more != [] && st.framing.Some?
    requires TakeBody(config, st.Append(more)).0.Response?
    requires st.framing != Some(Chunked)
    ensures TakeBody(config, st).0.Pending?
  {
  }

  lemma ChunkedBodyOfPrefix(config: Config, st: State, more: seq<Byte>)
    requires more != [] && st.framing == Some(Chunked)
    requires TakeBody(config, st.Append(more)).0.Response?
    ensures var cut := exists chunks, last ::
              ValidStream(chunks, last) && st.buffer + more == EncodeStream(chunks, last)
                                              && CutsLongLine(chunks, last, st.buffer);
            TakeBody(config, st).0 == if cut then Error(InvalidResponse) else Pending
  {
    var chunks, last := AcceptedStream(config, st.Append(more));
    assert st.buffer < EncodeStream(chunks, last);
    PrefixWaits(chunks, last, st.buffer, st.decoded, config.maximumBodyBytes);
    forall c, l | ValidStream(c, l) && st.buffer + more == EncodeStream(c, l) ensures c == chunks && l == last {
      EncodeStreamInjective(c, l, chunks, last);
    }
  }

  /**
   * If a stream parses in one call then every proper prefix of it leaves the parser waiting,
   * except a prefix that ends between the CR and LF of a 128-digit size line, which is refused.
   */
  lemma NoEarlyOutcome(config: Config, st: State, s: seq<Byte>, p: seq<Byte>, isComplete: bool)
    requires Consume(config, st, s, isComplete).0.Response?
    requires p < s
    ensures Consume(config, st, p, false).0
            == if RefusedCut(config, st, s, p) then Error(InvalidResponse) else Pending
  {
    hide TakeHeads, TakeBody, ValidStream, EncodeStream, CutsLongLine;
    var more := s[|p|..];
    assert st.Append(p).Append(more) == st.Append(s) by { assert st.buffer + p + more == st.buffer + s; }
    HeadsOfPrefix(config, st.Append(p), more);
    TakeHeadsAppend(config, st.Append(p), more);
    var part := TakeHeads(config, st.Append(p));
    if part.Ready? {
      assert TakeHeads(config, st.Append(s)).state == part.state.Append(more);
      if part.state.framing == Some(Chunked) {
        ChunkedBodyOfPrefix(config, part.state, more);
      } else {
        BodyOfPrefix(config, part.state, more);
      }
    }
  }

  // ---------------------------------------------------------------- every cut at once

  predicate HasLongLine(chunks: seq<Chunk>, last: seq<Byte>) {
    |last| == MAX_SIZE_LINE || exists i | 0 <= i < |chunks| :: |chunks[i].line| == MAX_SIZE_LINE
  }

  /** The response `s` is chunked and spells some chunk size with 128 digits. */
  ghost predicate LongSizeLine(config: Config, st: State, s: seq<Byte>) {
    var whole := TakeHeads(config, st.Append(s));
    && whole.state.framing == Some(Chunked)
    && exists chunks, last :: ValidStream(chunks, last) && whole.state.buffer == EncodeStream(chunks, last)
                              && HasLongLine(chunks, last)
  }

  lemma {:induction false} CutsImplyLongLine(chunks: seq<Chunk>, last: seq<Byte>, p: seq<Byte>)
    requires CutsLongLine(chunks, last, p)
    ensures HasLongLine(chunks, last)
    decreases |chunks|
  {
    if chunks != [] && |chunks[0].line| != MAX_SIZE_LINE {
      CutsImplyLongLine(chunks[1..], last, p[|Encode(chunks[0])|..]);
    }
  }

  lemma {:induction false} LongLineCut(chunks: seq<Chunk>, last: seq<Byte>) returns (p: seq<Byte>)
    requires HasLongLine(chunks, last)
    ensures p < EncodeStream(chunks, last) && CutsLongLine(chunks, last, p)
    decreases |chunks|
  {
    if chunks == [] {
      p := last + [CR];
    } else if |chunks[0].line| == MAX_SIZE_LINE {
      p := chunks[0].line + [CR];
    } else {
      if i :| 0 <= i < |chunks| && |chunks[i].line| == MAX_SIZE_LINE {
        assert chunks[1..][i - 1] == chunks[i];
      }
      var rest := LongLineCut(chunks[1..], last);
      p := Encode(chunks[0]) + rest;
      assert p[|Encode(chunks[0])|..] == rest;
    }
  }

  /** Heads are taken off the front and leave the rest of the buffer alone. */
  lemma {:induction false} HeadsAreAFront(config: Config, st: State) returns (n: nat)
    requires TakeHeads(config, st).Ready?
    ensures n <= |st.buffer| && TakeHeads(config, st).state.buffer == st.buffer[n..]
    ensures TakeHeads(config, st.(buffer := st.buffer[..n])) == Ready(TakeHeads(config, st).state.(buffer := []))
    decreases |st.buffer|
  {
    hide TakeHead, TakeHeads;
    if st.framing.Some? {
      n := 0;
    } else {
      HeadsStep(config, st);
      var next := TakeHead(config, st).state;
      var m := HeadsAreAFront(config, next);
      var k := FrontHead(config, st, m);
      n := k + m;
      assert st.buffer[k..][m..] == st.buffer[n..];
      HeadsStep(config, st.(buffer := st.buffer[..n]));
    }
  }

  lemma HeadsStep(config: Config, st: State)
    requires st.framing.None?
    ensures TakeHeads(config, st).Ready? ==> TakeHead(config, st).HeadTaken?
    ensures TakeHead(config, st).HeadTaken? ==> TakeHeads(config, st) == TakeHeads(config, TakeHead(config, st).state)
  {
  }

  lemma FrontHead(config: Config, st: State, m: nat) returns (k: nat)
    requires st.framing.None? && TakeHead(config, st).HeadTaken?
    requires m <= |TakeHead(config, st).state.buffer|
    ensures k + m <= |st.buffer| && TakeHead(config, st).state.buffer == st.buffer[k..]
    ensures var next := TakeHead(config, st).state;
            TakeHead(config, st.(buffer := st.buffer[..k + m])) == HeadTaken(next.(buffer := next.buffer[..m]))
  {
    hide ReadHead, FramingOf, Find, OccursAt;
    k := Find(st.buffer, HEAD_END, 0).value + 4;
    var front := st.buffer[..k + m];
    assert front + st.buffer[k + m..] == st.buffer;
    FindInFront(front, st.buffer[k + m..], HEAD_END);
    assert front[..k - 4] == st.buffer[..k - 4];
    assert front[k..] == st.buffer[k..][..m];
  }

  /**
   * A response that parses in one call is never decided early, however it is cut, exactly when
   * it is not a chunked response with a 128-digit size line.
   */
  lemma NeverEarlyIff(config: Config, st: State, s: seq<Byte>, isComplete: bool)
    requires st.buffer == []
    requires Consume(config, st, s, isComplete).0.Response?
    ensures (forall p | p < s :: Consume(config, st, p, false).0.Pending?) <==> !LongSizeLine(config, st, s)
  {
    hide TakeHeads, TakeBody, Consume, ValidStream, EncodeStream, CutsLongLine, HasLongLine;
    forall p | p < s
      ensures Consume(config, st, p, false).0 == if RefusedCut(config, st, s, p) then Error(InvalidResponse)
                                                 else Pending
    {
      NoEarlyOutcome(config, st, s, p, isComplete);
    }
    if LongSizeLine(config, st, s) {
      var p := RefusedPrefix(config, st, s, isComplete);
    } else {
      forall p | p < s ensures !RefusedCut(config, st, s, p) {
        forall chunks, last, cut | CutsLongLine(chunks, last, cut) ensures HasLongLine(chunks, last) {
          CutsImplyLongLine(chunks, last, cut);
        }
      }
    }
  }

  /** The prefix that is refused, for a response with a 128-digit size line. */
  lemma RefusedPrefix(config: Config, st: State, s: seq<Byte>, isComplete: bool) returns (p: seq<Byte>)
    requires st.buffer == []
    requires Consume(config, st, s, isComplete).0.Response?
    requires LongSizeLine(config, st, s)
    ensures p < s && RefusedCut(config, st, s, p)
  {
    hide TakeHeads, TakeBody, ValidStream, EncodeStream, CutsLongLine, HasLongLine;
    var whole := TakeHeads(config, st.Append(s));
    var chunks, last :| ValidStream(chunks, last) && whole.state.buffer == EncodeStream(chunks, last)
                        && HasLongLine(chunks, last);
    var n := HeadsAreAFront(config, st.Append(s));
    var cut := LongLineCut(chunks, last);
    assert [] + s == s;
    p := s[..n] + cut;
    assert cut == s[n..][..|cut|] == s[n..n + |cut|];
    assert p == s[..n + |cut|];
    var front := st.(buffer := s[..n]);
    assert st.Append(p) == front.Append(cut);
    TakeHeadsAppend(config, front, cut);
    assert [] + cut == cut;
  }

  /** So any split of such a response into fragments returns it on the last fragment, and not before. */
  lemma SplitsAgree(config: Config, st: State, fragments: seq<seq<Byte>>, isComplete: bool)
    requires st.buffer == [] && fragments != [] && fragments[|fragments| - 1] != []
    requires Consume(config, st, Flatten(fragments), isComplete).0.Response?
    requires !LongSizeLine(config, st, Flatten(fragments))
    ensures Used(config, st, fragments) == |fragments|
    ensures Feed(config, st, fragments, isComplete) == Consume(config, st, Flatten(fragments), isComplete)
  {
    hide Consume, LongSizeLine;
    NeverEarlyIff(config, st, Flatten(fragments), isComplete);
    FeedIsOneShot(config, st, fragments, isComplete);
    var k := Used(config, st, fragments);
    assert fragments[..|fragments|] == fragments;
    FlattenIsPrefix(fragments, k);
  }

  lemma {:induction false} FlattenIsPrefix(fragments: seq<seq<Byte>>, k: nat)
    requires fragments != [] && fragments[|fragments| - 1] != []
    requires k <= |fragments|
    ensures if k == |fragments| then Flatten(fragments[..k]) == Flatten(fragments)
            else Flatten(fragments[..k]) < Flatten(fragments)
    decreases |fragments|
  {
    if k == 0 {
      FlattenNonempty(fragments);
    } else if k == |fragments| {
      assert fragments[..k] == fragments;
    } else {
      assert fragments[..k][1..] == fragments[1..][..k - 1];
      FlattenIsPrefix(fragments[1..], k - 1);
    }
  }

  lemma {:induction false} FlattenNonempty(fragments: seq<seq<Byte>>)
    requires fragments != [] && fragments[|fragments| - 1] != []
    ensures Flatten(fragments) != []
    decreases |fragments|
  {
    if |fragments| > 1 { FlattenNonempty(fragments[1..]); }
  }
}
