/** Fragmentation: how a response is cut into fragments does not change what is parsed. */
module Http1Fragments {

  import opened Bytes
  import opened Http1

  // ---------------------------------------------------------------- composition

  lemma HeadTakenAppend(config: Config, st: State, more: seq<Byte>)
    requires TakeHead(config, st).HeadTaken?
    ensures TakeHead(config, st.Append(more)) == HeadTaken(TakeHead(config, st).state.Append(more))
  {
    hide ReadHead, FramingOf, Find, OccursAt;
    FindInPrefix(st.buffer, more, HEAD_END);
    var k := Find(st.buffer, HEAD_END, 0).value;
    assert (st.buffer + more)[..k] == st.buffer[..k];
    assert (st.buffer + more)[k + 4..] == st.buffer[k + 4..] + more;
  }

  lemma {:induction false} TakeHeadsAppend(config: Config, st: State, more: seq<Byte>)
    requires !TakeHeads(config, st).Fault?
    ensures TakeHeads(config, st.Append(more)) == TakeHeads(config, TakeHeads(config, st).state.Append(more))
    decreases |st.buffer|
  {
    if st.framing.None? && TakeHead(config, st).HeadTaken? {
      HeadTakenAppend(config, st, more);
      TakeHeadsAppend(config, TakeHead(config, st).state, more);
    }
  }

  lemma OneChunkAppend(buffer: seq<Byte>, room: int, more: seq<Byte>)
    requires NextChunk(buffer, room).OneChunk?
    ensures NextChunk(buffer + more, room) == NextChunk(buffer, room)
  {
    hide Find, OccursAt, ReadSize;
    FindInPrefix(buffer, more, CRLF);
    var k := Find(buffer, CRLF, 0).value;
    var end := k + 2 + ReadSize(buffer[..k]).value;
    assert (buffer + more)[..k] == buffer[..k];
    assert (buffer + more)[k + 2..end] == buffer[k + 2..end];
    assert (buffer + more)[end..end + 2] == buffer[end..end + 2];
  }

  lemma {:induction false} WalkChunksAppend(buffer: seq<Byte>, decoded: seq<Byte>, maximum: int, more: seq<Byte>)
    ensures var walk := WalkChunks(buffer, decoded, maximum);
            WalkChunks(buffer + more, decoded, maximum) == WalkChunks(walk.rest + more, walk.decoded, maximum)
    decreases |buffer|
  {
    var step := NextChunk(buffer, maximum - |decoded|);
    if step.OneChunk? {
      OneChunkAppend(buffer, maximum - |decoded|, more);
      assert (buffer + more)[step.size..] == buffer[step.size..] + more;
      WalkChunksAppend(buffer[step.size..], decoded + step.data, maximum, more);
    }
  }

  /**
   * From any parser state, a fragment that leaves the parser waiting, followed by any other
   * fragment, is the same as both in one call: same outcome, same error, same final state.
   */
  lemma ConsumeComposes(config: Config, st: State, a: seq<Byte>, b: seq<Byte>, isComplete: bool)
    requires Consume(config, st, a, false).0.Pending?
    ensures Consume(config, Consume(config, st, a, false).1, b, isComplete) == Consume(config, st, a + b, isComplete)
  {
    hide TakeHeads, WalkChunks;
    var heads := TakeHeads(config, st.Append(a));
    assert st.Append(a).Append(b) == st.Append(a + b) by { assert st.buffer + a + b == st.buffer + (a + b); }
    TakeHeadsAppend(config, st.Append(a), b);
    if heads.Ready? {
      WalkChunksAppend(heads.state.buffer, heads.state.decoded, config.maximumBodyBytes, b);
    }
  }

  /** Feeds fragments one call at a time, as the transport does, until something is decided. */
  function Feed(config: Config, st: State, fragments: seq<seq<Byte>>, isComplete: bool): (Outcome, State)
    requires fragments != []
    decreases |fragments|
  {
    var (outcome, next) := Consume(config, st, fragments[0], |fragments| == 1 && isComplete);
    if |fragments| == 1 || !outcome.Pending? then (outcome, next) else Feed(config, next, fragments[1..], isComplete)
  }

  /** How many fragments `Feed` looks at: up to the first that decides, or all of them. */
  function Used(config: Config, st: State, fragments: seq<seq<Byte>>): (k: nat)
    requires fragments != []
    ensures 1 <= k <= |fragments|
    decreases |fragments|
  {
    var (outcome, next) := Consume(config, st, fragments[0], false);
    if |fragments| == 1 || !outcome.Pending? then 1 else 1 + Used(config, next, fragments[1..])
  }

  /**
   * Feeding any list of fragments is one call on the concatenation of the fragments looked at,
   * which stops short only on a decision.
   */
  lemma {:induction false} FeedIsOneShot(config: Config, st: State, fragments: seq<seq<Byte>>, isComplete: bool)
    requires fragments != []
    ensures var k := Used(config, st, fragments);
            && Feed(config, st, fragments, isComplete)
               == Consume(config, st, Flatten(fragments[..k]), k == |fragments| && isComplete)
            && (k < |fragments| ==> !Feed(config, st, fragments, isComplete).0.Pending?)
    decreases |fragments|
  {
    hide Consume;
    var k := Used(config, st, fragments);
    var head, rest := fragments[0], fragments[1..];
    FlattenFirst(fragments, k);
    if k == 1 {
      assert Flatten(fragments[..1]) == head by { assert Flatten(rest[..0]) == []; }
      DecisionIgnoresCompletion(config, st, head);
    } else {
      FeedIsOneShot(config, Consume(config, st, head, false).1, rest, isComplete);
      ConsumeComposes(config, st, head, Flatten(rest[..k - 1]), k == |fragments| && isComplete);
    }
  }

  /** Every proper run of the fragments looked at leaves the parser waiting. */
  lemma {:induction false} UsedPends(config: Config, st: State, fragments: seq<seq<Byte>>, j: nat)
    requires fragments != []
    requires 0 < j < Used(config, st, fragments)
    ensures Consume(config, st, Flatten(fragments[..j]), false).0.Pending?
    decreases j
  {
    hide Consume;
    var head, rest := fragments[0], fragments[1..];
    FlattenFirst(fragments, j);
    if j == 1 {
      assert Flatten(fragments[..1]) == head by { assert Flatten(rest[..0]) == []; }
    } else {
      UsedPends(config, Consume(config, st, head, false).1, rest, j - 1);
      ConsumeComposes(config, st, head, Flatten(rest[..j - 1]), false);
    }
  }

  lemma DecisionIgnoresCompletion(config: Config, st: State, data: seq<Byte>)
    ensures !Consume(config, st, data, false).0.Pending?
            ==> Consume(config, st, data, true) == Consume(config, st, data, false)
  {
  }

  lemma FlattenFirst(fragments: seq<seq<Byte>>, j: nat)
    requires 0 < j <= |fragments|
    ensures Flatten(fragments[..j]) == fragments[0] + Flatten(fragments[1..][..j - 1])
  {
    assert fragments[..j][1..] == fragments[1..][..j - 1];
  }
}
