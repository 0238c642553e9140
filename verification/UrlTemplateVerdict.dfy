/** Which texts make a template, told from the segments and pairs of the URL they denote. */
module UrlTemplateVerdict {

  import opened Bytes
  import opened Splitting
  import opened Tally
  import opened UrlTemplate

  // ---------------------------------------------------------------- the placeholder's place

  /** The path is these segments, and one of them is the sentinel. */
  predicate FillsSegment(u: Uri, segments: seq<seq<Byte>>, i: nat) {
    && segments != [] && Free(segments, SLASH) && u.path == Join(segments, SLASH)
    && i < |segments| && segments[i] == SENTINEL
  }

  /** The query is these pairs, and the sentinel is all that follows the first equals sign of one of them. */
  predicate FillsValue(u: Uri, pairs: seq<seq<Byte>>, i: nat, key: seq<Byte>) {
    && pairs != [] && Free(pairs, AMPERSAND) && u.query == Some(Join(pairs, AMPERSAND))
    && i < |pairs| && EQUALS !in key && pairs[i] == key + [EQUALS] + SENTINEL
  }

  ghost predicate Fills(u: Uri) {
    || (exists segments, i: nat :: FillsSegment(u, segments, i))
    || (exists pairs, i: nat, key :: FillsValue(u, pairs, i, key))
  }

  // ---------------------------------------------------------------- one place only

  lemma {:induction false} BeforeGrows(parts: seq<seq<Byte>>, i: nat, j: nat, sep: Byte)
    requires i < j < |parts|
    ensures |Before(parts, i, sep)| + |parts[i]| < |Before(parts, j, sep)|
    decreases |parts|
  {
    if i > 0 { BeforeGrows(parts[1..], i - 1, j - 1, sep); }
  }

  /** Where the sentinel stands in the text fixes where it stands in the path. */
  lemma SegmentPlace(u: Uri, i: nat, a: seq<Byte>, b: seq<Byte>)
    requires WellCut(u) && Render(u) == a + SENTINEL + b
    requires forall j: nat :: !OccursAt(a + PLACEHOLDER + b, SENTINEL, j)
    requires i < |Split(u.path, SLASH)| && Split(u.path, SLASH)[i] == SENTINEL
    ensures |a| == |u.scheme| + 3 + |u.authority| + |Before(Split(u.path, SLASH), i, SLASH)|
    ensures |a| < |u.scheme| + 3 + |u.authority| + |u.path|
  {
    hide Find, OccursAt, Split, WellCut, Render, SENTINEL, PLACEHOLDER;
    SentinelIsPlain();
    SentinelHead();
    var front, back := SegmentText(u, i, SENTINEL);
    PathRendered(u, front, SENTINEL, back);
    SameCut(a, b, u.scheme + SCHEME_END + u.authority + front, back + QueryText(u.query));
  }

  lemma ValuePlace(u: Uri, i: nat, a: seq<Byte>, b: seq<Byte>)
    requires Render(u) == a + SENTINEL + b && u.query.Some?
    requires forall j: nat :: !OccursAt(a + PLACEHOLDER + b, SENTINEL, j)
    requires i < |Pairs(u)| && ValueOf(Pairs(u)[i]) == Some(SENTINEL)
    ensures var front := |u.scheme| + 3 + |u.authority| + |u.path| + 1 + |Before(Pairs(u), i, AMPERSAND)|;
            |a| > front - 1 && |a| < front + |Pairs(u)[i]|
  {
    hide Find, OccursAt, Split, ValueOf, Render, SENTINEL, PLACEHOLDER;
    SentinelIsPlain();
    SentinelHead();
    var key, front, back := ValueText(u, i, SENTINEL);
    QueryRendered(u, front, SENTINEL, back);
    SameCut(a, b, u.scheme + SCHEME_END + u.authority + u.path + [QUESTION] + front, back);
  }

  lemma OneSegment(u: Uri, i: nat, j: nat, a: seq<Byte>, b: seq<Byte>)
    requires WellCut(u) && Render(u) == a + SENTINEL + b
    requires forall k: nat :: !OccursAt(a + PLACEHOLDER + b, SENTINEL, k)
    requires var parts := Split(u.path, SLASH);
             i < |parts| && parts[i] == SENTINEL && j < |parts| && parts[j] == SENTINEL
    ensures i == j
  {
    hide Find, OccursAt, Split, WellCut, Render, SENTINEL, PLACEHOLDER, Before;
    var parts := Split(u.path, SLASH);
    SegmentPlace(u, i, a, b);
    SegmentPlace(u, j, a, b);
    if i < j { BeforeGrows(parts, i, j, SLASH); } else if j < i { BeforeGrows(parts, j, i, SLASH); }
  }

  lemma OneValue(u: Uri, i: nat, j: nat, a: seq<Byte>, b: seq<Byte>)
    requires Render(u) == a + SENTINEL + b && u.query.Some?
    requires forall k: nat :: !OccursAt(a + PLACEHOLDER + b, SENTINEL, k)
    requires i < |Pairs(u)| && ValueOf(Pairs(u)[i]) == Some(SENTINEL)
    requires j < |Pairs(u)| && ValueOf(Pairs(u)[j]) == Some(SENTINEL)
    ensures i == j
  {
    hide Find, OccursAt, Split, ValueOf, Render, SENTINEL, PLACEHOLDER, Before, Pairs;
    ValuePlace(u, i, a, b);
    ValuePlace(u, j, a, b);
    if i < j { BeforeGrows(Pairs(u), i, j, AMPERSAND); } else if j < i { BeforeGrows(Pairs(u), j, i, AMPERSAND); }
  }

  // ---------------------------------------------------------------- complete means filling

  function Values(pairs: seq<seq<Byte>>): seq<Option<seq<Byte>>> { Map(ValueOf, pairs) }

  lemma {:induction false} ValuesCounted(value: seq<Byte>, pairs: seq<seq<Byte>>)
    ensures CountValues(value, pairs) == Count(Some(value), Values(pairs))
    decreases |pairs|
  {
    hide ValueOf;
    if pairs != [] {
      ValuesCounted(value, pairs[1..]);
      assert Values(pairs)[1..] == Values(pairs[1..]);
    }
  }

  lemma CountSegments(u: Uri, a: seq<Byte>, b: seq<Byte>)
    requires WellCut(u) && Render(u) == a + SENTINEL + b
    requires forall k: nat :: !OccursAt(a + PLACEHOLDER + b, SENTINEL, k)
    ensures Count(SENTINEL, Split(u.path, SLASH)) ==
            if exists i: nat | i < |Split(u.path, SLASH)| :: Split(u.path, SLASH)[i] == SENTINEL then 1 else 0
  {
    hide Find, OccursAt, Split, WellCut, Render, SENTINEL, PLACEHOLDER, Count;
    var parts := Split(u.path, SLASH);
    if i: nat :| i < |parts| && parts[i] == SENTINEL {
      forall j: nat | j < |parts| && parts[j] == SENTINEL ensures j == i { OneSegment(u, i, j, a, b); }
      CountOnly(SENTINEL, parts, i);
    } else {
      CountAbsent(SENTINEL, parts);
    }
  }

  lemma CountPairs(u: Uri, a: seq<Byte>, b: seq<Byte>)
    requires WellCut(u) && Render(u) == a + SENTINEL + b
    requires forall k: nat :: !OccursAt(a + PLACEHOLDER + b, SENTINEL, k)
    ensures CountValues(SENTINEL, Pairs(u)) ==
            if exists i: nat | i < |Pairs(u)| :: ValueOf(Pairs(u)[i]) == Some(SENTINEL) then 1 else 0
  {
    hide Find, OccursAt, Split, WellCut, Render, SENTINEL, PLACEHOLDER, Count, ValueOf, CountValues;
    var pairs := Pairs(u);
    ValuesCounted(SENTINEL, pairs);
    if i: nat :| i < |pairs| && ValueOf(pairs[i]) == Some(SENTINEL) {
      forall j: nat | j < |pairs| && ValueOf(pairs[j]) == Some(SENTINEL) ensures j == i { OneValue(u, i, j, a, b); }
      CountOnly(Some(SENTINEL), Values(pairs), i);
    } else {
      CountAbsent(Some(SENTINEL), Values(pairs));
    }
  }

  lemma NotBoth(u: Uri, i: nat, j: nat, a: seq<Byte>, b: seq<Byte>)
    requires WellCut(u) && Render(u) == a + SENTINEL + b
    requires forall k: nat :: !OccursAt(a + PLACEHOLDER + b, SENTINEL, k)
    requires i < |Split(u.path, SLASH)| && j < |Pairs(u)|
    ensures !(Split(u.path, SLASH)[i] == SENTINEL && ValueOf(Pairs(u)[j]) == Some(SENTINEL))
  {
    hide Find, OccursAt, Split, WellCut, Render, SENTINEL, PLACEHOLDER, ValueOf, Before;
    if Split(u.path, SLASH)[i] == SENTINEL && ValueOf(Pairs(u)[j]) == Some(SENTINEL) {
      SegmentPlace(u, i, a, b);
      ValuePlace(u, j, a, b);
    }
  }

  lemma SegmentFills(u: Uri)
    ensures (exists segments, i: nat :: FillsSegment(u, segments, i)) <==>
            (exists i: nat | i < |Split(u.path, SLASH)| :: Split(u.path, SLASH)[i] == SENTINEL)
  {
    hide Split, Join, SENTINEL;
    if segments, i: nat :| FillsSegment(u, segments, i) {
      SplitJoin(segments, SLASH);
    }
    if i: nat :| i < |Split(u.path, SLASH)| && Split(u.path, SLASH)[i] == SENTINEL {
      JoinSplit(u.path, SLASH);
      assert FillsSegment(u, Split(u.path, SLASH), i);
    }
  }

  lemma ValueIs(key: seq<Byte>, value: seq<Byte>)
    requires EQUALS !in key
    ensures ValueOf(key + [EQUALS] + value) == Some(value)
  {
    hide Find, OccursAt;
    var pair := key + [EQUALS] + value;
    assert OccursAt(pair, [EQUALS], |key|) by { OccursHere(key, [EQUALS], value); }
    forall i: nat | i < |key| ensures !OccursAt(pair, [EQUALS], i) { OccursOne(pair, EQUALS, i); }
    FindIs(pair, [EQUALS], |key|);
    assert pair[|key| + 1..] == value;
  }

  lemma OccursHere(front: seq<Byte>, pattern: seq<Byte>, back: seq<Byte>)
    ensures OccursAt(front + pattern + back, pattern, |front|)
  {
  }

  lemma ValueFills(u: Uri)
    ensures (exists pairs, i: nat, key :: FillsValue(u, pairs, i, key)) <==>
            (exists i: nat | i < |Pairs(u)| :: ValueOf(Pairs(u)[i]) == Some(SENTINEL))
  {
    hide Split, Join, SENTINEL, ValueOf;
    if pairs, i: nat, key :| FillsValue(u, pairs, i, key) {
      SplitJoin(pairs, AMPERSAND);
      ValueIs(key, SENTINEL);
      assert ValueOf(Pairs(u)[i]) == Some(SENTINEL);
    }
    if i: nat :| i < |Pairs(u)| && ValueOf(Pairs(u)[i]) == Some(SENTINEL) {
      JoinSplit(u.query.value, AMPERSAND);
      var key := PairParts(Pairs(u)[i], SENTINEL);
      assert FillsValue(u, Pairs(u), i, key);
    }
  }

  lemma CompleteIffFills(u: Uri, a: seq<Byte>, b: seq<Byte>)
    requires WellCut(u) && Render(u) == a + SENTINEL + b
    requires forall k: nat :: !OccursAt(a + PLACEHOLDER + b, SENTINEL, k)
    ensures PlaceholderIsComplete(u) <==> Fills(u)
  {
    hide Find, OccursAt, Split, WellCut, Render, SENTINEL, PLACEHOLDER, ValueOf, Count, CountValues, FillsSegment,
      FillsValue;
    CountSegments(u, a, b);
    CountPairs(u, a, b);
    SegmentFills(u);
    ValueFills(u);
    forall i: nat, j: nat | i < |Split(u.path, SLASH)| && j < |Pairs(u)|
      ensures !(Split(u.path, SLASH)[i] == SENTINEL && ValueOf(Pairs(u)[j]) == Some(SENTINEL))
    {
      NotBoth(u, i, j, a, b);
    }
  }

  // ---------------------------------------------------------------- one placeholder

  /** The placeholder stands at `k` and nowhere else. */
  ghost predicate OnlyAt(s: seq<Byte>, k: nat) {
    OccursAt(s, PLACEHOLDER, k) && forall j: nat | OccursAt(s, PLACEHOLDER, j) :: j == k
  }

  lemma PlaceholderHead()
    ensures |PLACEHOLDER| == 8 && forall j | 1 <= j < 8 :: PLACEHOLDER[j] != PLACEHOLDER[0]
  {
  }

  /** Two placeholders do not overlap. */
  lemma Apart(s: seq<Byte>, k: nat, j: nat)
    requires OccursAt(s, PLACEHOLDER, k) && k < j < k + 8
    ensures !OccursAt(s, PLACEHOLDER, j)
  {
    PlaceholderHead();
    assert s[k..k + 8][j - k] == s[j];
    if j + 8 <= |s| { assert s[j..j + 8][0] == s[j]; }
  }

  lemma OccursShifted(s: seq<Byte>, pattern: seq<Byte>, from: nat, j: nat)
    requires from <= |s|
    ensures OccursAt(s[from..], pattern, j) <==> OccursAt(s, pattern, from + j)
  {
    if from + j + |pattern| <= |s| { assert s[from..][j..j + |pattern|] == s[from + j..from + j + |pattern|]; }
  }

  lemma CountedOnce(s: seq<Byte>)
    ensures Occurrences(s, PLACEHOLDER) == 1 <==> exists k: nat :: OnlyAt(s, k)
  {
    hide OccursAt, PLACEHOLDER;
    PlaceholderHead();
    var found := Find(s, PLACEHOLDER, 0);
    if found.Some? {
      var k := found.value;
      var rest := s[k + 8..];
      var next := Find(rest, PLACEHOLDER, 0);
      assert Occurrences(s, PLACEHOLDER) == 1 <==> next.None?;
      if next.Some? {
        OccursShifted(s, PLACEHOLDER, k + 8, next.value);
        assert forall i: nat :: !OnlyAt(s, i);
      } else {
        forall j: nat | OccursAt(s, PLACEHOLDER, j) ensures j == k { OnlyFirst(s, k, j); }
        assert OnlyAt(s, k);
      }
    }
  }

  lemma OnlyFirst(s: seq<Byte>, k: nat, j: nat)
    requires Find(s, PLACEHOLDER, 0) == Some(k) && OccursAt(s, PLACEHOLDER, j)
    requires k + 8 <= |s| && Find(s[k + 8..], PLACEHOLDER, 0).None?
    ensures j == k
  {
    hide OccursAt, PLACEHOLDER;
    PlaceholderHead();
    if k < j < k + 8 {
      Apart(s, k, j);
    } else if k + 8 <= j {
      OccursShifted(s, PLACEHOLDER, k + 8, j - (k + 8));
    }
  }

  // ---------------------------------------------------------------- the verdict

  /** `u` is an admitted URL and `text` is how it is written. */
  ghost predicate Denotes(rules: Rules, text: seq<Byte>, u: Uri) {
    WellCut(u) && Admits(rules, u) && Render(u) == text
  }

  lemma ParsesIff(rules: Rules, text: seq<Byte>, u: Uri)
    ensures Parse(rules, text) == Some(u) <==> Denotes(rules, text, u)
  {
    hide Parse, WellCut, Admits, Render;
    if Parse(rules, text) == Some(u) { RenderParse(rules, text); }
    if Denotes(rules, text, u) { ParseRender(rules, u); }
  }

  /** The text is refused before it is read as a URL, and why. */
  lemma RefusedEarly(rules: Rules, redacted: seq<Byte>, limits: Limits)
    ensures var r := New(rules, redacted, limits);
            if !(1 <= |redacted| <= limits.templateBytes) then r == Err(TemplateLength)
            else if HASH in redacted then r == Err(FragmentForbidden)
            else if exists j: nat :: OccursAt(redacted, SENTINEL, j) then r == Err(AmbiguousTemplate)
            else if forall k: nat :: !OnlyAt(redacted, k) then r == Err(PlaceholderCount)
            else r.Ok? || r.error in {InvalidEndpoint, PlaceholderPosition}
  {
    hide OccursAt, PLACEHOLDER, SENTINEL, Parse, PlaceholderIsComplete, Render, Occurrences, Replace, OnlyAt;
    CountedOnce(redacted);
  }

  lemma ReplacedAt(a: seq<Byte>, b: seq<Byte>, x: seq<Byte>)
    requires OnlyAt(a + PLACEHOLDER + b, |a|)
    ensures Replace(a + PLACEHOLDER + b, PLACEHOLDER, x) == a + x + b
  {
    hide OccursAt, PLACEHOLDER, Find;
    var s := a + PLACEHOLDER + b;
    FindIs(s, PLACEHOLDER, |a|);
    assert s[..|a|] == a && s[|a| + |PLACEHOLDER|..] == b;
  }

  /** The text of a template around its placeholder. */
  function Redacted(a: seq<Byte>, b: seq<Byte>): seq<Byte> { a + Ascii("{secret}") + b }

  lemma RedactedIs(a: seq<Byte>, b: seq<Byte>)
    ensures Redacted(a, b) == a + PLACEHOLDER + b
  {
  }

  /** Within the length, without a hash or the sentinel, and with one placeholder, between `a` and `b`. */
  ghost predicate Candidate(a: seq<Byte>, b: seq<Byte>, limits: Limits) {
    var redacted := Redacted(a, b);
    && |redacted| <= limits.templateBytes && HASH !in redacted
    && (forall j: nat :: !OccursAt(redacted, SENTINEL, j)) && OnlyAt(redacted, |a|)
  }

  lemma CandidateIsRead(rules: Rules, a: seq<Byte>, b: seq<Byte>, limits: Limits)
    requires Candidate(a, b, limits)
    ensures New(rules, Redacted(a, b), limits) ==
            match Parse(rules, a + SENTINEL + b)
            case None => Err(InvalidEndpoint)
            case Some(u) =>
              if !PlaceholderIsComplete(u) then Err(PlaceholderPosition)
              else if DisplayLength(u) > MAX_ENDPOINT_BYTES then Err(InvalidEndpoint)
              else Ok(Template(Redacted(a, b), u, limits))
  {
    hide OccursAt, PLACEHOLDER, SENTINEL, Parse, PlaceholderIsComplete, Render, Occurrences, Replace, OnlyAt,
      DisplayLength, Redacted;
    var redacted := Redacted(a, b);
    RedactedIs(a, b);
    CountedOnce(redacted);
    ReplacedAt(a, b, SENTINEL);
    PlaceholderHead();
  }

  /**
   * Such a text is a template exactly when, with the sentinel in place of the placeholder, it denotes an
   * admitted URL in which the sentinel is one whole path segment or one whole query value, and which
   * prints in at most 4096 bytes; an empty path prints as one slash.
   */
  lemma TemplateIff(rules: Rules, a: seq<Byte>, b: seq<Byte>, limits: Limits, u: Uri)
    requires Candidate(a, b, limits)
    ensures var r := New(rules, Redacted(a, b), limits);
            var printed := |a| + |SENTINEL| + |b| + if u.path == [] then 1 else 0;
            && (r == Ok(Template(Redacted(a, b), u, limits)) <==>
                  Denotes(rules, a + SENTINEL + b, u) && Fills(u) && printed <= 4096)
            && (Denotes(rules, a + SENTINEL + b, u) ==>
                  && (r == Err(PlaceholderPosition) <==> !Fills(u))
                  && (r == Err(InvalidEndpoint) <==> Fills(u) && printed > 4096))
  {
    hide OccursAt, PLACEHOLDER, SENTINEL, Parse, PlaceholderIsComplete, Occurrences, Replace, OnlyAt, Render, WellCut,
      Admits, Fills, New, Redacted;
    CandidateIsRead(rules, a, b, limits);
    ParsesIff(rules, a + SENTINEL + b, u);
    if Denotes(rules, a + SENTINEL + b, u) {
      RedactedIs(a, b);
      CompleteIffFills(u, a, b);
    }
  }

  /** A text that denotes no admitted URL is no endpoint. */
  lemma NoUrl(rules: Rules, a: seq<Byte>, b: seq<Byte>, limits: Limits)
    requires Candidate(a, b, limits) && forall u :: !Denotes(rules, a + SENTINEL + b, u)
    ensures New(rules, Redacted(a, b), limits) == Err(InvalidEndpoint)
  {
    hide OccursAt, PLACEHOLDER, SENTINEL, Parse, PlaceholderIsComplete, Occurrences, Replace, OnlyAt, Render, WellCut,
      Admits, New, Denotes, Redacted;
    CandidateIsRead(rules, a, b, limits);
    if u :| Parse(rules, a + SENTINEL + b) == Some(u) { ParsesIff(rules, a + SENTINEL + b, u); }
  }
}
