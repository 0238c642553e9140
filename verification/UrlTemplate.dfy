/** Secret URL templates: one placeholder, expanded without disturbing the rest of the URL. */
module UrlTemplate {

  import opened Bytes
  import opened Splitting
  import opened Percent
  import opened Tally

  const SLASH: Byte := 0x2f
  const QUESTION: Byte := 0x3f
  const HASH: Byte := 0x23
  const AMPERSAND: Byte := 0x26
  const EQUALS: Byte := 0x3d

  const SCHEME_END: seq<Byte> := [0x3a, 0x2f, 0x2f]

  const PLACEHOLDER := Ascii("{secret}")

  const SENTINEL := Ascii("bondry-secret-placeholder-8c09e98d")

  const MAX_ENDPOINT_BYTES := 4096

  /** A URL cut into its raw parts; the query excludes its question mark. */
  datatype Uri = Uri(scheme: seq<Byte>, authority: seq<Byte>, path: seq<Byte>, query: Option<seq<Byte>>)

  /** What the URL library and the endpoint type admit in each part. */
  datatype Rules = Rules(
    scheme: seq<Byte> -> bool, authority: seq<Byte> -> bool, pathByte: Byte -> bool, queryByte: Byte -> bool)

  ghost predicate AdmitsPlain(rules: Rules) { forall b: Byte | Plain(b) :: rules.pathByte(b) && rules.queryByte(b) }

  datatype Limits = Limits(templateBytes: nat, expandedBytes: nat)

  predicate ValidLimits(limits: Limits) {
    1 <= limits.templateBytes <= 2048 && 1 <= limits.expandedBytes <= MAX_ENDPOINT_BYTES
  }

  datatype UrlError =
    | TemplateLength | PlaceholderCount | AmbiguousTemplate | FragmentForbidden | InvalidEndpoint
    | PlaceholderPosition | ExpandedLength | InvalidExpansion | OriginChanged

  // ---------------------------------------------------------------- URLs

  function QueryText(query: Option<seq<Byte>>): seq<Byte> { if query.Some? then [QUESTION] + query.value else [] }

  function Render(u: Uri): seq<Byte> { u.scheme + SCHEME_END + (u.authority + (u.path + QueryText(u.query))) }

  predicate EndsAuthority(b: Byte) { b == SLASH || b == QUESTION }

  function AuthorityLength(s: seq<Byte>): (n: nat)
    ensures n <= |s|
  {
    if s == [] || EndsAuthority(s[0]) then 0 else 1 + AuthorityLength(s[1..])
  }

  function PathLength(s: seq<Byte>): (n: nat)
    ensures n <= |s|
  {
    if s == [] || s[0] == QUESTION then 0 else 1 + PathLength(s[1..])
  }

  predicate Admits(rules: Rules, u: Uri) {
    && rules.scheme(u.scheme) && rules.authority(u.authority)
    && (forall i | 0 <= i < |u.path| :: rules.pathByte(u.path[i]))
    && (u.query.Some? ==> forall i | 0 <= i < |u.query.value| :: rules.queryByte(u.query.value[i]))
  }

  /** Cuts what follows the scheme into authority, path and query. */
  function Cut(scheme: seq<Byte>, rest: seq<Byte>): Uri {
    var a := AuthorityLength(rest);
    var (path, query) := CutTail(rest[a..]);
    Uri(scheme, rest[..a], path, query)
  }

  function CutTail(tail: seq<Byte>): (seq<Byte>, Option<seq<Byte>>) {
    var p := PathLength(tail);
    (tail[..p], if p < |tail| then Some(tail[p + 1..]) else None)
  }

  /** Parses an absolute URL without a fragment. */
  function Parse(rules: Rules, s: seq<Byte>): Option<Uri> {
    match Find(s, SCHEME_END, 0)
    case None => None
    case Some(k) =>
      var u := Cut(s[..k], s[k + 3..]);
      if Admits(rules, u) then Some(u) else None
  }

  /** The library prints an empty path as a single slash. */
  function DisplayLength(u: Uri): nat { |Render(u)| + if u.path == [] then 1 else 0 }

  // ---------------------------------------------------------------- templates

  /** The value of a query pair: what follows its first equals sign. */
  function ValueOf(pair: seq<Byte>): Option<seq<Byte>> {
    match Find(pair, [EQUALS], 0)
    case None => None
    case Some(k) => Some(pair[k + 1..])
  }

  function CountValues(value: seq<Byte>, pairs: seq<seq<Byte>>): nat {
    if pairs == [] then 0 else (if ValueOf(pairs[0]) == Some(value) then 1 else 0) + CountValues(value, pairs[1..])
  }

  function Pairs(u: Uri): seq<seq<Byte>> { if u.query.Some? then Split(u.query.value, AMPERSAND) else [] }

  /** The sentinel is one whole path segment or one whole query value. */
  predicate PlaceholderIsComplete(u: Uri) {
    Count(SENTINEL, Split(u.path, SLASH)) + CountValues(SENTINEL, Pairs(u)) == 1
  }

  /** Occurrences that do not overlap, from the left. */
  function Occurrences(s: seq<Byte>, pattern: seq<Byte>): nat
    requires pattern != []
    decreases |s|
  {
    match Find(s, pattern, 0)
    case None => 0
    case Some(k) => 1 + Occurrences(s[k + |pattern|..], pattern)
  }

  /** Replaces the first occurrence. */
  function Replace(s: seq<Byte>, pattern: seq<Byte>, by_: seq<Byte>): seq<Byte> {
    match Find(s, pattern, 0)
    case None => s
    case Some(k) => s[..k] + by_ + s[k + |pattern|..]
  }

  datatype Template = Template(redacted: seq<Byte>, parsed: Uri, limits: Limits)

  function New(rules: Rules, redacted: seq<Byte>, limits: Limits): Result<Template, UrlError> {
    if redacted == [] || |redacted| > limits.templateBytes then Err(TemplateLength)
    else if HASH in redacted then Err(FragmentForbidden)
    else if Find(redacted, SENTINEL, 0).Some? then Err(AmbiguousTemplate)
    else if Occurrences(redacted, PLACEHOLDER) != 1 then Err(PlaceholderCount)
    else match Parse(rules, Replace(redacted, PLACEHOLDER, SENTINEL))
      case None => Err(InvalidEndpoint)
      case Some(u) =>
        if !PlaceholderIsComplete(u) then Err(PlaceholderPosition)
        else if DisplayLength(u) > MAX_ENDPOINT_BYTES then Err(InvalidEndpoint)
        else Ok(Template(redacted, u, limits))
  }

  predicate SameOrigin(u: Uri, v: Uri) { u.scheme == v.scheme && u.authority == v.authority }

  function Expand(rules: Rules, t: Template, secret: seq<Byte>): Result<Uri, UrlError> {
    var expanded := Replace(t.redacted, PLACEHOLDER, Encode(secret));
    if |expanded| > t.limits.expandedBytes then Err(ExpandedLength)
    else match Parse(rules, expanded)
      case None => Err(InvalidExpansion)
      case Some(u) =>
        if DisplayLength(u) > MAX_ENDPOINT_BYTES then Err(InvalidExpansion)
        else if !SameOrigin(t.parsed, u) then Err(OriginChanged)
        else Ok(u)
  }

  // ---------------------------------------------------------------- parsing and printing

  predicate Avoids(s: seq<Byte>, b: Byte) { forall i | 0 <= i < |s| :: s[i] != b }

  /** Parts that print to text which parses back to them. */
  predicate WellCut(u: Uri) {
    && Find(u.scheme + SCHEME_END, SCHEME_END, 0) == Some(|u.scheme|)
    && (forall i | 0 <= i < |u.authority| :: !EndsAuthority(u.authority[i]))
    && (u.path == [] || u.path[0] == SLASH)
    && Avoids(u.path, QUESTION)
  }

  lemma {:induction false} AuthorityEnds(authority: seq<Byte>, tail: seq<Byte>)
    requires forall i | 0 <= i < |authority| :: !EndsAuthority(authority[i])
    requires tail == [] || EndsAuthority(tail[0])
    ensures AuthorityLength(authority + tail) == |authority|
    decreases |authority|
  {
    if authority == [] {
      assert authority + tail == tail;
    } else {
      assert (authority + tail)[1..] == authority[1..] + tail;
      AuthorityEnds(authority[1..], tail);
    }
  }

  lemma {:induction false} PathEnds(path: seq<Byte>, tail: seq<Byte>)
    requires Avoids(path, QUESTION)
    requires tail == [] || tail[0] == QUESTION
    ensures PathLength(path + tail) == |path|
    decreases |path|
  {
    if path == [] {
      assert path + tail == tail;
    } else {
      assert (path + tail)[1..] == path[1..] + tail;
      PathEnds(path[1..], tail);
    }
  }

  lemma CutTailOf(path: seq<Byte>, query: Option<seq<Byte>>)
    requires Avoids(path, QUESTION)
    ensures CutTail(path + QueryText(query)) == (path, query)
  {
    hide PathLength;
    var text := QueryText(query);
    var tail := path + text;
    PathEnds(path, text);
    assert tail[..|path|] == path;
    assert query.Some? ==> tail[|path| + 1..] == text[1..] == query.value;
  }

  lemma CutRendered(u: Uri)
    requires WellCut(u)
    ensures Cut(u.scheme, u.authority + (u.path + QueryText(u.query))) == u
  {
    hide Find, AuthorityLength, CutTail;
    var tail := u.path + QueryText(u.query);
    var rest := u.authority + tail;
    AuthorityEnds(u.authority, tail);
    assert rest[..|u.authority|] == u.authority && rest[|u.authority|..] == tail;
    CutTailOf(u.path, u.query);
  }

  lemma ParseRender(rules: Rules, u: Uri)
    requires WellCut(u) && Admits(rules, u)
    ensures Parse(rules, Render(u)) == Some(u)
  {
    hide Find, OccursAt, Admits, Cut;
    var rest := u.authority + (u.path + QueryText(u.query));
    var s := u.scheme + SCHEME_END + rest;
    FindInPrefix(u.scheme + SCHEME_END, rest, SCHEME_END);
    assert s[..|u.scheme|] == u.scheme && s[|u.scheme| + 3..] == rest;
    CutRendered(u);
  }

  lemma {:induction false} AuthorityIsCut(s: seq<Byte>)
    ensures var n := AuthorityLength(s);
            && (forall i | 0 <= i < n :: !EndsAuthority(s[..n][i])) && (s[n..] == [] || EndsAuthority(s[n..][0]))
    decreases |s|
  {
    hide EndsAuthority;
    if s != [] && !EndsAuthority(s[0]) {
      var n := AuthorityLength(s[1..]);
      AuthorityIsCut(s[1..]);
      assert s[..n + 1] == [s[0]] + s[1..][..n] && s[n + 1..] == s[1..][n..];
    }
  }

  lemma {:induction false} PathIsCut(s: seq<Byte>)
    ensures var n := PathLength(s); Avoids(s[..n], QUESTION) && (n < |s| ==> s[n] == QUESTION)
    decreases |s|
  {
    if s != [] && s[0] != QUESTION {
      PathIsCut(s[1..]);
      assert s[..PathLength(s)] == [s[0]] + s[1..][..PathLength(s[1..])];
    }
  }

  lemma TailIsCut(tail: seq<Byte>)
    requires tail == [] || EndsAuthority(tail[0])
    ensures var (path, query) := CutTail(tail);
            && path + QueryText(query) == tail && Avoids(path, QUESTION) && (path == [] || path[0] == SLASH)
  {
    hide PathLength;
    var p := PathLength(tail);
    PathIsCut(tail);
    if p < |tail| {
      assert tail == tail[..p] + ([QUESTION] + tail[p + 1..]);
    } else {
      assert tail == tail[..p] + [];
    }
  }

  lemma CutIsWellCut(scheme: seq<Byte>, rest: seq<Byte>)
    requires Find(scheme + SCHEME_END, SCHEME_END, 0) == Some(|scheme|)
    ensures WellCut(Cut(scheme, rest))
  {
    hide Find, AuthorityLength, CutTail, QueryText, EndsAuthority, Avoids, SCHEME_END;
    AuthorityIsCut(rest);
    TailIsCut(rest[AuthorityLength(rest)..]);
  }

  lemma CutRenders(scheme: seq<Byte>, rest: seq<Byte>)
    ensures var u := Cut(scheme, rest); u.scheme == scheme && u.authority + (u.path + QueryText(u.query)) == rest
  {
    hide AuthorityLength, CutTail, QueryText, EndsAuthority, Avoids;
    var a := AuthorityLength(rest);
    AuthorityIsCut(rest);
    TailIsCut(rest[a..]);
    assert rest == rest[..a] + rest[a..];
  }

  lemma RenderParse(rules: Rules, s: seq<Byte>)
    requires Parse(rules, s).Some?
    ensures var u := Parse(rules, s).value; Render(u) == s && WellCut(u) && Admits(rules, u)
  {
    hide Find, OccursAt, Admits, Cut, WellCut;
    var k := Find(s, SCHEME_END, 0).value;
    SchemeEndAt(s);
    var front, rest := s[..k] + SCHEME_END, s[k + 3..];
    assert front + rest == s;
    FindInFront(front, rest, SCHEME_END);
    CutIsWellCut(s[..k], rest);
    CutRenders(s[..k], rest);
  }

  lemma SchemeEndAt(s: seq<Byte>)
    requires Find(s, SCHEME_END, 0).Some?
    ensures var k := Find(s, SCHEME_END, 0).value; s[k..k + 3] == SCHEME_END
  {
  }

  // ---------------------------------------------------------------- the sentinel stands in one place

  lemma SentinelHead()
    ensures |SENTINEL| == 34 && SENTINEL[0] == 0x62 && forall j | 1 <= j < 34 :: SENTINEL[j] != 0x62
  {
  }

  predicate AllPlain(s: seq<Byte>) { forall i | 0 <= i < |s| :: Plain(s[i]) }

  lemma SentinelIsPlain()
    ensures AllPlain(SENTINEL)
  {
  }

  /** The sentinel cannot appear across the edges of the place it was put. */
  lemma SentinelAcross(a: seq<Byte>, b: seq<Byte>, i: nat)
    requires i != |a| && |a| < i + 34 && i < |a| + 34
    ensures !OccursAt(a + SENTINEL + b, SENTINEL, i)
  {
    SentinelHead();
    var p := a + SENTINEL + b;
    if i + 34 <= |p| {
      if i < |a| {
        assert p[i..i + 34][|a| - i] == p[|a|] == SENTINEL[0];
      } else {
        assert p[i..i + 34][0] == p[i] == SENTINEL[i - |a|];
      }
    }
  }

  lemma SentinelOnce(a: seq<Byte>, b: seq<Byte>, i: nat)
    requires forall j: nat :: !OccursAt(a + PLACEHOLDER + b, SENTINEL, j)
    requires OccursAt(a + SENTINEL + b, SENTINEL, i)
    ensures i == |a|
  {
    var p, redacted := a + SENTINEL + b, a + PLACEHOLDER + b;
    if i + 34 <= |a| {
      assert redacted[i..i + 34] == p[i..i + 34];
      assert OccursAt(redacted, SENTINEL, i);
    } else if i >= |a| + 34 {
      assert redacted[i - 26..i + 8] == p[i..i + 34];
      assert OccursAt(redacted, SENTINEL, i - 26);
    } else if i != |a| {
      SentinelAcross(a, b, i);
    }
  }

  /** So a text that shows the sentinel between `front` and `back` was cut exactly there. */
  lemma SameCut(a: seq<Byte>, b: seq<Byte>, front: seq<Byte>, back: seq<Byte>)
    requires forall j: nat :: !OccursAt(a + PLACEHOLDER + b, SENTINEL, j)
    requires a + SENTINEL + b == front + SENTINEL + back
    ensures a == front && b == back
  {
    var p := a + SENTINEL + b;
    assert p[|front|..|front| + 34] == SENTINEL;
    SentinelOnce(a, b, |front|);
    assert a == p[..|a|] == front;
    assert b == p[|a| + 34..] == back;
  }

  // ---------------------------------------------------------------- replacing one component

  lemma {:induction false} ValueWitness(value: seq<Byte>, pairs: seq<seq<Byte>>) returns (i: nat)
    requires CountValues(value, pairs) > 0
    ensures i < |pairs| && ValueOf(pairs[i]) == Some(value)
    decreases |pairs|
  {
    if ValueOf(pairs[0]) == Some(value) { i := 0; } else { var j := ValueWitness(value, pairs[1..]); i := j + 1; }
  }

  /** The key of a pair that has a value. */
  lemma PairParts(pair: seq<Byte>, value: seq<Byte>) returns (key: seq<Byte>)
    requires ValueOf(pair) == Some(value)
    ensures pair == key + [EQUALS] + value && EQUALS !in key
  {
    var k := Find(pair, [EQUALS], 0).value;
    key := pair[..k];
    assert pair[k..k + 1] == [EQUALS];
    forall i | 0 <= i < k ensures key[i] != EQUALS {
      assert !OccursAt(pair, [EQUALS], i);
      assert pair[i..i + 1] == [pair[i]];
    }
  }

  /** `v` is `u` with path segment `i`, which held the sentinel, replaced by `x`. */
  predicate ReplacesSegment(u: Uri, v: Uri, i: nat, x: seq<Byte>) {
    && v.scheme == u.scheme && v.authority == u.authority && v.query == u.query
    && i < |Split(u.path, SLASH)| && Split(u.path, SLASH)[i] == SENTINEL
    && Split(v.path, SLASH) == Split(u.path, SLASH)[i := x]
  }

  /** `v` is `u` with the value of query pair `i`, which was the sentinel, replaced by `x`. */
  predicate ReplacesValue(u: Uri, v: Uri, i: nat, key: seq<Byte>, x: seq<Byte>) {
    && v.scheme == u.scheme && v.authority == u.authority && v.path == u.path
    && u.query.Some? && v.query.Some? && EQUALS !in key
    && i < |Pairs(u)| && Pairs(u)[i] == key + [EQUALS] + SENTINEL
    && Pairs(v) == Pairs(u)[i := key + [EQUALS] + x]
  }

  ghost predicate ReplacesOne(u: Uri, v: Uri, x: seq<Byte>) {
    (exists i :: ReplacesSegment(u, v, i, x)) || (exists i, key :: ReplacesValue(u, v, i, key, x))
  }

  lemma PlainAvoids(x: seq<Byte>)
    requires AllPlain(x)
    ensures SLASH !in x && QUESTION !in x && AMPERSAND !in x && EQUALS !in x
  {
  }

  lemma SegmentText(u: Uri, i: nat, x: seq<Byte>) returns (front: seq<Byte>, back: seq<Byte>)
    requires WellCut(u) && AllPlain(x)
    requires i < |Split(u.path, SLASH)| && Split(u.path, SLASH)[i] == SENTINEL
    ensures u.path == front + SENTINEL + back && front != [] && front == Before(Split(u.path, SLASH), i, SLASH)
    ensures Split(front + x + back, SLASH) == Split(u.path, SLASH)[i := x]
  {
    hide Find, Split, Join;
    var parts := Split(u.path, SLASH);
    JoinSplit(u.path, SLASH);
    JoinAt(parts, i, SENTINEL, SLASH);
    JoinAt(parts, i, x, SLASH);
    assert parts[i := SENTINEL] == parts;
    front, back := Before(parts, i, SLASH), After(parts, i, SLASH);
    PlainAvoids(x);
    SplitJoin(parts[i := x], SLASH);
    SentinelHead();
    assert u.path[0] == SLASH;
  }

  lemma ValueText(u: Uri, i: nat, x: seq<Byte>) returns (key: seq<Byte>, front: seq<Byte>, back: seq<Byte>)
    requires AllPlain(x) && u.query.Some?
    requires i < |Pairs(u)| && ValueOf(Pairs(u)[i]) == Some(SENTINEL)
    ensures EQUALS !in key && Pairs(u)[i] == key + [EQUALS] + SENTINEL
    ensures u.query.value == front + SENTINEL + back && front == Before(Pairs(u), i, AMPERSAND) + key + [EQUALS]
    ensures Split(front + x + back, AMPERSAND) == Pairs(u)[i := key + [EQUALS] + x]
  {
    hide Find, ValueOf, Split, Join;
    var q, pairs := u.query.value, Pairs(u);
    key := PairParts(pairs[i], SENTINEL);
    var pair, pair' := pairs[i], key + [EQUALS] + x;
    JoinSplit(q, AMPERSAND);
    JoinAt(pairs, i, pair, AMPERSAND);
    JoinAt(pairs, i, pair', AMPERSAND);
    assert pairs[i := pair] == pairs;
    var b, a := Before(pairs, i, AMPERSAND), After(pairs, i, AMPERSAND);
    front, back := b + key + [EQUALS], a;
    assert b + pair + a == front + SENTINEL + back && b + pair' + a == front + x + back;
    PlainAvoids(x);
    KeyIsFree(key, SENTINEL, x, AMPERSAND);
    SplitJoin(pairs[i := pair'], AMPERSAND);
  }

  lemma KeyIsFree(key: seq<Byte>, old_: seq<Byte>, x: seq<Byte>, sep: Byte)
    requires sep !in x && sep != EQUALS
    ensures sep !in key + [EQUALS] + old_ ==> sep !in key + [EQUALS] + x
  {
    forall i | 0 <= i < |key| ensures key[i] in key + [EQUALS] + old_ {
      assert (key + [EQUALS] + old_)[i] == key[i];
    }
  }

  // ---------------------------------------------------------------- expansion

  lemma PathRendered(u: Uri, front: seq<Byte>, x: seq<Byte>, back: seq<Byte>)
    requires u.path == front + x + back
    ensures Render(u) == (u.scheme + SCHEME_END + u.authority + front) + x + (back + QueryText(u.query))
  {
  }

  lemma QueryRendered(u: Uri, front: seq<Byte>, x: seq<Byte>, back: seq<Byte>)
    requires u.query == Some(front + x + back)
    ensures Render(u) == (u.scheme + SCHEME_END + u.authority + u.path + [QUESTION] + front) + x + back
  {
  }

  lemma PathAvoids(front: seq<Byte>, back: seq<Byte>, gone: seq<Byte>, x: seq<Byte>)
    requires Avoids(front + gone + back, QUESTION) && AllPlain(x)
    ensures Avoids(front + x + back, QUESTION)
  {
    var whole := front + gone + back;
    forall i | 0 <= i < |back| ensures back[i] != QUESTION { assert whole[|front| + |gone| + i] == back[i]; }
    forall i | 0 <= i < |front| ensures front[i] != QUESTION { assert whole[i] == front[i]; }
  }

  lemma BytesAdmitted(ok: Byte -> bool, front: seq<Byte>, back: seq<Byte>, gone: seq<Byte>, x: seq<Byte>)
    requires forall i | 0 <= i < |front + gone + back| :: ok((front + gone + back)[i])
    requires AllPlain(x) && forall b: Byte | Plain(b) :: ok(b)
    ensures forall i | 0 <= i < |front + x + back| :: ok((front + x + back)[i])
  {
    var whole := front + gone + back;
    forall i | 0 <= i < |back| ensures ok(back[i]) { assert whole[|front| + |gone| + i] == back[i]; }
    forall i | 0 <= i < |front| ensures ok(front[i]) { assert whole[i] == front[i]; }
  }

  lemma PathReplaced(rules: Rules, u: Uri, front: seq<Byte>, gone: seq<Byte>, x: seq<Byte>, back: seq<Byte>)
    requires AdmitsPlain(rules) && WellCut(u) && Admits(rules, u) && AllPlain(x)
    requires u.path == front + gone + back && front != []
    ensures var v := u.(path := front + x + back); WellCut(v) && Admits(rules, v)
  {
    hide Find;
    var v := u.(path := front + x + back);
    assert v.path[0] == u.path[0];
    PathAvoids(front, back, gone, x);
    BytesAdmitted(rules.pathByte, front, back, gone, x);
  }

  lemma QueryReplaced(rules: Rules, u: Uri, front: seq<Byte>, gone: seq<Byte>, x: seq<Byte>, back: seq<Byte>)
    requires AdmitsPlain(rules) && WellCut(u) && Admits(rules, u) && AllPlain(x)
    requires u.query == Some(front + gone + back)
    ensures var v := u.(query := Some(front + x + back)); WellCut(v) && Admits(rules, v)
  {
    hide Find;
    BytesAdmitted(rules.queryByte, front, back, gone, x);
  }

  lemma ReplaceSegment(rules: Rules, u: Uri, i: nat, x: seq<Byte>, a: seq<Byte>, b: seq<Byte>) returns (v: Uri)
    requires AdmitsPlain(rules) && WellCut(u) && Admits(rules, u) && AllPlain(x)
    requires Render(u) == a + SENTINEL + b
    requires forall j: nat :: !OccursAt(a + PLACEHOLDER + b, SENTINEL, j)
    requires i < |Split(u.path, SLASH)| && Split(u.path, SLASH)[i] == SENTINEL
    ensures Parse(rules, a + x + b) == Some(v) && Render(v) == a + x + b && v.path != [] && u.path != []
    ensures ReplacesSegment(u, v, i, x)
  {
    hide Find, OccursAt, Split, Parse, WellCut, Admits, AdmitsPlain, AllPlain, Render, SENTINEL, PLACEHOLDER;
    var front, back := SegmentText(u, i, x);
    v := u.(path := front + x + back);
    PathRendered(u, front, SENTINEL, back);
    SameCut(a, b, u.scheme + SCHEME_END + u.authority + front, back + QueryText(u.query));
    PathRendered(v, front, x, back);
    PathReplaced(rules, u, front, SENTINEL, x, back);
    ParseRender(rules, v);
  }

  lemma ReplaceValue(rules: Rules, u: Uri, i: nat, x: seq<Byte>, a: seq<Byte>, b: seq<Byte>)
    returns (v: Uri, key: seq<Byte>)
    requires AdmitsPlain(rules) && WellCut(u) && Admits(rules, u) && AllPlain(x) && u.query.Some?
    requires Render(u) == a + SENTINEL + b
    requires forall j: nat :: !OccursAt(a + PLACEHOLDER + b, SENTINEL, j)
    requires i < |Pairs(u)| && ValueOf(Pairs(u)[i]) == Some(SENTINEL)
    ensures Parse(rules, a + x + b) == Some(v) && Render(v) == a + x + b && v.path == u.path
    ensures ReplacesValue(u, v, i, key, x)
  {
    hide Find, OccursAt, Split, Parse, ValueOf, WellCut, Admits, AdmitsPlain, AllPlain, Render, SENTINEL, PLACEHOLDER;
    var front, back;
    key, front, back := ValueText(u, i, x);
    v := u.(query := Some(front + x + back));
    QueryRendered(u, front, SENTINEL, back);
    SameCut(a, b, u.scheme + SCHEME_END + u.authority + u.path + [QUESTION] + front, back);
    QueryRendered(v, front, x, back);
    QueryReplaced(rules, u, front, SENTINEL, x, back);
    ParseRender(rules, v);
  }

  /** A template's text around its placeholder, and what its parse shows. */
  lemma TemplateText(rules: Rules, redacted: seq<Byte>, limits: Limits) returns (a: seq<Byte>, b: seq<Byte>)
    requires New(rules, redacted, limits).Ok?
    ensures redacted == a + PLACEHOLDER + b
    ensures forall x: seq<Byte> :: Replace(redacted, PLACEHOLDER, x) == a + x + b
    ensures forall j: nat :: !OccursAt(a + PLACEHOLDER + b, SENTINEL, j)
    ensures var u := New(rules, redacted, limits).value.parsed;
            Render(u) == a + SENTINEL + b && WellCut(u) && Admits(rules, u) && PlaceholderIsComplete(u)
  {
    hide OccursAt, Parse, PlaceholderIsComplete, WellCut, Admits, Render, SENTINEL, PLACEHOLDER;
    var k := Find(redacted, PLACEHOLDER, 0).value;
    a, b := redacted[..k], redacted[k + |PLACEHOLDER|..];
    PlaceholderAt(redacted);
    assert redacted == a + PLACEHOLDER + b;
    RenderParse(rules, a + SENTINEL + b);
  }

  lemma PlaceholderAt(s: seq<Byte>)
    requires Find(s, PLACEHOLDER, 0).Some?
    ensures var k := Find(s, PLACEHOLDER, 0).value; s[k..k + |PLACEHOLDER|] == PLACEHOLDER
  {
  }

  lemma ParsedExpansion(rules: Rules, u: Uri, x: seq<Byte>, a: seq<Byte>, b: seq<Byte>) returns (v: Uri)
    requires AdmitsPlain(rules) && WellCut(u) && Admits(rules, u) && AllPlain(x)
    requires Render(u) == a + SENTINEL + b && PlaceholderIsComplete(u)
    requires forall j: nat :: !OccursAt(a + PLACEHOLDER + b, SENTINEL, j)
    ensures Parse(rules, a + x + b) == Some(v) && Render(v) == a + x + b && ReplacesOne(u, v, x)
    ensures SameOrigin(u, v) && (v.path == [] <==> u.path == [])
  {
    hide OccursAt, Split, Parse, ValueOf, Count, WellCut, Admits, AdmitsPlain, AllPlain, Render, SENTINEL, PLACEHOLDER;
    if Count(SENTINEL, Split(u.path, SLASH)) > 0 {
      var i := CountWitness(SENTINEL, Split(u.path, SLASH));
      v := ReplaceSegment(rules, u, i, x, a, b);
    } else {
      var i := ValueWitness(SENTINEL, Pairs(u));
      var key;
      v, key := ReplaceValue(rules, u, i, x, a, b);
      assert ReplacesValue(u, v, i, key, x);
    }
  }

  /**
   * Expanding a secret fails only for its length. Otherwise the result is the template's own URL with
   * the one placeholder segment or value replaced by text that decodes to the secret; in particular
   * the comparison of origins never fails.
   */
  lemma ExpandKeepsStructure(rules: Rules, redacted: seq<Byte>, limits: Limits, secret: seq<Byte>)
    requires AdmitsPlain(rules) && ValidLimits(limits) && New(rules, redacted, limits).Ok?
    ensures var t := New(rules, redacted, limits).value;
            var length := |redacted| - 8 + |Encode(secret)|;
            var r := Expand(rules, t, secret);
            && (r == Err(ExpandedLength) <==> length > limits.expandedBytes)
            && (r == Err(InvalidExpansion) <==>
                  length == MAX_ENDPOINT_BYTES <= limits.expandedBytes && t.parsed.path == [])
            && (r.Err? ==> r.error in {ExpandedLength, InvalidExpansion})
            && (r.Ok? ==> |Render(r.value)| == length && ReplacesOne(t.parsed, r.value, Encode(secret)))
            && Decode(Encode(secret)) == Some(secret)
  {
    hide OccursAt, Find, Replace, Parse, Encode, Decode, WellCut, Admits, AdmitsPlain, Render, ReplacesOne,
      PlaceholderIsComplete;
    var t := New(rules, redacted, limits).value;
    var a, b := TemplateText(rules, redacted, limits);
    var x := Encode(secret);
    EncodeIsPlain(secret);
    DecodeEncode(secret);
    assert Replace(redacted, PLACEHOLDER, x) == a + x + b;
    var v := ParsedExpansion(rules, t.parsed, x, a, b);
  }

  /** Two secrets never expand to the same URL. */
  lemma ExpandInjective(rules: Rules, redacted: seq<Byte>, limits: Limits, s1: seq<Byte>, s2: seq<Byte>)
    requires New(rules, redacted, limits).Ok?
    requires var t := New(rules, redacted, limits).value;
             Expand(rules, t, s1).Ok? && Expand(rules, t, s1) == Expand(rules, t, s2)
    ensures s1 == s2
  {
    hide OccursAt, Find, Replace, Parse, Encode, Decode, Render, PlaceholderIsComplete;
    var a, b := TemplateText(rules, redacted, limits);
    var x1, x2 := Encode(s1), Encode(s2);
    assert Replace(redacted, PLACEHOLDER, x1) == a + x1 + b && Replace(redacted, PLACEHOLDER, x2) == a + x2 + b;
    RenderParse(rules, a + x1 + b);
    RenderParse(rules, a + x2 + b);
    assert x1 == (a + x1 + b)[|a|..|a| + |x1|] && x2 == (a + x2 + b)[|a|..|a| + |x2|];
    DecodeEncode(s1);
    DecodeEncode(s2);
  }
}
