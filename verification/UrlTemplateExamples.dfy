/** Templates that are accepted, and the expansion that is refused within its limit. */
module UrlTemplateExamples {

  import opened Bytes
  import opened Splitting
  import opened Percent
  import opened Tally
  import opened UrlTemplate

  const HTTPS := Ascii("https")

  /** The host "h", and a query key of `n` bytes "k". */
  const HOST: seq<Byte> := [0x68]

  function Key(n: nat): (r: seq<Byte>)
    ensures |r| == n && forall i | 0 <= i < n :: r[i] == 0x6b
  {
    seq(n, _ => 0x6b)
  }

  /** Rules that admit the scheme, the host and an equals sign in a query. */
  ghost predicate AdmitsExample(rules: Rules) {
    AdmitsPlain(rules) && rules.scheme(HTTPS) && rules.authority(HOST) && rules.queryByte(EQUALS)
  }

  /** `x` as the value of the key, under an empty path. */
  function WithValue(n: nat, x: seq<Byte>): Uri { Uri(HTTPS, HOST, [], Some(Key(n) + [EQUALS] + x)) }

  function Front(n: nat): seq<Byte> { HTTPS + SCHEME_END + HOST + [QUESTION] + Key(n) + [EQUALS] }

  /** The template "https://h?kk...k={secret}". */
  function Redacted(n: nat): seq<Byte> { Front(n) + PLACEHOLDER }

  lemma FrontBytes(n: nat)
    ensures |Front(n)| == n + 11
    ensures forall i | 0 <= i < |Front(n)| :: Front(n)[i] !in {HASH, SENTINEL[0], PLACEHOLDER[0]}
  {
  }

  lemma RenderedValue(n: nat, x: seq<Byte>)
    ensures Render(WithValue(n, x)) == Front(n) + x
  {
  }

  lemma OccursByFirstByte(s: seq<Byte>, pattern: seq<Byte>, i: nat)
    requires pattern != [] && (i < |s| ==> s[i] != pattern[0])
    ensures !OccursAt(s, pattern, i)
  {
    if i + |pattern| <= |s| { assert s[i..i + |pattern|][0] == s[i]; }
  }

  /** A pattern whose first byte does not occur is not found. */
  lemma FirstByteAbsent(s: seq<Byte>, pattern: seq<Byte>)
    requires pattern != [] && pattern[0] !in s
    ensures Find(s, pattern, 0).None?
  {
    forall i: nat ensures !OccursAt(s, pattern, i) { OccursByFirstByte(s, pattern, i); }
  }

  /** A pattern whose first byte does not occur before it is found there. */
  lemma FirstByteFinds(front: seq<Byte>, pattern: seq<Byte>, tail: seq<Byte>)
    requires pattern != [] && pattern[0] !in front
    ensures Find(front + pattern + tail, pattern, 0) == Some(|front|)
  {
    var s := front + pattern + tail;
    assert s[|front|..|front| + |pattern|] == pattern;
    forall i: nat | i < |front| ensures !OccursAt(s, pattern, i) { OccursByFirstByte(s, pattern, i); }
    FindIs(s, pattern, |front|);
  }

  lemma PlaceholderOnce(n: nat)
    ensures Find(Redacted(n), PLACEHOLDER, 0) == Some(|Front(n)|) && Occurrences(Redacted(n), PLACEHOLDER) == 1
  {
    hide Find, OccursAt, Front, PLACEHOLDER;
    FrontBytes(n);
    PlaceholderBytes();
    assert Redacted(n) == Front(n) + PLACEHOLDER + [];
    FirstByteFinds(Front(n), PLACEHOLDER, []);
    assert Redacted(n)[|Front(n)| + |PLACEHOLDER|..] == [];
    FirstByteAbsent([], PLACEHOLDER);
  }

  lemma PlaceholderBytes()
    ensures |PLACEHOLDER| == 8 && HASH !in PLACEHOLDER && SENTINEL[0] !in PLACEHOLDER
  {
  }

  lemma NoSentinel(n: nat)
    ensures HASH !in Redacted(n) && Find(Redacted(n), SENTINEL, 0).None?
  {
    hide Find, OccursAt, Front, PLACEHOLDER, SENTINEL;
    FrontBytes(n);
    PlaceholderBytes();
    SentinelHead();
    FirstByteAbsent(Redacted(n), SENTINEL);
  }

  lemma ExampleIsWellCut(rules: Rules, n: nat)
    requires AdmitsExample(rules)
    ensures WellCut(WithValue(n, SENTINEL)) && Admits(rules, WithValue(n, SENTINEL))
  {
    hide Find, OccursAt, SENTINEL;
    SentinelIsPlain();
    FirstByteFinds(HTTPS, SCHEME_END, []);
    assert HTTPS + SCHEME_END + [] == HTTPS + SCHEME_END;
  }

  lemma ExampleIsComplete(n: nat)
    ensures PlaceholderIsComplete(WithValue(n, SENTINEL))
  {
    hide Find, OccursAt, SENTINEL;
    SentinelHead();
    SentinelIsPlain();
    PlainAvoids(SENTINEL);
    var query := Key(n) + [EQUALS] + SENTINEL;
    SplitOnly(query, AMPERSAND);
    FirstByteFinds(Key(n), [EQUALS], SENTINEL);
    assert query[n + 1..] == SENTINEL;
    SplitOnly([], SLASH);
    var pairs, segments: seq<seq<Byte>> := [query], [[]];
    assert pairs[1..] == [] && segments[1..] == [];
    assert Count(SENTINEL, segments) == 0 && CountValues(SENTINEL, pairs) == 1;
  }

  /** Every such template of at most 2048 bytes is accepted, whatever else the rules admit. */
  lemma ExampleIsAccepted(rules: Rules, n: nat, limits: Limits)
    requires AdmitsExample(rules) && n + 19 <= limits.templateBytes <= 2048
    ensures New(rules, Redacted(n), limits) == Ok(Template(Redacted(n), WithValue(n, SENTINEL), limits))
    ensures |Redacted(n)| == n + 19
  {
    hide Find, OccursAt, Occurrences, Parse, PlaceholderIsComplete, WellCut, Admits, Render, Front, PLACEHOLDER,
      SENTINEL;
    FrontBytes(n);
    PlaceholderBytes();
    SentinelHead();
    NoSentinel(n);
    PlaceholderOnce(n);
    ReplacedText(n);
    RenderedValue(n, SENTINEL);
    ExampleIsWellCut(rules, n);
    ExampleIsComplete(n);
    ParseRender(rules, WithValue(n, SENTINEL));
  }

  lemma ReplacedText(n: nat)
    ensures Replace(Redacted(n), PLACEHOLDER, SENTINEL) == Front(n) + SENTINEL
  {
    hide Find, Front, PLACEHOLDER, SENTINEL;
    PlaceholderOnce(n);
    assert Redacted(n)[..|Front(n)|] == Front(n) && Redacted(n)[|Front(n)| + |PLACEHOLDER|..] == [];
  }

  /** A secret of `n` zero bytes is escaped to three times its length. */
  function ZeroSecret(n: nat): (r: seq<Byte>)
    ensures |r| == n
  {
    seq(n, _ => 0)
  }

  lemma {:induction false} ZeroSecretLength(n: nat)
    ensures |Encode(ZeroSecret(n))| == 3 * n
  {
    if n > 0 {
      ZeroSecretLength(n - 1);
      assert ZeroSecret(n)[1..] == ZeroSecret(n - 1);
    }
  }

  /**
   * The greatest secret, 1024 bytes, in a template of 1032 bytes expands to exactly 4096 bytes.  That is
   * within the limit and is refused; with a template one byte shorter the same secret is accepted.
   */
  lemma RefusedWithinLimit(rules: Rules)
    requires AdmitsExample(rules)
    ensures var limits := Limits(2048, MAX_ENDPOINT_BYTES);
            && ValidLimits(limits) && New(rules, Redacted(1013), limits).Ok? && New(rules, Redacted(1012), limits).Ok?
            && |Replace(Redacted(1013), PLACEHOLDER, Encode(ZeroSecret(1024)))| == limits.expandedBytes
            && Expand(rules, New(rules, Redacted(1013), limits).value, ZeroSecret(1024)) == Err(InvalidExpansion)
            && Expand(rules, New(rules, Redacted(1012), limits).value, ZeroSecret(1024)).Ok?
  {
    hide Find, Parse, Encode, Redacted, New, Expand, ReplacesOne, Decode, Render;
    var limits := Limits(2048, MAX_ENDPOINT_BYTES);
    ZeroSecretLength(1024);
    ExampleIsAccepted(rules, 1013, limits);
    ExampleIsAccepted(rules, 1012, limits);
    ExpandKeepsStructure(rules, Redacted(1013), limits, ZeroSecret(1024));
    ExpandKeepsStructure(rules, Redacted(1012), limits, ZeroSecret(1024));
    PlaceholderOnce(1013);
    FrontBytes(1013);
  }
}
