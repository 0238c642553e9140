/** Exactly which status lines and header lines are read, and as what. */
module Http1Lines {

  import opened Bytes
  import opened Http1
  import opened Http1Heads

  // ---------------------------------------------------------------- header lines

  predicate AllBlank(s: seq<Byte>) { forall i | 0 <= i < |s| :: Blank(s[i]) }

  /** Neither end is blank. */
  predicate Trimmed(s: seq<Byte>) { s == [] || (!Blank(s[0]) && !Blank(s[|s| - 1])) }

  lemma {:induction false} TrimLeftOf(blanks: seq<Byte>, s: seq<Byte>)
    requires AllBlank(blanks) && (s == [] || !Blank(s[0]))
    ensures TrimLeft(blanks + s) == s
    decreases |blanks|
  {
    if blanks == [] {
      assert blanks + s == s;
    } else {
      assert (blanks + s)[1..] == blanks[1..] + s;
      TrimLeftOf(blanks[1..], s);
    }
  }

  lemma {:induction false} TrimRightOf(s: seq<Byte>, blanks: seq<Byte>)
    requires AllBlank(blanks) && (s == [] || !Blank(s[|s| - 1]))
    ensures TrimRight(s + blanks) == s
    decreases |blanks|
  {
    var n := |blanks|;
    if blanks == [] {
      assert s + blanks == s;
    } else {
      assert (s + blanks)[..|s| + n - 1] == s + blanks[..n - 1];
      TrimRightOf(s, blanks[..n - 1]);
    }
  }

  lemma {:induction false} TrimmedLeft(s: seq<Byte>) returns (blanks: seq<Byte>)
    ensures AllBlank(blanks) && s == blanks + TrimLeft(s) && (TrimLeft(s) == [] || !Blank(TrimLeft(s)[0]))
    decreases |s|
  {
    if s != [] && Blank(s[0]) {
      var kept := TrimLeft(s[1..]);
      assert TrimLeft(s) == kept;
      hide TrimLeft;
      var rest := TrimmedLeft(s[1..]);
      blanks := [s[0]] + rest;
      assert s == [s[0]] + (rest + kept) == blanks + kept;
    } else {
      blanks := [];
    }
  }

  lemma {:induction false} TrimmedRight(s: seq<Byte>) returns (blanks: seq<Byte>)
    ensures AllBlank(blanks) && s == TrimRight(s) + blanks
    ensures TrimRight(s) == [] || !Blank(TrimRight(s)[|TrimRight(s)| - 1])
    decreases |s|
  {
    if s != [] && Blank(s[|s| - 1]) {
      var rest := TrimmedRight(s[..|s| - 1]);
      blanks := rest + [s[|s| - 1]];
      assert s == s[..|s| - 1] + [s[|s| - 1]];
    } else {
      blanks := [];
    }
  }

  /** A name, a colon and the value between blanks. */
  predicate SpellsHeader(line: seq<Byte>, h: Header, left: seq<Byte>, right: seq<Byte>) {
    && IsToken(h.name) && Trimmed(h.value) && AllBlank(left) && AllBlank(right)
    && line == h.name + [COLON] + (left + h.value + right)
  }

  lemma ColonEnds(name: seq<Byte>, rest: seq<Byte>)
    requires IsToken(name)
    ensures Find(name + [COLON] + rest, [COLON], 0) == Some(|name|)
  {
    var line := name + [COLON] + rest;
    assert line[|name|..|name| + 1] == [COLON];
    forall i: nat | i < |name| ensures !OccursAt(line, [COLON], i) {
      assert line[i..i + 1] == [name[i]] && name[i] != COLON;
    }
    FindIs(line, [COLON], |name|);
  }

  lemma SpelledIsRead(line: seq<Byte>, h: Header, left: seq<Byte>, right: seq<Byte>)
    requires SpellsHeader(line, h, left, right)
    ensures ReadHeader(line) == Some(h)
  {
    hide Find, IsToken, TrimLeft, TrimRight;
    var rest := left + h.value + right;
    ColonEnds(h.name, rest);
    TokenStarts(h.name);
    assert line[..|h.name|] == h.name && line[|h.name| + 1..] == rest && line[0] == h.name[0];
    if h.value == [] {
      assert rest == (left + right) + [];
      TrimLeftOf(left + right, []);
      var none: seq<Byte> := [];
      assert none + none == none;
      TrimRightOf(none, none);
    } else {
      assert rest == left + (h.value + right);
      TrimLeftOf(left, h.value + right);
      TrimRightOf(h.value, right);
    }
  }

  lemma TokenStarts(name: seq<Byte>)
    requires IsToken(name)
    ensures name != [] && !Blank(name[0])
  {
  }

  lemma ReadIsSpelled(line: seq<Byte>) returns (left: seq<Byte>, right: seq<Byte>)
    requires ReadHeader(line).Some?
    ensures SpellsHeader(line, ReadHeader(line).value, left, right)
  {
    hide IsToken, TrimLeft, TrimRight;
    var k := Find(line, [COLON], 0).value;
    var rest := line[k + 1..];
    assert line == line[..k] + [COLON] + rest by { assert line[k..k + 1] == [COLON]; }
    left := TrimmedLeft(rest);
    right := TrimmedRight(TrimLeft(rest));
    var value := TrimRight(TrimLeft(rest));
    assert rest == left + (value + right) == left + value + right;
    if value != [] { assert TrimLeft(rest)[0] == value[0]; }
  }

  /** A header line is read as a header if and only if it spells it. */
  lemma HeaderIsReadIff(line: seq<Byte>, h: Header)
    ensures ReadHeader(line) == Some(h) <==> exists left, right :: SpellsHeader(line, h, left, right)
  {
    hide ReadHeader, SpellsHeader;
    if ReadHeader(line) == Some(h) { var left, right := ReadIsSpelled(line); }
    if left, right :| SpellsHeader(line, h, left, right) { SpelledIsRead(line, h, left, right); }
  }

  // ---------------------------------------------------------------- status lines

  predicate AllSpaces(s: seq<Byte>) { forall i | 0 <= i < |s| :: s[i] == SP }

  predicate IsWord(s: seq<Byte>) { s != [] && forall i | 0 <= i < |s| :: s[i] != SP }

  predicate EndsWord(tail: seq<Byte>) { tail == [] || tail[0] == SP }

  lemma {:induction false} WordIsNext(spaces: seq<Byte>, word: seq<Byte>, tail: seq<Byte>)
    requires AllSpaces(spaces) && IsWord(word) && EndsWord(tail)
    ensures NextToken(spaces + (word + tail)) == (word, tail)
    decreases |spaces|
  {
    if spaces == [] {
      assert spaces + (word + tail) == word + tail;
      NextTokenIs(word, tail);
    } else {
      assert (spaces + (word + tail))[1..] == spaces[1..] + (word + tail);
      WordIsNext(spaces[1..], word, tail);
    }
  }

  lemma {:induction false} NextIsWord(line: seq<Byte>) returns (spaces: seq<Byte>)
    ensures var (word, tail) := NextToken(line);
            && AllSpaces(spaces) && line == spaces + (word + tail) && EndsWord(tail) && (word == [] || IsWord(word))
    decreases |line|
  {
    if line != [] && line[0] == SP {
      var rest := NextIsWord(line[1..]);
      spaces := [SP] + rest;
      assert line == [SP] + line[1..];
    } else {
      spaces := [];
      WordEnds(line);
      var n := TokenLength(line);
      assert line == line[..n] + line[n..];
    }
  }

  lemma {:induction false} WordEnds(line: seq<Byte>)
    ensures var n := TokenLength(line); (forall i | 0 <= i < n :: line[..n][i] != SP) && EndsWord(line[n..])
    decreases |line|
  {
    if line != [] && line[0] != SP {
      WordEnds(line[1..]);
      var n := TokenLength(line[1..]);
      assert line[..n + 1] == [line[0]] + line[1..][..n] && line[n + 1..] == line[1..][n..];
    }
  }

  /** Two words with spaces around them, and anything after a further space. */
  predicate SpellsStatus(line: seq<Byte>, version: seq<Byte>, code: seq<Byte>, a: seq<Byte>, b: seq<Byte>,
                         tail: seq<Byte>)
  {
    && IsWord(version) && IsWord(code) && AllSpaces(a) && AllSpaces(b) && b != [] && EndsWord(tail)
    && line == a + (version + (b + (code + tail)))
  }

  lemma WordsOf(line: seq<Byte>, version: seq<Byte>, code: seq<Byte>, a: seq<Byte>, b: seq<Byte>, tail: seq<Byte>)
    requires SpellsStatus(line, version, code, a, b, tail)
    ensures NextToken(line) == (version, b + (code + tail)) && NextToken(b + (code + tail)) == (code, tail)
  {
    hide NextToken;
    WordIsNext(a, version, b + (code + tail));
    WordIsNext(b, code, tail);
  }

  lemma WordsExist(line: seq<Byte>) returns (a: seq<Byte>, b: seq<Byte>)
    ensures var (version, rest) := NextToken(line);
            var (code, tail) := NextToken(rest);
            version != [] && code != [] ==> SpellsStatus(line, version, code, a, b, tail)
  {
    hide NextToken;
    var (version, rest) := NextToken(line);
    a := NextIsWord(line);
    b := NextIsWord(rest);
  }

  /** Three digits of a status that is accepted. */
  predicate IsStatus(code: seq<Byte>, status: int) {
    |code| == 3 && AllDigits(code) && DigitsValue(code) == status && 100 <= status <= 599 && !(300 <= status <= 399)
  }

  lemma StatusIsRead(code: seq<Byte>, status: int)
    ensures IsStatus(code, status)
            <==> && |code| == 3 && AllDigits(code) && ReadInt(code) == Some(status)
                 && 100 <= status <= 599 && !(300 <= status <= 399)
  {
    if |code| == 3 && AllDigits(code) {
      assert IsDigit(code[0]);
      assert code == [code[0], code[1], code[2]];
      ThreeDigits(code[0], code[1], code[2]);
    }
  }

  /** A status line is accepted if and only if its words are the protocol and three digits of an accepted status. */
  lemma StatusIsReadIff(line: seq<Byte>, status: int)
    ensures ReadStatusLine(line) == Ok(status)
            <==> exists code, a, b, tail ::
              SpellsStatus(line, Ascii("HTTP/1.1"), code, a, b, tail) && IsStatus(code, status)
  {
    hide NextToken, SpellsStatus, IsStatus, ReadInt, AllDigits, Ascii;
    if ReadStatusLine(line) == Ok(status) {
      var a, b := WordsExist(line);
      var (version, rest) := NextToken(line);
      StatusIsRead(NextToken(rest).0, status);
    }
    if code, a, b, tail :| SpellsStatus(line, Ascii("HTTP/1.1"), code, a, b, tail) && IsStatus(code, status) {
      WordsOf(line, Ascii("HTTP/1.1"), code, a, b, tail);
      StatusIsRead(code, status);
      WordsAreWords(line, Ascii("HTTP/1.1"), code, a, b, tail);
    }
  }

  lemma WordsAreWords(line: seq<Byte>, version: seq<Byte>, code: seq<Byte>, a: seq<Byte>, b: seq<Byte>, tail: seq<Byte>)
    requires SpellsStatus(line, version, code, a, b, tail)
    ensures version != [] && code != []
  {
  }

  predicate IsRedirect(code: seq<Byte>) { ReadInt(code).Some? && 300 <= ReadInt(code).value <= 399 }

  /** A line is refused as a redirection if and only if its second word is a number from 300 to 399. */
  lemma RedirectIsReadIff(line: seq<Byte>)
    ensures ReadStatusLine(line) == Err(RedirectDenied)
            <==> exists version, code, a, b, tail :: SpellsStatus(line, version, code, a, b, tail) && IsRedirect(code)
  {
    hide NextToken, SpellsStatus, ReadInt, AllDigits, Ascii;
    if ReadStatusLine(line) == Err(RedirectDenied) {
      var a, b := WordsExist(line);
      assert IsRedirect(NextToken(NextToken(line).1).0);
    }
    if version, code, a, b, tail :| SpellsStatus(line, version, code, a, b, tail) && IsRedirect(code) {
      WordsOf(line, version, code, a, b, tail);
      WordsAreWords(line, version, code, a, b, tail);
    }
  }
}
