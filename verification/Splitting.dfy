/** Splitting a byte string at a separator, and joining it again. */
module Splitting {

  import opened Bytes

  function Split(s: seq<Byte>, sep: Byte): (parts: seq<seq<Byte>>)
    ensures |parts| >= 1
    decreases |s|
  {
    if s == [] then [[]]
    else
      var rest := Split(s[1..], sep);
      if s[0] == sep then [[]] + rest else [[s[0]] + rest[0]] + rest[1..]
  }

  function Join(parts: seq<seq<Byte>>, sep: Byte): seq<Byte>
    requires parts != []
  {
    if |parts| == 1 then parts[0] else parts[0] + [sep] + Join(parts[1..], sep)
  }

  predicate Free(parts: seq<seq<Byte>>, sep: Byte) { forall i | 0 <= i < |parts| :: sep !in parts[i] }

  lemma {:induction false} JoinSplit(s: seq<Byte>, sep: Byte)
    ensures Join(Split(s, sep), sep) == s && Free(Split(s, sep), sep)
    decreases |s|
  {
    if s != [] {
      var parts, rest := Split(s, sep), Split(s[1..], sep);
      JoinSplit(s[1..], sep);
      assert s == [s[0]] + s[1..];
      if s[0] == sep {
        assert parts[1..] == rest;
        assert Join(parts, sep) == [sep] + Join(rest, sep);
      } else {
        assert parts[1..] == rest[1..];
        assert Join(parts, sep) == [s[0]] + Join(rest, sep);
      }
    }
  }

  lemma {:induction false} SplitPrefix(part: seq<Byte>, tail: seq<Byte>, sep: Byte)
    requires sep !in part
    ensures Split(part + [sep] + tail, sep) == [part] + Split(tail, sep)
    decreases |part|
  {
    var s := part + [sep] + tail;
    if part == [] {
      assert s[1..] == tail;
    } else {
      assert s[1..] == part[1..] + [sep] + tail;
      SplitPrefix(part[1..], tail, sep);
      assert [part[0]] + part[1..] == part;
      assert ([part[1..]] + Split(tail, sep))[1..] == Split(tail, sep);
    }
  }

  lemma {:induction false} SplitOnly(part: seq<Byte>, sep: Byte)
    requires sep !in part
    ensures Split(part, sep) == [part]
    decreases |part|
  {
    if part != [] {
      SplitOnly(part[1..], sep);
      assert [part[0]] + part[1..] == part;
    }
  }

  lemma {:induction false} SplitJoin(parts: seq<seq<Byte>>, sep: Byte)
    requires parts != [] && Free(parts, sep)
    ensures Split(Join(parts, sep), sep) == parts
    decreases |parts|
  {
    if |parts| == 1 {
      SplitOnly(parts[0], sep);
    } else {
      SplitPrefix(parts[0], Join(parts[1..], sep), sep);
      SplitJoin(parts[1..], sep);
    }
  }

  /** What stands before and after part `i` in the joined text. */
  function Before(parts: seq<seq<Byte>>, i: nat, sep: Byte): seq<Byte>
    requires i < |parts|
  {
    if i == 0 then [] else parts[0] + [sep] + Before(parts[1..], i - 1, sep)
  }

  function After(parts: seq<seq<Byte>>, i: nat, sep: Byte): seq<Byte>
    requires i < |parts|
  {
    if i + 1 == |parts| then [] else [sep] + Join(parts[i + 1..], sep)
  }

  /** Changing one part changes the text only where that part stands. */
  lemma {:induction false} JoinAt(parts: seq<seq<Byte>>, i: nat, x: seq<Byte>, sep: Byte)
    requires i < |parts|
    ensures Join(parts[i := x], sep) == Before(parts, i, sep) + x + After(parts, i, sep)
    decreases |parts|
  {
    if i == 0 {
      assert parts[0 := x][1..] == parts[1..];
    } else {
      var rest := parts[1..];
      assert parts[i := x][1..] == rest[i - 1 := x];
      JoinAt(rest, i - 1, x, sep);
      assert After(rest, i - 1, sep) == After(parts, i, sep) by { assert rest[i..] == parts[i + 1..]; }
      var front, b, a := parts[0] + [sep], Before(rest, i - 1, sep), After(rest, i - 1, sep);
      assert front + (b + x + a) == (front + b) + x + a;
    }
  }
}
