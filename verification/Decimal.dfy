/** Decimal printing of integers, and its inverse. */
module Decimal {

  import opened Bytes

  const MINUS: Byte := 0x2d

  /** The shortest decimal spelling of `n`. */
  function Print(n: nat): (s: seq<Byte>)
    ensures s != [] && AllDigits(s)
    ensures |s| > 1 ==> s[0] != 0x30
  {
    if n < 10 then [0x30 + n] else Print(n / 10) + [0x30 + n % 10]
  }

  function PrintInt(n: int): seq<Byte> { if n < 0 then [MINUS] + Print(-n) else Print(n) }

  lemma {:induction false} ValueOfPrint(n: nat)
    ensures DigitsValue(Print(n)) == n
  {
    var s := Print(n);
    if n < 10 {
      assert s[..0] == [];
    } else {
      ValueOfPrint(n / 10);
      assert s[..|s| - 1] == Print(n / 10);
    }
  }

  /** Digits without a superfluous leading zero are the spelling of their value. */
  lemma {:induction false} PrintOfValue(s: seq<Byte>)
    requires s != [] && AllDigits(s) && (|s| > 1 ==> s[0] != 0x30)
    ensures Print(DigitsValue(s)) == s
    ensures |s| > 1 ==> DigitsValue(s) >= 10
    decreases |s|
  {
    var init := s[..|s| - 1];
    if |s| == 1 {
      assert init == [];
    } else {
      PrintOfValue(init);
      assert DigitsValue(init) > 0;
      assert s == init + [s[|s| - 1]];
    }
  }

  lemma PrintIntInjective(m: int, n: int)
    requires PrintInt(m) == PrintInt(n)
    ensures m == n
  {
    ValueOfPrint(if m < 0 then -m else m);
    ValueOfPrint(if n < 0 then -n else n);
    assert m < 0 <==> PrintInt(m)[0] == MINUS;
    assert n < 0 <==> PrintInt(n)[0] == MINUS;
    if m < 0 {
      assert Print(-m) == PrintInt(m)[1..] == Print(-n);
    }
  }

  lemma NoLineFeed(n: int)
    ensures LF !in PrintInt(n)
  {
  }
}
