/** Sums over the program counters of any number of threads. */
module Tally {

  function Sum<T>(weight: T -> nat, items: seq<T>): nat {
    if items == [] then 0 else weight(items[0]) + Sum(weight, items[1..])
  }

  lemma {:induction false} SumUpdate<T>(weight: T -> nat, items: seq<T>, i: nat, x: T)
    requires i < |items|
    ensures Sum(weight, items[i := x]) == Sum(weight, items) - weight(items[i]) + weight(x)
    decreases |items|
  {
    if i == 0 {
      assert items[0 := x][1..] == items[1..];
    } else {
      assert items[i := x][1..] == items[1..][i - 1 := x];
      SumUpdate(weight, items[1..], i - 1, x);
    }
  }

  function Map<T, U>(f: T -> U, items: seq<T>): (r: seq<U>)
    ensures |r| == |items| && forall i | 0 <= i < |items| :: r[i] == f(items[i])
  {
    seq(|items|, i requires 0 <= i < |items| => f(items[i]))
  }

  /** A change that keeps every weight keeps the sum. */
  lemma {:induction false} SumMap<T>(weight: T -> nat, f: T -> T, items: seq<T>)
    requires forall i | 0 <= i < |items| :: weight(f(items[i])) == weight(items[i])
    ensures Sum(weight, Map(f, items)) == Sum(weight, items)
    decreases |items|
  {
    if items != [] {
      assert Map(f, items)[1..] == Map(f, items[1..]);
      SumMap(weight, f, items[1..]);
    }
  }

  lemma {:induction false} SumBound<T>(weight: T -> nat, items: seq<T>)
    requires forall i | 0 <= i < |items| :: weight(items[i]) <= 1
    ensures Sum(weight, items) <= |items|
    decreases |items|
  {
    if items != [] { SumBound(weight, items[1..]); }
  }

  lemma ScaledGap(a: nat, b: nat, n: nat)
    requires a < b
    ensures a * n + n <= b * n
  {
    var d := b - a - 1;
    assert b * n == a * n + n + d * n;
  }

  /** No item occurs twice. */
  predicate AllDistinct<T(==)>(items: seq<T>) { forall i, j | 0 <= i < j < |items| :: items[i] != items[j] }

  /** How many items equal `x`. */
  function Count<T(==)>(x: T, items: seq<T>): nat {
    if items == [] then 0 else One(items[0] == x) + Count(x, items[1..])
  }

  function One(b: bool): nat { if b then 1 else 0 }

  lemma {:induction false} CountUpdate<T>(x: T, items: seq<T>, i: nat, item: T)
    requires i < |items|
    ensures Count(x, items[i := item]) == Count(x, items) - One(items[i] == x) + One(item == x)
    decreases |items|
  {
    if i == 0 {
      assert items[0 := item][1..] == items[1..];
    } else {
      assert items[i := item][1..] == items[1..][i - 1 := item];
      CountUpdate(x, items[1..], i - 1, item);
    }
  }

  lemma {:induction false} CountMember<T>(items: seq<T>, i: nat)
    requires i < |items|
    ensures Count(items[i], items) > 0
    decreases |items|
  {
    if i > 0 { CountMember(items[1..], i - 1); }
  }

  /** Replacing one item moves one count down and one up. */
  lemma MoveCounts<T(!new)>(items: seq<T>, i: nat, item: T)
    requires i < |items|
    ensures Count(items[i], items) > 0
    ensures forall x :: Count(x, items[i := item]) == Count(x, items) - One(items[i] == x) + One(item == x)
  {
    CountMember(items, i);
    forall x ensures Count(x, items[i := item]) == Count(x, items) - One(items[i] == x) + One(item == x) {
      CountUpdate(x, items, i, item);
    }
  }

  lemma {:induction false} CountTwo<T>(items: seq<T>, i: nat, j: nat)
    requires i < j < |items| && items[i] == items[j]
    ensures Count(items[i], items) > 1
    decreases |items|
  {
    if i == 0 { CountMember(items[1..], j - 1); } else { CountTwo(items[1..], i - 1, j - 1); }
  }

  lemma {:induction false} CountWitness<T>(x: T, items: seq<T>) returns (i: nat)
    requires Count(x, items) > 0
    ensures i < |items| && items[i] == x
    decreases |items|
  {
    if items[0] == x {
      i := 0;
    } else {
      var j := CountWitness(x, items[1..]);
      i := j + 1;
    }
  }

  lemma {:induction false} CountAbsent<T>(x: T, items: seq<T>)
    requires forall i | 0 <= i < |items| :: items[i] != x
    ensures Count(x, items) == 0
    decreases |items|
  {
    if items != [] { CountAbsent(x, items[1..]); }
  }

  lemma {:induction false} CountOnly<T>(x: T, items: seq<T>, i: nat)
    requires i < |items| && items[i] == x && forall j | 0 <= j < |items| && items[j] == x :: j == i
    ensures Count(x, items) == 1
    decreases |items|
  {
    var rest := items[1..];
    assert forall j | 0 <= j < |rest| :: rest[j] == items[j + 1];
    if i == 0 { CountAbsent(x, rest); } else { CountOnly(x, rest, i - 1); }
  }
}
