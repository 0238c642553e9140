/** The byte order of names, and the least name of a set. */
module Names {

  import opened Bytes

  type Name = seq<Byte>

  /** Lexicographic order by bytes. */
  predicate Less(a: Name, b: Name) {
    b != [] && (a == [] || a[0] < b[0] || (a[0] == b[0] && Less(a[1..], b[1..])))
  }

  lemma {:induction false} Total(a: Name, b: Name)
    ensures a == b || Less(a, b) || Less(b, a)
    decreases |a|
  {
    if a != [] && b != [] && a[0] == b[0] {
      Total(a[1..], b[1..]);
      assert a == [a[0]] + a[1..] && b == [b[0]] + b[1..];
    }
  }

  lemma {:induction false} Asymmetric(a: Name, b: Name)
    requires Less(a, b)
    ensures !Less(b, a) && a != b
    decreases |a|
  {
    if a != [] && a[0] == b[0] { Asymmetric(a[1..], b[1..]); }
  }

  lemma {:induction false} Transitive(a: Name, b: Name, c: Name)
    requires Less(a, b) && Less(b, c)
    ensures Less(a, c)
    decreases |a|
  {
    if a != [] && a[0] == b[0] == c[0] { Transitive(a[1..], b[1..], c[1..]); }
  }

  /** The names agree before `k`, and there the first has the smaller byte. */
  predicate DiffersAt(a: Name, b: Name, k: nat) { k < |a| && k < |b| && a[..k] == b[..k] && a[k] < b[k] }

  /** A name is less than its extensions, and than a name with a greater byte at the first difference. */
  lemma {:induction false} LessIff(a: Name, b: Name)
    ensures Less(a, b) <==> (a <= b && a != b) || exists k: nat :: DiffersAt(a, b, k)
    decreases |a|
  {
    if a != [] && b != [] {
      if a[0] == b[0] {
        LessIff(a[1..], b[1..]);
        LessRest(a, b);
      } else {
        assert a[0] < b[0] ==> DiffersAt(a, b, 0);
        forall k: nat | DiffersAt(a, b, k) ensures a[0] < b[0] { if k > 0 { assert a[..k][0] == b[..k][0]; } }
      }
    }
  }

  lemma LessRest(a: Name, b: Name)
    requires a != [] && b != [] && a[0] == b[0]
    ensures a <= b && a != b <==> a[1..] <= b[1..] && a[1..] != b[1..]
    ensures (exists k: nat :: DiffersAt(a, b, k)) <==> exists k: nat :: DiffersAt(a[1..], b[1..], k)
  {
    assert a == [a[0]] + a[1..] && b == [b[0]] + b[1..];
    if k: nat :| DiffersAt(a[1..], b[1..], k) {
      assert a[..k + 1] == [a[0]] + a[1..][..k] && b[..k + 1] == [b[0]] + b[1..][..k];
      assert DiffersAt(a, b, k + 1);
    }
    if k: nat :| DiffersAt(a, b, k) {
      assert k > 0;
      assert a[1..][..k - 1] == a[..k][1..] && b[1..][..k - 1] == b[..k][1..];
      assert DiffersAt(a[1..], b[1..], k - 1);
    }
  }

  predicate IsLeast(least: Name, names: set<Name>) {
    least in names && forall name | name in names :: name == least || Less(least, name)
  }

  lemma LeastIsBelow(least: Name, names: set<Name>)
    requires IsLeast(least, names)
    ensures forall name | name in names - {least} :: Less(least, name)
  {
    hide Less;
  }

  lemma {:induction false} LeastExists(names: set<Name>) returns (least: Name)
    requires names != {}
    ensures least in names && IsLeast(least, names)
    decreases |names|
  {
    hide Less;
    var some :| some in names;
    if names == {some} {
      least := some;
    } else {
      var other := LeastExists(names - {some});
      Total(some, other);
      if Less(some, other) {
        least := some;
        forall name | name in names ensures name == least || Less(least, name) {
          if name != some && name != other { Transitive(some, other, name); }
        }
      } else {
        least := other;
      }
    }
  }

  lemma LeastIsUnique(a: Name, b: Name, names: set<Name>)
    requires IsLeast(a, names) && IsLeast(b, names)
    ensures a == b
  {
    hide Less;
    if a != b { Asymmetric(a, b); }
  }
}
