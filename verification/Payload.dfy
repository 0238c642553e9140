/** Checking one event document against a closed contract of top-level fields. */
module Payload {

  import opened Bytes
  import opened Tally
  import Names

  type Name = Names.Name

  const MAX_FIELDS := 64
  const MAX_DEPTH := 32

  datatype Member = Member(name: Name, value: Json)

  /** A parsed document; members keep the order and the repetitions of the text. */
  datatype Json =
    | Null | Bool(b: bool) | Number(n: real) | Text(s: seq<Byte>)
    | Array(items: seq<Json>) | Object(members: seq<Member>)

  datatype FieldType = AnyType | NullType | BooleanType | NumberType | TextType | ArrayType | ObjectType

  datatype Field = Field(fieldType: FieldType, required: bool)

  datatype Contract = Contract(fields: map<Name, Field>, limit: nat)

  datatype PayloadError =
    | TooLarge | InvalidJson | UndeclaredField | MissingRequiredField | FieldTypeMismatch

  function TypeOf(v: Json): FieldType {
    match v
    case Null => NullType
    case Bool(_) => BooleanType
    case Number(_) => NumberType
    case Text(_) => TextType
    case Array(_) => ArrayType
    case Object(_) => ObjectType
  }

  function KeysOf(members: seq<Member>): seq<Name> {
    seq(|members|, i requires 0 <= i < |members| => members[i].name)
  }

  predicate Distinct(members: seq<Member>) { AllDistinct(KeysOf(members)) }

  lemma DistinctAt(members: seq<Member>)
    ensures Distinct(members) <==> forall i, j | 0 <= i < j < |members| :: members[i].name != members[j].name
  {
    var keys := KeysOf(members);
    assert forall i | 0 <= i < |members| :: keys[i] == members[i].name;
    if !Distinct(members) {
      var i, j :| 0 <= i < j < |keys| && keys[i] == keys[j];
      assert members[i].name == members[j].name;
    }
  }

  predicate Has(members: seq<Member>, name: Name) { exists i :: 0 <= i < |members| && members[i].name == name }

  lemma SnocMembers(members: seq<Member>, k: nat)
    requires k < |members|
    ensures members[..k + 1] == members[..k] + [members[k]] && members[..k + 1][..k] == members[..k]
    ensures Distinct(members[..k + 1]) <==> Distinct(members[..k]) && !Has(members[..k], members[k].name)
    ensures forall name :: Has(members[..k + 1], name) <==> Has(members[..k], name) || name == members[k].name
  {
    hide Distinct;
    var front, more := members[..k], members[..k + 1];
    DistinctAt(front);
    DistinctAt(more);
    assert more == front + [members[k]] && more[k] == members[k];
    assert forall i | 0 <= i < k :: more[i] == front[i];
  }

  lemma PrefixDistinct(members: seq<Member>, k: nat)
    requires k <= |members| && !Distinct(members[..k])
    ensures !Distinct(members)
  {
    hide Distinct;
    DistinctAt(members);
    DistinctAt(members[..k]);
    var i, j :| 0 <= i < j < k && members[..k][i].name == members[..k][j].name;
    assert members[i].name == members[j].name;
  }

  // ---------------------------------------------------------------- what a document must be

  /** No object, at any depth, repeats a key. */
  predicate NoRepeats(v: Json) {
    match v
    case Array(items) => forall i | 0 <= i < |items| :: NoRepeats(items[i])
    case Object(members) => Distinct(members) && forall i | 0 <= i < |members| :: NoRepeats(members[i].value)
    case _ => true
  }

  function Max(s: seq<nat>): (m: nat)
    ensures forall i | 0 <= i < |s| :: s[i] <= m
    ensures m == 0 || m in s
  {
    if s == [] then 0 else if s[0] >= Max(s[1..]) then s[0] else Max(s[1..])
  }

  /** The nesting depth as the MCP route computes it. */
  function NestingDepth(v: Json): nat {
    match v
    case Array(items) => 1 + Max(seq(|items|, i requires 0 <= i < |items| => NestingDepth(items[i])))
    case Object(members) => 1 + Max(seq(|members|, i requires 0 <= i < |members| => NestingDepth(members[i].value)))
    case _ => 0
  }

  /** What the visitor accepts for a value met at `depth`. */
  predicate Accepts(v: Json, depth: nat) {
    match v
    case Array(items) => depth <= MAX_DEPTH && forall i | 0 <= i < |items| :: Accepts(items[i], depth + 1)
    case Object(members) =>
      depth <= MAX_DEPTH && Distinct(members) && forall i | 0 <= i < |members| :: Accepts(members[i].value, depth + 1)
    case _ => true
  }

  /** The visitor's running depth check is the bound on the whole nesting depth. */
  lemma {:induction false} AcceptsExactly(v: Json, depth: nat)
    requires 1 <= depth
    ensures Accepts(v, depth) <==> NoRepeats(v) && (NestingDepth(v) == 0 || depth + NestingDepth(v) <= MAX_DEPTH + 1)
    decreases v
  {
    hide Max, Distinct;
    match v
    case Array(items) =>
      var depths: seq<nat> := seq(|items|, i requires 0 <= i < |items| => NestingDepth(items[i]));
      forall i | 0 <= i < |items|
        ensures Accepts(items[i], depth + 1)
          <==> NoRepeats(items[i]) && (depths[i] == 0 || depth + 1 + depths[i] <= MAX_DEPTH + 1)
      {
        AcceptsExactly(items[i], depth + 1);
      }
      MaxWithin(depths, depth);
    case Object(members) =>
      var depths: seq<nat> := seq(|members|, i requires 0 <= i < |members| => NestingDepth(members[i].value));
      forall i | 0 <= i < |members|
        ensures Accepts(members[i].value, depth + 1)
                <==> NoRepeats(members[i].value) && (depths[i] == 0 || depth + 1 + depths[i] <= MAX_DEPTH + 1)
      {
        AcceptsExactly(members[i].value, depth + 1);
      }
      MaxWithin(depths, depth);
    case _ =>
  }

  lemma MaxWithin(depths: seq<nat>, depth: nat)
    ensures depth + 1 + Max(depths) <= MAX_DEPTH + 1
            <==> depth <= MAX_DEPTH && forall i | 0 <= i < |depths| ::
              depths[i] == 0 || depth + 1 + depths[i] <= MAX_DEPTH + 1
  {
    var m := Max(depths);
    if m != 0 { var i :| 0 <= i < |depths| && depths[i] == m; }
  }

  // ---------------------------------------------------------------- the visitor

  method VisitValue(v: Json, depth: nat) returns (r: Option<FieldType>)
    ensures r == if Accepts(v, depth) then Some(TypeOf(v)) else None
    decreases v
  {
    match v
    case Array(items) =>
      if depth > MAX_DEPTH { return None; }
      var k := 0;
      while k < |items|
        invariant 0 <= k <= |items|
        invariant forall i | 0 <= i < k :: Accepts(items[i], depth + 1)
      {
        var element := VisitValue(items[k], depth + 1);
        if element.None? { return None; }
        k := k + 1;
      }
      return Some(ArrayType);
    case Object(members) =>
      if depth > MAX_DEPTH { return None; }
      var names: set<Name>, k := {}, 0;
      while k < |members|
        invariant 0 <= k <= |members|
        invariant forall name :: name in names <==> Has(members[..k], name)
        invariant Distinct(members[..k])
        invariant forall i | 0 <= i < k :: Accepts(members[i].value, depth + 1)
      {
        SnocMembers(members, k);
        if members[k].name in names {
          PrefixDistinct(members, k + 1);
          return None;
        }
        names := names + {members[k].name};
        var value := VisitValue(members[k].value, depth + 1);
        if value.None? { return None; }
        k := k + 1;
      }
      assert members[..k] == members;
      return Some(ObjectType);
    case _ => return Some(TypeOf(v));
  }

  /** The types by name, later members over earlier ones. */
  function Fields(members: seq<Member>): map<Name, FieldType> {
    if members == [] then map[]
    else
      var last := members[|members| - 1];
      Fields(members[..|members| - 1])[last.name := TypeOf(last.value)]
  }

  lemma {:induction false} FieldsHave(members: seq<Member>, name: Name)
    ensures name in Fields(members) <==> Has(members, name)
    decreases |members|
  {
    if members != [] {
      var n := |members|;
      assert members[..n] == members;
      SnocMembers(members, n - 1);
      FieldsHave(members[..n - 1], name);
    }
  }

  lemma {:induction false} FieldsSize(members: seq<Member>)
    requires Distinct(members)
    ensures |Fields(members)| == |members|
    decreases |members|
  {
    if members != [] {
      var n := |members|;
      assert members[..n] == members;
      SnocMembers(members, n - 1);
      FieldsSize(members[..n - 1]);
      FieldsHave(members[..n - 1], members[n - 1].name);
    }
  }

  lemma {:induction false} FieldsAt(members: seq<Member>, i: nat)
    requires Distinct(members) && i < |members|
    ensures members[i].name in Fields(members) && Fields(members)[members[i].name] == TypeOf(members[i].value)
    decreases |members|
  {
    hide TypeOf;
    var n := |members|;
    if i < n - 1 {
      assert members[..n] == members;
      SnocMembers(members, n - 1);
      assert members[..n - 1][i] == members[i];
      FieldsAt(members[..n - 1], i);
    }
  }

  /** What the top-level visitor returns. */
  function DocumentFields(doc: Json): Option<map<Name, FieldType>> {
    if doc.Object? && |doc.members| <= MAX_FIELDS && Distinct(doc.members)
       && forall i | 0 <= i < |doc.members| :: Accepts(doc.members[i].value, 2)
    then Some(Fields(doc.members))
    else None
  }

  method VisitDocument(doc: Json) returns (r: Option<map<Name, FieldType>>)
    ensures r == DocumentFields(doc)
  {
    hide Accepts, TypeOf, Distinct, Has;
    if !doc.Object? { return None; }
    var members := doc.members;
    var fields: map<Name, FieldType>, k := map[], 0;
    DistinctEmpty();
    while k < |members|
      invariant 0 <= k <= |members| && k <= MAX_FIELDS
      invariant fields == Fields(members[..k]) && Distinct(members[..k])
      invariant forall i | 0 <= i < k :: Accepts(members[i].value, 2)
    {
      FieldsSize(members[..k]);
      SnocMembers(members, k);
      FieldsHave(members[..k], members[k].name);
      if |fields| >= MAX_FIELDS { return None; }
      if members[k].name in fields {
        PrefixDistinct(members, k + 1);
        return None;
      }
      var fieldType := VisitValue(members[k].value, 2);
      if fieldType.None? { return None; }
      fields := fields[members[k].name := fieldType.value];
      k := k + 1;
    }
    assert members[..k] == members;
    return Some(fields);
  }

  lemma DistinctEmpty()
    ensures Distinct([])
  {
  }
}
