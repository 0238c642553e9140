/** Contracts over the top-level fields of an event, and the verdict on a document. */
module PayloadContract {

  import opened Bytes
  import opened Names
  import opened Payload

  // ---------------------------------------------------------------- the verdict

  /** A present field that is not declared, or declared with another type. */
  predicate Offends(contract: Contract, fields: map<Names.Name, FieldType>, name: Names.Name) {
    && name in fields
    && (name in contract.fields ==>
          contract.fields[name].fieldType != AnyType && contract.fields[name].fieldType != fields[name])
  }

  function Offenders(contract: Contract, fields: map<Names.Name, FieldType>): set<Names.Name> {
    set name | name in fields && Offends(contract, fields, name)
  }

  predicate Missing(contract: Contract, fields: map<Names.Name, FieldType>) {
    exists name | name in contract.fields :: contract.fields[name].required && name !in fields
  }

  function OffenceOf(contract: Contract, name: Names.Name): PayloadError {
    if name in contract.fields then FieldTypeMismatch else UndeclaredField
  }

  /** The offender that comes first by name decides; required fields are looked at only when there is none. */
  ghost predicate Judges(contract: Contract, fields: map<Names.Name, FieldType>, verdict: Option<PayloadError>) {
    var offenders := Offenders(contract, fields);
    if offenders != {} then exists name :: IsLeast(name, offenders) && verdict == Some(OffenceOf(contract, name))
    else verdict == if Missing(contract, fields) then Some(MissingRequiredField) else None
  }

  lemma JudgesIsFunctional(contract: Contract, fields: map<Names.Name, FieldType>, v: Option<PayloadError>,
                           w: Option<PayloadError>)
    requires Judges(contract, fields, v) && Judges(contract, fields, w)
    ensures v == w
  {
    hide IsLeast;
    var offenders := Offenders(contract, fields);
    if offenders != {} {
      var a :| IsLeast(a, offenders) && v == Some(OffenceOf(contract, a));
      var b :| IsLeast(b, offenders) && w == Some(OffenceOf(contract, b));
      LeastIsUnique(a, b, offenders);
    }
  }

  /** When nothing outside `remaining` offends, its least name, if it offends, is the first offender. */
  lemma LeastOffender(contract: Contract, fields: map<Names.Name, FieldType>, remaining: set<Names.Name>,
                      name: Names.Name)
    requires remaining <= fields.Keys && IsLeast(name, remaining) && Offends(contract, fields, name)
    requires forall other | other in fields.Keys - remaining :: !Offends(contract, fields, other)
    ensures IsLeast(name, Offenders(contract, fields))
  {
    hide Less;
    assert Offenders(contract, fields) <= remaining;
  }

  /** Goes through the fields in name order, stopping at the first offender. */
  method Judge(contract: Contract, fields: map<Names.Name, FieldType>) returns (verdict: Option<PayloadError>)
    ensures Judges(contract, fields, verdict)
  {
    hide IsLeast;
    var remaining, present: set<Names.Name> := fields.Keys, {};
    while remaining != {}
      invariant remaining <= fields.Keys && present == fields.Keys - remaining
      invariant forall name | name in present :: !Offends(contract, fields, name)
      decreases |remaining|
    {
      ghost var least := LeastExists(remaining);
      var name :| name in remaining && IsLeast(name, remaining);
      if name !in contract.fields {
        LeastOffender(contract, fields, remaining, name);
        return Some(UndeclaredField);
      }
      var declared := contract.fields[name].fieldType;
      if declared != AnyType && declared != fields[name] {
        LeastOffender(contract, fields, remaining, name);
        return Some(FieldTypeMismatch);
      }
      remaining, present := remaining - {name}, present + {name};
    }
    assert Offenders(contract, fields) == {};
    if exists name | name in contract.fields :: contract.fields[name].required && name !in present {
      return Some(MissingRequiredField);
    }
    return None;
  }

  /** The verdict on a text and what it parses to, if it is JSON. */
  ghost predicate Decides(contract: Contract, bytes: seq<Byte>, parsed: Option<Json>,
                          r: Result<seq<Byte>, PayloadError>)
  {
    if |bytes| > contract.limit then r == Err(TooLarge)
    else if parsed.None? || DocumentFields(parsed.value).None? then r == Err(InvalidJson)
    else exists verdict ::
      && Judges(contract, DocumentFields(parsed.value).value, verdict)
      && r == if verdict.Some? then Err(verdict.value) else Ok(bytes)
  }

  method Validate(contract: Contract, bytes: seq<Byte>, parsed: Option<Json>)
    returns (r: Result<seq<Byte>, PayloadError>)
    ensures Decides(contract, bytes, parsed, r)
  {
    hide Judges, DocumentFields;
    if |bytes| > contract.limit { return Err(TooLarge); }
    if parsed.None? { return Err(InvalidJson); }
    var fields := VisitDocument(parsed.value);
    if fields.None? { return Err(InvalidJson); }
    var verdict := Judge(contract, fields.value);
    r := if verdict.Some? then Err(verdict.value) else Ok(bytes);
  }

  // ---------------------------------------------------------------- acceptance, declaratively

  /** Every member is declared and well typed, and every required field is there. */
  predicate Conforms(contract: Contract, members: seq<Member>) {
    && (forall i | 0 <= i < |members| ::
          && members[i].name in contract.fields
          && contract.fields[members[i].name].fieldType in {AnyType, TypeOf(members[i].value)})
    && (forall name | name in contract.fields && contract.fields[name].required :: Has(members, name))
  }

  lemma ConformsIsJudged(contract: Contract, members: seq<Member>)
    requires Distinct(members)
    ensures Judges(contract, Fields(members), None) <==> Conforms(contract, members)
  {
    hide IsLeast, Fields, Distinct, TypeOf;
    var fields := Fields(members);
    forall name ensures name in fields <==> Has(members, name) { FieldsHave(members, name); }
    forall i | 0 <= i < |members|
      ensures members[i].name in fields && fields[members[i].name] == TypeOf(members[i].value)
    {
      FieldsAt(members, i);
    }
    OffendersEmpty(contract, members, fields);
  }

  lemma OffendersEmpty(contract: Contract, members: seq<Member>, fields: map<Names.Name, FieldType>)
    requires forall name :: name in fields <==> Has(members, name)
    requires forall i | 0 <= i < |members| ::
      members[i].name in fields && fields[members[i].name] == TypeOf(members[i].value)
    ensures Offenders(contract, fields) == {}
            <==> forall i | 0 <= i < |members| ::
              && members[i].name in contract.fields
              && contract.fields[members[i].name].fieldType in {AnyType, TypeOf(members[i].value)}
  {
    hide TypeOf;
    if Offenders(contract, fields) == {} {
      forall i | 0 <= i < |members|
        ensures members[i].name in contract.fields
          && contract.fields[members[i].name].fieldType in {AnyType, TypeOf(members[i].value)}
      {
        assert members[i].name !in Offenders(contract, fields);
      }
    } else {
      var name :| name in Offenders(contract, fields);
      var i :| 0 <= i < |members| && members[i].name == name;
    }
  }

  /**
   * A parsed document within the byte limit is accepted exactly when it is an object of at most 64
   * fields that conforms to the contract, repeats no key at any depth and nests at most 32 deep.
   */
  lemma AcceptedExactly(contract: Contract, bytes: seq<Byte>, doc: Json, r: Result<seq<Byte>, PayloadError>)
    requires Decides(contract, bytes, Some(doc), r)
    ensures r.Ok? <==> && |bytes| <= contract.limit && doc.Object? && |doc.members| <= 64
                       && Conforms(contract, doc.members) && NoRepeats(doc) && NestingDepth(doc) <= 32
    ensures r.Ok? ==> r.value == bytes
  {
    hide Judges, Conforms, Accepts, Max, Distinct, Fields;
    if doc.Object? {
      DocumentNests(doc);
      if Distinct(doc.members) { ConformsIsJudged(contract, doc.members); }
      if DocumentFields(doc).Some? && Judges(contract, Fields(doc.members), None) && |bytes| <= contract.limit {
        var v :| Judges(contract, Fields(doc.members), v) && r == if v.Some? then Err(v.value) else Ok(bytes);
        JudgesIsFunctional(contract, Fields(doc.members), v, None);
      }
    }
  }

  lemma DocumentNests(doc: Json)
    requires doc.Object?
    ensures Distinct(doc.members) && (forall i | 0 <= i < |doc.members| :: Accepts(doc.members[i].value, 2))
            <==> NoRepeats(doc) && NestingDepth(doc) <= MAX_DEPTH
  {
    hide Max, Distinct;
    AcceptsExactly(doc, 1);
  }

  // ---------------------------------------------------------------- refusals, declaratively

  /** An object of at most 64 fields that repeats no key at any depth and nests at most 32 deep. */
  predicate IsDocument(parsed: Option<Json>) {
    && parsed.Some? && parsed.value.Object? && |parsed.value.members| <= 64
    && NoRepeats(parsed.value) && NestingDepth(parsed.value) <= 32
  }

  predicate Breaches(contract: Contract, m: Member) {
    m.name in contract.fields ==> contract.fields[m.name].fieldType !in {AnyType, TypeOf(m.value)}
  }

  /** Of the members that are undeclared or mistyped, the one whose name comes first. */
  predicate FirstBreach(contract: Contract, members: seq<Member>, i: nat) {
    && i < |members| && Breaches(contract, members[i])
    && forall j | 0 <= j < |members| && j != i && Breaches(contract, members[j]) ::
         Less(members[i].name, members[j].name)
  }

  ghost predicate Undeclared(contract: Contract, members: seq<Member>) {
    exists i: nat :: FirstBreach(contract, members, i) && members[i].name !in contract.fields
  }

  ghost predicate Mistyped(contract: Contract, members: seq<Member>) {
    exists i: nat :: FirstBreach(contract, members, i) && members[i].name in contract.fields
  }

  predicate Lacks(contract: Contract, members: seq<Member>) {
    && (forall i | 0 <= i < |members| :: !Breaches(contract, members[i]))
    && exists name | name in contract.fields :: contract.fields[name].required && !Has(members, name)
  }

  lemma OffendersBreach(contract: Contract, members: seq<Member>, i: nat)
    requires Distinct(members) && i < |members|
    ensures members[i].name in Offenders(contract, Fields(members)) <==> Breaches(contract, members[i])
  {
    hide Fields, Distinct, TypeOf;
    FieldsAt(members, i);
  }

  /** The least offender is the member that breaches first. */
  lemma LeastIsFirst(contract: Contract, members: seq<Member>, i: nat)
    requires Distinct(members) && i < |members|
    ensures IsLeast(members[i].name, Offenders(contract, Fields(members))) <==> FirstBreach(contract, members, i)
  {
    hide Fields, Distinct, TypeOf, Less, Offenders, Breaches;
    var offenders := Offenders(contract, Fields(members));
    DistinctAt(members);
    forall j: nat | j < |members| ensures members[j].name in offenders <==> Breaches(contract, members[j]) {
      OffendersBreach(contract, members, j);
    }
    forall name | name in offenders ensures Has(members, name) { OffenderIsMember(contract, members, name); }
    if IsLeast(members[i].name, offenders) {
      forall j: nat | j < |members| && j != i && Breaches(contract, members[j])
        ensures Less(members[i].name, members[j].name)
      {
        assert members[j].name in offenders && members[j].name != members[i].name;
      }
    }
  }

  lemma OffenderIsMember(contract: Contract, members: seq<Member>, name: Names.Name)
    requires name in Offenders(contract, Fields(members))
    ensures Has(members, name)
  {
    hide Fields;
    FieldsHave(members, name);
  }

  lemma FirstOffence(contract: Contract, members: seq<Member>, name: Names.Name)
    requires Distinct(members) && IsLeast(name, Offenders(contract, Fields(members)))
    ensures Undeclared(contract, members) <==> name !in contract.fields
    ensures Mistyped(contract, members) <==> name in contract.fields
    ensures !Lacks(contract, members)
  {
    hide Fields, Distinct, Less, FirstBreach, Breaches, Offenders;
    var offenders := Offenders(contract, Fields(members));
    OffenderIsMember(contract, members, name);
    var k: nat :| k < |members| && members[k].name == name;
    LeastIsFirst(contract, members, k);
    OffendersBreach(contract, members, k);
    forall i: nat | FirstBreach(contract, members, i) ensures i < |members| && members[i].name == name {
      FirstIsLeast(contract, members, i, name);
    }
  }

  lemma FirstIsLeast(contract: Contract, members: seq<Member>, i: nat, name: Names.Name)
    requires Distinct(members) && IsLeast(name, Offenders(contract, Fields(members)))
    requires FirstBreach(contract, members, i)
    ensures i < |members| && members[i].name == name
  {
    hide Fields, Distinct, IsLeast, Offenders, Breaches, Less;
    LeastIsFirst(contract, members, i);
    LeastIsUnique(members[i].name, name, Offenders(contract, Fields(members)));
  }

  lemma NoOffence(contract: Contract, members: seq<Member>)
    requires Distinct(members) && Offenders(contract, Fields(members)) == {}
    ensures !Undeclared(contract, members) && !Mistyped(contract, members)
    ensures Lacks(contract, members) <==> Missing(contract, Fields(members))
  {
    hide Fields, Distinct, Offenders, Breaches;
    forall i: nat | i < |members| ensures !Breaches(contract, members[i]) { OffendersBreach(contract, members, i); }
    forall name ensures name in Fields(members) <==> Has(members, name) { FieldsHave(members, name); }
  }

  lemma JudgedBecause(contract: Contract, members: seq<Member>, verdict: Option<PayloadError>)
    requires Distinct(members) && Judges(contract, Fields(members), verdict)
    ensures verdict == Some(UndeclaredField) <==> Undeclared(contract, members)
    ensures verdict == Some(FieldTypeMismatch) <==> Mistyped(contract, members)
    ensures verdict == Some(MissingRequiredField) <==> Lacks(contract, members)
    ensures verdict.Some? ==> verdict.value in {UndeclaredField, FieldTypeMismatch, MissingRequiredField}
  {
    hide Fields, Distinct, IsLeast, Undeclared, Mistyped, Lacks, Missing, Offenders;
    var offenders := Offenders(contract, Fields(members));
    if offenders != {} {
      var name :| IsLeast(name, offenders) && verdict == Some(OffenceOf(contract, name));
      FirstOffence(contract, members, name);
    } else {
      NoOffence(contract, members);
    }
  }

  /** Each refusal has one reason, told from the members of the document. */
  lemma RefusedExactly(
    contract: Contract, bytes: seq<Byte>, parsed: Option<Json>, r: Result<seq<Byte>, PayloadError>)
    requires Decides(contract, bytes, parsed, r)
    ensures r == Err(TooLarge) <==> |bytes| > contract.limit
    ensures r == Err(InvalidJson) <==> |bytes| <= contract.limit && !IsDocument(parsed)
    ensures |bytes| <= contract.limit && IsDocument(parsed) ==>
              var members := parsed.value.members;
              && (r == Err(UndeclaredField) <==> Undeclared(contract, members))
              && (r == Err(FieldTypeMismatch) <==> Mistyped(contract, members))
              && (r == Err(MissingRequiredField) <==> Lacks(contract, members))
  {
    hide Judges, Accepts, Max, Distinct, Fields, NoRepeats, NestingDepth, Undeclared, Mistyped, Lacks;
    if parsed.Some? && parsed.value.Object? {
      var doc := parsed.value;
      DocumentNests(doc);
      if |bytes| <= contract.limit && DocumentFields(doc).Some? {
        var v :| Judges(contract, Fields(doc.members), v) && r == if v.Some? then Err(v.value) else Ok(bytes);
        JudgedBecause(contract, doc.members, v);
      }
    }
  }
}
