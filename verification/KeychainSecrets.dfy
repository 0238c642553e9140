/** Storing, rotating and retiring secrets kept as envelopes in a keychain. */
module KeychainSecrets {

  import opened Bytes
  import opened SecretEnvelope

  type Reference = seq<Byte>
  type Items = map<Reference, seq<Byte>>

  /** A keychain status other than success. */
  type Status = s: int | s != 0 witness 1

  const DUPLICATE_ITEM: Status := -25299
  const ITEM_NOT_FOUND: Status := -25300
  const MISSING_ENTITLEMENT: Status := -34018

  datatype SecretError =
    | SecretNotFound | CorruptStoredSecret | InvalidSecretLength(count: nat)
    | UpdateRace | MissingEntitlement | KeychainFailed(status: Status)

  /** What the keychain does when asked to read or to write. */
  datatype Reading = Reads | ReadRefused(status: Status) | ReadUnexpected
  datatype Writing = Writes | WriteRefused(status: Status)

  datatype Operation = Store(secret: seq<Byte>) | Rotate(secret: seq<Byte>) | Retire

  /** One call, with the keychain's answers during it. */
  datatype Call = Call(reference: Reference, operation: Operation, reading: Reading, adding: Writing, updating: Writing)

  datatype Effect = Effect(items: Items, failure: Option<SecretError>)

  function ErrorFor(status: Status): SecretError {
    if status == MISSING_ENTITLEMENT then MissingEntitlement else KeychainFailed(status)
  }

  function Load(items: Items, reference: Reference, reading: Reading): Result<Resolved, SecretError> {
    match reading
    case ReadRefused(status) => Err(ErrorFor(status))
    case ReadUnexpected => Err(CorruptStoredSecret)
    case Reads =>
      if reference !in items then Err(SecretNotFound)
      else match Decode(items[reference])
        case None => Err(CorruptStoredSecret)
        case Some(m) => Ok(m)
  }

  function Updated(items: Items, reference: Reference, m: Resolved, updating: Writing): Effect
    requires ValidResolved(m)
  {
    match updating
    case WriteRefused(status) => Effect(items, Some(if status == ITEM_NOT_FOUND then UpdateRace else ErrorFor(status)))
    case Writes =>
      if reference in items then Effect(items[reference := Encode(m)], None) else Effect(items, Some(UpdateRace))
  }

  function Written(items: Items, reference: Reference, m: Resolved, adding: Writing, updating: Writing): Effect
    requires ValidResolved(m)
  {
    match adding
    case WriteRefused(status) =>
      if status == DUPLICATE_ITEM then Updated(items, reference, m, updating) else Effect(items, Some(ErrorFor(status)))
    case Writes =>
      if reference in items then Updated(items, reference, m, updating)
      else Effect(items[reference := Encode(m)], None)
  }

  function Apply(items: Items, call: Call): Effect {
    var reference := call.reference;
    match call.operation
    case Store(secret) =>
      if !ValidBytes(secret) then Effect(items, Some(InvalidSecretLength(|secret|)))
      else Written(items, reference, Resolved(secret, None), call.adding, call.updating)
    case Rotate(secret) => (
      match Load(items, reference, call.reading)
      case Err(e) => Effect(items, Some(e))
      case Ok(held) =>
        LoadedIsValid(items, reference, call.reading);
        if !ValidBytes(secret) then Effect(items, Some(InvalidSecretLength(|secret|)))
        else Updated(items, reference, Resolved(secret, Some(held.current)), call.updating)
    )
    case Retire => (
      match Load(items, reference, call.reading)
      case Err(e) => Effect(items, Some(e))
      case Ok(held) =>
        LoadedIsValid(items, reference, call.reading);
        Updated(items, reference, Resolved(held.current, None), call.updating)
    )
  }

  lemma LoadedIsValid(items: Items, reference: Reference, reading: Reading)
    requires Load(items, reference, reading).Ok?
    ensures ValidResolved(Load(items, reference, reading).value)
  {
    hide Decode, Encode;
    EncodeDecode(items[reference]);
  }

  class KeychainSecretProvider {

    var items: Items

    /** Opens the keychain with whatever it holds. */
    constructor (items: Items)
      ensures this.items == items
    {
      this.items := items;
    }

    method Resolve(reference: Reference, reading: Reading) returns (r: Result<Resolved, SecretError>)
      ensures r == Load(items, reference, reading)
    {
      match reading
      case ReadRefused(status) => r := Err(ErrorFor(status));
      case ReadUnexpected => r := Err(CorruptStoredSecret);
      case Reads =>
        if reference !in items { return Err(SecretNotFound); }
        var m := DecodeEnvelope(items[reference]);
        r := if m.Some? then Ok(m.value) else Err(CorruptStoredSecret);
    }

    method Update(reference: Reference, m: Resolved, updating: Writing) returns (failure: Option<SecretError>)
      requires ValidResolved(m)
      modifies this
      ensures Effect(items, failure) == Updated(old(items), reference, m, updating)
    {
      var data := EncodeEnvelope(m);
      if updating.WriteRefused? {
        return Some(if updating.status == ITEM_NOT_FOUND then UpdateRace else ErrorFor(updating.status));
      }
      if reference !in items { return Some(UpdateRace); }
      items := items[reference := data];
      return None;
    }

    method Write(reference: Reference, m: Resolved, adding: Writing, updating: Writing)
      returns (failure: Option<SecretError>)
      requires ValidResolved(m)
      modifies this
      ensures Effect(items, failure) == Written(old(items), reference, m, adding, updating)
    {
      var data := EncodeEnvelope(m);
      if adding.WriteRefused? && adding.status != DUPLICATE_ITEM { return Some(ErrorFor(adding.status)); }
      if adding.Writes? && reference !in items {
        items := items[reference := data];
        return None;
      }
      failure := Update(reference, m, updating);
    }

    method StoreSecret(secret: seq<Byte>, reference: Reference, adding: Writing, updating: Writing)
      returns (failure: Option<SecretError>)
      modifies this
      ensures Effect(items, failure) == Apply(old(items), Call(reference, Store(secret), Reads, adding, updating))
    {
      hide Encode, Written;
      if !ValidBytes(secret) { return Some(InvalidSecretLength(|secret|)); }
      failure := Write(reference, Resolved(secret, None), adding, updating);
    }

    method RotateTo(secret: seq<Byte>, reference: Reference, reading: Reading, updating: Writing)
      returns (failure: Option<SecretError>)
      modifies this
      ensures Effect(items, failure) == Apply(old(items), Call(reference, Rotate(secret), reading, Writes, updating))
    {
      hide Decode, Encode, Updated;
      var held := Resolve(reference, reading);
      if held.Err? { return Some(held.error); }
      LoadedIsValid(items, reference, reading);
      if !ValidBytes(secret) { return Some(InvalidSecretLength(|secret|)); }
      failure := Update(reference, Resolved(secret, Some(held.value.current)), updating);
    }

    method RetirePrevious(reference: Reference, reading: Reading, updating: Writing)
      returns (failure: Option<SecretError>)
      modifies this
      ensures Effect(items, failure) == Apply(old(items), Call(reference, Retire, reading, Writes, updating))
    {
      hide Decode, Encode, Updated;
      var held := Resolve(reference, reading);
      if held.Err? { return Some(held.error); }
      LoadedIsValid(items, reference, reading);
      failure := Update(reference, Resolved(held.value.current, None), updating);
    }
  }

  // ---------------------------------------------------------------- failures by the keychain's answers

  predicate FitLength(secret: seq<Byte>) { 1 <= |secret| <= 1024 }

  /** The call reads first, and finds a readable pair. */
  predicate Finds(items: Items, call: Call) {
    call.reading == Reads && call.reference in items && Decode(items[call.reference]).Some?
  }

  /** The call comes to updating an item. */
  predicate Updates(items: Items, call: Call) {
    match call.operation
    case Store(secret) =>
      && FitLength(secret)
      && (call.adding == WriteRefused(-25299) || (call.adding == Writes && call.reference in items))
    case Rotate(secret) => Finds(items, call) && FitLength(secret)
    case Retire => Finds(items, call)
  }

  /** Something the call asks of the keychain is refused with this status. */
  predicate IsRefused(items: Items, call: Call, status: Status) {
    || (Updates(items, call) && call.updating == WriteRefused(status) && status != -25300)
    || match call.operation
       case Store(secret) => FitLength(secret) && call.adding == WriteRefused(status) && status != -25299
       case _ => call.reading == ReadRefused(status)
  }

  /** Each failure, told from the answers: -34018 lacks the entitlement, -25300 on an update lost a race. */
  lemma FailsBecause(items: Items, call: Call, status: Status)
    ensures var failure := Apply(items, call).failure;
            && (failure == Some(MissingEntitlement) <==> IsRefused(items, call, -34018))
            && (failure == Some(KeychainFailed(status)) <==> IsRefused(items, call, status) && status != -34018)
            && (failure == Some(UpdateRace) <==>
                  && Updates(items, call)
                  && (call.updating == WriteRefused(-25300) || (call.updating == Writes && call.reference !in items)))
            && (failure.Some? && failure.value.InvalidSecretLength? <==>
                  match call.operation
                  case Store(secret) => !FitLength(secret)
                  case Rotate(secret) => Finds(items, call) && !FitLength(secret)
                  case Retire => false)
  {
    hide Decode, Encode;
  }

  // ---------------------------------------------------------------- whole runs

  /** What the keychain holds after `calls`, having held `initial` when it was opened. */
  function ItemsAfter(initial: Items, calls: seq<Call>): Items {
    if calls == [] then initial
    else Apply(ItemsAfter(initial, calls[..|calls| - 1]), calls[|calls| - 1]).items
  }

  /** The last call of the run concerned `reference` and succeeded. */
  predicate LastCounts(initial: Items, calls: seq<Call>, reference: Reference)
    requires calls != []
  {
    var last := calls[|calls| - 1];
    last.reference == reference && Apply(ItemsAfter(initial, calls[..|calls| - 1]), last).failure.None?
  }

  /** The pair held when the keychain was opened, if its item is readable. */
  function Opened(initial: Items, reference: Reference): Option<Resolved> {
    if reference in initial then Decode(initial[reference]) else None
  }

  /** The secret of the last successful store or rotation, or else the one held at first. */
  function LastWritten(initial: Items, calls: seq<Call>, reference: Reference): Option<seq<Byte>> {
    if calls == [] then
      var held := Opened(initial, reference);
      if held.Some? then Some(held.value.current) else None
    else
      var last := calls[|calls| - 1].operation;
      if LastCounts(initial, calls, reference) && !last.Retire? then Some(last.secret)
      else LastWritten(initial, calls[..|calls| - 1], reference)
  }

  /** What the last successful rotation replaced, unless a store or a retirement succeeded since. */
  function LastReplaced(initial: Items, calls: seq<Call>, reference: Reference): Option<seq<Byte>> {
    if calls == [] then
      var held := Opened(initial, reference);
      if held.Some? then held.value.previous else None
    else
      var rest := calls[..|calls| - 1];
      if !LastCounts(initial, calls, reference) then LastReplaced(initial, rest, reference)
      else if calls[|calls| - 1].operation.Rotate? then LastWritten(initial, rest, reference)
      else None
  }

  /** The item of `reference` is what the run's history says; one never readable is as it was at first. */
  predicate Reflects(initial: Items, items: Items, calls: seq<Call>, reference: Reference) {
    match LastWritten(initial, calls, reference)
    case None =>
      && LastReplaced(initial, calls, reference).None? && (reference in items <==> reference in initial)
      && (reference in items ==> items[reference] == initial[reference] && Decode(initial[reference]).None?)
    case Some(current) =>
      var m := Resolved(current, LastReplaced(initial, calls, reference));
      reference in items && ValidResolved(m) && items[reference] == Encode(m)
  }

  /** A call leaves every other reference alone, and its own too when it fails. */
  lemma ApplyFrame(items: Items, call: Call, reference: Reference)
    requires reference != call.reference || Apply(items, call).failure.Some?
    ensures reference in items <==> reference in Apply(items, call).items
    ensures reference in items ==> Apply(items, call).items[reference] == items[reference]
  {
  }

  /** What a successful call leaves under its own reference. */
  lemma ApplyOwn(items: Items, call: Call)
    requires Apply(items, call).failure.None?
    ensures var after := Apply(items, call).items;
            && call.reference in after
            && match call.operation
               case Store(secret) => ValidBytes(secret) && after[call.reference] == Encode(Resolved(secret, None))
               case Rotate(secret) =>
                 && ValidBytes(secret) && call.reference in items && Decode(items[call.reference]).Some?
                 && var held := Decode(items[call.reference]).value;
                    ValidBytes(held.current) && after[call.reference] == Encode(Resolved(secret, Some(held.current)))
               case Retire =>
                 && call.reference in items && Decode(items[call.reference]).Some?
                 && var held := Decode(items[call.reference]).value;
                    ValidBytes(held.current) && after[call.reference] == Encode(Resolved(held.current, None))
  {
    hide Decode, Encode;
    if !call.operation.Store? { LoadedIsValid(items, call.reference, call.reading); }
  }

  /**
   * After every run over a keychain that may hold anything at first, each reference holds the secret
   * written last, together with the secret held just before the last rotation unless a store or a
   * retirement came since; an item that cannot be read stays as it is until a store succeeds.
   */
  lemma {:induction false} RunHolds(initial: Items, calls: seq<Call>, reference: Reference)
    ensures Reflects(initial, ItemsAfter(initial, calls), calls, reference)
    decreases |calls|
  {
    hide Decode, Encode, Apply;
    if calls == [] {
      if Opened(initial, reference).Some? { EncodeDecode(initial[reference]); }
    } else {
      var rest, last := calls[..|calls| - 1], calls[|calls| - 1];
      RunHolds(initial, rest, reference);
      HeldDecodes(initial, rest, reference);
      if LastCounts(initial, calls, reference) {
        ApplyOwn(ItemsAfter(initial, rest), last);
      } else {
        ApplyFrame(ItemsAfter(initial, rest), last, reference);
      }
    }
  }

  /** The held item is readable exactly when the history gives a secret, and then it is the history's pair. */
  lemma HeldDecodes(initial: Items, calls: seq<Call>, reference: Reference)
    requires Reflects(initial, ItemsAfter(initial, calls), calls, reference)
    ensures Opened(ItemsAfter(initial, calls), reference)
         == match LastWritten(initial, calls, reference)
            case None => None
            case Some(current) => Some(Resolved(current, LastReplaced(initial, calls, reference)))
  {
    hide Decode, Encode, LastReplaced, LastWritten;
    var current := LastWritten(initial, calls, reference);
    if current.Some? { DecodeEncode(Resolved(current.value, LastReplaced(initial, calls, reference))); }
  }

  /**
   * A keychain that reads gives back the history's pair.  When there is none, it reports an item that
   * was unreadable from the start, or that nothing was ever there.
   */
  lemma ResolveAfterRun(initial: Items, calls: seq<Call>, reference: Reference)
    ensures Load(ItemsAfter(initial, calls), reference, Reads)
         == match LastWritten(initial, calls, reference)
            case None => Err(if reference in initial then CorruptStoredSecret else SecretNotFound)
            case Some(current) => Ok(Resolved(current, LastReplaced(initial, calls, reference)))
  {
    hide Decode, Encode, LastReplaced, LastWritten, ItemsAfter;
    RunHolds(initial, calls, reference);
    HeldDecodes(initial, calls, reference);
  }

  /**
   * When the keychain answers, a store fails only for its length; a rotation and a retirement also fail
   * when no secret is held, as corrupt exactly if the item was unreadable from the start and no store
   * has succeeded since.  No update loses a race.
   */
  lemma FailsOnlyWhenRefused(initial: Items, calls: seq<Call>, call: Call)
    requires call.reading == Reads && call.adding == Writes && call.updating == Writes
    ensures var held := LastWritten(initial, calls, call.reference);
            var absent := Some(if call.reference in initial then CorruptStoredSecret else SecretNotFound);
            Apply(ItemsAfter(initial, calls), call).failure
            == match call.operation
               case Store(secret) => if ValidBytes(secret) then None else Some(InvalidSecretLength(|secret|))
               case Rotate(secret) =>
                 if held.None? then absent
                 else if ValidBytes(secret) then None
                 else Some(InvalidSecretLength(|secret|))
               case Retire => if held.None? then absent else None
  {
    hide Decode, Encode, LastReplaced, ItemsAfter, LastWritten;
    ResolveAfterRun(initial, calls, call.reference);
  }

  /** A reference readable at first, or once stored, is never found corrupt again. */
  lemma {:induction false} NeverCorruptAgain(initial: Items, calls: seq<Call>, more: seq<Call>, reference: Reference)
    requires LastWritten(initial, calls, reference).Some?
    ensures Load(ItemsAfter(initial, calls + more), reference, Reads).Ok?
    ensures LastWritten(initial, calls + more, reference).Some?
    decreases |more|
  {
    hide LastCounts, ItemsAfter, LastReplaced, Load;
    if more == [] {
      assert calls + more == calls;
    } else {
      NeverCorruptAgain(initial, calls, more[..|more| - 1], reference);
      assert (calls + more)[..|calls + more| - 1] == calls + more[..|more| - 1];
    }
    ResolveAfterRun(initial, calls + more, reference);
  }
}
