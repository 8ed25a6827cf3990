/** Whole histories of store calls: what the counters of a record count, read off the calls and replies alone. */
module StoreHistory {
  import opened Desire
  import opened MemoryStore

  datatype Call = Call(op: Op, reply: Reply)
  type Log = seq<Call>

  /** The store after a log of calls, starting empty. */
  function After(lib: Library, log: Log): Items {
    if log == [] then map[]
    else Step(lib, After(lib, log[..|log| - 1]), log[|log| - 1].op).0
  }

  /** Every reply in the log is the one the store gives. */
  ghost predicate IsHistory(lib: Library, log: Log) {
    log == [] ||
    var before := log[..|log| - 1];
    IsHistory(lib, before) && log[|log| - 1].reply == Step(lib, After(lib, before), log[|log| - 1].op).1
  }

  lemma {:induction false} HistoryConsistent(lib: Library, log: Log)
    ensures Consistent(lib, After(lib, log))
  {
    if log != [] {
      HistoryConsistent(lib, log[..|log| - 1]);
      StepKeepsConsistent(lib, After(lib, log[..|log| - 1]), log[|log| - 1].op);
    }
  }

  lemma {:induction false} HistoryPrefix(lib: Library, log: Log, n: nat)
    requires IsHistory(lib, log) && n <= |log|
    ensures IsHistory(lib, log[..n])
    decreases |log|
  {
    if n == |log| {
      assert log[..n] == log;
    } else {
      HistoryPrefix(lib, log[..|log| - 1], n);
      assert log[..|log| - 1][..n] == log[..n];
    }
  }

  // ---------------------------------------------- reading a log without a store

  predicate Accepted(c: Call) { !c.reply.Failed? }

  predicate IsCreate(op: Op) { op.CreateApply? || op.CreateDelete? || op.CreateRead? }

  function CreateOwner(op: Op): string
    requires IsCreate(op)
  {
    match op
    case CreateApply(d) => d.owner
    case CreateDelete(d) => d.owner
    case CreateRead(d) => d.owner
  }

  function CreatedId(op: Op): Identity
    requires IsCreate(op)
  {
    match op
    case CreateApply(d) => d.identity
    case CreateDelete(d) => d.identity
    case CreateRead(d) => d.identity
  }

  predicate Creates(c: Call, id: Identity) {
    Accepted(c) && IsCreate(c.op) && CreatedId(c.op) == id
  }

  /** A versioned write of `id`'s spec or status; read status writes carry no version. */
  predicate Writes(c: Call, id: Identity) {
    Accepted(c) &&
    match c.op
    case UpdateApplySpec(i, _, _, _) => i == id
    case UpdateApplyStatus(i, _, _) => i == id
    case UpdateDeleteStatus(i, _, _) => i == id
    case _ => false
  }

  /** Accepted writes of `id` since it was last created. */
  function WritesSinceCreate(log: Log, id: Identity): nat {
    if log == [] then 0
    else
      var last, before := log[|log| - 1], log[..|log| - 1];
      if Creates(last, id) then 0
      else WritesSinceCreate(before, id) + if Writes(last, id) then 1 else 0
  }

  /** The spec the last accepted create or spec update of `id` carried. */
  function LastSpec(log: Log, id: Identity): Option<ApplySpec> {
    if log == [] then None
    else
      var last, before := log[|log| - 1], log[..|log| - 1];
      if Creates(last, id) then (if last.op.CreateApply? then Some(last.op.apply.spec) else None)
      else if Writes(last, id) && last.op.UpdateApplySpec? then Some(last.op.spec)
      else LastSpec(before, id)
  }

  predicate ChangesSpec(lib: Library, before: Log, last: Call, id: Identity) {
    Writes(last, id) && last.op.UpdateApplySpec? &&
    LastSpec(before, id).Some? && !SpecEqual(lib, LastSpec(before, id).value, last.op.spec)
  }

  /** Accepted spec updates of `id` since it was last created whose JSON value differs from the one before. */
  function SpecChangesSinceCreate(lib: Library, log: Log, id: Identity): nat {
    if log == [] then 0
    else
      var last, before := log[|log| - 1], log[..|log| - 1];
      if Creates(last, id) then 0
      else SpecChangesSinceCreate(lib, before, id) + if ChangesSpec(lib, before, last, id) then 1 else 0
  }

  /** What one accepted or refused call does to the counters and the spec of one record that is present after it. */
  ghost predicate Advances(lib: Library, items: Items, items': Items, c: Call, id: Identity)
    requires id in items'
  {
    var rec' := items'[id];
    if Creates(c, id) then
      rec'.version == 1 && rec'.generation == 1 &&
      rec'.apply == if c.op.CreateApply? then Some(c.op.apply.spec) else None
    else
      id in items &&
      var rec := items[id];
      if Writes(c, id) then
        rec'.version == rec.version + 1 &&
        if c.op.UpdateApplySpec? then
          rec.apply.Some? && rec'.apply == Some(c.op.spec) &&
          rec'.generation == rec.generation + if SpecEqual(lib, rec.apply.value, c.op.spec) then 0 else 1
        else rec'.generation == rec.generation && rec'.apply == rec.apply
      else
        rec'.version == rec.version && rec'.generation == rec.generation && rec'.apply == rec.apply
  }

  lemma CreateAdvances(lib: Library, items: Items, c: Call, id: Identity)
    requires Consistent(lib, items)
    requires IsCreate(c.op)
    requires c.reply == Step(lib, items, c.op).1 && id in Step(lib, items, c.op).0
    ensures Advances(lib, items, Step(lib, items, c.op).0, c, id)
  {
    if !Accepted(c) {
      FailureChangesNothing(lib, items, c.op);
    }
  }

  lemma UpdateAdvances(lib: Library, items: Items, c: Call, id: Identity)
    requires c.op.UpdateApplySpec? || c.op.UpdateApplyStatus? || c.op.UpdateDeleteStatus? || c.op.UpdateReadStatus?
    requires c.reply == Step(lib, items, c.op).1 && id in Step(lib, items, c.op).0
    ensures Advances(lib, items, Step(lib, items, c.op).0, c, id)
  {
    match c.op
    case UpdateApplySpec(_, _, _, _) =>
    case UpdateApplyStatus(_, _, _) =>
    case UpdateDeleteStatus(_, _, _) =>
    case UpdateReadStatus(_, _) =>
  }

  lemma OtherCallAdvances(lib: Library, items: Items, c: Call, id: Identity)
    requires !IsCreate(c.op)
    requires !(c.op.UpdateApplySpec? || c.op.UpdateApplyStatus? || c.op.UpdateDeleteStatus? || c.op.UpdateReadStatus?)
    requires id in Step(lib, items, c.op).0
    ensures Advances(lib, items, Step(lib, items, c.op).0, c, id)
  {
    assert id in items && Step(lib, items, c.op).0[id] == items[id];
  }

  lemma StepAdvances(lib: Library, items: Items, c: Call, id: Identity)
    requires Consistent(lib, items)
    requires c.reply == Step(lib, items, c.op).1 && id in Step(lib, items, c.op).0
    ensures Advances(lib, items, Step(lib, items, c.op).0, c, id)
  {
    if IsCreate(c.op) {
      CreateAdvances(lib, items, c, id);
    } else if c.op.UpdateApplySpec? || c.op.UpdateApplyStatus? || c.op.UpdateDeleteStatus? || c.op.UpdateReadStatus? {
      UpdateAdvances(lib, items, c, id);
    } else {
      OtherCallAdvances(lib, items, c, id);
    }
  }

  /**
    * The counters of every record count exactly its own history: the version is one more than the accepted writes
    * since creation, the generation one more than the value-changing spec updates since creation, and the spec is the
    * last one accepted.
    */
  lemma {:induction false} CountersCountHistory(lib: Library, log: Log, id: Identity)
    requires IsHistory(lib, log) && id in After(lib, log)
    ensures After(lib, log)[id].version == 1 + WritesSinceCreate(log, id)
    ensures After(lib, log)[id].generation == 1 + SpecChangesSinceCreate(lib, log, id)
    ensures After(lib, log)[id].apply == LastSpec(log, id)
  {
    var last, before := log[|log| - 1], log[..|log| - 1];
    HistoryConsistent(lib, before);
    StepAdvances(lib, After(lib, before), last, id);
    if !Creates(last, id) {
      CountersCountHistory(lib, before, id);
    }
  }

  /** Delete and read desires have no spec update, so their generation stays 1; a read desire's version too. */
  lemma OnlyAppliesAdvance(lib: Library, log: Log, id: Identity)
    requires IsHistory(lib, log) && id in After(lib, log)
    ensures 1 <= After(lib, log)[id].generation <= After(lib, log)[id].version
    ensures id.ty != TypeApply ==> SpecChangesSinceCreate(lib, log, id) == 0
    ensures id.ty == TypeRead ==> WritesSinceCreate(log, id) == 0
  {
    HistoryConsistent(lib, log);
    CountersCountHistory(lib, log, id);
    assert WellFormed(lib, id, After(lib, log)[id]);
  }

  // ------------------------------------------------ who owns a record, and what it reports

  /** The last accepted create of `id`. */
  function LastCreate(log: Log, id: Identity): Option<Op> {
    if log == [] then None
    else if Creates(log[|log| - 1], id) then Some(log[|log| - 1].op)
    else LastCreate(log[..|log| - 1], id)
  }

  /** What the call stores as the status of `id`, if it stores one. */
  function StatusStored(c: Call, id: Identity): Option<Status> {
    if Creates(c, id) then Some(NO_STATUS)
    else if Writes(c, id) && !c.op.UpdateApplySpec? then Some(c.op.status)
    else None
  }

  function ReadStatusStored(c: Call, id: Identity): Option<ReadStatus> {
    if Creates(c, id) then Some(NO_READ_STATUS)
    else if Accepted(c) && c.op.UpdateReadStatus? && c.op.id == id then Some(c.op.readStatus)
    else None
  }

  /** The status of `id` that was stored last. */
  function LastStatus(log: Log, id: Identity): Option<Status> {
    if log == [] then None
    else if StatusStored(log[|log| - 1], id).Some? then StatusStored(log[|log| - 1], id)
    else LastStatus(log[..|log| - 1], id)
  }

  function LastReadStatus(log: Log, id: Identity): Option<ReadStatus> {
    if log == [] then None
    else if ReadStatusStored(log[|log| - 1], id).Some? then ReadStatusStored(log[|log| - 1], id)
    else LastReadStatus(log[..|log| - 1], id)
  }

  /** What a create fixes for good. */
  ghost predicate CreatedBy(op: Op, rec: Record) {
    match op
    case CreateApply(d) => rec.owner == d.owner && rec.originId == d.originId && rec.targetVersion == ""
    case CreateDelete(d) => rec.owner == d.owner && rec.originId == d.originId && rec.targetVersion == ""
    case CreateRead(d) => rec.owner == d.owner && rec.originId == d.originId && rec.targetVersion == d.targetVersion
    case _ => false
  }

  /** What one call does to the rest of one record that is present after it. */
  ghost predicate Retains(items: Items, items': Items, c: Call, id: Identity)
    requires id in items'
  {
    var rec' := items'[id];
    if Creates(c, id) then
      CreatedBy(c.op, rec') && rec'.status == NO_STATUS && rec'.readStatus == NO_READ_STATUS
    else
      id in items &&
      var rec := items[id];
      && rec'.owner == rec.owner && rec'.originId == rec.originId && rec'.targetVersion == rec.targetVersion
      && rec'.status == (if StatusStored(c, id).Some? then StatusStored(c, id).value else rec.status)
      && rec'.readStatus == if ReadStatusStored(c, id).Some? then ReadStatusStored(c, id).value else rec.readStatus
  }

  lemma StepRetains(lib: Library, items: Items, c: Call, id: Identity)
    requires Consistent(lib, items)
    requires c.reply == Step(lib, items, c.op).1 && id in Step(lib, items, c.op).0
    ensures Retains(items, Step(lib, items, c.op).0, c, id)
  {
    if IsCreate(c.op) {
      CreateRetains(lib, items, c, id);
    } else {
      OtherCallRetains(lib, items, c, id);
    }
  }

  lemma CreateRetains(lib: Library, items: Items, c: Call, id: Identity)
    requires Consistent(lib, items) && IsCreate(c.op)
    requires c.reply == Step(lib, items, c.op).1 && id in Step(lib, items, c.op).0
    ensures Retains(items, Step(lib, items, c.op).0, c, id)
  {
    if !Accepted(c) {
      FailureChangesNothing(lib, items, c.op);
    }
  }

  lemma OtherCallRetains(lib: Library, items: Items, c: Call, id: Identity)
    requires !IsCreate(c.op) && c.reply == Step(lib, items, c.op).1 && id in Step(lib, items, c.op).0
    ensures Retains(items, Step(lib, items, c.op).0, c, id)
  {
    if !(c.op.UpdateApplySpec? || c.op.UpdateApplyStatus? || c.op.UpdateDeleteStatus? || c.op.UpdateReadStatus?) {
      assert id in items && Step(lib, items, c.op).0[id] == items[id];
    }
  }

  /**
    * The rest of every record, read off its history alone: owner, origin and target version are those of its last
    * accepted create, status and read status the last ones accepted since.
    */
  lemma {:induction false} RecordTellsHistory(lib: Library, log: Log, id: Identity)
    requires IsHistory(lib, log) && id in After(lib, log)
    ensures LastCreate(log, id).Some? && CreatedBy(LastCreate(log, id).value, After(lib, log)[id])
    ensures LastStatus(log, id) == Some(After(lib, log)[id].status)
    ensures LastReadStatus(log, id) == Some(After(lib, log)[id].readStatus)
  {
    var last, before := log[|log| - 1], log[..|log| - 1];
    HistoryConsistent(lib, before);
    StepRetains(lib, After(lib, before), last, id);
    if !Creates(last, id) {
      RecordTellsHistory(lib, before, id);
    }
  }

  /** The calls that only the owner of a record may make, and the owner they name. */
  function ActsAs(op: Op): Option<(Identity, string)> {
    match op
    case UpdateApplySpec(id, _, owner, _) => Some((id, owner))
    case RemoveApply(id, owner, _) => Some((id, owner))
    case RemoveDelete(id, owner, _) => Some((id, owner))
    case RemoveRead(id, owner, _) => Some((id, owner))
    case _ => None
  }

  lemma ActNeedsOwner(lib: Library, items: Items, op: Op)
    requires ActsAs(op).Some? && !Step(lib, items, op).1.Failed?
    ensures ActsAs(op).value.0 in items && items[ActsAs(op).value.0].owner == ActsAs(op).value.1
  {
  }

  /** Over every history, an accepted spec update or removal names the owner of the record's last accepted create. */
  lemma OnlyTheOwnerActs(lib: Library, log: Log, j: nat)
    requires IsHistory(lib, log) && j < |log| && Accepted(log[j]) && ActsAs(log[j].op).Some?
    ensures
      var (id, owner) := ActsAs(log[j].op).value;
      LastCreate(log[..j], id).Some? && IsCreate(LastCreate(log[..j], id).value) &&
      CreateOwner(LastCreate(log[..j], id).value) == owner
  {
    HistoryPrefix(lib, log, j);
    AcceptedByStore(lib, log, j);
    ActNeedsOwner(lib, After(lib, log[..j]), log[j].op);
    RecordTellsHistory(lib, log[..j], ActsAs(log[j].op).value.0);
  }

  lemma CreateNeedsOwner(lib: Library, items: Items, op: Op, id: Identity)
    requires Consistent(lib, items) && IsCreate(op) && !Step(lib, items, op).1.Failed?
    requires id in items && id.target == CreatedId(op).target
    ensures items[id].owner == CreateOwner(op)
  {
    OwnerIsShared(lib, items, id);
    assert forall ty :: Sibling(CreatedId(op), ty) == Sibling(id, ty);
  }

  /** And an accepted create names the owner of every record its target still has. */
  lemma TargetKeepsItsOwner(lib: Library, log: Log, j: nat, id: Identity)
    requires IsHistory(lib, log) && j < |log| && Accepted(log[j]) && IsCreate(log[j].op)
    requires id in After(lib, log[..j]) && id.target == CreatedId(log[j].op).target
    ensures LastCreate(log[..j], id).Some? && IsCreate(LastCreate(log[..j], id).value)
    ensures CreateOwner(LastCreate(log[..j], id).value) == CreateOwner(log[j].op)
  {
    HistoryPrefix(lib, log, j);
    AcceptedByStore(lib, log, j);
    HistoryConsistent(lib, log[..j]);
    CreateNeedsOwner(lib, After(lib, log[..j]), log[j].op, id);
    RecordTellsHistory(lib, log[..j], id);
  }

  // -------------------------------------------------- compare-and-swap is exclusive

  /** The record and version a compare-and-swap call names. */
  function CasToken(op: Op): Option<(Identity, int)> {
    match op
    case UpdateApplySpec(id, _, _, v) => Some((id, v))
    case UpdateApplyStatus(id, _, v) => Some((id, v))
    case UpdateDeleteStatus(id, _, v) => Some((id, v))
    case RemoveApply(id, _, v) => Some((id, v))
    case RemoveDelete(id, _, v) => Some((id, v))
    case RemoveRead(id, _, v) => Some((id, v))
    case _ => None
  }

  /** An accepted compare-and-swap names the stored version; a removal leaves nothing behind. */
  lemma SwapChecksVersion(lib: Library, items: Items, op: Op)
    requires CasToken(op).Some? && !Step(lib, items, op).1.Failed?
    ensures CasToken(op).value.0 in items && items[CasToken(op).value.0].version == CasToken(op).value.1
    ensures CasToken(op).value.0 in Step(lib, items, op).0 ==>
              op.UpdateApplySpec? || op.UpdateApplyStatus? || op.UpdateDeleteStatus?
  {
  }

  /** After an accepted compare-and-swap at version v, the record is past v until it is created again. */
  lemma {:induction false} VersionMovesOn(lib: Library, log: Log, i: nat, id: Identity, v: int)
    requires IsHistory(lib, log) && i < |log|
    requires Accepted(log[i]) && CasToken(log[i].op) == Some((id, v))
    requires forall k :: i < k < |log| ==> !Creates(log[k], id)
    ensures id in After(lib, log) ==> After(lib, log)[id].version > v
    decreases |log|
  {
    var last, before := log[|log| - 1], log[..|log| - 1];
    if id in After(lib, log) {
      HistoryConsistent(lib, before);
      StepAdvances(lib, After(lib, before), last, id);
      if i < |log| - 1 {
        VersionMovesOn(lib, before, i, id, v);
      } else {
        SwapChecksVersion(lib, After(lib, before), last.op);
      }
    }
  }

  /** Of all calls that name one version of one record, at most one is accepted between two creations of it. */
  lemma AtMostOneSwapPerVersion(lib: Library, log: Log, i: nat, j: nat)
    requires IsHistory(lib, log) && i < j < |log|
    requires Accepted(log[i]) && Accepted(log[j])
    requires CasToken(log[i].op).Some? && CasToken(log[i].op) == CasToken(log[j].op)
    ensures exists k :: i < k < j && Creates(log[k], CasToken(log[i].op).value.0)
  {
    var (id, v) := CasToken(log[i].op).value;
    if forall k :: i < k < j ==> !Creates(log[k], id) {
      var before := log[..j];
      HistoryPrefix(lib, log, j);
      VersionMovesOn(lib, before, i, id, v);
      AcceptedByStore(lib, log, j);
      SwapChecksVersion(lib, After(lib, before), log[j].op);
    }
  }

  lemma AcceptedByStore(lib: Library, log: Log, j: nat)
    requires IsHistory(lib, log) && j < |log|
    ensures log[j].reply == Step(lib, After(lib, log[..j]), log[j].op).1
  {
    HistoryPrefix(lib, log, j + 1);
    assert log[..j + 1][..j] == log[..j];
  }
}
