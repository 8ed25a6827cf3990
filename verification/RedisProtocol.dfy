/**
  * The Redis store as a protocol: any number of clients run optimistic WATCH / GET / MULTI-EXEC transactions over one
  * keyspace, one command at a time, in any order. A run is any sequence of steps; a step that is not enabled does
  * nothing. Keys are identities here; RedisKeys shows that the string keys behave the same.
  */
module RedisProtocol {
  import opened Desire
  import opened MemoryStore
  import opened StoreHistory

  const MAX_CAS_RETRIES: nat := 16

  /** What a transaction callback decides from the records it read. */
  datatype Plan =
    | Refuse(error: Error)
    | Answer(reply: Reply)  // a read, or a no-op: nothing is written
    | Write(put: Option<(Identity, Record)>, drop: set<Identity>, reply: Reply)

  /** `from` and `since` remember how long the log was at the call and at WATCH, `instants` the keyspace at each GET. */
  datatype Client =
    | Idle
    | Pending(op: Op, attempt: nat, from: nat)
    | Reading(op: Op, attempt: nat, from: nat, watched: map<Identity, nat>, since: nat,
              gets: seq<Option<Record>>, instants: seq<Items>)
    | Ready(op: Op, attempt: nat, from: nat, watched: map<Identity, nat>, since: nat,
            gets: seq<Option<Record>>, plan: Plan)
    | Finished(op: Op, from: nat, reply: Reply)

  /** `mods` counts the modifications of each key; WATCH compares these counts. `log` lists the committed calls. */
  datatype Machine = Machine(ks: Items, mods: map<Identity, nat>, clients: map<nat, Client>, log: Log)

  datatype Command = Invoke(c: nat, op: Op) | Watch(c: nat) | Get(c: nat) | Exec(c: nat)

  const INIT := Machine(map[], map[], map[], [])

  function Count(mods: map<Identity, nat>, id: Identity): nat {
    if id in mods then mods[id] else 0
  }

  /** DeleteByPrefix is not one transaction: it is a scan followed by one RemoveMatching per key. */
  predicate IsTransaction(op: Op) { !op.DeleteByPrefix? }

  /** A create watches every sibling of its target, every other call its own key. */
  function Keys(op: Op): (ks: seq<Identity>)
    requires IsTransaction(op)
    ensures |ks| == 1 || |ks| == 3
  {
    if op.CreateApply? then Siblings(op.apply.identity)
    else if op.CreateDelete? then Siblings(op.delete.identity)
    else if op.CreateRead? then Siblings(op.read.identity)
    else [op.id]
  }

  function Siblings(id: Identity): seq<Identity> {
    [Sibling(id, TypeApply), Sibling(id, TypeDelete), Sibling(id, TypeRead)]
  }

  /** Checks made before any command is sent. The apply calls do not check the identity's type here. */
  function Precheck(lib: Library, op: Op): (r: Option<Error>)
    ensures r.Some? ==> r.value == ErrInvalid || r.value == ErrNotFound
  {
    match op
    case CreateApply(d) => if ValidApply(lib, d) then None else Some(ErrInvalid)
    case CreateDelete(d) => if ValidDelete(lib, d) then None else Some(ErrInvalid)
    case CreateRead(d) => if ValidRead(lib, d) then None else Some(ErrInvalid)
    case UpdateApplySpec(_, spec, _, _) => if ValidSpec(lib, spec) then None else Some(ErrInvalid)
    case UpdateDeleteStatus(id, _, _) => if id.ty == TypeDelete then None else Some(ErrNotFound)
    case RemoveDelete(id, _, _) => if id.ty == TypeDelete then None else Some(ErrNotFound)
    case GetDelete(id) => if id.ty == TypeDelete then None else Some(ErrNotFound)
    case UpdateReadStatus(id, _) => if id.ty == TypeRead then None else Some(ErrNotFound)
    case RemoveRead(id, _, _) => if id.ty == TypeRead then None else Some(ErrNotFound)
    case GetRead(id) => if id.ty == TypeRead then None else Some(ErrNotFound)
    case _ => None
  }

  /** checkTargetOwner over the records read: the first one present decides. */
  predicate OwnerPasses(sibs: seq<Option<Record>>, owner: string)
    requires |sibs| == 3
  {
    if sibs[0].Some? then sibs[0].value.owner == owner
    else if sibs[1].Some? then sibs[1].value.owner == owner
    else if sibs[2].Some? then sibs[2].value.owner == owner
    else true
  }

  function BuildApply(d: ApplyDesire, sibs: seq<Option<Record>>): Plan
    requires |sibs| == 3
  {
    var reply := ApplyReply(ProjectApply(NewApply(d)));
    if !OwnerPasses(sibs, d.owner) then Refuse(ErrOwnerConflict)
    else if sibs[1].Some? then
      if !IsDeleted(sibs[1].value.status) then Refuse(ErrDeletePending)
      else Write(Some((d.identity, NewApply(d))), {sibs[1].value.identity}, reply)
    else if sibs[0].Some? then Refuse(ErrAlreadyExists)
    else Write(Some((d.identity, NewApply(d))), {}, reply)
  }

  function BuildDelete(d: DeleteDesire, sibs: seq<Option<Record>>): Plan
    requires |sibs| == 3
  {
    if !OwnerPasses(sibs, d.owner) then Refuse(ErrOwnerConflict)
    else if sibs[1].Some? then Refuse(ErrAlreadyExists)
    else Write(Some((d.identity, NewDelete(d))), if sibs[0].Some? then {sibs[0].value.identity} else {},
               DeleteReply(ProjectDelete(NewDelete(d))))
  }

  function BuildRead(d: ReadDesire, sibs: seq<Option<Record>>): Plan
    requires |sibs| == 3
  {
    if !OwnerPasses(sibs, d.owner) then Refuse(ErrOwnerConflict)
    else if sibs[2].Some? then Refuse(ErrAlreadyExists)
    else Write(Some((d.identity, NewRead(d))), {}, ReadReply(ProjectRead(NewRead(d))))
  }

  /** casMutate, casDelete and loadRecord on one key; absent and not-an-apply both read as not found. */
  function DecideOne(lib: Library, op: Op, rec: Option<Record>): Plan
    requires IsTransaction(op) && |Keys(op)| == 1
  {
    match op
    case UpdateApplySpec(id, spec, owner, version) =>
      if rec.None? || rec.value.apply.None? then Refuse(ErrNotFound)
      else if rec.value.version != version then Refuse(ErrVersionConflict)
      else if rec.value.owner != owner then Refuse(ErrOwnerConflict)
      else
        var r := WithSpec(lib, rec.value, spec);
        Write(Some((id, r)), {}, ApplyReply(ProjectApply(r)))
    case UpdateApplyStatus(id, status, version) =>
      if rec.None? || rec.value.apply.None? then Refuse(ErrNotFound)
      else if rec.value.version != version then Refuse(ErrVersionConflict)
      else
        var r := WithStatus(rec.value, status);
        Write(Some((id, r)), {}, ApplyReply(ProjectApply(r)))
    case UpdateDeleteStatus(id, status, version) =>
      if rec.None? then Refuse(ErrNotFound)
      else if rec.value.version != version then Refuse(ErrVersionConflict)
      else
        var r := WithStatus(rec.value, status);
        Write(Some((id, r)), {}, DeleteReply(ProjectDelete(r)))
    case UpdateReadStatus(id, readStatus) =>
      if rec.None? then Refuse(ErrNotFound)
      else
        var r := rec.value.(readStatus := readStatus);
        Write(Some((id, r)), {}, ReadReply(ProjectRead(r)))
    case RemoveApply(id, owner, version) =>
      if rec.None? || rec.value.apply.None? then Refuse(ErrNotFound)
      else if rec.value.version != version then Refuse(ErrVersionConflict)
      else if rec.value.owner != owner then Refuse(ErrOwnerConflict)
      else Write(None, {id}, Done)
    case RemoveMatching(id, sel) =>
      if rec.None? || !Matches(sel, rec.value.identity) then Answer(Done)
      else Write(None, {id}, Done)
    case GetApply(_) =>
      if rec.None? || rec.value.apply.None? then Refuse(ErrNotFound)
      else Answer(ApplyReply(ProjectApply(rec.value)))
    case GetDelete(_) => if rec.None? then Refuse(ErrNotFound) else Answer(DeleteReply(ProjectDelete(rec.value)))
    case GetRead(_) => if rec.None? then Refuse(ErrNotFound) else Answer(ReadReply(ProjectRead(rec.value)))
    case RemoveDelete(id, owner, version) => DecideRemove(id, owner, version, rec)
    case RemoveRead(id, owner, version) => DecideRemove(id, owner, version, rec)
  }

  function DecideRemove(id: Identity, owner: string, version: int, rec: Option<Record>): Plan {
    if rec.None? then Refuse(ErrNotFound)
    else if rec.value.version != version then Refuse(ErrVersionConflict)
    else if rec.value.owner != owner then Refuse(ErrOwnerConflict)
    else Write(None, {id}, Done)
  }

  function Decide(lib: Library, op: Op, gets: seq<Option<Record>>): Plan
    requires IsTransaction(op) && |gets| == |Keys(op)|
  {
    if op.CreateApply? then BuildApply(op.apply, gets)
    else if op.CreateDelete? then BuildDelete(op.delete, gets)
    else if op.CreateRead? then BuildRead(op.read, gets)
    else DecideOne(lib, op, gets[0])
  }

  /** The queued commands, SET first and then the DELs, as EXEC runs them. */
  function Effect(ks: Items, plan: Plan): Items
    requires plan.Write?
  {
    (if plan.put.Some? then ks[plan.put.value.0 := plan.put.value.1] else ks) - plan.drop
  }

  /** SET always counts as a modification, DEL only of a key that exists. */
  function Touched(ks: Items, plan: Plan): set<Identity>
    requires plan.Write?
  {
    if plan.put.Some? then {plan.put.value.0} + plan.drop * ks.Keys else plan.drop * ks.Keys
  }

  function Bump(mods: map<Identity, nat>, touched: set<Identity>): map<Identity, nat> {
    map id | id in mods.Keys + touched :: Count(mods, id) + if id in touched then 1 else 0
  }

  function ClientOf(m: Machine, c: nat): Client {
    if c in m.clients then m.clients[c] else Idle
  }

  function Set(m: Machine, c: nat, client: Client): Machine {
    m.(clients := m.clients[c := client])
  }

  function DoInvoke(lib: Library, m: Machine, c: nat, op: Op): Machine {
    if !(ClientOf(m, c).Idle? || ClientOf(m, c).Finished?) || !IsTransaction(op) then m
    else if Precheck(lib, op).Some? then Set(m, c, Finished(op, |m.log|, Failed(Precheck(lib, op).value)))
    else Set(m, c, Pending(op, 1, |m.log|))
  }

  function DoWatch(m: Machine, c: nat): Machine {
    match ClientOf(m, c)
    case Pending(op, attempt, from) =>
      if !IsTransaction(op) then m
      else Set(m, c, Reading(op, attempt, from, map k | k in Keys(op) :: Count(m.mods, k), |m.log|, [], []))
    case _ => m
  }

  /** The client once the records of all its keys are read: a write waits for EXEC, anything else is over. */
  function Decided(lib: Library, op: Op, attempt: nat, from: nat, watched: map<Identity, nat>, since: nat,
                   gets: seq<Option<Record>>): Client
    requires IsTransaction(op) && |gets| == |Keys(op)|
  {
    match Decide(lib, op, gets)
    case Refuse(e) => Finished(op, from, Failed(e))
    case Answer(r) => Finished(op, from, r)
    case Write(_, _, _) => Ready(op, attempt, from, watched, since, gets, Decide(lib, op, gets))
  }

  function DoGet(lib: Library, m: Machine, c: nat): Machine {
    match ClientOf(m, c)
    case Reading(op, attempt, from, watched, since, gets, instants) =>
      if !IsTransaction(op) || |gets| >= |Keys(op)| then m
      else
        var gets' := gets + [Lookup(m.ks, Keys(op)[|gets|])];
        if |gets'| < |Keys(op)| then
          Set(m, c, Reading(op, attempt, from, watched, since, gets', instants + [m.ks]))
        else Set(m, c, Decided(lib, op, attempt, from, watched, since, gets'))
    case _ => m
  }

  predicate Unmodified(mods: map<Identity, nat>, watched: map<Identity, nat>) {
    forall k :: k in watched ==> Count(mods, k) == watched[k]
  }

  /**
    * EXEC runs the queued commands if no watched key was modified since WATCH; otherwise the call retries or gives
    * up.
    */
  function DoExec(m: Machine, c: nat): Machine {
    match ClientOf(m, c)
    case Ready(op, attempt, from, watched, since, gets, plan) =>
      if !plan.Write? then m
      else if Unmodified(m.mods, watched) then
        Machine(Effect(m.ks, plan), Bump(m.mods, Touched(m.ks, plan)),
                m.clients[c := Finished(op, from, plan.reply)], m.log + [Call(op, plan.reply)])
      else if attempt < MAX_CAS_RETRIES then Set(m, c, Pending(op, attempt + 1, from))
      else Set(m, c, Finished(op, from, Failed(ErrAborted)))
    case _ => m
  }

  function Do(lib: Library, m: Machine, cmd: Command): Machine {
    match cmd
    case Invoke(c, op) => DoInvoke(lib, m, c, op)
    case Watch(c) => DoWatch(m, c)
    case Get(c) => DoGet(lib, m, c)
    case Exec(c) => DoExec(m, c)
  }

  function Run(lib: Library, cmds: seq<Command>): Machine {
    if cmds == [] then INIT
    else Do(lib, Run(lib, cmds[..|cmds| - 1]), cmds[|cmds| - 1])
  }

  // ------------------------------------------ a decision made on current records

  ghost predicate ReadsCurrent(ks: Items, op: Op, gets: seq<Option<Record>>)
    requires IsTransaction(op)
  {
    |gets| == |Keys(op)| && forall j :: 0 <= j < |gets| ==> gets[j] == Lookup(ks, Keys(op)[j])
  }

  /** The plan does to the keyspace, and replies, what the memory store's call does. */
  ghost predicate Agrees(lib: Library, ks: Items, op: Op, plan: Plan) {
    match plan
    case Refuse(e) => Step(lib, ks, op) == (ks, Failed(e))
    case Answer(r) => Step(lib, ks, op) == (ks, r)
    case Write(_, _, r) => Step(lib, ks, op) == (Effect(ks, plan), r)
  }

  lemma OwnerChecksAgree(ks: Items, id: Identity, sibs: seq<Option<Record>>, owner: string)
    requires |sibs| == 3 && forall j :: 0 <= j < 3 ==> sibs[j] == Lookup(ks, Siblings(id)[j])
    ensures OwnerPasses(sibs, owner) <==> OwnerAllows(ks, id, owner)
  {
    assert sibs[0] == Lookup(ks, Siblings(id)[0]);
    assert sibs[1] == Lookup(ks, Siblings(id)[1]);
    assert sibs[2] == Lookup(ks, Siblings(id)[2]);
  }

  lemma CreateApplyAgrees(lib: Library, ks: Items, d: ApplyDesire, gets: seq<Option<Record>>)
    requires Consistent(lib, ks) && Precheck(lib, CreateApply(d)).None?
    requires ReadsCurrent(ks, CreateApply(d), gets)
    ensures Agrees(lib, ks, CreateApply(d), BuildApply(d, gets))
  {
    var applyId, deleteId := Sibling(d.identity, TypeApply), Sibling(d.identity, TypeDelete);
    OwnerChecksAgree(ks, d.identity, gets, d.owner);
    assert applyId == d.identity;
    assert gets[0] == Lookup(ks, applyId) && gets[1] == Lookup(ks, deleteId);
    assert Agreeing(ks, d.identity.target);
    assert applyId in ks && deleteId in ks ==> Coexist(ks[applyId], ks[deleteId]);
    assert deleteId !in ks ==> ks - {deleteId} == ks;
    assert deleteId in ks ==> WellFormed(lib, deleteId, ks[deleteId]);
    assert (ks - {deleteId})[applyId := NewApply(d)] == ks[applyId := NewApply(d)] - {deleteId};
    assert ks[applyId := NewApply(d)] - {} == ks[applyId := NewApply(d)];
  }

  lemma CreateDeleteAgrees(lib: Library, ks: Items, d: DeleteDesire, gets: seq<Option<Record>>)
    requires Consistent(lib, ks) && Precheck(lib, CreateDelete(d)).None?
    requires ReadsCurrent(ks, CreateDelete(d), gets)
    ensures Agrees(lib, ks, CreateDelete(d), BuildDelete(d, gets))
  {
    var applyId, deleteId := Sibling(d.identity, TypeApply), Sibling(d.identity, TypeDelete);
    OwnerChecksAgree(ks, d.identity, gets, d.owner);
    assert deleteId == d.identity;
    assert gets[0] == Lookup(ks, applyId) && gets[1] == Lookup(ks, deleteId);
    assert applyId in ks ==> WellFormed(lib, applyId, ks[applyId]);
    assert applyId !in ks ==> ks - {applyId} == ks;
    assert (ks - {applyId})[deleteId := NewDelete(d)] == ks[deleteId := NewDelete(d)] - {applyId};
    assert ks[deleteId := NewDelete(d)] - {} == ks[deleteId := NewDelete(d)];
  }

  lemma CreateReadAgrees(lib: Library, ks: Items, d: ReadDesire, gets: seq<Option<Record>>)
    requires Consistent(lib, ks) && Precheck(lib, CreateRead(d)).None?
    requires ReadsCurrent(ks, CreateRead(d), gets)
    ensures Agrees(lib, ks, CreateRead(d), BuildRead(d, gets))
  {
    OwnerChecksAgree(ks, d.identity, gets, d.owner);
    assert Sibling(d.identity, TypeRead) == d.identity;
    assert gets[2] == Lookup(ks, d.identity);
    assert ks[d.identity := NewRead(d)] - {} == ks[d.identity := NewRead(d)];
  }

  lemma UpdateAgrees(lib: Library, ks: Items, op: Op)
    requires Consistent(lib, ks) && Precheck(lib, op).None?
    requires op.UpdateApplySpec? || op.UpdateApplyStatus? || op.UpdateDeleteStatus? || op.UpdateReadStatus?
    ensures Agrees(lib, ks, op, DecideOne(lib, op, Lookup(ks, op.id)))
  {
    assert op.id in ks ==> WellFormed(lib, op.id, ks[op.id]);
    var plan := DecideOne(lib, op, Lookup(ks, op.id));
    if plan.Write? {
      assert Effect(ks, plan) == ks[op.id := plan.put.value.1];
    }
  }

  lemma RemoveOrGetAgrees(lib: Library, ks: Items, op: Op)
    requires Consistent(lib, ks) && Precheck(lib, op).None?
    requires IsTransaction(op) && |Keys(op)| == 1
    requires !(op.UpdateApplySpec? || op.UpdateApplyStatus? || op.UpdateDeleteStatus? || op.UpdateReadStatus?)
    ensures Agrees(lib, ks, op, DecideOne(lib, op, Lookup(ks, op.id)))
  {
    assert op.id in ks ==> WellFormed(lib, op.id, ks[op.id]);
    assert op.id !in ks ==> ks - {op.id} == ks;
  }

  /** A plan made from the current records is the memory store's call: its effect, its reply and its errors. */
  lemma DecideAgrees(lib: Library, ks: Items, op: Op, gets: seq<Option<Record>>)
    requires Consistent(lib, ks) && IsTransaction(op) && Precheck(lib, op).None?
    requires ReadsCurrent(ks, op, gets)
    ensures Agrees(lib, ks, op, Decide(lib, op, gets))
  {
    if op.CreateApply? {
      CreateApplyAgrees(lib, ks, op.apply, gets);
    } else if op.CreateDelete? {
      CreateDeleteAgrees(lib, ks, op.delete, gets);
    } else if op.CreateRead? {
      CreateReadAgrees(lib, ks, op.read, gets);
    } else {
      assert gets[0] == Lookup(ks, op.id);
      if op.UpdateApplySpec? || op.UpdateApplyStatus? || op.UpdateDeleteStatus? || op.UpdateReadStatus? {
        UpdateAgrees(lib, ks, op);
      } else {
        RemoveOrGetAgrees(lib, ks, op);
      }
    }
  }

  // ------------------------------------------------------------ the invariant

  /** The records a client read are current for every key nobody modified since its WATCH. */
  ghost predicate ReadsValid(
    ks: Items, mods: map<Identity, nat>, now: nat,
    op: Op, watched: map<Identity, nat>, since: nat, gets: seq<Option<Record>>)
    requires IsTransaction(op)
  {
    && (forall k :: k in watched <==> k in Keys(op))
    && (forall k :: k in watched ==> watched[k] <= Count(mods, k))
    && |gets| <= |Keys(op)|
    && (forall j :: 0 <= j < |gets| && watched[Keys(op)[j]] == Count(mods, Keys(op)[j]) ==>
          gets[j] == Lookup(ks, Keys(op)[j]))
    && since <= now
    && (since == now ==> Unmodified(mods, watched))
  }

  /** Attempt n is reached only after n-1 failed EXECs, each with at least one commit between its WATCH and itself. */
  ghost predicate AttemptValid(attempt: nat, from: nat, now: nat) {
    1 <= attempt <= MAX_CAS_RETRIES && from + (attempt - 1) <= now
  }

  ghost predicate InstantsValid(lib: Library, op: Op, gets: seq<Option<Record>>, instants: seq<Items>)
    requires IsTransaction(op)
  {
    && |instants| == |gets| <= |Keys(op)|
    && forall j :: 0 <= j < |gets| ==> gets[j] == Lookup(instants[j], Keys(op)[j]) && Consistent(lib, instants[j])
  }

  ghost predicate ClientValid(lib: Library, ks: Items, mods: map<Identity, nat>, now: nat, client: Client) {
    match client
    case Idle => true
    case Pending(op, attempt, from) =>
      IsTransaction(op) && Precheck(lib, op).None? && AttemptValid(attempt, from, now)
    case Reading(op, attempt, from, watched, since, gets, instants) =>
      && IsTransaction(op) && Precheck(lib, op).None? && AttemptValid(attempt, from, since)
      && ReadsValid(ks, mods, now, op, watched, since, gets) && InstantsValid(lib, op, gets, instants)
      && |gets| < |Keys(op)|
    case Ready(op, attempt, from, watched, since, gets, plan) =>
      && IsTransaction(op) && Precheck(lib, op).None? && AttemptValid(attempt, from, since)
      && ReadsValid(ks, mods, now, op, watched, since, gets)
      && |gets| == |Keys(op)| && plan == Decide(lib, op, gets) && plan.Write?
    case Finished(op, from, reply) =>
      from <= now && (reply == Failed(ErrAborted) ==> from + MAX_CAS_RETRIES <= now)
  }

  ghost predicate MachineValid(lib: Library, m: Machine) {
    && m.ks == After(lib, m.log)
    && IsHistory(lib, m.log)
    && forall c :: c in m.clients ==> ClientValid(lib, m.ks, m.mods, |m.log|, m.clients[c])
  }

  lemma SetKeeps(lib: Library, m: Machine, c: nat, client: Client)
    requires MachineValid(lib, m) && ClientValid(lib, m.ks, m.mods, |m.log|, client)
    ensures MachineValid(lib, Set(m, c, client))
  {
  }

  /** No decision reports ErrAborted: only exhausted retries do. */
  lemma DecisionNotAborted(lib: Library, op: Op, gets: seq<Option<Record>>)
    requires IsTransaction(op) && |gets| == |Keys(op)|
    ensures Decide(lib, op, gets) != Refuse(ErrAborted)
    ensures !Decide(lib, op, gets).Refuse? ==> !Decide(lib, op, gets).reply.Failed?
  {
  }

  lemma InvokeKeeps(lib: Library, m: Machine, c: nat, op: Op)
    requires MachineValid(lib, m)
    ensures MachineValid(lib, DoInvoke(lib, m, c, op))
  {
    if (ClientOf(m, c).Idle? || ClientOf(m, c).Finished?) && IsTransaction(op) {
      if Precheck(lib, op).Some? {
        SetKeeps(lib, m, c, Finished(op, |m.log|, Failed(Precheck(lib, op).value)));
      } else {
        SetKeeps(lib, m, c, Pending(op, 1, |m.log|));
      }
    }
  }

  lemma WatchKeeps(lib: Library, m: Machine, c: nat)
    requires MachineValid(lib, m)
    ensures MachineValid(lib, DoWatch(m, c))
  {
    var m' := DoWatch(m, c);
    if m' != m {
      assert ClientValid(lib, m.ks, m.mods, |m.log|, m.clients[c]);
      SetKeeps(lib, m, c, m'.clients[c]);
    }
  }

  lemma GetKeepsReads(
    ks: Items, mods: map<Identity, nat>, now: nat,
    op: Op, watched: map<Identity, nat>, since: nat, gets: seq<Option<Record>>)
    requires IsTransaction(op) && ReadsValid(ks, mods, now, op, watched, since, gets) && |gets| < |Keys(op)|
    ensures ReadsValid(ks, mods, now, op, watched, since, gets + [Lookup(ks, Keys(op)[|gets|])])
  {
  }

  lemma InstantsExtend(lib: Library, op: Op, gets: seq<Option<Record>>, instants: seq<Items>, ks: Items)
    requires IsTransaction(op) && InstantsValid(lib, op, gets, instants) && |gets| < |Keys(op)| && Consistent(lib, ks)
    ensures InstantsValid(lib, op, gets + [Lookup(ks, Keys(op)[|gets|])], instants + [ks])
  {
  }

  lemma DecidedValid(
    lib: Library, ks: Items, mods: map<Identity, nat>, now: nat,
    op: Op, attempt: nat, from: nat, watched: map<Identity, nat>, since: nat, gets: seq<Option<Record>>)
    requires IsTransaction(op) && Precheck(lib, op).None? && AttemptValid(attempt, from, since)
    requires ReadsValid(ks, mods, now, op, watched, since, gets) && |gets| == |Keys(op)|
    ensures ClientValid(lib, ks, mods, now, Decided(lib, op, attempt, from, watched, since, gets))
  {
    DecisionNotAborted(lib, op, gets);
  }

  lemma GetKeeps(lib: Library, m: Machine, c: nat)
    requires MachineValid(lib, m)
    ensures MachineValid(lib, DoGet(lib, m, c))
  {
    var client := ClientOf(m, c);
    if client.Reading? {
      assert ClientValid(lib, m.ks, m.mods, |m.log|, client);
      HistoryConsistent(lib, m.log);
      GetKeepsReads(m.ks, m.mods, |m.log|, client.op, client.watched, client.since, client.gets);
      InstantsExtend(lib, client.op, client.gets, client.instants, m.ks);
      var gets' := client.gets + [Lookup(m.ks, Keys(client.op)[|client.gets|])];
      if |gets'| == |Keys(client.op)| {
        DecidedValid(lib, m.ks, m.mods, |m.log|, client.op, client.attempt, client.from, client.watched,
          client.since, gets');
      }
      SetKeeps(lib, m, c, DoGet(lib, m, c).clients[c]);
    }
  }

  /** A commit is the memory store's call on the whole keyspace. */
  lemma CommitIsStep(lib: Library, m: Machine, c: nat)
    requires MachineValid(lib, m)
    requires ClientOf(m, c).Ready? && Unmodified(m.mods, ClientOf(m, c).watched)
    ensures ClientOf(m, c).plan.Write?
    ensures Step(lib, m.ks, ClientOf(m, c).op) == (Effect(m.ks, ClientOf(m, c).plan), ClientOf(m, c).plan.reply)
  {
    var client := m.clients[c];
    assert ClientValid(lib, m.ks, m.mods, |m.log|, client);
    HistoryConsistent(lib, m.log);
    forall j | 0 <= j < |client.gets|
      ensures client.gets[j] == Lookup(m.ks, Keys(client.op)[j])
    {
      assert Keys(client.op)[j] in client.watched;
    }
    DecideAgrees(lib, m.ks, client.op, client.gets);
  }

  /** A commit leaves every other client's view valid: a key it touched no longer passes that client's check. */
  lemma CommitKeepsOther(lib: Library, ks: Items, mods: map<Identity, nat>, now: nat, plan: Plan, other: Client)
    requires plan.Write? && ClientValid(lib, ks, mods, now, other)
    ensures ClientValid(lib, Effect(ks, plan), Bump(mods, Touched(ks, plan)), now + 1, other)
  {
    var ks', mods' := Effect(ks, plan), Bump(mods, Touched(ks, plan));
    assert forall k :: Count(mods', k) == Count(mods, k) + if k in Touched(ks, plan) then 1 else 0;
    assert forall k :: k !in Touched(ks, plan) ==> Lookup(ks', k) == Lookup(ks, k);
    if other.Reading? || other.Ready? {
      forall j | 0 <= j < |other.gets| && other.watched[Keys(other.op)[j]] == Count(mods', Keys(other.op)[j])
        ensures other.gets[j] == Lookup(ks', Keys(other.op)[j])
      {
        assert Keys(other.op)[j] in other.watched;
      }
      assert ReadsValid(ks', mods', now + 1, other.op, other.watched, other.since, other.gets);
    }
  }

  lemma CommitKeeps(lib: Library, m: Machine, c: nat)
    requires MachineValid(lib, m) && ClientOf(m, c).Ready? && Unmodified(m.mods, ClientOf(m, c).watched)
    ensures MachineValid(lib, DoExec(m, c))
  {
    var client, m' := ClientOf(m, c), DoExec(m, c);
    assert ClientValid(lib, m.ks, m.mods, |m.log|, client);
    CommitIsStep(lib, m, c);
    assert m'.log[..|m'.log| - 1] == m.log;
    DecisionNotAborted(lib, client.op, client.gets);
    forall o | o in m'.clients
      ensures ClientValid(lib, m'.ks, m'.mods, |m'.log|, m'.clients[o])
    {
      if o != c {
        CommitKeepsOther(lib, m.ks, m.mods, |m.log|, client.plan, m.clients[o]);
      }
    }
  }

  lemma ExecKeeps(lib: Library, m: Machine, c: nat)
    requires MachineValid(lib, m)
    ensures MachineValid(lib, DoExec(m, c))
  {
    var client := ClientOf(m, c);
    if client.Ready? {
      if Unmodified(m.mods, client.watched) {
        CommitKeeps(lib, m, c);
      } else {
        assert ClientValid(lib, m.ks, m.mods, |m.log|, client);
        assert client.since < |m.log|;
        SetKeeps(lib, m, c, DoExec(m, c).clients[c]);
      }
    }
  }

  lemma DoKeeps(lib: Library, m: Machine, cmd: Command)
    requires MachineValid(lib, m)
    ensures MachineValid(lib, Do(lib, m, cmd))
  {
    match cmd
    case Invoke(c, op) => InvokeKeeps(lib, m, c, op);
    case Watch(c) => WatchKeeps(lib, m, c);
    case Get(c) => GetKeeps(lib, m, c);
    case Exec(c) => ExecKeeps(lib, m, c);
  }

  lemma {:induction false} RunValid(lib: Library, cmds: seq<Command>)
    ensures MachineValid(lib, Run(lib, cmds))
  {
    if cmds != [] {
      RunValid(lib, cmds[..|cmds| - 1]);
      DoKeeps(lib, Run(lib, cmds[..|cmds| - 1]), cmds[|cmds| - 1]);
    }
  }
}
