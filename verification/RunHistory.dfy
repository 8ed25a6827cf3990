/**
  * The history a serial apply/delete loop leaves behind: every store call, cluster call, gate check and mapping of
  * the loop, and every store call of the adapters, in order. The store at any moment is the replay of the calls so
  * far.
  */
module RunHistory {
  import opened Desire
  import opened MemoryStore
  import opened StoreHistory
  import opened Conditions
  import opened ApplyTarget

  /** A record as it was read, and how many times its desire had been created by then. */
  datatype Snapshot = Snapshot(rec: Record, incarnation: nat)

  datatype Event =
    | Called(call: Call)                            // an adapter's store call, accepted or refused
    | Read(x: Snapshot)                             // the loop read a record
    | Missed(id: Identity)                          // or found that it is gone
    | StoreFailed(id: Identity)                     // a store call for the desire failed
    | Refused(id: Identity)                         // the store refused a status write
    | ListFailed(ty: DesireType)                    // the listing of a pass failed
    | TimedOut(id: Identity)                        // and it failed by its own deadline
    | StoredApply(id: Identity, listed: nat, spec: ApplySpec, outcome: Condition, status: Status,
                  version: int, reply: Reply)
    | StoredDelete(id: Identity, outcome: Condition, status: Status, version: int, reply: Reply)
    | Began(id: Identity)                           // the reconciliation of one desire
    | GatePassed(id: Identity)
    | Denied                                        // the leadership gate refused once
    | ContextEnded                                  // the leader's context was cancelled otherwise
    | SentApply(id: Identity, obj: Object, spec: ApplySpec)  // a server-side apply of this manifest left the applier
    | AcceptedApply(id: Identity, spec: ApplySpec)  // and the cluster accepted it
    | Mapped(id: Identity, mapping: Mapping)        // the resource of the desire was resolved
    | MappingFailed(id: Identity)
    | SentDelete(id: Identity, obj: Object)
    | AcceptedDelete(id: Identity, obj: Object)
    | NotSent(id: Identity, obj: Object)            // a write call failed at once: its context had ended
    | Probed(id: Identity, obj: Object, cluster: map<Object, bool>, answered: bool)  // a call for `obj` to this cluster
    | TermStarted                                   // another leader takes up the loop
    | TickStarted
    | ApplyPassStarted
    | DeletePassStarted

  type History = seq<Event>

  function ApplyId(t: Target): Identity { Identity(t, TypeApply) }

  predicate IsCreation(e: Event, id: Identity) { e.Called? && Creates(e.call, id) }

  /** The loop stored a status for the desire. */
  predicate Stores(e: Event, id: Identity) { (e.StoredApply? || e.StoredDelete?) && e.id == id }

  /** Where in its tick the loop stands. */
  datatype Phase = Resting | Ticking | Applying | Removing

  predicate Marker(e: Event) { e.TermStarted? || e.TickStarted? || e.ApplyPassStarted? || e.DeletePassStarted? }

  function PhaseOf(log: History): Phase {
    if log == [] then Resting
    else
      match log[|log| - 1]
      case TermStarted => Resting
      case TickStarted => Ticking
      case ApplyPassStarted => Applying
      case DeletePassStarted => Removing
      case _ => PhaseOf(log[..|log| - 1])
  }

  /** The pass that works on desires of a type. */
  function PassOf(ty: DesireType): Phase { if ty == TypeApply then Applying else Removing }

  // --------------------------------------------------------------- the replayed store

  function CallOf(e: Event): Option<Call> {
    match e
    case Called(call) => Some(call)
    case StoredApply(id, _, _, _, status, version, reply) => Some(Call(UpdateApplyStatus(id, status, version), reply))
    case StoredDelete(id, _, status, version, reply) => Some(Call(UpdateDeleteStatus(id, status, version), reply))
    case _ => None
  }

  function Calls(log: History): Log {
    if log == [] then []
    else
      var c := CallOf(log[|log| - 1]);
      Calls(log[..|log| - 1]) + if c.Some? then [c.value] else []
  }

  /** The store after the calls of a history. */
  function StoreOf(lib: Library, log: History): Items { After(lib, Calls(log)) }

  /** The store after `n` events, or after all of them if there are no more. */
  function StoreAfter(lib: Library, log: History, n: nat): Items { StoreOf(lib, if n < |log| then log[..n] else log) }

  /** From the end of the history on, the store is `items`. A proof that needs the replay itself calls ReplayIs. */
  ghost predicate Replays(lib: Library, log: History, items: Items) {
    forall n: nat :: |log| <= n ==> StoreAfter(lib, log, n) == items
  }

  lemma ReplayIs(lib: Library, log: History, items: Items)
    ensures Replays(lib, log, items) <==> items == StoreOf(lib, log)
  {
    if Replays(lib, log, items) {
      assert StoreAfter(lib, log, |log|) == items;
    }
  }

  lemma AppendUnfolds(log: History, e: Event)
    ensures (log + [e])[..|log + [e]| - 1] == log && (log + [e])[|log + [e]| - 1] == e
  {
  }

  lemma StoreAppend(lib: Library, log: History, e: Event)
    ensures CallOf(e).None? ==> StoreOf(lib, log + [e]) == StoreOf(lib, log)
    ensures CallOf(e).Some? ==> StoreOf(lib, log + [e]) == Step(lib, StoreOf(lib, log), CallOf(e).value.op).0
  {
    AppendUnfolds(log, e);
    if CallOf(e).Some? {
      var cs := Calls(log) + [CallOf(e).value];
      assert Calls(log + [e]) == cs && cs[..|cs| - 1] == Calls(log);
    } else {
      assert Calls(log + [e]) == Calls(log);
    }
  }

  // ------------------------------------------------------------ reading a history

  /** How many times a desire was created: its incarnation. */
  function Births(log: History, id: Identity): nat {
    if log == [] then 0
    else Births(log[..|log| - 1], id) + if IsCreation(log[|log| - 1], id) then 1 else 0
  }

  /** Deleted was stored for the target, and no apply was created for it since. */
  predicate Quiet(log: History, t: Target) {
    if log == [] then false
    else
      var e, before := log[|log| - 1], log[..|log| - 1];
      if IsCreation(e, ApplyId(t)) then false
      else if e.StoredDelete? && e.id == Identity(t, TypeDelete) && IsDeleted(e.status) then true
      else Quiet(before, t)
  }

  /** This incarnation's last outcome is Deleted and its mapping has not failed since. */
  predicate Settled(log: History, id: Identity) {
    if log == [] then false
    else
      var e, before := log[|log| - 1], log[..|log| - 1];
      if IsCreation(e, id) || e == MappingFailed(id) then false
      else if e.StoredDelete? && e.id == id then IsDeleted(e.status)
      else Settled(before, id)
  }

  /** The object the running delete pass resolved for the desire. */
  function Resolved(log: History, id: Identity): Option<Object> {
    if log == [] then None
    else
      var e, before := log[|log| - 1], log[..|log| - 1];
      if Marker(e) || e == MappingFailed(id) then None
      else if e.Mapped? && e.id == id then DeletedObject(id.target, e.mapping)
      else Resolved(before, id)
  }

  /** A call for the object was answered, by a cluster without it. */
  predicate FoundAbsent(e: Event, id: Identity, obj: Object) {
    e.Probed? && e.id == id && e.obj == obj && e.answered && obj !in e.cluster
  }

  /** In the running delete pass, this object was absent at some call made for the desire. */
  predicate AbsentThisPass(log: History, id: Identity, obj: Object) {
    if log == [] then false
    else
      var e, before := log[|log| - 1], log[..|log| - 1];
      if Marker(e) then false
      else FoundAbsent(e, id, obj) || AbsentThisPass(before, id, obj)
  }

  /** The object the running pass resolved was absent at some call of the pass. */
  predicate SeenAbsent(log: History, id: Identity) {
    Resolved(log, id).Some? && AbsentThisPass(log, id, Resolved(log, id).value)
  }

  /** In the apply pass that is running, the cluster accepted this manifest for this desire. */
  predicate AppliedThisPass(log: History, id: Identity, spec: ApplySpec) {
    if log == [] then false
    else
      var e, before := log[|log| - 1], log[..|log| - 1];
      if Marker(e) then false
      else e == AcceptedApply(id, spec) || AppliedThisPass(before, id, spec)
  }

  /** In the pass that is running, a store call failed by its own deadline. */
  predicate LateThisPass(log: History) {
    if log == [] then false
    else
      var e, before := log[|log| - 1], log[..|log| - 1];
      if Marker(e) then false else e.TimedOut? || LateThisPass(before)
  }

  /** The snapshot the running pass took of the desire last. */
  function Taken(log: History, id: Identity): Option<Snapshot> {
    if log == [] then None
    else
      var e, before := log[|log| - 1], log[..|log| - 1];
      if Marker(e) then None
      else if e.Read? && e.x.rec.identity == id then Some(e.x)
      else Taken(before, id)
  }

  predicate Ends(e: Event) { e.Denied? || e.ContextEnded? }

  /** The context of the leader that runs the loop has ended, by a denial of the gate or otherwise. */
  predicate EndedThisTerm(log: History) {
    if log == [] then false
    else
      var e, before := log[|log| - 1], log[..|log| - 1];
      !e.TermStarted? && (Ends(e) || EndedThisTerm(before))
  }

  /** The loop starts a tick, a pass, or the reconciliation of a desire. */
  predicate Starts(e: Event) { e.TickStarted? || e.ApplyPassStarted? || e.DeletePassStarted? || e.Began? }

  /** The length of the history when the running pass took up the desire. */
  function BeganLen(log: History, id: Identity): (r: Option<nat>)
    ensures r.Some? ==> 0 < r.value <= |log| && log[r.value - 1] == Began(id)
  {
    if log == [] then None
    else
      var e, before := log[|log| - 1], log[..|log| - 1];
      if e == Began(id) then Some(|log|)
      else if Marker(e) then None
      else BeganLen(before, id)
  }

  /** The loop's last own step was to pass the gate for this desire. */
  predicate Cleared(log: History, id: Identity) {
    if log == [] then false
    else
      var e, before := log[|log| - 1], log[..|log| - 1];
      e == GatePassed(id) || (e.Called? && Cleared(before, id))
  }

  /** The last attempt reported on this incarnation of an apply. */
  function LastReport(log: History, id: Identity): (r: Option<Event>)
    ensures r.Some? ==> r.value.StoredApply? && r.value.id == id
  {
    if log == [] then None
    else
      var e, before := log[|log| - 1], log[..|log| - 1];
      if IsCreation(e, id) then None
      else if e.StoredApply? && e.id == id then Some(e)
      else LastReport(before, id)
  }

  // ------------------------------------------------- what a reported outcome rests on

  /** The event happened between two moments. */
  ghost predicate Happened(log: History, log': History, e: Event) { exists k :: |log| <= k < |log'| && log'[k] == e }

  /** Between two moments a call found the object absent. */
  ghost predicate FoundIn(log: History, log': History, id: Identity, obj: Object) {
    exists k :: |log| <= k < |log'| && FoundAbsent(log'[k], id, obj)
  }

  /**
    * A server-side apply of this manifest was sent for the desire, or its write context had ended before it could be.
    */
  ghost predicate ApplyTried(log: History, log': History, id: Identity, spec: ApplySpec) {
    || Happened(log, log', SentApply(id, Coordinates(id.target), spec))
    || Happened(log, log', NotSent(id, Coordinates(id.target)))
  }

  /** The manifest cannot be read or lacks a field every object has. */
  predicate Unreadable(lib: Library, spec: ApplySpec) {
    var m := lib.manifest(spec.kubeContent);
    m.None? || m.value.apiVersion == "" || m.value.kind == "" || m.value.name == ""
  }

  /**
    * The manifest is unreadable, its resource did not resolve, or it resolved to one that disagrees with the
    * identity.
    */
  ghost predicate Objected(lib: Library, log: History, log': History, id: Identity, spec: ApplySpec) {
    || Unreadable(lib, spec)
    || Happened(log, log', MappingFailed(id))
    || exists mapping :: && Happened(log, log', Mapped(id, mapping))
                         && Disagrees(id.target, lib.manifest(spec.kubeContent).value, mapping)
  }

  /** What an apply outcome says happened between the two moments. */
  ghost predicate ApplyExplained(
    lib: Library, log: History, log': History, id: Identity, spec: ApplySpec, reason: Reason)
  {
    match reason
    case Applied => Happened(log, log', AcceptedApply(id, spec))
    case KubeAPIError => ApplyTried(log, log', id, spec) && !Happened(log, log', AcceptedApply(id, spec))
    case PreCheckFailed => Objected(lib, log, log', id, spec)
    case _ => false
  }

  /** And that since this reconciliation of the desire began. */
  ghost predicate ApplyReason(lib: Library, log: History, id: Identity, spec: ApplySpec, reason: Reason) {
    BeganLen(log, id).Some? && ApplyExplained(lib, log[..BeganLen(log, id).value], log, id, spec, reason)
  }

  /** A GET or DELETE for the object was answered by a cluster that has it. */
  predicate FoundPresent(e: Event, id: Identity, obj: Object, deleting: bool) {
    e.Probed? && e.id == id && e.obj == obj && e.answered && obj in e.cluster && e.cluster[obj] == deleting
  }

  /** A call for the object failed, or could not be made. */
  predicate FailedAt(e: Event, id: Identity, obj: Object) {
    (e.Probed? && e.id == id && e.obj == obj && !e.answered) || e == NotSent(id, obj)
  }

  ghost predicate FailedIn(log: History, log': History, id: Identity, obj: Object) {
    exists k :: |log| <= k < |log'| && FailedAt(log'[k], id, obj)
  }

  /** Between two moments the object was seen present, with its deletion under way or not. */
  ghost predicate SeenIn(log: History, log': History, id: Identity, obj: Object, deleting: bool) {
    exists k :: |log| <= k < |log'| && FoundPresent(log'[k], id, obj, deleting)
  }

  /** After an accepted DELETE the object was seen without a mark. */
  ghost predicate UnmarkedAfter(log: History, log': History, id: Identity, obj: Object) {
    exists i, k ::
      |log| <= i < k < |log'| && log'[i] == AcceptedDelete(id, obj) && FoundPresent(log'[k], id, obj, false)
  }

  /** The first call for the desire saw the object present and unmarked. */
  ghost predicate LiveFirst(log: History, log': History, id: Identity, obj: Object) {
    exists k :: && |log| <= k < |log'| && FoundPresent(log'[k], id, obj, false)
                && forall i :: |log| <= i < k ==> !log'[i].Probed?
  }

  /** A DELETE was sent for the object, or its write context had ended before it could be. */
  ghost predicate DeleteTried(log: History, log': History, id: Identity, obj: Object) {
    Happened(log, log', SentDelete(id, obj)) || Happened(log, log', NotSent(id, obj))
  }

  /** What a delete outcome says happened between the two moments. */
  ghost predicate DeleteExplained(log: History, log': History, id: Identity, obj: Object, reason: Reason) {
    match reason
    case Deleted => FoundIn(log, log', id, obj)
    case WaitingForDeletion => SeenIn(log, log', id, obj, true)
    case KubeAPIError => FailedIn(log, log', id, obj) || UnmarkedAfter(log, log', id, obj)
    case _ => false
  }

  /**
    * The calls for the object tell that outcome, and a DELETE was tried if and only if the first saw the object live.
    */
  ghost predicate CallsTell(log: History, log': History, id: Identity, obj: Object, reason: Reason) {
    && DeleteExplained(log, log', id, obj, reason)
    && (LiveFirst(log, log', id, obj) <==> DeleteTried(log, log', id, obj))
  }

  /** And that since this reconciliation began: its mapping failed, or the calls for the object it resolved tell it. */
  ghost predicate DeleteReason(log: History, id: Identity, reason: Reason) {
    && BeganLen(log, id).Some?
    && var began := log[..BeganLen(log, id).value];
    if reason == PreCheckFailed then Happened(began, log, MappingFailed(id))
    else
      && Resolved(log, id).Some?
      && CallsTell(began, log, id, Resolved(log, id).value, reason)
  }

  // ----------------------------------------------------- what each event may follow

  /** Everything but the status writes of the apply and delete controllers. */
  predicate AdapterOp(op: Op) { !op.UpdateApplyStatus? && !op.UpdateDeleteStatus? }

  /** The stored status reports the outcome, and the one it replaces did not. */
  ghost predicate Changes(store: Items, id: Identity, outcome: Condition, status: Status) {
    id in store && Matched(outcome, status) && !Matched(outcome, store[id].status)
  }

  /** The reply of a store call is the store's. */
  ghost predicate Honest(lib: Library, store: Items, e: Event) {
    CallOf(e).Some? ==> CallOf(e).value.reply == Step(lib, store, CallOf(e).value.op).1
  }

  /**
    * A cluster write follows a passed gate check of its own, with nothing of the loop in between, under a context
    * that has not ended.
    */
  ghost predicate Permitted(before: History, id: Identity) { Cleared(before, id) && !EndedThisTerm(before) }

  /** The running pass works from a snapshot of the desire with this manifest. */
  predicate Carries(before: History, id: Identity, spec: ApplySpec) {
    Taken(before, id).Some? && Taken(before, id).value.rec.apply == Some(spec)
  }

  /**
    * What is reported on an apply is the snapshot of the running pass: its incarnation, manifest, version and
    * generation.
    */
  predicate ReportsOn(before: History, id: Identity, listed: nat, spec: ApplySpec, version: int, generation: int) {
    && Carries(before, id, spec)
    && var x := Taken(before, id).value;
    x.incarnation == listed && x.rec.version == version && x.rec.generation == generation
  }

  ghost predicate EventGood(lib: Library, store: Items, before: History, e: Event) {
    && Honest(lib, store, e)
    && (Starts(e) ==> !EndedThisTerm(before))
    && match e
       case Called(call) => AdapterOp(call.op)
       case Read(x) =>
         && x.rec.identity in store && store[x.rec.identity] == x.rec
         && x.incarnation == Births(before, x.rec.identity)
         && (x.rec.identity.ty == TypeApply ==> Taken(before, x.rec.identity).None?)
       case Missed(id) => id !in store
       case Began(id) => id.ty == TypeApply ==> !LateThisPass(before)
       case ApplyPassStarted => PhaseOf(before) == Ticking
       case DeletePassStarted => PhaseOf(before) == Applying
       case GatePassed(id) => PhaseOf(before) == PassOf(id.ty)
       case Mapped(id, _) => PhaseOf(before) == PassOf(id.ty)
       case SentApply(id, obj, spec) =>
         && id.ty == TypeApply && Permitted(before, id) && Carries(before, id, spec)
         && !Quiet(before, id.target) && obj == Coordinates(id.target)
       case AcceptedApply(id, spec) =>
         before != [] && before[|before| - 1] == SentApply(id, Coordinates(id.target), spec)
       case StoredApply(id, listed, spec, outcome, status, version, reply) =>
         && !reply.Failed? && Changes(store, id, outcome, status)
         && ReportsOn(before, id, listed, spec, version, outcome.observedGeneration)
         && (outcome.reason == Applied ==> AppliedThisPass(before, id, spec))
         && ApplyReason(lib, before, id, spec, outcome.reason)
       case StoredDelete(id, outcome, status, _, reply) =>
         && !reply.Failed? && Changes(store, id, outcome, status)
         && !Settled(before, id)
         && (IsDeleted(status) && !IsDeleted(store[id].status) ==> SeenAbsent(before, id))
         && (DeleteReason(before, id, outcome.reason) || (outcome.reason == Deleted && IsDeleted(store[id].status)))
       case SentDelete(id, obj) =>
         && id.ty == TypeDelete && Permitted(before, id)
         && !Settled(before, id) && Resolved(before, id) == Some(obj)
       case Probed(id, obj, _, _) => !Settled(before, id) && Resolved(before, id) == Some(obj)
       case _ => true
  }

  ghost predicate GoodAt(lib: Library, log: History, j: nat)
    requires j < |log|
  {
    EventGood(lib, StoreOf(lib, log[..j]), log[..j], log[j])
  }

  ghost predicate LogGood(lib: Library, log: History) {
    forall j: nat :: j < |log| ==> GoodAt(lib, log, j)
  }

  lemma LogAppend(lib: Library, log: History, e: Event)
    requires LogGood(lib, log) && EventGood(lib, StoreOf(lib, log), log, e)
    ensures LogGood(lib, log + [e])
  {
    var log' := log + [e];
    forall j: nat | j < |log'|
      ensures GoodAt(lib, log', j)
    {
      if j < |log| {
        assert log'[..j] == log[..j];
        assert GoodAt(lib, log, j);
      } else {
        assert log'[..j] == log;
      }
    }
  }

  // ------------------------------------------------------- what passive events leave

  /** Others add only adapter calls and the end of the context. */
  ghost predicate OthersOnly(log: History, log': History) {
    log <= log' && forall i :: |log| <= i < |log'| ==> log'[i].Called? || Ends(log'[i])
  }

  /** Events that store, map, send, probe and read nothing. */
  predicate Calm(e: Event) {
    || e.Called? || Ends(e) || e.Missed? || e.GatePassed?
    || e.StoreFailed? || e.Refused? || e.ListFailed?
  }

  /** These, and reads. */
  predicate Passive(e: Event) { Calm(e) || e.Read? }

  ghost predicate CalmOnly(log: History, log': History) {
    log <= log' && forall i :: |log| <= i < |log'| ==> Calm(log'[i])
  }

  lemma {:induction false} CalmTakesNothing(log: History, log': History, id: Identity)
    requires CalmOnly(log, log')
    ensures PassiveOnly(log, log') && Taken(log', id) == Taken(log, id)
    decreases |log'|
  {
    if |log'| == |log| {
      assert log' == log;
    } else {
      CalmTakesNothing(log, log'[..|log'| - 1], id);
    }
  }

  ghost predicate PassiveOnly(log: History, log': History) {
    log <= log' && forall i :: |log| <= i < |log'| ==> Passive(log'[i])
  }

  /** No tick or pass began between two moments. */
  ghost predicate SamePass(log: History, log': History) {
    log <= log' && forall i :: |log| <= i < |log'| ==> !Marker(log'[i])
  }

  /** No status was stored between two moments. */
  ghost predicate Storeless(log: History, log': History) {
    log <= log' && forall i :: |log| <= i < |log'| ==> !log'[i].StoredApply? && !log'[i].StoredDelete?
  }

  /** Nor did a pass or a reconciliation begin. */
  ghost predicate Within(log: History, log': History) {
    Storeless(log, log') && SamePass(log, log') && forall i :: |log| <= i < |log'| ==> !log'[i].Began?
  }

  lemma {:induction false} WithinKeepsBegan(log: History, log': History, id: Identity)
    requires Within(log, log')
    ensures BeganLen(log', id) == BeganLen(log, id)
    decreases |log'|
  {
    if |log'| == |log| {
      assert log' == log;
    } else {
      WithinKeepsBegan(log, log'[..|log'| - 1], id);
    }
  }

  lemma {:induction false} SamePassKeepsPhase(log: History, log': History)
    requires SamePass(log, log')
    ensures PhaseOf(log') == PhaseOf(log)
    decreases |log'|
  {
    if |log'| == |log| {
      assert log' == log;
    } else {
      SamePassKeepsPhase(log, log'[..|log'| - 1]);
    }
  }

  /** No store call failed by its own deadline between two moments. */
  ghost predicate OnTime(log: History, log': History) {
    log <= log' && forall i :: |log| <= i < |log'| ==> !log'[i].TimedOut?
  }

  lemma OnTimeJoin(log: History, mid: History, log': History)
    requires OnTime(log, mid) && OnTime(mid, log')
    ensures OnTime(log, log')
  {
    assert forall i :: |log| <= i < |mid| ==> log'[i] == mid[i];
  }

  lemma PassiveIsOnTime(log: History, log': History)
    requires PassiveOnly(log, log') || CalmOnly(log, log')
    ensures OnTime(log, log')
  {
  }

  lemma {:induction false} OnTimeStays(log: History, log': History)
    requires OnTime(log, log') && SamePass(log, log')
    ensures LateThisPass(log') == LateThisPass(log)
    decreases |log'|
  {
    if |log'| == |log| {
      assert log' == log;
    } else {
      OnTimeStays(log, log'[..|log'| - 1]);
    }
  }

  lemma SamePassJoin(log: History, mid: History, log': History)
    requires SamePass(log, mid) && SamePass(mid, log')
    ensures SamePass(log, log')
  {
    assert forall i :: |log| <= i < |mid| ==> log'[i] == mid[i];
  }

  lemma PassiveIsWithin(log: History, log': History)
    requires PassiveOnly(log, log')
    ensures Within(log, log')
  {
  }

  lemma WithinJoin(log: History, mid: History, log': History)
    requires (PassiveOnly(log, mid) || Within(log, mid)) && (PassiveOnly(mid, log') || Within(mid, log'))
    ensures Within(log, log')
  {
    assert forall i :: |log| <= i < |mid| ==> log'[i] == mid[i];
  }

  lemma HappenedLater(log: History, mid: History, log': History, e: Event)
    requires log <= mid <= log' && Happened(log, mid, e)
    ensures Happened(log, log', e)
  {
    var k :| |log| <= k < |mid| && mid[k] == e;
    assert log'[k] == e;
  }

  lemma HappenedEarlier(log: History, mid: History, log': History, e: Event)
    requires log <= mid <= log' && Happened(mid, log', e)
    ensures Happened(log, log', e)
  {
  }

  lemma HappenedSplits(log: History, mid: History, log': History, e: Event)
    requires log <= mid <= log'
    ensures Happened(log, log', e) <==> Happened(log, mid, e) || Happened(mid, log', e)
  {
    if Happened(log, mid, e) {
      HappenedLater(log, mid, log', e);
    }
    if Happened(log, log', e) && !Happened(mid, log', e) {
      var k :| |log| <= k < |log'| && log'[k] == e;
      assert mid[k] == e;
    }
  }

  lemma HappenedLast(log: History, log': History, e: Event)
    requires log < log' && log'[|log'| - 1] == e
    ensures Happened(log, log', e)
  {
  }

  /** Nothing was taken in the running pass yet. */
  ghost predicate NoneTaken(log: History) { forall id :: Taken(log, id).None? }

  lemma MarkerTakesNothing(log: History, e: Event)
    requires Marker(e)
    ensures NoneTaken(log + [e])
  {
    AppendUnfolds(log, e);
  }

  lemma CalmTakesNone(log: History, log': History)
    requires CalmOnly(log, log')
    ensures forall id :: Taken(log', id) == Taken(log, id)
  {
    forall id
      ensures Taken(log', id) == Taken(log, id)
    {
      CalmTakesNothing(log, log', id);
    }
  }

  lemma FoundSplits(log: History, mid: History, log': History, id: Identity, obj: Object)
    requires log <= mid <= log'
    ensures FoundIn(log, log', id, obj) <==> FoundIn(log, mid, id, obj) || FoundIn(mid, log', id, obj)
  {
    if FoundIn(log, mid, id, obj) {
      var k :| |log| <= k < |mid| && FoundAbsent(mid[k], id, obj);
      assert FoundAbsent(log'[k], id, obj);
    }
    if FoundIn(log, log', id, obj) && !FoundIn(mid, log', id, obj) {
      var k :| |log| <= k < |log'| && FoundAbsent(log'[k], id, obj);
      assert FoundAbsent(mid[k], id, obj);
    }
  }

  lemma PassiveFindsNothing(log: History, log': History, id: Identity, obj: Object)
    requires PassiveOnly(log, log')
    ensures !FoundIn(log, log', id, obj)
  {
  }

  /** Besides passive events, only these happened between two moments. */
  ghost predicate Only(log: History, log': History, es: set<Event>) {
    log <= log' && forall i :: |log| <= i < |log'| ==> Passive(log'[i]) || log'[i] in es
  }

  lemma PassiveIsOnly(log: History, log': History, es: set<Event>)
    requires PassiveOnly(log, log')
    ensures Only(log, log', es)
  {
  }

  lemma OnlyAppend(log: History, log': History, es: set<Event>, e: Event)
    requires Only(log, log', es) && e in es
    ensures Only(log, log' + [e], es)
  {
  }

  lemma OnlyWidens(log: History, log': History, es: set<Event>, more: set<Event>)
    requires Only(log, log', es) && es <= more
    ensures Only(log, log', more)
  {
  }

  lemma OnlyJoin(log: History, mid: History, log': History, es: set<Event>)
    requires Only(log, mid, es) && Only(mid, log', es)
    ensures Only(log, log', es)
  {
    assert forall i :: |log| <= i < |mid| ==> log'[i] == mid[i];
  }

  lemma OnlyThese(log: History, log': History, es: set<Event>, e: Event)
    requires Only(log, log', es) && !Passive(e) && e !in es
    ensures !Happened(log, log', e)
  {
  }

  /** A cluster call, its acceptance, or its failure; and a store call that fails by its deadline. */
  predicate ClusterCall(e: Event) {
    e.SentApply? || e.SentDelete? || e.AcceptedApply? || e.AcceptedDelete? || e.NotSent? || e.Probed? || e.TimedOut?
  }

  /** Nothing but cluster calls and passive events between two moments. */
  ghost predicate CallsOnly(log: History, log': History) {
    log <= log' && forall i :: |log| <= i < |log'| ==> Passive(log'[i]) || ClusterCall(log'[i])
  }

  lemma PassiveIsCalls(log: History, log': History)
    requires PassiveOnly(log, log')
    ensures CallsOnly(log, log')
  {
  }

  lemma CallsJoin(log: History, mid: History, log': History)
    requires (PassiveOnly(log, mid) || CallsOnly(log, mid)) && (PassiveOnly(mid, log') || CallsOnly(mid, log'))
    ensures CallsOnly(log, log')
  {
    assert forall i :: |log| <= i < |mid| ==> log'[i] == mid[i];
  }

  lemma CallsAreWithin(log: History, log': History)
    requires CallsOnly(log, log')
    ensures Within(log, log')
  {
  }

  /** What happened in a part of the time happened in all of it. */
  lemma TroubleWithin(log: History, from: History, to: History, log': History, id: Identity, obj: Object)
    requires log <= from <= to <= log'
    ensures FailedIn(from, to, id, obj) ==> FailedIn(log, log', id, obj)
    ensures UnmarkedAfter(from, to, id, obj) ==> UnmarkedAfter(log, log', id, obj)
    ensures forall deleting :: SeenIn(from, to, id, obj, deleting) ==> SeenIn(log, log', id, obj, deleting)
    ensures FoundIn(from, to, id, obj) ==> FoundIn(log, log', id, obj)
  {
    assert forall k :: |from| <= k < |to| ==> to[k] == log'[k];
  }

  lemma HappenedWithin(log: History, from: History, to: History, log': History, e: Event)
    requires log <= from <= to <= log'
    ensures Happened(from, to, e) ==> Happened(log, log', e)
  {
    if Happened(from, to, e) {
      HappenedEarlier(log, from, to, e);
      HappenedLater(log, to, log', e);
    }
  }

  /** An accepted DELETE, and later an unmarked object. */
  lemma UnmarkedJoin(log: History, mid: History, log': History, id: Identity, obj: Object)
    requires log <= mid <= log' && Happened(log, mid, AcceptedDelete(id, obj)) && SeenIn(mid, log', id, obj, false)
    ensures UnmarkedAfter(log, log', id, obj)
  {
    var i :| |log| <= i < |mid| && mid[i] == AcceptedDelete(id, obj);
    var k :| |mid| <= k < |log'| && FoundPresent(log'[k], id, obj, false);
    assert log'[i] == AcceptedDelete(id, obj);
  }

  /** Passive events take no reason away. */
  lemma ReasonsStand(
    lib: Library, log: History, mid: History, log': History, id: Identity, spec: ApplySpec, reason: Reason)
    requires log <= mid && PassiveOnly(mid, log') && ApplyExplained(lib, log, mid, id, spec, reason)
    ensures ApplyExplained(lib, log, log', id, spec, reason)
  {
    HappenedSplits(log, mid, log', AcceptedApply(id, spec));
    HappenedSplits(log, mid, log', SentApply(id, Coordinates(id.target), spec));
    HappenedSplits(log, mid, log', NotSent(id, Coordinates(id.target)));
    HappenedSplits(log, mid, log', MappingFailed(id));
    if reason == PreCheckFailed && !Unreadable(lib, spec) && !Happened(log, mid, MappingFailed(id)) {
      var mapping :| && Happened(log, mid, Mapped(id, mapping))
                     && Disagrees(id.target, lib.manifest(spec.kubeContent).value, mapping);
      HappenedLater(log, mid, log', Mapped(id, mapping));
    }
  }

  lemma LiveFirstStands(log: History, mid: History, log': History, id: Identity, obj: Object)
    requires log <= mid && PassiveOnly(mid, log')
    ensures LiveFirst(log, mid, id, obj) <==> LiveFirst(log, log', id, obj)
    ensures DeleteTried(log, mid, id, obj) <==> DeleteTried(log, log', id, obj)
  {
    HappenedSplits(log, mid, log', SentDelete(id, obj));
    HappenedSplits(log, mid, log', NotSent(id, obj));
    assert forall i :: |log| <= i < |mid| ==> log'[i] == mid[i];
    if LiveFirst(log, mid, id, obj) {
      var k :| && |log| <= k < |mid| && FoundPresent(mid[k], id, obj, false)
               && forall i :: |log| <= i < k ==> !mid[i].Probed?;
      assert FoundPresent(log'[k], id, obj, false);
    }
    if LiveFirst(log, log', id, obj) {
      var k :| && |log| <= k < |log'| && FoundPresent(log'[k], id, obj, false)
               && forall i :: |log| <= i < k ==> !log'[i].Probed?;
      assert k < |mid| && FoundPresent(mid[k], id, obj, false);
    }
  }

  lemma ApplyReasonStands(lib: Library, log: History, log': History, id: Identity, spec: ApplySpec, reason: Reason)
    requires PassiveOnly(log, log') && ApplyReason(lib, log, id, spec, reason)
    ensures ApplyReason(lib, log', id, spec, reason)
  {
    PassiveIsWithin(log, log');
    WithinKeepsBegan(log, log', id);
    var n := BeganLen(log, id).value;
    assert log'[..n] == log[..n];
    ReasonsStand(lib, log[..n], log, log', id, spec, reason);
  }

  lemma DeleteReasonStands(log: History, log': History, id: Identity, reason: Reason)
    requires PassiveOnly(log, log') && DeleteReason(log, id, reason)
    ensures DeleteReason(log', id, reason)
  {
    PassiveIsWithin(log, log');
    WithinKeepsBegan(log, log', id);
    PassiveChangesNothing(log, log', id);
    var n := BeganLen(log, id).value;
    var began := log[..n];
    assert log'[..n] == began;
    HappenedSplits(began, log, log', MappingFailed(id));
    if reason != PreCheckFailed {
      var obj := Resolved(log, id).value;
      TroubleWithin(began, began, log, log', id, obj);
      LiveFirstStands(began, log, log', id, obj);
    }
  }

  /** Passive events neither settle a desire nor change what the running pass has resolved, seen and applied. */
  lemma {:induction false} PassiveChangesNothing(log: History, log': History, id: Identity)
    requires PassiveOnly(log, log')
    ensures SamePass(log, log') && PhaseOf(log') == PhaseOf(log)
    ensures Settled(log', id) ==> Settled(log, id)
    ensures Quiet(log', id.target) ==> Quiet(log, id.target)
    ensures Resolved(log', id) == Resolved(log, id)
    ensures forall obj :: AbsentThisPass(log', id, obj) <==> AbsentThisPass(log, id, obj)
    ensures forall spec :: AppliedThisPass(log', id, spec) <==> AppliedThisPass(log, id, spec)
    decreases |log'|
  {
    if |log'| == |log| {
      assert log' == log;
    } else {
      PassiveChangesNothing(log, log'[..|log'| - 1], id);
    }
  }

  /** A mapping resolves the desire's object, and a failure unsettles the desire. */
  lemma MappingResolves(log: History, id: Identity, e: Event)
    requires e == MappingFailed(id) || (e.Mapped? && e.id == id)
    ensures Within(log, log + [e])
    ensures e.Mapped? ==> Resolved(log + [e], id) == DeletedObject(id.target, e.mapping)
    ensures e.MappingFailed? ==> !Settled(log + [e], id)
  {
    AppendUnfolds(log, e);
  }

  /** What a pass has resolved, it resolved in a delete pass. */
  lemma {:induction false} ResolvedWhileRemoving(lib: Library, log: History, n: nat, id: Identity)
    requires LogGood(lib, log) && n <= |log| && Resolved(log[..n], id).Some? && id.ty == TypeDelete
    ensures PhaseOf(log[..n]) == Removing
    decreases n
  {
    assert log[..n][..n - 1] == log[..n - 1];
    if log[n - 1].Mapped? && log[n - 1].id == id {
      assert GoodAt(lib, log, n - 1);
    } else {
      ResolvedWhileRemoving(lib, log, n - 1, id);
    }
  }

  /** Without a denial, what others do does not come between a gate check and the write. */
  lemma {:induction false} ClearedStays(log: History, log': History, id: Identity)
    requires OthersOnly(log, log') && !EndedThisTerm(log') && Cleared(log, id)
    ensures Cleared(log', id)
    decreases |log'|
  {
    if |log'| == |log| {
      assert log' == log;
    } else {
      ClearedStays(log, log'[..|log'| - 1], id);
    }
  }
}
