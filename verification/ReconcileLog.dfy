/** The invariant that ties the store, the history and the gate of a run together, and the steps that keep it. */
module ReconcileLog {
  import opened Desire
  import opened MemoryStore
  import opened StoreHistory
  import opened Conditions
  import opened RunHistory

  // ------------------------------------------------------- the store and the log

  /**
    * Condition lists are keyed by type, a status is only ever written with a version bump, and on a delete the
    * reverse.
    */
  ghost predicate StatusGood(id: Identity, rec: Record) {
    && Keyed(rec.status)
    && (rec.status == NO_STATUS || rec.version >= 2)
    && (id.ty == TypeDelete && rec.status == NO_STATUS ==> rec.version == 1)
  }

  ghost predicate StoreGood(lib: Library, items: Items) {
    Consistent(lib, items) && forall id :: id in items ==> StatusGood(id, items[id])
  }

  ghost predicate QuietGood(items: Items, log: History) {
    forall t :: Quiet(log, t) ==> ApplyId(t) !in items
  }

  function DeletedCondition(generation: int): Condition {
    Condition(Successful, True, generation, Deleted, "", 0)
  }

  /** A settled delete desire already reports what a further pass would report. */
  ghost predicate SettledGood(items: Items, log: History) {
    forall id :: id in items && id.ty == TypeDelete && Settled(log, id) ==>
                   Matched(DeletedCondition(items[id].generation), items[id].status)
  }

  /**
    * The condition on an apply desire is the outcome of the last reported attempt; if that attempt listed this
    * incarnation and the generations match, it was an attempt at a spec with the current JSON value.
    */
  ghost predicate FreshRecord(lib: Library, log: History, id: Identity, rec: Record)
    requires rec.apply.Some?
  {
    var c := FindCondition(rec.status.conditions, Successful);
    c.Some? ==>
      var e := LastReport(log, id);
      && e.Some? && SameOutcome(c.value, e.value.outcome)
      && (e.value.listed == Births(log, id) ==>
            && c.value.observedGeneration <= rec.generation
            && (c.value.observedGeneration == rec.generation ==> SpecEqual(lib, e.value.spec, rec.apply.value)))
  }

  ghost predicate FreshGood(lib: Library, items: Items, log: History) {
    forall id :: id in items && id.ty == TypeApply ==> items[id].apply.Some? && FreshRecord(lib, log, id, items[id])
  }

  ghost predicate Good(lib: Library, items: Items, log: History, cancelled: bool) {
    && Replays(lib, log, items)
    && StoreGood(lib, items)
    && QuietGood(items, log)
    && SettledGood(items, log)
    && FreshGood(lib, items, log)
    && LogGood(lib, log)
    && cancelled == EndedThisTerm(log)
  }

  lemma StartGood(lib: Library)
    ensures Good(lib, map[], [], false)
  {
    ReplayIs(lib, [], map[]);
  }

  /** Whether the context has ended after one more event. */
  predicate CancelledAfter(cancelled: bool, e: Event) { !e.TermStarted? && (Ends(e) || cancelled) }

  // ------------------------------------------------------------------ adapters

  /** What an adapter's call does to one apply or delete record that is present after it. */
  ghost predicate AdapterEffect(lib: Library, items: Items, items': Items, c: Call, id: Identity)
    requires id in items'
  {
    if Creates(c, id) then
      items'[id].status == NO_STATUS && items'[id].version == 1
    else
      id in items &&
      (|| items'[id] == items[id]
       || (&& id.ty == TypeApply && c.op.UpdateApplySpec? && Writes(c, id) && ValidSpec(lib, c.op.spec)
           && items[id].apply.Some? && items'[id] == WithSpec(lib, items[id], c.op.spec)))
  }

  lemma CreateEffect(lib: Library, items: Items, c: Call, id: Identity)
    requires Consistent(lib, items) && id.ty != TypeRead
    requires c.op.CreateApply? || c.op.CreateDelete? || c.op.CreateRead?
    requires c.reply == Step(lib, items, c.op).1 && id in Step(lib, items, c.op).0
    ensures AdapterEffect(lib, items, Step(lib, items, c.op).0, c, id)
  {
    if !Accepted(c) {
      FailureChangesNothing(lib, items, c.op);
    }
  }

  lemma AdapterStep(lib: Library, items: Items, c: Call, id: Identity)
    requires Consistent(lib, items) && AdapterOp(c.op) && id.ty != TypeRead
    requires c.reply == Step(lib, items, c.op).1 && id in Step(lib, items, c.op).0
    ensures AdapterEffect(lib, items, Step(lib, items, c.op).0, c, id)
  {
    if c.op.CreateApply? || c.op.CreateDelete? || c.op.CreateRead? {
      CreateEffect(lib, items, c, id);
    } else {
      OtherAdapterStep(lib, items, c, id);
    }
  }

  lemma OtherAdapterStep(lib: Library, items: Items, c: Call, id: Identity)
    requires AdapterOp(c.op) && id.ty != TypeRead
    requires !(c.op.CreateApply? || c.op.CreateDelete? || c.op.CreateRead?)
    requires c.reply == Step(lib, items, c.op).1 && id in Step(lib, items, c.op).0
    ensures AdapterEffect(lib, items, Step(lib, items, c.op).0, c, id)
  {
    if c.op.UpdateApplySpec? {
    } else {
      assert id in items && Step(lib, items, c.op).0[id] == items[id];
    }
  }

  /**
    * Between two moments without a status write: within one incarnation an apply or delete record keeps its status,
    * and is as it was or carries a later version; a new incarnation has no status. Incarnations only count up.
    */
  ghost predicate Evolves(items: Items, log: History, items': Items, log': History) {
    && log <= log'
    && forall id: Identity :: id.ty != TypeRead ==>
         && Births(log, id) <= Births(log', id)
         && (id in items' ==>
               if Births(log', id) == Births(log, id) then
                 && id in items && items'[id].status == items[id].status
                 && (items'[id] == items[id] || items'[id].version > items[id].version)
               else items'[id].status == NO_STATUS)
  }

  /** The running pass works from the same snapshots. */
  ghost predicate SameReads(log: History, log': History) {
    forall id :: Taken(log', id) == Taken(log, id)
  }

  lemma AdapterFresh(lib: Library, items: Items, log: History, c: Call, id: Identity)
    requires StoreGood(lib, items) && FreshGood(lib, items, log)
    requires AdapterOp(c.op) && c.reply == Step(lib, items, c.op).1
    requires id in Step(lib, items, c.op).0 && id.ty == TypeApply && Step(lib, items, c.op).0[id].apply.Some?
    ensures FreshRecord(lib, log + [Called(c)], id, Step(lib, items, c.op).0[id])
  {
    AdapterStep(lib, items, c, id);
    AppendUnfolds(log, Called(c));
    if !Creates(c, id) {
      assert FreshRecord(lib, log, id, items[id]);
      assert LastReport(log + [Called(c)], id) == LastReport(log, id);
      assert Births(log + [Called(c)], id) == Births(log, id);
    }
  }

  lemma AdapterKeepsStore(lib: Library, items: Items, c: Call)
    requires StoreGood(lib, items) && AdapterOp(c.op) && c.reply == Step(lib, items, c.op).1
    ensures StoreGood(lib, Step(lib, items, c.op).0)
  {
    var items' := Step(lib, items, c.op).0;
    StepKeepsConsistent(lib, items, c.op);
    forall id | id in items'
      ensures StatusGood(id, items'[id])
    {
      if id.ty != TypeRead {
        AdapterStep(lib, items, c, id);
      } else {
        ReadStatusUntouched(lib, items, c, id);
      }
    }
  }

  lemma ReadStatusUntouched(lib: Library, items: Items, c: Call, id: Identity)
    requires AdapterOp(c.op) && id.ty == TypeRead && id in Step(lib, items, c.op).0
    ensures
      var rec' := Step(lib, items, c.op).0[id];
      rec'.status == NO_STATUS || (id in items && rec'.status == items[id].status && rec'.version >= items[id].version)
  {
  }

  /** An adapter's call keeps everything the loop relies on. */
  lemma AdapterKeeps(lib: Library, items: Items, log: History, cancelled: bool, c: Call)
    requires Good(lib, items, log, cancelled)
    requires AdapterOp(c.op) && c.reply == Step(lib, items, c.op).1
    ensures Good(lib, Step(lib, items, c.op).0, log + [Called(c)], cancelled)
    ensures Evolves(items, log, Step(lib, items, c.op).0, log + [Called(c)])
    ensures SameReads(log, log + [Called(c)])
  {
    AppendUnfolds(log, Called(c));
    var items', log' := Step(lib, items, c.op).0, log + [Called(c)];
    AdapterKeepsStore(lib, items, c);
    ReplayIs(lib, log, items);
    StoreAppend(lib, log, Called(c));
    ReplayIs(lib, log', items');
    LogAppend(lib, log, Called(c));
    forall id | id in items' && id.ty != TypeRead
      ensures AdapterEffect(lib, items, items', c, id)
    {
      AdapterStep(lib, items, c, id);
    }
    AdapterKeepsClaims(lib, items, log, items', c);
    forall id | id in items' && id.ty == TypeApply
      ensures items'[id].apply.Some? && FreshRecord(lib, log', id, items'[id])
    {
      assert WellFormed(lib, id, items'[id]);
      AdapterFresh(lib, items, log, c, id);
    }
  }

  lemma AdapterKeepsClaims(lib: Library, items: Items, log: History, items': Items, c: Call)
    requires QuietGood(items, log) && SettledGood(items, log) && AdapterOp(c.op)
    requires forall id :: id in items' && id.ty != TypeRead ==> AdapterEffect(lib, items, items', c, id)
    ensures QuietGood(items', log + [Called(c)]) && SettledGood(items', log + [Called(c)])
    ensures Evolves(items, log, items', log + [Called(c)])
  {
    AppendUnfolds(log, Called(c));
    forall t | ApplyId(t) in items'
      ensures !Quiet(log + [Called(c)], t)
    {
      assert AdapterEffect(lib, items, items', c, ApplyId(t));
    }
  }

  // ------------------------------------------------------------- the loop itself

  /** Calls and checks of the loop that store nothing. */
  lemma EventKeeps(lib: Library, items: Items, log: History, cancelled: bool, e: Event)
    requires Good(lib, items, log, cancelled) && EventGood(lib, items, log, e)
    requires CallOf(e).None?
    ensures Good(lib, items, log + [e], CancelledAfter(cancelled, e))
    ensures Evolves(items, log, items, log + [e])
    ensures !Marker(e) && !e.Read? ==> SameReads(log, log + [e])
  {
    ReplayIs(lib, log, items);
    LogAppend(lib, log, e);
    StoreAppend(lib, log, e);
    ReplayIs(lib, log + [e], items);
    AppendUnfolds(log, e);
    forall id | id in items && id.ty == TypeApply
      ensures FreshRecord(lib, log + [e], id, items[id])
    {
      assert FreshRecord(lib, log, id, items[id]);
      assert LastReport(log + [e], id) == LastReport(log, id) && Births(log + [e], id) == Births(log, id);
    }
  }

  /**
    * A snapshot the loop works from, for which it has stored nothing since: while its incarnation lasts and its
    * version stands, the record is still what was read; a later incarnation has no status yet.
    */
  ghost predicate Listed(lib: Library, items: Items, log: History, x: Snapshot) {
    var id := x.rec.identity;
    && id.ty != TypeRead && WellFormed(lib, id, x.rec) && StatusGood(id, x.rec)
    && Read(x) in log && x.incarnation <= Births(log, id)
    && (id.ty == TypeApply ==> Taken(log, id) == Some(x))
    && (id in items ==>
          if Births(log, id) == x.incarnation then items[id] == x.rec || items[id].version > x.rec.version
          else items[id].status == NO_STATUS)
  }

  ghost predicate AllListed(lib: Library, items: Items, log: History, listed: set<Snapshot>) {
    forall x :: x in listed ==> Listed(lib, items, log, x)
  }

  /** What is read now is listed. */
  lemma ListedNow(lib: Library, items: Items, log: History, x: Snapshot)
    requires StoreGood(lib, items) && x.rec.identity.ty != TypeRead
    requires x.rec.identity in items && items[x.rec.identity] == x.rec && x.incarnation == Births(log, x.rec.identity)
    ensures Listed(lib, items, log + [Read(x)], x)
  {
    AppendUnfolds(log, Read(x));
    assert (log + [Read(x)])[|log|] == Read(x);
    assert WellFormed(lib, x.rec.identity, x.rec) && StatusGood(x.rec.identity, x.rec);
  }

  lemma AllListedEvolve(lib: Library, items: Items, log: History, items': Items, log': History, listed: set<Snapshot>)
    requires AllListed(lib, items, log, listed) && Evolves(items, log, items', log') && SameReads(log, log')
    ensures AllListed(lib, items', log', listed)
  {
    forall x | x in listed
      ensures Listed(lib, items', log', x)
    {
      assert Listed(lib, items, log, x);
      assert x.rec.identity.ty != TypeRead;
    }
  }

  /** A read takes no snapshot of another desire away, and an apply is read once in a pass. */
  lemma OthersListedAfterRead(lib: Library, items: Items, log: History, listed: set<Snapshot>, x: Snapshot)
    requires AllListed(lib, items, log, listed)
    requires x.rec.identity.ty == TypeApply ==> Taken(log, x.rec.identity).None?
    ensures AllListed(lib, items, log + [Read(x)], listed)
  {
    AppendUnfolds(log, Read(x));
    forall y | y in listed
      ensures Listed(lib, items, log + [Read(x)], y)
    {
      assert Listed(lib, items, log, y);
    }
  }

  /** Reading a record keeps the invariant and adds a valid snapshot. */
  lemma SnapshotKeeps(lib: Library, items: Items, log: History, cancelled: bool, listed: set<Snapshot>, id: Identity)
    requires Good(lib, items, log, cancelled) && AllListed(lib, items, log, listed) && id.ty != TypeRead && id in items
    requires id.ty == TypeApply ==> Taken(log, id).None?
    ensures
      var x := Snapshot(items[id], Births(log, id));
      && x.rec.identity == id && Good(lib, items, log + [Read(x)], cancelled)
      && AllListed(lib, items, log + [Read(x)], listed + {x})
  {
    var x := Snapshot(items[id], Births(log, id));
    assert WellFormed(lib, id, items[id]);
    EventKeeps(lib, items, log, cancelled, Read(x));
    ListedNow(lib, items, log, x);
    OthersListedAfterRead(lib, items, log, listed, x);
  }

  /** The same for the invariant and the snapshots together: an adapter's call. */
  lemma AdapterKeepsAll(lib: Library, items: Items, log: History, cancelled: bool, listed: set<Snapshot>, c: Call)
    requires Good(lib, items, log, cancelled) && AllListed(lib, items, log, listed)
    requires AdapterOp(c.op) && c.reply == Step(lib, items, c.op).1
    ensures Good(lib, Step(lib, items, c.op).0, log + [Called(c)], cancelled)
    ensures AllListed(lib, Step(lib, items, c.op).0, log + [Called(c)], listed)
  {
    AdapterKeeps(lib, items, log, cancelled, c);
    AllListedEvolve(lib, items, log, Step(lib, items, c.op).0, log + [Called(c)], listed);
  }

  /** An event that stores nothing. */
  lemma EventKeepsAll(lib: Library, items: Items, log: History, cancelled: bool, listed: set<Snapshot>, e: Event)
    requires Good(lib, items, log, cancelled) && AllListed(lib, items, log, listed) && EventGood(lib, items, log, e)
    requires CallOf(e).None? && !e.Read? && (Marker(e) ==> listed == {})
    ensures Good(lib, items, log + [e], CancelledAfter(cancelled, e)) && AllListed(lib, items, log + [e], listed)
  {
    EventKeeps(lib, items, log, cancelled, e);
    if Marker(e) { return; }
    AllListedEvolve(lib, items, log, items, log + [e], listed);
  }

  function Without(listed: set<Snapshot>, id: Identity): set<Snapshot> {
    set x | x in listed && x.rec.identity != id
  }

  /** A status write of one desire leaves the snapshots of all others valid. */
  lemma OthersStayListed(lib: Library, items: Items, log: History, e: Event, listed: set<Snapshot>, rec: Record)
    requires AllListed(lib, items, log, listed) && (e.StoredApply? || e.StoredDelete?)
    ensures AllListed(lib, items[e.id := rec], log + [e], Without(listed, e.id))
  {
    AppendUnfolds(log, e);
    forall x | x in Without(listed, e.id)
      ensures Listed(lib, items[e.id := rec], log + [e], x)
    {
      assert Listed(lib, items, log, x);
    }
  }

  /** A write that still finds the version of its snapshot changes what the status reports. */
  lemma ListedChanges(lib: Library, items: Items, log: History, x: Snapshot, outcome: Condition, now: int)
    requires Listed(lib, items, log, x) && !Matched(outcome, x.rec.status)
    requires x.rec.identity in items && items[x.rec.identity].version == x.rec.version
    ensures Changes(items, x.rec.identity, outcome, WithCondition(x.rec.status, outcome, now))
  {
    SetThenFind(x.rec.status.conditions, outcome, now, outcome.ty);
  }

  lemma StatusWritten(lib: Library, items: Items, op: Op)
    requires op.UpdateApplyStatus? || op.UpdateDeleteStatus?
    ensures Step(lib, items, op).1.Failed? ==> Step(lib, items, op).0 == items
    ensures !Step(lib, items, op).1.Failed? ==>
              && op.id in items && items[op.id].version == op.version
              && op.id.ty == (if op.UpdateApplyStatus? then TypeApply else TypeDelete)
              && Step(lib, items, op).0 == items[op.id := WithStatus(items[op.id], op.status)]
  {
  }

  /** Writing a status that reports something keeps the store well formed. */
  lemma StatusKeepsStore(lib: Library, items: Items, op: Op)
    requires StoreGood(lib, items) && (op.UpdateApplyStatus? || op.UpdateDeleteStatus?)
    requires Keyed(op.status) && op.status != NO_STATUS
    ensures StoreGood(lib, Step(lib, items, op).0)
  {
    StepKeepsConsistent(lib, items, op);
    StatusWritten(lib, items, op);
    assert op.id in items ==> WellFormed(lib, op.id, items[op.id]);
  }

  lemma ReportNotEmpty(s: Status, outcome: Condition, now: int)
    ensures WithCondition(s, outcome, now) != NO_STATUS
  {
    SetThenFind(s.conditions, outcome, now, outcome.ty);
    assert FindCondition([], outcome.ty).None?;
  }

  ghost predicate Stored(items: Items, id: Identity, status: Status, version: int) {
    id in items && items[id].status == status && items[id].version == version
  }

  // ------------------------------------------------------------- apply status writes

  function ApplyWrite(x: Snapshot, outcome: Condition, now: int): Op {
    UpdateApplyStatus(x.rec.identity, WithCondition(x.rec.status, outcome, now), x.rec.version)
  }

  function ApplyEvent(x: Snapshot, outcome: Condition, now: int, reply: Reply): Event
    requires x.rec.apply.Some?
  {
    StoredApply(x.rec.identity, x.incarnation, x.rec.apply.value, outcome,
                WithCondition(x.rec.status, outcome, now), x.rec.version, reply)
  }

  /** What the apply controller knows when it writes an outcome. */
  ghost predicate ApplyReport(lib: Library, log: History, x: Snapshot, outcome: Condition) {
    && x.rec.identity.ty == TypeApply && x.rec.apply.Some?
    && outcome.ty == Successful && outcome.observedGeneration == x.rec.generation
    && !Matched(outcome, x.rec.status)
    && (outcome.reason == Applied ==> AppliedThisPass(log, x.rec.identity, x.rec.apply.value))
    && ApplyReason(lib, log, x.rec.identity, x.rec.apply.value, outcome.reason)
  }

  /** Passive events leave the report in place. */
  lemma ApplyReportStands(lib: Library, log: History, log': History, x: Snapshot, outcome: Condition)
    requires PassiveOnly(log, log') && ApplyReport(lib, log, x, outcome)
    ensures ApplyReport(lib, log', x, outcome)
  {
    PassiveChangesNothing(log, log', x.rec.identity);
    ApplyReasonStands(lib, log, log', x.rec.identity, x.rec.apply.value, outcome.reason);
  }

  /** An accepted status write of the apply controller. */
  lemma StoreApplyKeeps(
    lib: Library, items: Items, log: History, cancelled: bool, x: Snapshot, outcome: Condition, now: int, reply: Reply)
    requires Good(lib, items, log, cancelled) && Listed(lib, items, log, x) && ApplyReport(lib, log, x, outcome)
    requires reply == Step(lib, items, ApplyWrite(x, outcome, now)).1 && !reply.Failed?
    ensures Good(lib, Step(lib, items, ApplyWrite(x, outcome, now)).0,
                 log + [ApplyEvent(x, outcome, now, reply)], cancelled)
  {
    var e, op := ApplyEvent(x, outcome, now, reply), ApplyWrite(x, outcome, now);
    SetKeepsKeyed(x.rec.status, outcome, now);
    ReportNotEmpty(x.rec.status, outcome, now);
    StatusKeepsStore(lib, items, op);
    StatusWritten(lib, items, op);
    ListedChanges(lib, items, log, x, outcome, now);
    assert EventGood(lib, items, log, e);
    ReplayIs(lib, log, items);
    LogAppend(lib, log, e);
    StoreAppend(lib, log, e);
    ReplayIs(lib, log + [e], Step(lib, items, op).0);
    ApplyStoredClaims(items, log, e);
    ApplyStoredFresh(lib, items, log, x, outcome, now, reply);
  }

  lemma ApplyStoredClaims(items: Items, log: History, e: Event)
    requires QuietGood(items, log) && SettledGood(items, log) && e.StoredApply? && e.id in items && e.id.ty == TypeApply
    ensures
      var items' := items[e.id := WithStatus(items[e.id], e.status)];
      QuietGood(items', log + [e]) && SettledGood(items', log + [e])
  {
    AppendUnfolds(log, e);
  }

  lemma ApplyStoredFresh(
    lib: Library, items: Items, log: History, x: Snapshot, outcome: Condition, now: int, reply: Reply)
    requires StoreGood(lib, items) && FreshGood(lib, items, log) && Listed(lib, items, log, x) &&
               ApplyReport(lib, log, x, outcome)
    requires x.rec.identity in items && items[x.rec.identity].version == x.rec.version
    ensures
      var id, status := x.rec.identity, WithCondition(x.rec.status, outcome, now);
      FreshGood(lib, items[id := WithStatus(items[id], status)], log + [ApplyEvent(x, outcome, now, reply)])
  {
    var id, e := x.rec.identity, ApplyEvent(x, outcome, now, reply);
    var items' := items[id := WithStatus(items[id], e.status)];
    AppendUnfolds(log, e);
    SetThenFind(x.rec.status.conditions, outcome, now, Successful);
    assert WellFormed(lib, id, items[id]);
    forall i | i in items' && i.ty == TypeApply
      ensures items'[i].apply.Some? && FreshRecord(lib, log + [e], i, items'[i])
    {
      assert Births(log + [e], i) == Births(log, i);
      if i != id {
        assert FreshRecord(lib, log, i, items[i]);
        assert LastReport(log + [e], i) == LastReport(log, i);
      }
    }
  }

  /** With the snapshots of all other desires. */
  lemma StoreApplyKeepsAll(
    lib: Library, items: Items, log: History, cancelled: bool, listed: set<Snapshot>, x: Snapshot,
    outcome: Condition, now: int, reply: Reply)
    requires Good(lib, items, log, cancelled) && AllListed(lib, items, log, listed) && x in listed
    requires ApplyReport(lib, log, x, outcome)
    requires reply == Step(lib, items, ApplyWrite(x, outcome, now)).1 && !reply.Failed?
    ensures
      var items', log' := Step(lib, items, ApplyWrite(x, outcome, now)).0, log + [ApplyEvent(x, outcome, now, reply)];
      && Good(lib, items', log', cancelled) && AllListed(lib, items', log', Without(listed, x.rec.identity))
      && SamePass(log, log')
      && Stored(items', x.rec.identity, WithCondition(x.rec.status, outcome, now), x.rec.version + 1)
  {
    var e := ApplyEvent(x, outcome, now, reply);
    StoreApplyKeeps(lib, items, log, cancelled, x, outcome, now, reply);
    StatusWritten(lib, items, ApplyWrite(x, outcome, now));
    OthersStayListed(lib, items, log, e, listed, WithStatus(items[e.id], e.status));
  }

  // ------------------------------------------------------------ delete status writes

  function DeleteWrite(x: Snapshot, outcome: Condition, now: int): Op {
    UpdateDeleteStatus(x.rec.identity, WithCondition(x.rec.status, outcome, now), x.rec.version)
  }

  function DeleteEvent(x: Snapshot, outcome: Condition, now: int, reply: Reply): Event {
    StoredDelete(x.rec.identity, outcome, WithCondition(x.rec.status, outcome, now), x.rec.version, reply)
  }

  /**
    * What the delete controller knows when it writes an outcome: Deleted was seen in this pass or is already
    * reported.
    */
  ghost predicate DeleteReport(log: History, x: Snapshot, outcome: Condition) {
    && x.rec.identity.ty == TypeDelete
    && outcome.ty == Successful && outcome.observedGeneration == 1
    && !Matched(outcome, x.rec.status) && !Settled(log, x.rec.identity)
    && (DeleteReason(log, x.rec.identity, outcome.reason) || (outcome.reason == Deleted && IsDeleted(x.rec.status)))
    && (outcome.reason == Deleted ==>
          && outcome.status == True && outcome.message == ""
          && (IsDeleted(x.rec.status) || SeenAbsent(log, x.rec.identity)))
  }

  lemma DeleteReportStands(log: History, log': History, x: Snapshot, outcome: Condition)
    requires PassiveOnly(log, log') && DeleteReport(log, x, outcome)
    ensures DeleteReport(log', x, outcome)
  {
    PassiveChangesNothing(log, log', x.rec.identity);
    if DeleteReason(log, x.rec.identity, outcome.reason) {
      DeleteReasonStands(log, log', x.rec.identity, outcome.reason);
    }
  }

  lemma DeleteEventGood(
    lib: Library, items: Items, log: History, x: Snapshot, outcome: Condition, now: int, reply: Reply)
    requires StoreGood(lib, items) && Listed(lib, items, log, x) && DeleteReport(log, x, outcome)
    requires reply == Step(lib, items, DeleteWrite(x, outcome, now)).1 && !reply.Failed?
    requires x.rec.identity in items && items[x.rec.identity].version == x.rec.version
    ensures EventGood(lib, items, log, DeleteEvent(x, outcome, now, reply))
  {
    var id, status := x.rec.identity, WithCondition(x.rec.status, outcome, now);
    ListedChanges(lib, items, log, x, outcome, now);
    SetThenFind(x.rec.status.conditions, outcome, now, Successful);
    assert StatusGood(id, items[id]);
    if IsDeleted(x.rec.status) {
      assert FindCondition(NO_STATUS.conditions, Successful).None?;
      assert x.rec.status != NO_STATUS;
      assert items[id] == x.rec;
    }
  }

  /** An accepted status write of the delete controller. */
  lemma StoreDeleteKeeps(
    lib: Library, items: Items, log: History, cancelled: bool, x: Snapshot, outcome: Condition, now: int, reply: Reply)
    requires Good(lib, items, log, cancelled) && Listed(lib, items, log, x) && DeleteReport(log, x, outcome)
    requires reply == Step(lib, items, DeleteWrite(x, outcome, now)).1 && !reply.Failed?
    ensures Good(lib, Step(lib, items, DeleteWrite(x, outcome, now)).0,
                 log + [DeleteEvent(x, outcome, now, reply)], cancelled)
  {
    var e, op := DeleteEvent(x, outcome, now, reply), DeleteWrite(x, outcome, now);
    SetKeepsKeyed(x.rec.status, outcome, now);
    ReportNotEmpty(x.rec.status, outcome, now);
    StatusKeepsStore(lib, items, op);
    StatusWritten(lib, items, op);
    DeleteEventGood(lib, items, log, x, outcome, now, reply);
    ReplayIs(lib, log, items);
    LogAppend(lib, log, e);
    StoreAppend(lib, log, e);
    ReplayIs(lib, log + [e], Step(lib, items, op).0);
    DeleteStoredQuiet(lib, items, log, e);
    DeleteStoredSettled(lib, items, log, x, outcome, now, reply);
    DeleteStoredFresh(lib, items, log, e);
  }

  /** With the snapshots of all other desires. */
  lemma StoreDeleteKeepsAll(
    lib: Library, items: Items, log: History, cancelled: bool, listed: set<Snapshot>, x: Snapshot,
    outcome: Condition, now: int, reply: Reply)
    requires Good(lib, items, log, cancelled) && AllListed(lib, items, log, listed) && x in listed
    requires DeleteReport(log, x, outcome)
    requires reply == Step(lib, items, DeleteWrite(x, outcome, now)).1 && !reply.Failed?
    ensures
      var items', log' := Step(lib, items, DeleteWrite(x, outcome, now)).0, log + [DeleteEvent(x, outcome, now, reply)];
      && Good(lib, items', log', cancelled) && AllListed(lib, items', log', Without(listed, x.rec.identity))
      && SamePass(log, log')
      && Stored(items', x.rec.identity, WithCondition(x.rec.status, outcome, now), x.rec.version + 1)
  {
    var e := DeleteEvent(x, outcome, now, reply);
    StoreDeleteKeeps(lib, items, log, cancelled, x, outcome, now, reply);
    StatusWritten(lib, items, DeleteWrite(x, outcome, now));
    OthersStayListed(lib, items, log, e, listed, WithStatus(items[e.id], e.status));
  }

  lemma NoApplyBesideDelete(lib: Library, items: Items, id: Identity)
    requires Consistent(lib, items) && id in items && id.ty == TypeDelete
    ensures ApplyId(id.target) !in items
  {
    assert Agreeing(items, id.target);
    assert ApplyId(id.target) in items ==> Coexist(items[ApplyId(id.target)], items[id]);
  }

  lemma DeleteStoredQuiet(lib: Library, items: Items, log: History, e: Event)
    requires Consistent(lib, items) && QuietGood(items, log)
    requires e.StoredDelete? && e.id in items && e.id.ty == TypeDelete
    ensures QuietGood(items[e.id := WithStatus(items[e.id], e.status)], log + [e])
  {
    NoApplyBesideDelete(lib, items, e.id);
    AppendUnfolds(log, e);
  }

  lemma DeleteStoredSettled(
    lib: Library, items: Items, log: History, x: Snapshot, outcome: Condition, now: int, reply: Reply)
    requires Consistent(lib, items) && SettledGood(items, log) && x.rec.identity in items &&
               DeleteReport(log, x, outcome)
    ensures
      var id, status := x.rec.identity, WithCondition(x.rec.status, outcome, now);
      SettledGood(items[id := WithStatus(items[id], status)], log + [DeleteEvent(x, outcome, now, reply)])
  {
    var id, e := x.rec.identity, DeleteEvent(x, outcome, now, reply);
    var items' := items[id := WithStatus(items[id], e.status)];
    SetThenFind(x.rec.status.conditions, outcome, now, Successful);
    AppendUnfolds(log, e);
    assert WellFormed(lib, id, items[id]);
    forall i | i in items' && i.ty == TypeDelete && Settled(log + [e], i)
      ensures Matched(DeletedCondition(items'[i].generation), items'[i].status)
    {
      if i != id {
        assert Settled(log, i);
      }
    }
  }

  lemma DeleteStoredFresh(lib: Library, items: Items, log: History, e: Event)
    requires FreshGood(lib, items, log) && e.StoredDelete? && e.id in items && e.id.ty == TypeDelete
    ensures FreshGood(lib, items[e.id := WithStatus(items[e.id], e.status)], log + [e])
  {
    AppendUnfolds(log, e);
    forall i | i in items && i.ty == TypeApply
      ensures FreshRecord(lib, log + [e], i, items[i])
    {
      assert FreshRecord(lib, log, i, items[i]);
      assert LastReport(log + [e], i) == LastReport(log, i) && Births(log + [e], i) == Births(log, i);
    }
  }
}
