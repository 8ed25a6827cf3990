/**
  * The apply and delete reconcilers and the serial loop that calls them. `World` is what they act on: the store, the
  * cluster and the run context. Before each call any number of other steps may happen: adapters' store calls, changes
  * of cluster objects, cancellation, a denial by the freshness watcher.
  */
module Controllers {
  import opened Desire
  import opened MemoryStore
  import opened StoreHistory
  import opened Conditions
  import opened ApplyTarget
  import opened RunHistory
  import opened ReconcileLog

  datatype Probe = Absent | Present(deleting: bool) | ProbeFailed

  datatype LookupResult = DesireFound | DesireGone | LookupFailed(late: bool)

  datatype CallResult = CallAccepted | CallNotFound | CallFailed

  predicate InScope(managementCluster: Str, ty: DesireType, id: Identity) {
    id.target.managementCluster == managementCluster && id.ty == ty
  }

  /** The desire is in the listing, or was gone when it was read. */
  ghost predicate Covered(log: History, log': History, xs: seq<Snapshot>, id: Identity) {
    (exists i :: 0 <= i < |xs| && xs[i].rec.identity == id) || Happened(log, log', Missed(id))
  }

  /** Each entry was read between the two moments, and no desire is entered twice. */
  ghost predicate Listing(log: History, log': History, xs: seq<Snapshot>) {
    && (forall i :: 0 <= i < |xs| ==> Happened(log, log', Read(xs[i])))
    && (forall i, j :: 0 <= i < j < |xs| ==> xs[i].rec.identity != xs[j].rec.identity)
  }

  /** The listing after one more read. */
  function With(xs: seq<Snapshot>, x: Option<Snapshot>): seq<Snapshot> { xs + if x.Some? then [x.value] else [] }

  lemma ListingGrows(log: History, mid: History, log': History, xs: seq<Snapshot>, id: Identity, x: Option<Snapshot>)
    requires log <= mid <= log' && Listing(log, mid, xs)
    requires forall i :: 0 <= i < |xs| ==> xs[i].rec.identity != id
    requires x.Some? ==> x.value.rec.identity == id && Happened(mid, log', Read(x.value))
    ensures Listing(log, log', With(xs, x))
  {
    var ys := With(xs, x);
    forall i | 0 <= i < |ys|
      ensures Happened(log, log', Read(ys[i]))
    {
      if i < |xs| {
        HappenedLater(log, mid, log', Read(xs[i]));
      } else {
        HappenedEarlier(log, mid, log', Read(x.value));
      }
    }
  }

  lemma CoverGrows(
    log: History, mid: History, log': History, xs: seq<Snapshot>, id: Identity, x: Option<Snapshot>, other: Identity)
    requires log <= mid <= log'
    requires x.Some? ==> x.value.rec.identity == id
    requires x.None? ==> Happened(mid, log', Missed(id))
    requires other == id || Covered(log, mid, xs, other)
    ensures Covered(log, log', With(xs, x), other)
  {
    if other == id {
      if x.Some? {
        assert With(xs, x)[|xs|].rec.identity == id;
      } else {
        HappenedEarlier(log, mid, log', Missed(id));
      }
    } else if Happened(log, mid, Missed(other)) {
      HappenedLater(log, mid, log', Missed(other));
    } else {
      var i :| 0 <= i < |xs| && xs[i].rec.identity == other;
      assert With(xs, x)[i].rec.identity == other;
    }
  }

  /** Of the keys, those not pending were read: found ones are in the listing, with a snapshot to work from. */
  ghost predicate ReadSoFar(
    log: History, log': History, listed: set<Snapshot>, keys: set<Identity>, pending: set<Identity>, xs: seq<Snapshot>)
  {
    && pending <= keys && Listing(log, log', xs)
    && (forall i :: 0 <= i < |xs| ==> xs[i] in listed && xs[i].rec.identity in keys - pending)
    && (forall id :: id in keys && id !in pending ==> Covered(log, log', xs, id))
  }

  lemma ReadOneMore(
    log: History, mid: History, log': History, listed: set<Snapshot>, listed': set<Snapshot>,
    keys: set<Identity>, pending: set<Identity>, xs: seq<Snapshot>, id: Identity, x: Option<Snapshot>)
    requires log <= mid <= log' && listed <= listed' && id in pending && ReadSoFar(log, mid, listed, keys, pending, xs)
    requires x.Some? ==> x.value in listed' && x.value.rec.identity == id && Happened(mid, log', Read(x.value))
    requires x.None? ==> Happened(mid, log', Missed(id))
    ensures ReadSoFar(log, log', listed', keys, pending - {id}, With(xs, x))
  {
    ListingGrows(log, mid, log', xs, id, x);
    forall other | other in keys && other !in pending - {id}
      ensures Covered(log, log', With(xs, x), other)
    {
      CoverGrows(log, mid, log', xs, id, x, other);
    }
  }

  lemma ReadFrom(
    log: History, mid: History, log': History, listed: set<Snapshot>, keys: set<Identity>, xs: seq<Snapshot>)
    requires log <= mid <= log' && ReadSoFar(mid, log', listed, keys, {}, xs)
    ensures ReadSoFar(log, log', listed, keys, {}, xs)
  {
    ListingFrom(log, mid, log', xs);
    forall id | id in keys
      ensures Covered(log, log', xs, id)
    {
      assert Covered(mid, log', xs, id);
      if Happened(mid, log', Missed(id)) {
        HappenedEarlier(log, mid, log', Missed(id));
      }
    }
  }

  /** A listing of one cluster and type, whose entries the pass may work from. */
  ghost predicate ListingOf(
    managementCluster: Str, ty: DesireType, log: History, log': History, listed: set<Snapshot>, xs: seq<Snapshot>)
  {
    Listing(log, log', xs) &&
    forall i :: 0 <= i < |xs| ==> xs[i] in listed && InScope(managementCluster, ty, xs[i].rec.identity)
  }

  /** Every desire the store held is listed, or was gone when it was read. */
  ghost predicate Complete(
    managementCluster: Str, ty: DesireType, store: Items, log: History, log': History, xs: seq<Snapshot>)
  {
    forall id :: id in store && InScope(managementCluster, ty, id) ==> Covered(log, log', xs, id)
  }

  lemma ReadIsListing(
    managementCluster: Str, ty: DesireType, store: Items, keys: set<Identity>,
    log: History, log': History, listed: set<Snapshot>, xs: seq<Snapshot>)
    requires ReadSoFar(log, log', listed, keys, {}, xs)
    requires forall id :: id in keys ==> InScope(managementCluster, ty, id)
    requires forall id :: id in store && InScope(managementCluster, ty, id) ==> id in keys
    ensures ListingOf(managementCluster, ty, log, log', listed, xs)
    ensures Complete(managementCluster, ty, store, log, log', xs)
  {
  }

  /** The desire is not settled, and `obj` is what this pass resolved for it. */
  ghost predicate Deleting(log: History, id: Identity, obj: Object) {
    id.ty == TypeDelete && !Settled(log, id) && Resolved(log, id) == Some(obj)
  }

  /** A cluster write the loop has cleared with the gate, for the object it is meant for. */
  ghost predicate Writable(log: History, id: Identity, e: Event) {
    && Cleared(log, id)
    && (|| (&& id.ty == TypeApply && e.SentApply? && e.id == id && e.obj == Coordinates(id.target)
            && !Quiet(log, id.target) && Carries(log, id, e.spec))
        || (e.SentDelete? && e.id == id && Deleting(log, id, e.obj)))
  }

  lemma StaysWritable(lib: Library, items: Items, log: History, log': History, id: Identity, e: Event)
    requires Writable(log, id, e) && OthersOnly(log, log') && !EndedThisTerm(log')
    ensures EventGood(lib, items, log', e)
  {
    PassiveChangesNothing(log, log', id);
    CalmTakesNothing(log, log', id);
    ClearedStays(log, log', id);
  }

  lemma CallLeaves(log: History, e: Event, id: Identity)
    requires ClusterCall(e)
    ensures Settled(log + [e], id) == Settled(log, id) && Resolved(log + [e], id) == Resolved(log, id)
    ensures CallsOnly(log, log + [e]) && Happened(log, log + [e], e)
  {
    AppendUnfolds(log, e);
    HappenedLast(log, log + [e], e);
  }

  /** What others do, and then one cluster call. */
  lemma ThenCall(log: History, mid: History, e: Event, es: set<Event>)
    requires PassiveOnly(log, mid) && ClusterCall(e) && e in es
    ensures CallsOnly(log, mid + [e]) && Happened(log, mid + [e], e) && Only(log, mid + [e], es)
  {
    CallLeaves(mid, e, Identity(Target("", "", "", "", ""), TypeApply));
    CallsJoin(log, mid, mid + [e]);
    HappenedEarlier(log, mid, mid + [e], e);
    PassiveIsOnly(log, mid, es);
    OnlyAppend(log, mid, es, e);
  }

  /** What one call for an object tells. */
  lemma ProbeTells(log: History, mid: History, id: Identity, obj: Object, cluster: map<Object, bool>, answered: bool)
    requires PassiveOnly(log, mid)
    ensures
      var log' := mid + [Probed(id, obj, cluster, answered)];
      && (FoundIn(log, log', id, obj) <==> answered && obj !in cluster)
      && (FailedIn(log, log', id, obj) <==> !answered)
      && (answered && obj in cluster ==> SeenIn(log, log', id, obj, cluster[obj]))
      && (LiveFirst(log, log', id, obj) <==> answered && obj in cluster && !cluster[obj])
  {
    var e := Probed(id, obj, cluster, answered);
    var log' := mid + [e];
    assert log'[|mid|] == e && forall i :: |log| <= i < |mid| ==> log'[i] == mid[i] && Passive(mid[i]);
  }

  /** The first call for the object decides whether it was live, whatever follows. */
  lemma LiveFirstDecided(log: History, seen: History, log': History, id: Identity, obj: Object)
    requires log < seen <= log' && seen[|seen| - 1].Probed?
    requires forall i :: |log| <= i < |seen| - 1 ==> !seen[i].Probed?
    ensures LiveFirst(log, log', id, obj) <==> FoundPresent(seen[|seen| - 1], id, obj, false)
  {
    var n := |seen| - 1;
    assert forall i :: |log| <= i < |seen| ==> log'[i] == seen[i];
    if LiveFirst(log, log', id, obj) {
      var k :| && |log| <= k < |log'| && FoundPresent(log'[k], id, obj, false)
               && forall i :: |log| <= i < k ==> !log'[i].Probed?;
      assert k == n;
    }
    assert log'[n] == seen[n];
  }

  /** Two parts of the time, in one of which only these events happened. */
  lemma TriedIn(log: History, mid: History, log': History, id: Identity, obj: Object)
    requires log <= mid <= log'
    ensures DeleteTried(log, log', id, obj) <==> DeleteTried(log, mid, id, obj) || DeleteTried(mid, log', id, obj)
  {
    HappenedSplits(log, mid, log', SentDelete(id, obj));
    HappenedSplits(log, mid, log', NotSent(id, obj));
  }

  /** The cluster writes of one apply reconciliation. */
  function ApplyCalls(id: Identity, spec: ApplySpec): set<Event> {
    {SentApply(id, Coordinates(id.target), spec), NotSent(id, Coordinates(id.target)), AcceptedApply(id, spec),
     TimedOut(id)}
  }

  lemma AcceptanceAdds(log: History, mid: History, id: Identity, spec: ApplySpec)
    requires CallsOnly(log, mid) && Only(log, mid, ApplyCalls(id, spec))
    ensures
      var e := AcceptedApply(id, spec);
      CallsOnly(log, mid + [e]) && Only(log, mid + [e], ApplyCalls(id, spec)) && Happened(log, mid + [e], e) &&
      (ApplyTried(log, mid, id, spec) ==> ApplyTried(log, mid + [e], id, spec))
  {
    var e := AcceptedApply(id, spec);
    CallLeaves(mid, e, id);
    CallsJoin(log, mid, mid + [e]);
    OnlyAppend(log, mid, ApplyCalls(id, spec), e);
    HappenedLast(log, mid + [e], e);
    HappenedSplits(log, mid, mid + [e], SentApply(id, Coordinates(id.target), spec));
    HappenedSplits(log, mid, mid + [e], NotSent(id, Coordinates(id.target)));
  }

  lemma AcceptedAdds(log: History, mid: History, id: Identity, obj: Object)
    requires CallsOnly(log, mid)
    ensures
      var log' := mid + [AcceptedDelete(id, obj)];
      && CallsOnly(log, log') && Happened(log, log', AcceptedDelete(id, obj))
      && (FoundIn(log, log', id, obj) <==> FoundIn(log, mid, id, obj))
      && Settled(log', id) == Settled(mid, id) && Resolved(log', id) == Resolved(mid, id)
  {
    var e := AcceptedDelete(id, obj);
    CallLeaves(mid, e, id);
    CallsJoin(log, mid, mid + [e]);
    HappenedLast(log, mid + [e], e);
    FoundSplits(log, mid, mid + [e], id, obj);
  }

  /** Sending finds nothing; not having sent is a failure. */
  lemma SendFindsNothing(log: History, mid: History, id: Identity, obj: Object)
    requires log < mid && Only(log, mid, {SentDelete(id, obj), NotSent(id, obj)})
    requires mid[|mid| - 1] == SentDelete(id, obj) || mid[|mid| - 1] == NotSent(id, obj)
    ensures !FoundIn(log, mid, id, obj) && DeleteTried(log, mid, id, obj)
    ensures mid[|mid| - 1] == NotSent(id, obj) ==> FailedIn(log, mid, id, obj)
  {
    HappenedLast(log, mid, mid[|mid| - 1]);
  }

  lemma AnswerAdds(log: History, mid: History, log': History, id: Identity, obj: Object)
    requires log < mid && mid[|mid| - 1] == SentDelete(id, obj) && CallsOnly(log, mid) && CallsOnly(mid, log')
    requires !FoundIn(log, mid, id, obj)
    ensures CallsOnly(log, log') && Happened(log, log', SentDelete(id, obj))
    ensures FoundIn(log, log', id, obj) <==> FoundIn(mid, log', id, obj)
    ensures FailedIn(mid, log', id, obj) ==> FailedIn(log, log', id, obj)
    ensures Happened(mid, log', AcceptedDelete(id, obj)) ==> Happened(log, log', AcceptedDelete(id, obj))
  {
    HappenedLast(log, mid, SentDelete(id, obj));
    HappenedLater(log, mid, log', SentDelete(id, obj));
    CallsJoin(log, mid, log');
    FoundSplits(log, mid, log', id, obj);
    TroubleWithin(log, mid, log', log', id, obj);
    HappenedWithin(log, mid, log', log', AcceptedDelete(id, obj));
  }

  /** A status write was accepted, refused, or failed. */
  ghost predicate WriteTried(log: History, log': History, id: Identity) {
    exists k :: |log| <= k < |log'| && (Stores(log'[k], id) || log'[k] == StoreFailed(id) || log'[k] == Refused(id))
  }

  lemma StoredIsTried(log: History, log': History, id: Identity)
    requires |log'| == |log| + 1 && log < log' && Stores(log'[|log|], id)
    ensures WriteTried(log, log', id) && SamePass(log, log') && OnTime(log, log')
  {
  }

  lemma FailureIsTried(log: History, log': History, id: Identity, e: Event)
    requires (CallsOnly(log, log') || CalmOnly(log, log')) && Happened(log, log', e)
    requires e == StoreFailed(id) || e == Refused(id)
    ensures WriteTried(log, log', id) && Within(log, log') && (CalmOnly(log, log') ==> OnTime(log, log'))
  {
  }

  /** What others do before a status write. */
  lemma TriedSince(log: History, mid: History, log': History, id: Identity)
    requires PassiveOnly(log, mid) && WriteTried(mid, log', id) && SamePass(mid, log')
    ensures WriteTried(log, log', id) && SamePass(log, log')
    ensures Within(mid, log') ==> Within(log, log')
    ensures OnTime(mid, log') ==> OnTime(log, log')
    ensures Happened(mid, log', TimedOut(id)) ==> Happened(log, log', TimedOut(id))
  {
    PassiveIsWithin(log, mid);
    PassiveIsOnTime(log, mid);
    SamePassJoin(log, mid, log');
    HappenedWithin(log, mid, log', log', TimedOut(id));
    assert forall i :: |log| <= i < |mid| ==> log'[i] == mid[i];
  }

  /** A store call for the desire failed, by its own deadline if `late`. */
  ghost predicate CallFails(log: History, log': History, id: Identity, late: bool) {
    && CallsOnly(log, log') && Only(log, log', {TimedOut(id)}) && Happened(log, log', StoreFailed(id))
    && (if late then Happened(log, log', TimedOut(id)) else CalmOnly(log, log'))
  }

  lemma FailureSince(log: History, mid: History, log': History, id: Identity, late: bool)
    requires CalmOnly(log, mid) && CallFails(mid, log', id, late)
    ensures CallFails(log, log', id, late)
  {
    CalmTakesNothing(log, mid, id);
    CallsJoin(log, mid, log');
    PassiveIsOnly(log, mid, {TimedOut(id)});
    OnlyJoin(log, mid, log', {TimedOut(id)});
    HappenedEarlier(log, mid, log', StoreFailed(id));
    if late {
      HappenedEarlier(log, mid, log', TimedOut(id));
    }
    assert forall i :: |log| <= i < |mid| ==> log'[i] == mid[i];
  }

  lemma FailureAdds(log: History, mid: History, id: Identity, late: bool)
    requires mid == if late then log + [TimedOut(id)] else log
    ensures CallFails(log, mid + [StoreFailed(id)], id, late)
  {
    var log' := mid + [StoreFailed(id)];
    HappenedLast(log, log', StoreFailed(id));
    assert late ==> log'[|log|] == TimedOut(id);
  }

  /** The condition a controller reports; only Applied and Deleted are successes. */
  function Outcome(generation: int, reason: Reason, message: string): Condition {
    var status := if reason == Applied || reason == Deleted then True else False;
    Condition(Successful, status, generation, reason, message, 0)
  }

  lemma MarkerSetsPhase(log: History, e: Event)
    requires Marker(e)
    ensures PhaseOf(log + [e]) == PhaseOf([e])
  {
    AppendUnfolds(log, e);
  }

  class World {
    const lib: Library
    const managementCluster: Str
    var items: Items
    var objects: map<Object, bool>  // present objects; true while deletion is in progress
    var cancelled: bool
    var log: History
    ghost var listed: set<Snapshot>  // what the running pass works from and has stored nothing for

    /** The invariant. It is quantified over a bound on the history, so that a proof unfolds it only by calling Open. */
    ghost predicate Valid()
      reads this`items, this`log, this`cancelled, this`listed
    {
      forall bound: nat :: ValidUpTo(bound)
    }

    ghost predicate ValidUpTo(bound: nat)
      reads this`items, this`log, this`cancelled, this`listed
    {
      |log| <= bound ==> Good(lib, items, log, cancelled) && AllListed(lib, items, log, listed)
    }

    lemma Open()
      requires Valid()
      ensures Good(lib, items, log, cancelled) && AllListed(lib, items, log, listed)
    {
      assert ValidUpTo(|log|);
    }

    lemma Close()
      requires Good(lib, items, log, cancelled) && AllListed(lib, items, log, listed)
      ensures Valid()
    {
    }

    lemma ListedHere(x: Snapshot)
      requires Valid() && x in listed
      ensures Listed(lib, items, log, x)
    {
      Open();
    }

    lemma EndedHere()
      requires Valid()
      ensures cancelled == EndedThisTerm(log)
    {
      Open();
    }

    lemma LogHere()
      requires Valid()
      ensures LogGood(lib, log)
    {
      Open();
    }

    lemma ReplayHere()
      requires Valid()
      ensures items == StoreOf(lib, log)
    {
      Open();
      ReplayIs(lib, log, items);
    }

    /** An apply that is stored is not quiet. */
    lemma StoredNotQuiet(id: Identity)
      requires Valid() && id.ty == TypeApply && id in items
      ensures WellFormed(lib, id, items[id]) && !Quiet(log, id.target)
    {
      Open();
      assert id == ApplyId(id.target);
    }

    /** A delete that is stored is settled only if it is Deleted and says so already. */
    lemma SettledHere(id: Identity)
      requires Valid() && id.ty == TypeDelete && id in items
      ensures items[id].generation == 1
      ensures Settled(log, id) ==> IsDeleted(items[id].status) && Matched(Outcome(1, Deleted, ""), items[id].status)
    {
      Open();
      assert WellFormed(lib, id, items[id]);
    }

    constructor (lib: Library, managementCluster: Str)
      ensures Valid() && items == map[] && log == [] && this.lib == lib && this.managementCluster == managementCluster
    {
      this.lib := lib;
      this.managementCluster := managementCluster;
      items := map[];
      objects := map[];
      cancelled := false;
      log := [];
      listed := {};
      new;
      StartGood(lib);
      Close();
    }

    // ------------------------------------------------------------- interference

    method Adapter(op: Op)
      requires Valid() && AdapterOp(op)
      modifies this`items, this`log
      ensures Valid()
      ensures items == Step(lib, old(items), op).0 && OthersOnly(old(log), log)
    {
      var (items', reply) := Step(lib, items, op);
      var e := Called(Call(op, reply));
      Open();
      AdapterKeepsAll(lib, items, log, cancelled, listed, e.call);
      items, log := items', log + [e];
      Close();
    }

    /** The run context ends for good: the Lease is found stale by the watcher or a write path, or it is cancelled. */
    method End(e: Event)
      requires Valid() && Ends(e)
      modifies this`cancelled, this`log
      ensures Valid() && cancelled && OthersOnly(old(log), log)
    {
      Open();
      EventKeepsAll(lib, items, log, cancelled, listed, e);
      cancelled := true;
      log := log + [e];
      Close();
    }

    /** One step of anything that is not the loop. */
    method Other()
      requires Valid()
      modifies this
      ensures Valid() && listed == old(listed) && OthersOnly(old(log), log)
      ensures old(cancelled) ==> cancelled
    {
      var op: Op := *;
      var changeObjects, cancel, deny: bool := *, *, *;
      if AdapterOp(op) {
        Adapter(op);
      } else if changeObjects {
        objects := *;
      } else if cancel {
        End(ContextEnded);
      } else if deny {
        End(Denied);
      }
    }

    method Others()
      requires Valid()
      modifies this
      ensures Valid() && listed == old(listed) && OthersOnly(old(log), log)
      ensures old(cancelled) ==> cancelled
    {
      var steps: int := *;
      while steps > 0
        invariant Valid() && listed == old(listed) && OthersOnly(old(log), log)
        invariant old(cancelled) ==> cancelled
        decreases steps
      {
        Other();
        steps := steps - 1;
      }
    }

    /** Records a step of the loop that stores nothing. */
    method Note(e: Event)
      requires Valid() && EventGood(lib, items, log, e) && CallOf(e).None? && !Ends(e) && !e.Read? && !Marker(e)
      modifies this`log
      ensures Valid() && log == old(log) + [e]
      ensures log[..|log| - 1] == old(log) && log[|log| - 1] == e
    {
      Open();
      EventKeepsAll(lib, items, log, cancelled, listed, e);
      AppendUnfolds(log, e);
      log := log + [e];
      Close();
    }

    /** A tick or a pass begins: it works from snapshots of its own. */
    method Mark(e: Event)
      requires Valid() && Marker(e) && !e.TermStarted? && EventGood(lib, items, log, e)
      modifies this`log, this`listed
      ensures Valid() && log == old(log) + [e] && PhaseOf(log) == PhaseOf([e]) && NoneTaken(log) && !LateThisPass(log)
    {
      Open();
      EventKeepsAll(lib, items, log, cancelled, {}, e);
      MarkerTakesNothing(log, e);
      MarkerSetsPhase(log, e);
      listed := {};
      log := log + [e];
      Close();
    }

    /** Another leader takes up the loop, whatever its predecessor left, under a context of its own. */
    method BeginTerm()
      requires Valid()
      modifies this`log, this`listed, this`cancelled
      ensures Valid() && log == old(log) + [TermStarted] && !cancelled
    {
      Open();
      EventKeepsAll(lib, items, log, cancelled, {}, TermStarted);
      listed, cancelled, log := {}, false, log + [TermStarted];
      Close();
    }

    // ------------------------------------------------------------ store calls

    /** Reads one record, at a moment of its own. */
    method ReadRecord(id: Identity) returns (x: Option<Snapshot>)
      requires Valid() && id.ty != TypeRead && (id.ty == TypeApply ==> Taken(log, id).None?)
      modifies this
      ensures Valid() && PassiveOnly(old(log), log)
      ensures forall other :: other != id ==> Taken(log, other) == old(Taken(log, other))
      ensures x.None? ==> listed == old(listed) && id !in items && Happened(old(log), log, Missed(id))
      ensures x.Some? ==> listed == old(listed) + {x.value} && x.value.rec.identity == id
      ensures x.Some? ==> id in items && items[id] == x.value.rec && Happened(old(log), log, Read(x.value))
    {
      Others();
      CalmTakesNone(old(log), log);
      if id !in items {
        Note(Missed(id));
        HappenedLast(old(log), log, Missed(id));
        return None;
      }
      var y := TakeSnapshot(id);
      HappenedLast(old(log), log, Read(y));
      return Some(y);
    }

    /** The read itself, at one instant. */
    method TakeSnapshot(id: Identity) returns (x: Snapshot)
      requires Valid() && id.ty != TypeRead && id in items && (id.ty == TypeApply ==> Taken(log, id).None?)
      modifies this`log, this`listed
      ensures Valid() && log == old(log) + [Read(x)] && listed == old(listed) + {x}
      ensures x.rec == items[id] && x.rec.identity == id && x.incarnation == Births(old(log), id)
      ensures forall other :: other != id ==> Taken(log, other) == old(Taken(log, other))
    {
      x := Snapshot(items[id], Births(log, id));
      Open();
      SnapshotKeeps(lib, items, log, cancelled, listed, id);
      AppendUnfolds(log, Read(x));
      log := log + [Read(x)];
      listed := listed + {x};
      Close();
    }

    /**
      * Lists the desires of the cluster and type: scans for keys, which may also find some created meanwhile, then
      * reads each at a moment of its own. Every entry was in the store when it was read; every desire of the store at
      * the scan, which is moment `scan` of the history, is listed or was gone when read. The store may fail instead.
      */
    method ListRecords(ty: DesireType) returns (ok: bool, xs: seq<Snapshot>, ghost scan: nat)
      requires Valid() && ty != TypeRead && NoneTaken(log)
      modifies this
      ensures Valid() && PassiveOnly(old(log), log)
      ensures ListingOf(managementCluster, ty, old(log), log, listed, xs)
      ensures !ok ==> Happened(old(log), log, ListFailed(ty))
      ensures ok ==> |old(log)| <= scan <= |log|
      ensures ok ==> Complete(managementCluster, ty, StoreOf(lib, log[..scan]), old(log), log, xs)
    {
      Others();
      CalmTakesNone(old(log), log);
      ok, xs, scan := *, [], |log|;
      if !ok {
        Note(ListFailed(ty));
        HappenedLast(old(log), log, ListFailed(ty));
        return;
      }
      ghost var scanned := log;
      var more: set<Identity> := *;
      var keys := set id | id in items.Keys + more && InScope(managementCluster, ty, id);
      ghost var found := items;
      ReplayHere();
      xs := ReadAll(keys, ty);
      assert log[..scan] == scanned;
      ReadFrom(old(log), scanned, log, listed, keys, xs);
      ReadIsListing(managementCluster, ty, found, keys, old(log), log, listed, xs);
    }

    /** Reads the keys in any order, with anything in between. */
    method ReadAll(keys: set<Identity>, ty: DesireType) returns (xs: seq<Snapshot>)
      requires Valid() && ty != TypeRead
      requires forall id :: id in keys ==> InScope(managementCluster, ty, id) && Taken(log, id).None?
      modifies this
      ensures Valid() && PassiveOnly(old(log), log)
      ensures ReadSoFar(old(log), log, listed, keys, {}, xs)
    {
      xs := [];
      var pending := keys;
      while pending != {}
        invariant Valid() && PassiveOnly(old(log), log)
        invariant ReadSoFar(old(log), log, listed, keys, pending, xs)
        invariant forall id :: id in pending ==> Taken(log, id).None?
        decreases |pending|
      {
        var id :| id in pending;
        ghost var mid, had := log, listed;
        var x := ReadRecord(id);
        ReadOneMore(old(log), mid, log, had, listed, keys, pending, xs, id, x);
        pending := pending - {id};
        xs := With(xs, x);
      }
    }

    /** A store call for the desire fails, perhaps by its own deadline. */
    method FailCall(id: Identity) returns (late: bool)
      requires Valid()
      modifies this`log
      ensures Valid() && CallFails(old(log), log, id, late)
    {
      late := *;
      if late {
        Note(TimedOut(id));
      }
      FailureAdds(old(log), log, id, late);
      Note(StoreFailed(id));
    }

    /** GetApplyDesire: the desire, its absence, or a failure of the store. */
    method GetApplyDesire(id: Identity) returns (r: LookupResult)
      requires Valid() && id.ty == TypeApply
      modifies this
      ensures Valid() && listed == old(listed)
      ensures !r.LookupFailed? ==> CalmOnly(old(log), log)
      ensures r.DesireFound? ==> !Step(lib, items, GetApply(id)).1.Failed? && !Quiet(log, id.target)
      ensures r.DesireGone? ==> Step(lib, items, GetApply(id)).1.Failed? && Happened(old(log), log, Missed(id))
      ensures r.LookupFailed? ==> CallFails(old(log), log, id, r.late)
    {
      Others();
      var fail: bool := *;
      if fail {
        ghost var mid := log;
        var late := FailCall(id);
        FailureSince(old(log), mid, log, id, late);
        return LookupFailed(late);
      }
      if id in items {
        StoredNotQuiet(id);
      }
      if Step(lib, items, GetApply(id)).1.Failed? {
        Note(Missed(id));
        HappenedLast(old(log), log, Missed(id));
        return DesireGone;
      }
      return DesireFound;
    }

    /** GetDeleteDesire; None if it is gone or the store fails, which is on record. */
    method GetDeleteDesire(id: Identity) returns (x: Option<Snapshot>)
      requires Valid() && id.ty == TypeDelete
      modifies this
      ensures Valid() && PassiveOnly(old(log), log) && old(listed) <= listed
      ensures x.Some? ==> x.value in listed && x.value.rec.identity == id && id in items && items[id] == x.value.rec
      ensures x.Some? ==> Happened(old(log), log, Read(x.value))
      ensures x.None? ==> Happened(old(log), log, Missed(id)) || Happened(old(log), log, StoreFailed(id))
    {
      var fail: bool := *;
      if fail {
        Note(StoreFailed(id));
        HappenedLast(old(log), log, StoreFailed(id));
        return None;
      }
      x := ReadRecord(id);
    }

    /** UpdateApplyDesireStatus with the version that was listed. */
    method UpdateApplyDesireStatus(x: Snapshot, outcome: Condition, now: int) returns (r: Reply, late: bool)
      requires Valid() && x in listed && ApplyReport(lib, log, x, outcome)
      modifies this
      ensures Valid() && SamePass(old(log), log) && Without(old(listed), x.rec.identity) <= listed
      ensures !r.Failed? ==> Stored(items, x.rec.identity, WithCondition(x.rec.status, outcome, now), x.rec.version + 1)
      ensures r.Failed? ==> Within(old(log), log)
      ensures WriteTried(old(log), log, x.rec.identity)
      ensures late ==> r.Failed? && r != Failed(ErrVersionConflict) && Happened(old(log), log, TimedOut(x.rec.identity))
      ensures !late ==> OnTime(old(log), log)
    {
      Others();
      ghost var mid := log;
      ApplyReportStands(lib, old(log), mid, x, outcome);
      r, late := TryApplyStatus(x, outcome, now);
      TriedSince(old(log), mid, log, x.rec.identity);
    }

    /** The call itself, which may fail. */
    method TryApplyStatus(x: Snapshot, outcome: Condition, now: int) returns (r: Reply, late: bool)
      requires Valid() && x in listed && ApplyReport(lib, log, x, outcome)
      modifies this`items, this`log, this`listed
      ensures Valid() && SamePass(old(log), log) && Without(old(listed), x.rec.identity) <= listed
      ensures !r.Failed? ==> Stored(items, x.rec.identity, WithCondition(x.rec.status, outcome, now), x.rec.version + 1)
      ensures r.Failed? ==> Within(old(log), log)
      ensures WriteTried(old(log), log, x.rec.identity)
      ensures late ==> r.Failed? && r != Failed(ErrVersionConflict) && Happened(old(log), log, TimedOut(x.rec.identity))
      ensures !late ==> OnTime(old(log), log)
    {
      var id := x.rec.identity;
      late := false;
      var fail: bool := *;
      if fail {
        late := FailCall(id);
        FailureIsTried(old(log), log, id, StoreFailed(id));
        return Failed(ErrAborted), late;
      }
      r := StoreApplyStatus(x, outcome, now);
      if r.Failed? {
        Note(Refused(id));
        HappenedLast(old(log), log, Refused(id));
        FailureIsTried(old(log), log, id, Refused(id));
      } else {
        StoredIsTried(old(log), log, id);
      }
    }

    /** The store's part of the call, at one instant. */
    method StoreApplyStatus(x: Snapshot, outcome: Condition, now: int) returns (r: Reply)
      requires Valid() && x in listed && ApplyReport(lib, log, x, outcome)
      modifies this`items, this`log, this`listed
      ensures Valid() && SamePass(old(log), log) && Without(old(listed), x.rec.identity) <= listed
      ensures r == Step(lib, old(items), ApplyWrite(x, outcome, now)).1
      ensures r.Failed? ==> items == old(items) && log == old(log)
      ensures !r.Failed? ==> Stored(items, x.rec.identity, WithCondition(x.rec.status, outcome, now), x.rec.version + 1)
      ensures !r.Failed? ==> log == old(log) + [ApplyEvent(x, outcome, now, r)]
    {
      var op := ApplyWrite(x, outcome, now);
      var result := Step(lib, items, op);
      r := result.1;
      if !r.Failed? {
        Open();
        StoreApplyKeepsAll(lib, items, log, cancelled, listed, x, outcome, now, r);
        items, log := result.0, log + [ApplyEvent(x, outcome, now, r)];
        listed := Without(listed, x.rec.identity);
        Close();
      }
    }

    /** UpdateDeleteDesireStatus with the version that was read. */
    method UpdateDeleteDesireStatus(x: Snapshot, outcome: Condition, now: int) returns (r: Reply)
      requires Valid() && x in listed && DeleteReport(log, x, outcome)
      modifies this
      ensures Valid() && SamePass(old(log), log) && Without(old(listed), x.rec.identity) <= listed
      ensures !r.Failed? ==> Stored(items, x.rec.identity, WithCondition(x.rec.status, outcome, now), x.rec.version + 1)
      ensures r.Failed? ==> Within(old(log), log)
      ensures WriteTried(old(log), log, x.rec.identity)
    {
      Others();
      ghost var mid := log;
      DeleteReportStands(old(log), mid, x, outcome);
      r := TryDeleteStatus(x, outcome, now);
      TriedSince(old(log), mid, log, x.rec.identity);
    }

    /** The call itself, which may fail. */
    method TryDeleteStatus(x: Snapshot, outcome: Condition, now: int) returns (r: Reply)
      requires Valid() && x in listed && DeleteReport(log, x, outcome)
      modifies this`items, this`log, this`listed
      ensures Valid() && SamePass(old(log), log) && Without(old(listed), x.rec.identity) <= listed
      ensures !r.Failed? ==> Stored(items, x.rec.identity, WithCondition(x.rec.status, outcome, now), x.rec.version + 1)
      ensures r.Failed? ==> Within(old(log), log)
      ensures WriteTried(old(log), log, x.rec.identity)
    {
      var id := x.rec.identity;
      var fail: bool := *;
      r := Failed(ErrAborted);
      if !fail {
        r := StoreDeleteStatus(x, outcome, now);
        if !r.Failed? {
          StoredIsTried(old(log), log, id);
          return;
        }
      }
      var e := if fail then StoreFailed(id) else Refused(id);
      Note(e);
      HappenedLast(old(log), log, e);
      FailureIsTried(old(log), log, id, e);
    }

    /** The store's part of the call, at one instant. */
    method StoreDeleteStatus(x: Snapshot, outcome: Condition, now: int) returns (r: Reply)
      requires Valid() && x in listed && DeleteReport(log, x, outcome)
      modifies this`items, this`log, this`listed
      ensures Valid() && SamePass(old(log), log) && Without(old(listed), x.rec.identity) <= listed
      ensures r == Step(lib, old(items), DeleteWrite(x, outcome, now)).1
      ensures r.Failed? ==> items == old(items) && log == old(log)
      ensures !r.Failed? ==> Stored(items, x.rec.identity, WithCondition(x.rec.status, outcome, now), x.rec.version + 1)
      ensures !r.Failed? ==> log == old(log) + [DeleteEvent(x, outcome, now, r)]
    {
      var op := DeleteWrite(x, outcome, now);
      var result := Step(lib, items, op);
      r := result.1;
      if !r.Failed? {
        Open();
        StoreDeleteKeepsAll(lib, items, log, cancelled, listed, x, outcome, now, r);
        items, log := result.0, log + [DeleteEvent(x, outcome, now, r)];
        listed := Without(listed, x.rec.identity);
        Close();
      }
    }

    // --------------------------------------------------- context and leadership

    method IsCancelled() returns (c: bool)
      requires Valid()
      modifies this
      ensures Valid() && listed == old(listed) && OthersOnly(old(log), log)
      ensures c == cancelled && (old(cancelled) ==> cancelled)
    {
      Others();
      c := cancelled;
    }

    /** The gate denies when the last Lease write is too old, which may happen at any time. */
    method CanWrite(id: Identity) returns (ok: bool)
      requires Valid() && PhaseOf(log) == PassOf(id.ty)
      modifies this
      ensures Valid() && listed == old(listed) && CalmOnly(old(log), log)
      ensures if ok then Cleared(log, id) else cancelled
    {
      Others();
      PassiveChangesNothing(old(log), log, id);
      ok := *;
      if ok {
        Note(GatePassed(id));
      } else {
        End(Denied);
      }
    }

    /** The context is live and the gate allows a write. */
    method PassesGate(id: Identity) returns (ok: bool)
      requires Valid() && PhaseOf(log) == PassOf(id.ty)
      modifies this
      ensures Valid() && listed == old(listed) && CalmOnly(old(log), log)
      ensures if ok then Cleared(log, id) else cancelled
    {
      var ended := IsCancelled();
      if ended { return false; }
      PassiveChangesNothing(old(log), log, id);
      ok := CanWrite(id);
    }

    // ----------------------------------------------------------- cluster calls

    /** A cluster write under its write context leaves the replica, unless the context has ended by then. */
    method SendGated(id: Identity, e: Event) returns (sent: bool)
      requires Valid() && Writable(log, id, e)
      modifies this
      ensures Valid() && listed == old(listed) && CallsOnly(old(log), log) && old(log) < log
      ensures log[|log| - 1] == if sent then e else NotSent(id, e.obj)
      ensures Only(old(log), log, {e, NotSent(id, e.obj)})
      ensures Happened(old(log), log, log[|log| - 1])
      ensures e.SentDelete? ==> Deleting(log, id, e.obj)
    {
      Others();
      PassiveChangesNothing(old(log), log, id);
      ghost var mid := log;
      var expired: bool := *;
      sent := !cancelled && !expired;
      EndedHere();
      if sent {
        StaysWritable(lib, items, old(log), log, id, e);
      }
      var done := if sent then e else NotSent(id, e.obj);
      Note(done);
      CallLeaves(mid, done, id);
      ThenCall(old(log), mid, done, {e, NotSent(id, e.obj)});
    }

    /** A server-side apply; nothing is sent once the context is cancelled or the write context has run out. */
    method SendApplyRequest(id: Identity, obj: Object, spec: ApplySpec) returns (accepted: bool)
      requires Valid() && id.ty == TypeApply && Cleared(log, id) && Carries(log, id, spec)
      requires !Quiet(log, id.target) && obj == Coordinates(id.target)
      modifies this
      ensures Valid() && listed == old(listed) && CallsOnly(old(log), log)
      ensures ApplyTried(old(log), log, id, spec) && Only(old(log), log, ApplyCalls(id, spec)) && OnTime(old(log), log)
      ensures accepted ==> AppliedThisPass(log, id, spec)
      ensures accepted <==> Happened(old(log), log, AcceptedApply(id, spec))
    {
      var sent := SendGated(id, SentApply(id, obj, spec));
      ghost var mid := log;
      OnlyThese(old(log), mid, {SentApply(id, obj, spec), NotSent(id, obj)}, AcceptedApply(id, spec));
      OnlyWidens(old(log), mid, {SentApply(id, obj, spec), NotSent(id, obj)}, ApplyCalls(id, spec));
      if !sent { return false; }
      accepted := *;
      if accepted {
        Accept(id, obj, spec);
        AcceptanceAdds(old(log), mid, id, spec);
      }
    }

    /** The cluster accepts the apply that was just sent: the object exists from now on. */
    method Accept(id: Identity, obj: Object, spec: ApplySpec)
      requires Valid() && log != [] && log[|log| - 1] == SentApply(id, obj, spec) && obj == Coordinates(id.target)
      modifies this`log, this`objects
      ensures Valid() && log == old(log) + [AcceptedApply(id, spec)] && AppliedThisPass(log, id, spec)
      ensures objects == old(objects)[obj := obj in old(objects) && old(objects)[obj]]
    {
      Note(AcceptedApply(id, spec));
      objects := objects[obj := obj in objects && objects[obj]];
    }

    /** A cluster call for the object the pass resolved, answered by the cluster of that moment. */
    method GetObject(id: Identity, obj: Object) returns (p: Probe)
      requires Valid() && Deleting(log, id, obj)
      modifies this
      ensures Valid() && listed == old(listed) && CallsOnly(old(log), log)
      ensures old(log) < log && log[|log| - 1] == Probed(id, obj, objects, !p.ProbeFailed?)
      ensures Looked(old(log), log)
      ensures p.Present? ==> obj in objects && objects[obj] == p.deleting && SeenIn(old(log), log, id, obj, p.deleting)
      ensures p.Absent? <==> FoundIn(old(log), log, id, obj)
      ensures p.ProbeFailed? <==> FailedIn(old(log), log, id, obj)
      ensures Deleting(log, id, obj) && (p.Absent? ==> SeenAbsent(log, id))
    {
      Others();
      PassiveChangesNothing(old(log), log, id);
      var answered: bool := *;
      ghost var mid, e := log, Probed(id, obj, objects, answered);
      Note(Probed(id, obj, objects, answered));
      ThenCall(old(log), mid, e, {e});
      ProbeTells(old(log), mid, id, obj, objects, answered);
      if !answered { return ProbeFailed; }
      return if obj in objects then Present(objects[obj]) else Absent;
    }

    /** A DELETE: sent unless the context has ended, then answered at a later moment. */
    method SendDeleteRequest(id: Identity, obj: Object) returns (r: CallResult)
      requires Valid() && Cleared(log, id) && Deleting(log, id, obj)
      modifies this
      ensures Valid() && listed == old(listed) && CallsOnly(old(log), log)
      ensures Deleting(log, id, obj) && (r.CallNotFound? ==> SeenAbsent(log, id))
      ensures DeleteTried(old(log), log, id, obj)
      ensures r.CallAccepted? ==>
                Happened(old(log), log, SentDelete(id, obj)) && Happened(old(log), log, AcceptedDelete(id, obj))
      ensures r.CallNotFound? <==> FoundIn(old(log), log, id, obj)
      ensures r.CallFailed? ==> FailedIn(old(log), log, id, obj)
    {
      var sent := SendGated(id, SentDelete(id, obj));
      ghost var mid := log;
      SendFindsNothing(old(log), mid, id, obj);
      if !sent { return CallFailed; }
      r := AnswerDelete(id, obj);
      AnswerAdds(old(log), mid, log, id, obj);
    }

    /** The cluster's answer to a DELETE: not found, failed, or accepted with the object gone or marked. */
    method AnswerDelete(id: Identity, obj: Object) returns (r: CallResult)
      requires Valid() && Deleting(log, id, obj)
      modifies this
      ensures Valid() && listed == old(listed) && CallsOnly(old(log), log)
      ensures Deleting(log, id, obj) && (r.CallNotFound? ==> SeenAbsent(log, id))
      ensures r.CallAccepted? ==> Happened(old(log), log, AcceptedDelete(id, obj))
      ensures r.CallNotFound? <==> FoundIn(old(log), log, id, obj)
      ensures r.CallFailed? ==> FailedIn(old(log), log, id, obj)
    {
      var p := GetObject(id, obj);
      match p
      case Absent => return CallNotFound;
      case ProbeFailed => return CallFailed;
      case Present(_) =>
        ghost var mid := log;
        AcceptDelete(id, obj);
        AcceptedAdds(old(log), mid, id, obj);
        return CallAccepted;
    }

    /** The cluster accepts a DELETE: the object is gone at once, or marked. */
    method AcceptDelete(id: Identity, obj: Object)
      requires Valid()
      modifies this`log, this`objects
      ensures Valid() && log == old(log) + [AcceptedDelete(id, obj)]
      ensures objects == old(objects) - {obj} || objects == old(objects)[obj := true]
    {
      Note(AcceptedDelete(id, obj));
      var gone: bool := *;
      objects := if gone then objects - {obj} else objects[obj := true];
    }

    /** setupResourceClient: any mapping, or a failure; a client addresses the object the mapping gives the identity. */
    method SetupResourceClient(id: Identity) returns (obj: Option<Object>)
      requires Valid() && PhaseOf(log) == Removing && id.ty == TypeDelete
      modifies this
      ensures Valid() && listed == old(listed) && Within(old(log), log)
      ensures obj.None? ==> !Settled(log, id) && Happened(old(log), log, MappingFailed(id))
      ensures obj.Some? ==> Resolved(log, id) == obj && !Happened(old(log), log, MappingFailed(id))
      ensures obj.Some? ==>
                exists m :: Happened(old(log), log, Mapped(id, m)) && DeletedObject(id.target, m) == obj
      ensures Only(old(log), log, {log[|log| - 1]}) && old(log) < log && !ClusterCall(log[|log| - 1])
    {
      Others();
      PassiveChangesNothing(old(log), log, id);
      ghost var mid := log;
      ghost var e: Event;
      obj, e := MapIdentity(id);
      MappingAdds(old(log), mid, e);
      if obj.Some? {
        OnlyThese(old(log), log, {e}, MappingFailed(id));
      }
    }

    /** The mapping itself, at one instant. */
    method MapIdentity(id: Identity) returns (obj: Option<Object>, ghost e: Event)
      requires Valid() && PhaseOf(log) == Removing && id.ty == TypeDelete
      modifies this`log
      ensures Valid() && log == old(log) + [e] && log[|log| - 1] == e
      ensures obj.None? ==> e == MappingFailed(id) && !Settled(log, id)
      ensures obj.Some? ==> && e.Mapped? && e.id == id && DeletedObject(id.target, e.mapping) == obj
                            && Resolved(log, id) == obj
    {
      var mapping: Option<Mapping> := *;
      obj := if mapping.Some? then DeletedObject(id.target, mapping.value) else None;
      e := if obj.None? then MappingFailed(id) else Mapped(id, mapping.value);
      MappingResolves(log, id, e);
      Note(if obj.None? then MappingFailed(id) else Mapped(id, mapping.value));
    }

    /** The apply path's mapping of a manifest's kind: any mapping, or a failure. */
    method MapManifest(id: Identity) returns (mapping: Option<Mapping>)
      requires Valid() && PhaseOf(log) == Applying && id.ty == TypeApply
      modifies this
      ensures Valid() && listed == old(listed) && Within(old(log), log)
      ensures Taken(log, id) == old(Taken(log, id))
      ensures mapping.None? ==> Happened(old(log), log, MappingFailed(id))
      ensures mapping.Some? ==> Happened(old(log), log, Mapped(id, mapping.value))
      ensures Only(old(log), log, {if mapping.None? then MappingFailed(id) else Mapped(id, mapping.value)})
    {
      Others();
      PassiveChangesNothing(old(log), log, id);
      CalmTakesNothing(old(log), log, id);
      mapping := None;
      var resolved: Option<Mapping> := *;
      if resolved.Some? {
        mapping := Some(resolved.value);
      }
      var e := if mapping.None? then MappingFailed(id) else Mapped(id, mapping.value);
      ghost var mid := log;
      Note(e);
      MappingAdds(old(log), mid, e);
    }
  }

  lemma MappingAdds(log: History, mid: History, e: Event)
    requires PassiveOnly(log, mid) && (e.Mapped? || e.MappingFailed?)
    ensures Within(log, mid + [e]) && Happened(log, mid + [e], e) && Only(log, mid + [e], {e}) && Only(log, mid, {})
    ensures forall id :: Taken(mid + [e], id) == Taken(mid, id)
  {
    AppendUnfolds(mid, e);
    HappenedLast(log, mid + [e], e);
  }

  lemma ListingFrom(log: History, mid: History, log': History, xs: seq<Snapshot>)
    requires log <= mid <= log' && Listing(mid, log', xs)
    ensures Listing(log, log', xs)
  {
    forall i | 0 <= i < |xs|
      ensures Happened(log, log', Read(xs[i]))
    {
      HappenedEarlier(log, mid, log', Read(xs[i]));
    }
  }

  // ------------------------------------------------------------------- apply

  datatype ApplyResult = Report(outcome: Condition) | Vanished | StoreError(late: bool) | Stopped

  datatype Flow = Continue | Error | TimeOut | Stop

  /** What a reported apply outcome says, and what it rests on. */
  ghost predicate ApplyReports(lib: Library, log: History, log': History, d: ApplyDesire, c: Condition) {
    && c.ty == Successful && c.observedGeneration == d.generation && (c.status == True <==> c.reason == Applied)
    && ApplyExplained(lib, log, log', d.identity, d.spec, c.reason)
    && (c.reason == Applied ==> AppliedThisPass(log', d.identity, d.spec))
  }

  /** Why a reconciliation ends without an outcome: the desire is gone, the store failed, or the context has ended. */
  ghost predicate NoOutcome(log: History, log': History, id: Identity, cancelled: bool) {
    cancelled || Happened(log, log', Missed(id)) || Happened(log, log', StoreFailed(id))
  }

  /** A readable manifest whose one mapping agrees with the identity meets no objection. */
  lemma NoObjection(
    lib: Library, log: History, mid: History, log': History, id: Identity, spec: ApplySpec, mapping: Mapping)
    requires Only(log, mid, {Mapped(id, mapping)}) && Only(mid, log', ApplyCalls(id, spec)) && !Unreadable(lib, spec)
    requires !Disagrees(id.target, lib.manifest(spec.kubeContent).value, mapping)
    ensures !Objected(lib, log, log', id, spec)
  {
    HappenedSplits(log, mid, log', MappingFailed(id));
    OnlyThese(log, mid, {Mapped(id, mapping)}, MappingFailed(id));
    OnlyThese(mid, log', ApplyCalls(id, spec), MappingFailed(id));
    forall other | Happened(log, log', Mapped(id, other))
      ensures other == mapping
    {
      HappenedSplits(log, mid, log', Mapped(id, other));
      OnlyThese(mid, log', ApplyCalls(id, spec), Mapped(id, other));
      if other != mapping {
        OnlyThese(log, mid, {Mapped(id, mapping)}, Mapped(id, other));
      }
    }
  }

  /**
    * What one attempt at a desire did and reports: PreCheckFailed exactly on an objection, Applied exactly on an
    * acceptance, any report with its explanation, and no report only with a reason on record or after the context
    * ended.
    */
  ghost predicate Attempted(lib: Library, log: History, log': History, d: ApplyDesire, r: ApplyResult) {
    && Within(log, log')
    && (r.Vanished? ==> Happened(log, log', Missed(d.identity)))
    && (r.StoreError? ==> Happened(log, log', StoreFailed(d.identity)))
    && (if r.StoreError? && r.late then Happened(log, log', TimedOut(d.identity)) else OnTime(log, log'))
    && (r.Report? ==> ApplyReports(lib, log, log', d, r.outcome))
    && (r.Report? && r.outcome.reason == PreCheckFailed <==> Objected(lib, log, log', d.identity, d.spec))
    && (r.Report? && r.outcome.reason == Applied <==> Happened(log, log', AcceptedApply(d.identity, d.spec)))
  }

  /** Decodes, maps and checks the manifest, re-checks that the desire still exists, and applies it through the gate. */
  method ApplyToCluster(w: World, d: ApplyDesire) returns (r: ApplyResult)
    requires w.Valid() && d.identity.ty == TypeApply && PhaseOf(w.log) == Applying && Carries(w.log, d.identity, d.spec)
    modifies w
    ensures w.Valid() && w.listed == old(w.listed) && Attempted(w.lib, old(w.log), w.log, d, r)
    ensures r.Stopped? ==> w.cancelled
  {
    var message: string := *;
    var manifest := w.lib.manifest(d.spec.kubeContent);
    if manifest.None? { return Report(Outcome(d.generation, PreCheckFailed, message)); }
    var m := manifest.value;
    if m.apiVersion == "" || m.kind == "" || m.name == "" {
      return Report(Outcome(d.generation, PreCheckFailed, message));
    }
    r := ApplyDecoded(w, d, m, message);
  }

  /** The part of applyToCluster behind the decoding. */
  method ApplyDecoded(w: World, d: ApplyDesire, m: Manifest, message: string) returns (r: ApplyResult)
    requires w.Valid() && d.identity.ty == TypeApply && PhaseOf(w.log) == Applying && Carries(w.log, d.identity, d.spec)
    requires !Unreadable(w.lib, d.spec) && w.lib.manifest(d.spec.kubeContent) == Some(m)
    modifies w
    ensures w.Valid() && w.listed == old(w.listed) && Attempted(w.lib, old(w.log), w.log, d, r)
    ensures r.Stopped? ==> w.cancelled
  {
    var id := d.identity;
    var mapping := w.MapManifest(id);
    ghost var mid := w.log;
    if mapping.None? {
      ObjectionReports(w.lib, old(w.log), mid, d, MappingFailed(id), message);
      return Report(Outcome(d.generation, PreCheckFailed, message));
    }
    if !CheckApplyTarget(id.target, m, mapping.value) {
      ObjectionReports(w.lib, old(w.log), mid, d, Mapped(id, mapping.value), message);
      return Report(Outcome(d.generation, PreCheckFailed, message));
    }
    AppliesToItsIdentity(id.target, m, mapping.value);
    SamePassKeepsPhase(old(w.log), mid);
    r := ApplyObject(w, d, AppliedObject(id.target, mapping.value), message);
    MappedReports(w.lib, old(w.log), mid, w.log, d, mapping.value, r, message);
  }

  lemma MappedReports(
    lib: Library, log: History, mid: History, log': History, d: ApplyDesire, mapping: Mapping, r: ApplyResult,
    message: string)
    requires Within(log, mid) && Only(log, mid, {Mapped(d.identity, mapping)}) && !Unreadable(lib, d.spec)
    requires !Disagrees(d.identity.target, lib.manifest(d.spec.kubeContent).value, mapping)
    requires TriedObject(mid, log', d, r, message)
    ensures Attempted(lib, log, log', d, r)
  {
    MappedAttempt(lib, log, mid, log', d.identity, d.spec, mapping);
  }

  /** A mapping that failed, or disagrees with the identity, ends the attempt. */
  lemma ObjectionReports(lib: Library, log: History, mid: History, d: ApplyDesire, e: Event, message: string)
    requires Within(log, mid) && Only(log, mid, {e}) && Happened(log, mid, e) && !Unreadable(lib, d.spec)
    requires || e == MappingFailed(d.identity)
             || (&& e.Mapped? && e.id == d.identity
                 && Disagrees(d.identity.target, lib.manifest(d.spec.kubeContent).value, e.mapping))
    ensures Attempted(lib, log, mid, d, Report(Outcome(d.generation, PreCheckFailed, message)))
  {
    OnlyThese(log, mid, {e}, AcceptedApply(d.identity, d.spec));
  }

  /** An attempt after an agreeing mapping, told from the beginning. */
  lemma MappedAttempt(
    lib: Library, log: History, mid: History, log': History, id: Identity, spec: ApplySpec, mapping: Mapping)
    requires Within(log, mid) && CallsOnly(mid, log') && Only(log, mid, {Mapped(id, mapping)})
    requires Only(mid, log', ApplyCalls(id, spec)) && !Unreadable(lib, spec)
    requires !Disagrees(id.target, lib.manifest(spec.kubeContent).value, mapping)
    ensures Within(log, log') && !Objected(lib, log, log', id, spec)
    ensures ApplyTried(mid, log', id, spec) ==> ApplyTried(log, log', id, spec)
    ensures Happened(log, log', AcceptedApply(id, spec)) <==> Happened(mid, log', AcceptedApply(id, spec))
    ensures Happened(mid, log', Missed(id)) ==> Happened(log, log', Missed(id))
    ensures Happened(mid, log', StoreFailed(id)) ==> Happened(log, log', StoreFailed(id))
    ensures Happened(mid, log', TimedOut(id)) ==> Happened(log, log', TimedOut(id))
    ensures OnTime(mid, log') ==> OnTime(log, log')
  {
    if OnTime(mid, log') {
      OnTimeJoin(log, mid, log');
    }
    CallsAreWithin(mid, log');
    WithinJoin(log, mid, log');
    NoObjection(lib, log, mid, log', id, spec, mapping);
    OnlyThese(log, mid, {Mapped(id, mapping)}, AcceptedApply(id, spec));
    AttemptSince(log, mid, log', id, spec);
  }

  /** What an attempt made and met since the mapping, it made and met since the beginning. */
  lemma AttemptSince(log: History, mid: History, log': History, id: Identity, spec: ApplySpec)
    requires log <= mid <= log' && !Happened(log, mid, AcceptedApply(id, spec))
    ensures ApplyTried(mid, log', id, spec) ==> ApplyTried(log, log', id, spec)
    ensures Happened(log, log', AcceptedApply(id, spec)) <==> Happened(mid, log', AcceptedApply(id, spec))
    ensures Happened(mid, log', Missed(id)) ==> Happened(log, log', Missed(id))
    ensures Happened(mid, log', StoreFailed(id)) ==> Happened(log, log', StoreFailed(id))
    ensures Happened(mid, log', TimedOut(id)) ==> Happened(log, log', TimedOut(id))
  {
    HappenedWithin(log, mid, log', log', SentApply(id, Coordinates(id.target), spec));
    HappenedWithin(log, mid, log', log', NotSent(id, Coordinates(id.target)));
    HappenedWithin(log, mid, log', log', Missed(id));
    HappenedWithin(log, mid, log', log', StoreFailed(id));
    HappenedWithin(log, mid, log', log', TimedOut(id));
    HappenedSplits(log, mid, log', AcceptedApply(id, spec));
  }

  /** What the part of an attempt behind the mapping did and reports. */
  ghost predicate TriedObject(log: History, log': History, d: ApplyDesire, r: ApplyResult, message: string) {
    && CallsOnly(log, log') && Only(log, log', ApplyCalls(d.identity, d.spec))
    && (r.Vanished? ==> Happened(log, log', Missed(d.identity)))
    && (r.StoreError? ==> Happened(log, log', StoreFailed(d.identity)))
    && (if r.StoreError? && r.late then Happened(log, log', TimedOut(d.identity)) else OnTime(log, log'))
    && (r.Report? ==> ApplyTried(log, log', d.identity, d.spec))
    && (r.Report? && r.outcome.reason == Applied <==> Happened(log, log', AcceptedApply(d.identity, d.spec)))
    && (r.Report? ==>
          || (r.outcome == Outcome(d.generation, Applied, "") && AppliedThisPass(log', d.identity, d.spec))
          || r.outcome == Outcome(d.generation, KubeAPIError, message))
  }

  /** The part of applyToCluster that talks to the store, the gate and the cluster. */
  method ApplyObject(w: World, d: ApplyDesire, obj: Object, message: string) returns (r: ApplyResult)
    requires w.Valid() && d.identity.ty == TypeApply && PhaseOf(w.log) == Applying && Carries(w.log, d.identity, d.spec)
    requires obj == Coordinates(d.identity.target)
    modifies w
    ensures w.Valid() && w.listed == old(w.listed) && TriedObject(old(w.log), w.log, d, r, message)
    ensures r.Stopped? ==> w.cancelled
  {
    var id := d.identity;
    var found := w.GetApplyDesire(id);
    ghost var seen := w.log;
    if found.LookupFailed? {
      FailedFirst(old(w.log), seen, id, d.spec, found.late);
      return StoreError(found.late);
    }
    CalmFirst(old(w.log), seen, id, d.spec);
    if found.DesireGone? { return Vanished; }
    r := ApplyGated(w, d, obj, message);
    AttemptAfter(old(w.log), seen, w.log, id, d.spec);
  }

  /** The server-side apply through the gate; a failure under an ended context or a stale Lease is not the desire's. */
  method ApplyGated(w: World, d: ApplyDesire, obj: Object, message: string) returns (r: ApplyResult)
    requires w.Valid() && d.identity.ty == TypeApply && PhaseOf(w.log) == Applying && Carries(w.log, d.identity, d.spec)
    requires obj == Coordinates(d.identity.target) && !Quiet(w.log, d.identity.target)
    modifies w
    ensures w.Valid() && w.listed == old(w.listed) && CallsOnly(old(w.log), w.log)
    ensures Only(old(w.log), w.log, ApplyCalls(d.identity, d.spec))
    ensures r.Stopped? ==> w.cancelled
    ensures (r.Report? || r.Stopped?) && OnTime(old(w.log), w.log)
    ensures r.Report? ==> ApplyTried(old(w.log), w.log, d.identity, d.spec)
    ensures r.Report? && r.outcome.reason == Applied <==> Happened(old(w.log), w.log, AcceptedApply(d.identity, d.spec))
    ensures r.Report? ==>
              || r.outcome == Outcome(d.generation, Applied, "")
              || r.outcome == Outcome(d.generation, KubeAPIError, message)
    ensures r.Report? && r.outcome.reason == Applied ==> AppliedThisPass(w.log, d.identity, d.spec)
  {
    var id := d.identity;
    var allowed := w.PassesGate(id);
    ghost var passed := w.log;
    CalmFirst(old(w.log), passed, id, d.spec);
    if !allowed { return Stopped; }
    var accepted := w.SendApplyRequest(id, obj, d.spec);
    ghost var sent := w.log;
    AttemptAfter(old(w.log), passed, sent, id, d.spec);
    if accepted { return Report(Outcome(d.generation, Applied, "")); }
    SamePassKeepsPhase(old(w.log), sent);
    allowed := w.PassesGate(id);
    CalmAfter(old(w.log), sent, w.log, id, d.spec);
    return if allowed then Report(Outcome(d.generation, KubeAPIError, message)) else Stopped;
  }

  /** A failed re-check is all there is. */
  lemma FailedFirst(log: History, log': History, id: Identity, spec: ApplySpec, late: bool)
    requires CallFails(log, log', id, late)
    ensures CallsOnly(log, log') && Only(log, log', ApplyCalls(id, spec))
    ensures !Happened(log, log', AcceptedApply(id, spec)) && (late || OnTime(log, log'))
  {
    OnlyWidens(log, log', {TimedOut(id)}, ApplyCalls(id, spec));
    OnlyThese(log, log', {TimedOut(id)}, AcceptedApply(id, spec));
    if !late {
      PassiveIsOnTime(log, log');
    }
  }

  /** Calm events before an attempt change nothing about it. */
  lemma CalmFirst(log: History, mid: History, id: Identity, spec: ApplySpec)
    requires CalmOnly(log, mid)
    ensures CallsOnly(log, mid) && Only(log, mid, ApplyCalls(id, spec)) && !Happened(log, mid, AcceptedApply(id, spec))
    ensures Taken(mid, id) == Taken(log, id) && PhaseOf(mid) == PhaseOf(log)
    ensures Quiet(mid, id.target) ==> Quiet(log, id.target)
    ensures OnTime(log, mid)
  {
    PassiveIsOnTime(log, mid);
    CalmTakesNothing(log, mid, id);
    PassiveChangesNothing(log, mid, id);
    PassiveIsCalls(log, mid);
    PassiveIsOnly(log, mid, ApplyCalls(id, spec));
    PassiveIsOnly(log, mid, {});
    OnlyThese(log, mid, {}, AcceptedApply(id, spec));
  }

  /** An attempt after a calm beginning is the attempt of the whole. */
  lemma AttemptAfter(log: History, mid: History, log': History, id: Identity, spec: ApplySpec)
    requires CallsOnly(log, mid) && CallsOnly(mid, log') && !Happened(log, mid, AcceptedApply(id, spec))
    requires Only(log, mid, ApplyCalls(id, spec)) && Only(mid, log', ApplyCalls(id, spec))
    ensures CallsOnly(log, log') && Only(log, log', ApplyCalls(id, spec)) && SamePass(log, log')
    ensures ApplyTried(mid, log', id, spec) ==> ApplyTried(log, log', id, spec)
    ensures Happened(log, log', AcceptedApply(id, spec)) <==> Happened(mid, log', AcceptedApply(id, spec))
    ensures OnTime(log, mid) && OnTime(mid, log') ==> OnTime(log, log')
  {
    if OnTime(log, mid) && OnTime(mid, log') {
      OnTimeJoin(log, mid, log');
    }
    CallsJoin(log, mid, log');
    CallsAreWithin(log, log');
    OnlyJoin(log, mid, log', ApplyCalls(id, spec));
    AttemptSince(log, mid, log', id, spec);
  }

  /** Calm events after an attempt change nothing about it. */
  lemma CalmAfter(log: History, mid: History, log': History, id: Identity, spec: ApplySpec)
    requires CallsOnly(log, mid) && Only(log, mid, ApplyCalls(id, spec)) && CalmOnly(mid, log')
    ensures CallsOnly(log, log') && Only(log, log', ApplyCalls(id, spec))
    ensures ApplyTried(log, mid, id, spec) ==> ApplyTried(log, log', id, spec)
    ensures Happened(log, log', AcceptedApply(id, spec)) <==> Happened(log, mid, AcceptedApply(id, spec))
    ensures OnTime(log, mid) ==> OnTime(log, log')
  {
    PassiveIsOnTime(mid, log');
    if OnTime(log, mid) {
      OnTimeJoin(log, mid, log');
    }
    CalmTakesNothing(mid, log', id);
    CallsJoin(log, mid, log');
    PassiveIsOnly(mid, log', ApplyCalls(id, spec));
    OnlyJoin(log, mid, log', ApplyCalls(id, spec));
    PassiveIsOnly(mid, log', {});
    OnlyThese(mid, log', {}, AcceptedApply(id, spec));
    HappenedSplits(log, mid, log', AcceptedApply(id, spec));
    HappenedSplits(log, mid, log', SentApply(id, Coordinates(id.target), spec));
    HappenedSplits(log, mid, log', NotSent(id, Coordinates(id.target)));
  }

  /** The history when a reconciliation that began in `log` had its outcome, which the rest only writes. */
  ghost predicate Between(log: History, id: Identity, mid: History, log': History) {
    log + [Began(id)] <= mid <= log'
  }

  /**
    * Applies one listed desire and writes its outcome, unless the status already reports it. `reached` is the history
    * when the outcome was reached.
    */
  method ReconcileApply(w: World, x: Snapshot)
    returns (flow: Flow, outcome: Option<Condition>, wrote: bool, ghost reached: History)
    requires w.Valid() && x in w.listed && x.rec.identity.ty == TypeApply && PhaseOf(w.log) == Applying
    requires x.rec.apply.Some? && !LateThisPass(w.log) && !w.cancelled
    modifies w
    ensures w.Valid() && Without(old(w.listed), x.rec.identity) <= w.listed
    ensures SamePass(old(w.log), w.log) && Between(old(w.log), x.rec.identity, reached, w.log)
    ensures flow.Stop? ==> w.cancelled
    ensures flow.TimeOut? ==> Happened(old(w.log), w.log, TimedOut(x.rec.identity))
    ensures flow.TimeOut? || OnTime(old(w.log), w.log)
    ensures outcome.Some? ==>
              ApplyReports(w.lib, old(w.log) + [Began(x.rec.identity)], reached, ProjectApply(x.rec), outcome.value)
    ensures outcome.None? ==> NoOutcome(old(w.log) + [Began(x.rec.identity)], w.log, x.rec.identity, w.cancelled)
    ensures wrote <==> outcome.Some? && !Matched(outcome.value, x.rec.status)
    ensures wrote ==> WriteTried(reached, w.log, x.rec.identity)
    ensures !wrote ==> Storeless(old(w.log), w.log)
  {
    w.ListedHere(x);
    w.EndedHere();
    var id := x.rec.identity;
    w.Note(Began(id));
    ghost var began := w.log;
    w.ListedHere(x);
    BeganNow(old(w.log), id);
    var r := ApplyToCluster(w, ProjectApply(x.rec));
    reached := w.log;
    AfterBegan(old(w.log), id, reached);
    HappenedWithin(old(w.log), began, reached, reached, TimedOut(id));
    OnTimeSince(old(w.log), began, reached);
    match r
    case Vanished => return Continue, None, false, reached;
    case StoreError(late) => return if late then TimeOut else Error, None, false, reached;
    case Stopped => return Stop, None, false, reached;
    case Report(c) =>
      if !Matched(c, x.rec.status) {
        ApplyMayBeWritten(w.lib, old(w.log), reached, x, c);
      }
      flow, wrote := WriteApplyStatus(w, x, c);
      SamePassJoin(old(w.log), reached, w.log);
      HappenedWithin(old(w.log), reached, w.log, w.log, TimedOut(id));
      OnTimeSince(old(w.log), reached, w.log);
      return flow, Some(c), wrote, reached;
  }

  lemma OnTimeSince(log: History, mid: History, log': History)
    requires log <= mid <= log'
    ensures OnTime(log, mid) && OnTime(mid, log') ==> OnTime(log, log')
  {
    if OnTime(log, mid) && OnTime(mid, log') {
      OnTimeJoin(log, mid, log');
    }
  }

  /** The status write an apply reconciliation ends with. */
  method WriteApplyStatus(w: World, x: Snapshot, outcome: Condition) returns (flow: Flow, wrote: bool)
    requires w.Valid() && x in w.listed && (!Matched(outcome, x.rec.status) ==> ApplyReport(w.lib, w.log, x, outcome))
    modifies w
    ensures w.Valid() && SamePass(old(w.log), w.log) && Without(old(w.listed), x.rec.identity) <= w.listed
    ensures !flow.Stop? && (flow.TimeOut? ==> Happened(old(w.log), w.log, TimedOut(x.rec.identity)))
    ensures flow.TimeOut? || OnTime(old(w.log), w.log)
    ensures wrote <==> !Matched(outcome, x.rec.status)
    ensures wrote ==> WriteTried(old(w.log), w.log, x.rec.identity)
    ensures !wrote ==> w.items == old(w.items) && w.log == old(w.log)
  {
    w.ListedHere(x);
    var now: int := *;
    var same := Equal(WithCondition(x.rec.status, outcome, now), x.rec.status);
    SettingIsNoopExactlyWhen(x.rec.status, outcome, now);
    if same { return Continue, false; }
    var reply, late := w.UpdateApplyDesireStatus(x, outcome, now);
    if reply == Failed(ErrVersionConflict) { return Continue, true; }
    return if late then TimeOut else if reply.Failed? then Error else Continue, true;
  }

  /** What the apply controller may write of an outcome it reached. */
  lemma ApplyMayBeWritten(lib: Library, log: History, reached: History, x: Snapshot, c: Condition)
    requires x.rec.apply.Some? && x.rec.identity.ty == TypeApply && Within(log + [Began(x.rec.identity)], reached)
    requires ApplyReports(lib, log + [Began(x.rec.identity)], reached, ProjectApply(x.rec), c)
    requires !Matched(c, x.rec.status)
    ensures ApplyReport(lib, reached, x, c)
  {
    var id, began := x.rec.identity, log + [Began(x.rec.identity)];
    BeganNow(log, id);
    WithinKeepsBegan(began, reached, id);
    assert reached[..|began|] == began;
  }

  /** A reconciliation begins in the phase it is in. */
  lemma BeganNow(log: History, id: Identity)
    ensures
      var began := log + [Began(id)];
      && BeganLen(began, id) == Some(|began|) && PhaseOf(began) == PhaseOf(log)
      && SamePass(log, began) && Storeless(log, began)
  {
    AppendUnfolds(log, Began(id));
  }

  lemma AfterBegan(log: History, id: Identity, log': History)
    requires Within(log + [Began(id)], log')
    ensures SamePass(log, log') && Storeless(log, log') && Between(log, id, log', log')
  {
    BeganNow(log, id);
    SamePassJoin(log, log + [Began(id)], log');
    assert forall i :: |log| <= i < |log| + 1 ==> log'[i] == (log + [Began(id)])[i];
  }

  /** A pass over a listing: the desires before `done` were taken up, the others are still as listed. */
  ghost predicate Underway(
    log: History, log': History, listed: set<Snapshot>, xs: seq<Snapshot>, done: nat, ty: DesireType)
  {
    && log <= log' && done <= |xs| && Listing(log, log', xs)
    && (forall i :: 0 <= i < |xs| ==> xs[i].rec.identity.ty == ty)
    && (forall i :: 0 <= i < done ==> Happened(log, log', Began(xs[i].rec.identity)))
    && (forall i :: done <= i < |xs| ==> xs[i] in listed)
  }

  /** Every desire the store held at moment `scan` was taken up, or was gone when it was read. */
  ghost predicate AllTakenUp(
    lib: Library, managementCluster: Str, ty: DesireType, log: History, log': History, scan: nat)
  {
    && |log| <= scan <= |log'|
    && forall id :: id in StoreOf(lib, log'[..scan]) && InScope(managementCluster, ty, id) ==>
                      Happened(log, log', Began(id)) || Happened(log, log', Missed(id))
  }

  lemma PassTakesUpAll(
    lib: Library, managementCluster: Str, ty: DesireType, log: History, mid: History, log': History,
    listed: set<Snapshot>, xs: seq<Snapshot>, scan: nat)
    requires |log| <= scan <= |mid| && mid <= log' && Underway(log, log', listed, xs, |xs|, ty) && log <= mid
    requires Complete(managementCluster, ty, StoreOf(lib, mid[..scan]), log, mid, xs)
    ensures AllTakenUp(lib, managementCluster, ty, log, log', scan)
  {
    assert log'[..scan] == mid[..scan];
    forall id | id in StoreOf(lib, mid[..scan]) && InScope(managementCluster, ty, id)
      ensures Happened(log, log', Began(id)) || Happened(log, log', Missed(id))
    {
      assert Covered(log, mid, xs, id);
      if Happened(log, mid, Missed(id)) {
        HappenedLater(log, mid, log', Missed(id));
      }
    }
  }

  /** What a pass has taken up and read stays on record. */
  lemma PassGoesOn(
    log: History, mid: History, log': History, listed: set<Snapshot>, xs: seq<Snapshot>, done: nat, ty: DesireType)
    requires Underway(log, mid, listed, xs, done, ty) && mid <= log'
    ensures Underway(log, log', listed, xs, done, ty)
  {
    forall i | 0 <= i < |xs|
      ensures Happened(log, log', Read(xs[i]))
    {
      HappenedLater(log, mid, log', Read(xs[i]));
    }
    forall i | 0 <= i < done
      ensures Happened(log, log', Began(xs[i].rec.identity))
    {
      HappenedLater(log, mid, log', Began(xs[i].rec.identity));
    }
  }

  /** Passive events between two desires. */
  lemma PassWaits(
    start: History, first: History, mid: History, log': History, listed: set<Snapshot>, xs: seq<Snapshot>, done: nat,
    ty: DesireType)
    requires Underway(start, mid, listed, xs, done, ty) && SamePass(first, mid) && PassiveOnly(mid, log')
    ensures Underway(start, log', listed, xs, done, ty) && SamePass(first, log') && PhaseOf(log') == PhaseOf(first)
  {
    PassiveIsWithin(mid, log');
    SamePassJoin(first, mid, log');
    SamePassKeepsPhase(first, log');
    PassGoesOn(start, mid, log', listed, xs, done, ty);
  }

  /** One more desire is taken up. */
  lemma PassAdvances(
    start: History, first: History, mid: History, reached: History, log': History, listed: set<Snapshot>,
    listed': set<Snapshot>, xs: seq<Snapshot>, done: nat, ty: DesireType)
    requires Underway(start, mid, listed, xs, done, ty) && done < |xs| && SamePass(first, mid) && SamePass(mid, log')
    requires Without(listed, xs[done].rec.identity) <= listed' && Between(mid, xs[done].rec.identity, reached, log')
    ensures Underway(start, log', listed', xs, done + 1, ty) && SamePass(first, log')
  {
    SamePassJoin(first, mid, log');
    BetweenBegan(mid, xs[done].rec.identity, reached, log');
    PassGoesOn(start, mid, log', listed, xs, done, ty);
    HappenedEarlier(start, mid, log', Began(xs[done].rec.identity));
    assert forall i :: done < i < |xs| ==> xs[i] in Without(listed, xs[done].rec.identity);
  }

  /** The listing failed or a store call of the pass timed out. */
  ghost predicate Excused(log: History, log': History, ty: DesireType) {
    Happened(log, log', ListFailed(ty)) || TimedOutIn(log, log', ty)
  }

  /** A store call for one of its desires failed by its own deadline. */
  ghost predicate TimedOutIn(log: History, log': History, ty: DesireType) {
    exists id: Identity :: id.ty == ty && Happened(log, log', TimedOut(id))
  }

  lemma TimedOutWithin(log: History, from: History, to: History, log': History, ty: DesireType)
    requires log <= from <= to <= log'
    ensures TimedOutIn(from, to, ty) ==> TimedOutIn(log, log', ty)
  {
    if TimedOutIn(from, to, ty) {
      var id: Identity :| id.ty == ty && Happened(from, to, TimedOut(id));
      HappenedWithin(log, from, to, log', TimedOut(id));
    }
  }

  /** A pass has done its work: it took up every desire of the store at some scan, or is excused. */
  ghost predicate Worked(lib: Library, managementCluster: Str, ty: DesireType, log: History, log': History) {
    Excused(log, log', ty) || exists scan: nat :: AllTakenUp(lib, managementCluster, ty, log, log', scan)
  }

  lemma WorkedLater(lib: Library, managementCluster: Str, ty: DesireType, log: History, mid: History, log': History)
    requires log <= mid <= log' && Worked(lib, managementCluster, ty, log, mid)
    ensures Worked(lib, managementCluster, ty, log, log')
  {
    HappenedWithin(log, log, mid, log', ListFailed(ty));
    TimedOutWithin(log, log, mid, log', ty);
    if !Excused(log, mid, ty) {
      var scan: nat :| AllTakenUp(lib, managementCluster, ty, log, mid, scan);
      assert mid[..scan] == log'[..scan];
      forall id | id in StoreOf(lib, log'[..scan]) && InScope(managementCluster, ty, id)
        ensures Happened(log, log', Began(id)) || Happened(log, log', Missed(id))
      {
        HappenedWithin(log, log, mid, log', Began(id));
        HappenedWithin(log, log, mid, log', Missed(id));
      }
      assert AllTakenUp(lib, managementCluster, ty, log, log', scan);
    }
  }

  /** Reconciles every listed desire, unless the listing fails, the context ends, or a store call's deadline does. */
  method ApplyRunOnce(w: World)
    requires w.Valid() && PhaseOf(w.log) == Ticking && !w.cancelled
    modifies w
    ensures w.Valid() && old(w.log) + [ApplyPassStarted] <= w.log && SamePass(old(w.log) + [ApplyPassStarted], w.log)
    ensures w.cancelled || Worked(w.lib, w.managementCluster, TypeApply, old(w.log), w.log)
  {
    w.EndedHere();
    w.Mark(ApplyPassStarted);
    ghost var started := w.log;
    var ok, xs, scan := w.ListRecords(TypeApply);
    ghost var mid := w.log;
    StartsUnderway(w.lib, w.managementCluster, TypeApply, old(w.log), started, mid, w.listed, xs, scan, ok);
    HappenedWithin(old(w.log), started, mid, mid, ListFailed(TypeApply));
    if !ok { return; }
    SamePassKeepsPhase(started, mid);
    PassiveIsOnTime(started, mid);
    OnTimeStays(started, mid);
    ApplyEach(w, old(w.log), xs);
    SamePassJoin(started, mid, w.log);
    TimedOutWithin(old(w.log), mid, w.log, w.log, TypeApply);
    if Underway(old(w.log), w.log, w.listed, xs, |xs|, TypeApply) {
      PassTakesUpAll(w.lib, w.managementCluster, TypeApply, old(w.log), mid, w.log, w.listed, xs, scan);
    }
  }

  /** The loop of the pass that began at `start`. */
  method ApplyEach(w: World, ghost start: History, xs: seq<Snapshot>)
    requires w.Valid() && PhaseOf(w.log) == Applying && Underway(start, w.log, w.listed, xs, 0, TypeApply)
    requires !LateThisPass(w.log)
    modifies w
    ensures w.Valid() && SamePass(old(w.log), w.log)
    ensures || w.cancelled || TimedOutIn(old(w.log), w.log, TypeApply)
            || Underway(start, w.log, w.listed, xs, |xs|, TypeApply)
  {
    for done := 0 to |xs|
      invariant w.Valid() && SamePass(old(w.log), w.log) && OnTime(old(w.log), w.log)
      invariant Underway(start, w.log, w.listed, xs, done, TypeApply)
    {
      ghost var before := w.log;
      var cancelled := w.IsCancelled();
      PassWaits(start, old(w.log), before, w.log, w.listed, xs, done, TypeApply);
      PassiveIsOnTime(before, w.log);
      OnTimeJoin(old(w.log), before, w.log);
      if cancelled { return; }
      var flow := ApplyNext(w, start, old(w.log), xs, done);
      if flow.Stop? || flow.TimeOut? { return; }
    }
  }

  /** Takes up the next desire of a pass. */
  method ApplyNext(w: World, ghost start: History, ghost first: History, xs: seq<Snapshot>, done: nat)
    returns (flow: Flow)
    requires w.Valid() && done < |xs| && Underway(start, w.log, w.listed, xs, done, TypeApply)
    requires SamePass(first, w.log) && PhaseOf(w.log) == Applying && OnTime(first, w.log) && !LateThisPass(first)
    requires !w.cancelled
    modifies w
    ensures w.Valid() && SamePass(first, w.log) && Underway(start, w.log, w.listed, xs, done + 1, TypeApply)
    ensures flow.TimeOut? || OnTime(first, w.log)
    ensures flow.Stop? ==> w.cancelled
    ensures flow.TimeOut? ==> TimedOutIn(first, w.log, TypeApply)
  {
    ghost var had, before := w.listed, w.log;
    w.ListedHere(xs[done]);
    OnTimeStays(first, before);
    var next, _, _, reached := ReconcileApply(w, xs[done]);
    flow := next;
    OnTimeSince(first, before, w.log);
    PassAdvances(start, first, before, reached, w.log, had, w.listed, xs, done, TypeApply);
    HappenedWithin(first, before, w.log, w.log, TimedOut(xs[done].rec.identity));
  }

  lemma BetweenBegan(log: History, id: Identity, mid: History, log': History)
    requires Between(log, id, mid, log')
    ensures Happened(log, log', Began(id))
  {
    assert (log + [Began(id)])[|log|] == Began(id);
    assert log'[|log|] == Began(id);
  }

  /** The listing starts the pass proper. */
  lemma StartsUnderway(
    lib: Library, managementCluster: Str, ty: DesireType, log: History, started: History, mid: History,
    listed: set<Snapshot>, xs: seq<Snapshot>, scan: nat, ok: bool)
    requires log <= started && |started| == |log| + 1 && PassiveOnly(started, mid)
    requires ListingOf(managementCluster, ty, started, mid, listed, xs)
    requires ok ==> |started| <= scan <= |mid|
    requires ok ==> Complete(managementCluster, ty, StoreOf(lib, mid[..scan]), started, mid, xs)
    ensures Underway(log, mid, listed, xs, 0, ty) && SamePass(started, mid) && PhaseOf(mid) == PhaseOf(started)
    ensures ok ==> Complete(managementCluster, ty, StoreOf(lib, mid[..scan]), log, mid, xs)
  {
    ListingFrom(log, started, mid, xs);
    SamePassKeepsPhase(started, mid);
    if ok {
      forall id | id in StoreOf(lib, mid[..scan]) && InScope(managementCluster, ty, id)
        ensures Covered(log, mid, xs, id)
      {
        assert Covered(started, mid, xs, id);
        if Happened(started, mid, Missed(id)) {
          HappenedEarlier(log, started, mid, Missed(id));
        }
      }
    }
  }

  // ------------------------------------------------------------------- delete

  datatype DeleteResult = Deletion(reason: Reason, message: string) | Aborted

  /** What the cluster calls of one delete reconciliation may report, and what each report rests on. */
  ghost predicate Justified(log: History, log': History, id: Identity, obj: Object, r: DeleteResult) {
    && (r.Deletion? ==> DeleteExplained(log, log', id, obj, r.reason))
    && (r.Deletion? && r.reason == Deleted ==> AbsentThisPass(log', id, obj) && r.message == "")
    && (r.Deletion? && r.reason == Deleted <==> FoundIn(log, log', id, obj))
  }

  /** What is justified by the calls of a part of the time, if the rest found nothing, is justified by all of it. */
  lemma JustifiedSince(log: History, from: History, log': History, id: Identity, obj: Object, r: DeleteResult)
    requires log <= from <= log' && !FoundIn(log, from, id, obj) && Justified(from, log', id, obj, r)
    ensures Justified(log, log', id, obj, r)
    ensures DeleteTried(from, log', id, obj) ==> DeleteTried(log, log', id, obj)
  {
    FoundSplits(log, from, log', id, obj);
    TroubleWithin(log, from, log', log', id, obj);
    TriedIn(log, from, log', id, obj);
  }

  /** What the GET after an accepted DELETE may report. */
  ghost predicate Confirms(log: History, log': History, id: Identity, obj: Object, r: DeleteResult) {
    && (r.Deletion? && r.reason == Deleted <==> FoundIn(log, log', id, obj))
    && (r.Deletion? ==>
          match r.reason
          case Deleted => AbsentThisPass(log', id, obj) && r.message == ""
          case WaitingForDeletion => SeenIn(log, log', id, obj, true)
          case KubeAPIError => FailedIn(log, log', id, obj) || SeenIn(log, log', id, obj, false)
          case _ => false)
  }

  lemma ConfirmJustifies(log: History, sent: History, log': History, id: Identity, obj: Object, r: DeleteResult)
    requires log <= sent <= log' && CallsOnly(log, sent) && CallsOnly(sent, log') && !FoundIn(log, sent, id, obj)
    requires Happened(log, sent, AcceptedDelete(id, obj)) && Confirms(sent, log', id, obj, r)
    ensures Justified(log, log', id, obj, r) && CallsOnly(log, log')
    ensures DeleteTried(log, sent, id, obj) ==> DeleteTried(log, log', id, obj)
  {
    CallsJoin(log, sent, log');
    FoundSplits(log, sent, log', id, obj);
    TroubleWithin(log, sent, log', log', id, obj);
    TriedIn(log, sent, log', id, obj);
    if SeenIn(sent, log', id, obj, false) {
      UnmarkedJoin(log, sent, log', id, obj);
    }
  }

  /** A DELETE that failed, and a gate check after it. */
  lemma FailureJustifies(log: History, sent: History, log': History, id: Identity, obj: Object, r: DeleteResult)
    requires log <= sent && CallsOnly(log, sent) && CalmOnly(sent, log')
    requires !FoundIn(log, sent, id, obj) && FailedIn(log, sent, id, obj)
    requires r.Aborted? || r.reason == KubeAPIError
    ensures Justified(log, log', id, obj, r) && CallsOnly(log, log')
    ensures DeleteTried(log, sent, id, obj) ==> DeleteTried(log, log', id, obj)
  {
    CalmTakesNothing(sent, log', id);
    PassiveFindsNothing(sent, log', id, obj);
    CallsJoin(log, sent, log');
    FoundSplits(log, sent, log', id, obj);
    TroubleWithin(log, log, sent, log', id, obj);
    TriedIn(log, sent, log', id, obj);
  }

  /** Which happens in a delete pass only. */
  lemma DeletingWhileRemoving(lib: Library, log: History, id: Identity, obj: Object)
    requires LogGood(lib, log) && Deleting(log, id, obj)
    ensures PhaseOf(log) == Removing
  {
    assert log[..|log|] == log;
    ResolvedWhileRemoving(lib, log, |log|, id);
  }

  /**
    * GET, then DELETE through the gate unless deletion is under way, then GET again. A DELETE is tried if and only if
    * the first GET saw the object present and unmarked, unless the context ends first.
    */
  method ExecuteDelete(w: World, id: Identity, obj: Object) returns (r: DeleteResult)
    requires w.Valid() && Deleting(w.log, id, obj)
    modifies w
    ensures w.Valid() && w.listed == old(w.listed) && CallsOnly(old(w.log), w.log) && Deleting(w.log, id, obj)
    ensures Executed(old(w.log), w.log, id, obj, r)
    ensures r.Aborted? ==> w.cancelled
  {
    var message: string := *;
    var p := w.GetObject(id, obj);
    ghost var seen := w.log;
    match p
    case ProbeFailed =>
      r := FailedCall(w, id, obj, message);
      LookFailed(old(w.log), seen, w.log, id, obj, r);
    case Absent =>
      r := Deletion(Deleted, "");
      LookEnds(old(w.log), seen, id, obj, r);
    case Present(deleting) =>
      if deleting {
        r := Deletion(WaitingForDeletion, message);
        LookEnds(old(w.log), seen, id, obj, r);
      } else {
        r := IssueDelete(w, id, obj, message);
        IssuedAfterLook(old(w.log), seen, w.log, id, obj, r);
      }
  }

  /** A DELETE is tried if and only if the first look saw the object live, unless the context ends first. */
  ghost predicate Executed(log: History, log': History, id: Identity, obj: Object, r: DeleteResult) {
    && Justified(log, log', id, obj, r)
    && (DeleteTried(log, log', id, obj) ==> LiveFirst(log, log', id, obj))
    && (LiveFirst(log, log', id, obj) ==> DeleteTried(log, log', id, obj) || r.Aborted?)
  }

  /** From `log` to `seen` there was one look at the object. */
  ghost predicate Looked(log: History, seen: History) {
    && log < seen && seen[|seen| - 1].Probed? && Only(log, seen, {seen[|seen| - 1]})
    && PassiveOnly(log, seen[..|seen| - 1]) && CallsOnly(log, seen)
  }

  /** The first look tries nothing and decides whether the object was live. */
  lemma FirstLook(log: History, seen: History, id: Identity, obj: Object)
    requires Looked(log, seen)
    ensures !DeleteTried(log, seen, id, obj)
    ensures LiveFirst(log, seen, id, obj) <==> FoundPresent(seen[|seen| - 1], id, obj, false)
    ensures FoundIn(log, seen, id, obj) <==> FoundAbsent(seen[|seen| - 1], id, obj)
  {
    LookTriesNothing(log, seen, id, obj);
    LiveFirstDecided(log, seen, seen, id, obj);
    assert forall i :: |log| <= i < |seen| - 1 ==> !FoundAbsent(seen[i], id, obj);
  }

  /** A look that found the object gone or marked is all there is. */
  lemma LookEnds(log: History, seen: History, id: Identity, obj: Object, r: DeleteResult)
    requires Looked(log, seen) && r.Deletion?
    requires || (&& r == Deletion(Deleted, "") && FoundAbsent(seen[|seen| - 1], id, obj)
                 && AbsentThisPass(seen, id, obj))
             || (r.reason == WaitingForDeletion && FoundPresent(seen[|seen| - 1], id, obj, true))
    ensures Executed(log, seen, id, obj, r)
  {
    FirstLook(log, seen, id, obj);
  }

  /** A failed look, and nothing but passive events after it. */
  lemma LookFailed(log: History, seen: History, log': History, id: Identity, obj: Object, r: DeleteResult)
    requires Looked(log, seen) && PassiveOnly(seen, log') && FailedIn(log, seen, id, obj)
    requires FailedAt(seen[|seen| - 1], id, obj) && (r.Aborted? || r.reason == KubeAPIError)
    ensures CallsOnly(log, log') && Executed(log, log', id, obj, r)
  {
    FirstLook(log, seen, id, obj);
    CallsJoin(log, seen, log');
    TroubleWithin(log, log, seen, log', id, obj);
    LiveFirstStands(log, seen, log', id, obj);
    PassiveFindsNothing(seen, log', id, obj);
    FoundSplits(log, seen, log', id, obj);
  }

  /** A DELETE issued after a look at the live object. */
  lemma IssuedAfterLook(log: History, seen: History, log': History, id: Identity, obj: Object, r: DeleteResult)
    requires Looked(log, seen) && CallsOnly(seen, log') && FoundPresent(seen[|seen| - 1], id, obj, false)
    requires Justified(seen, log', id, obj, r) && (r.Aborted? || DeleteTried(seen, log', id, obj))
    ensures CallsOnly(log, log') && Executed(log, log', id, obj, r)
  {
    FirstLook(log, seen, id, obj);
    CallsJoin(log, seen, log');
    JustifiedSince(log, seen, log', id, obj, r);
    LookTriesNothing(log, seen, id, obj);
    LiveFirstDecided(log, seen, log', id, obj);
  }

  /** One look at the object tries nothing. */
  lemma LookTriesNothing(log: History, seen: History, id: Identity, obj: Object)
    requires Looked(log, seen)
    ensures !DeleteTried(log, seen, id, obj) && forall i :: |log| <= i < |seen| - 1 ==> !seen[i].Probed?
  {
    OnlyThese(log, seen, {seen[|seen| - 1]}, SentDelete(id, obj));
    OnlyThese(log, seen, {seen[|seen| - 1]}, NotSent(id, obj));
    assert forall i :: |log| <= i < |seen| - 1 ==> seen[i] == seen[..|seen| - 1][i];
  }

  /** The DELETE through the gate, and the GET that confirms it. */
  method IssueDelete(w: World, id: Identity, obj: Object, message: string) returns (r: DeleteResult)
    requires w.Valid() && Deleting(w.log, id, obj)
    modifies w
    ensures w.Valid() && w.listed == old(w.listed) && CallsOnly(old(w.log), w.log) && Deleting(w.log, id, obj)
    ensures Justified(old(w.log), w.log, id, obj, r)
    ensures r.Aborted? || DeleteTried(old(w.log), w.log, id, obj)
    ensures r.Aborted? ==> w.cancelled
  {
    w.LogHere();
    DeletingWhileRemoving(w.lib, w.log, id, obj);
    var allowed := w.PassesGate(id);
    ghost var passed := w.log;
    CalmTakesNothing(old(w.log), passed, id);
    PassiveChangesNothing(old(w.log), passed, id);
    PassiveFindsNothing(old(w.log), passed, id, obj);
    PassiveIsCalls(old(w.log), passed);
    if !allowed { return Aborted; }
    r := DeleteAndConfirm(w, id, obj, message);
    CallsJoin(old(w.log), passed, w.log);
    JustifiedSince(old(w.log), passed, w.log, id, obj, r);
  }

  /** The part behind the gate. */
  method DeleteAndConfirm(w: World, id: Identity, obj: Object, message: string) returns (r: DeleteResult)
    requires w.Valid() && Deleting(w.log, id, obj) && Cleared(w.log, id)
    modifies w
    ensures w.Valid() && w.listed == old(w.listed) && CallsOnly(old(w.log), w.log) && Deleting(w.log, id, obj)
    ensures Justified(old(w.log), w.log, id, obj, r)
    ensures DeleteTried(old(w.log), w.log, id, obj)
    ensures r.Aborted? ==> w.cancelled
  {
    var answer := w.SendDeleteRequest(id, obj);
    ghost var sent := w.log;
    if answer.CallNotFound? { return Deletion(Deleted, ""); }
    if answer.CallFailed? {
      w.LogHere();
    DeletingWhileRemoving(w.lib, w.log, id, obj);
      var allowed := w.PassesGate(id);
      r := if allowed then Deletion(KubeAPIError, message) else Aborted;
      FailureJustifies(old(w.log), sent, w.log, id, obj, r);
      CalmTakesNothing(sent, w.log, id);
      PassiveChangesNothing(sent, w.log, id);
    } else {
      r := ConfirmDeletion(w, id, obj, message);
      ConfirmJustifies(old(w.log), sent, w.log, id, obj, r);
    }
  }

  /** The GET after an accepted DELETE: gone, on its way, or not even marked. */
  method ConfirmDeletion(w: World, id: Identity, obj: Object, message: string) returns (r: DeleteResult)
    requires w.Valid() && Deleting(w.log, id, obj)
    modifies w
    ensures w.Valid() && w.listed == old(w.listed) && CallsOnly(old(w.log), w.log) && Deleting(w.log, id, obj)
    ensures Confirms(old(w.log), w.log, id, obj, r)
    ensures r.Aborted? ==> w.cancelled
  {
    var p := w.GetObject(id, obj);
    ghost var seen := w.log;
    match p
    case ProbeFailed =>
      r := FailedCall(w, id, obj, message);
      CallsJoin(old(w.log), seen, w.log);
      FoundSplits(old(w.log), seen, w.log, id, obj);
      PassiveFindsNothing(seen, w.log, id, obj);
      TroubleWithin(old(w.log), old(w.log), seen, w.log, id, obj);
    case Absent => return Deletion(Deleted, "");
    case Present(deleting) =>
      return if deleting then Deletion(WaitingForDeletion, message) else Deletion(KubeAPIError, message);
  }

  /** A failed GET is a failure of the desire unless the context has ended. */
  method FailedCall(w: World, id: Identity, obj: Object, message: string) returns (r: DeleteResult)
    requires w.Valid() && Deleting(w.log, id, obj)
    modifies w
    ensures w.Valid() && w.listed == old(w.listed) && PassiveOnly(old(w.log), w.log) && Deleting(w.log, id, obj)
    ensures r == if w.cancelled then Aborted else Deletion(KubeAPIError, message)
  {
    var cancelled := w.IsCancelled();
    PassiveChangesNothing(old(w.log), w.log, id);
    return if cancelled then Aborted else Deletion(KubeAPIError, message);
  }

  /** The status write that mapping failure, fresh outcome and restamp all end with. */
  method WriteDeleteStatus(w: World, x: Snapshot, outcome: Condition) returns (flow: Flow, wrote: bool)
    requires w.Valid() && x in w.listed && (!Matched(outcome, x.rec.status) ==> DeleteReport(w.log, x, outcome))
    modifies w
    ensures w.Valid() && SamePass(old(w.log), w.log) && Without(old(w.listed), x.rec.identity) <= w.listed
    ensures !flow.Stop?
    ensures wrote <==> !Matched(outcome, x.rec.status)
    ensures wrote ==> WriteTried(old(w.log), w.log, x.rec.identity)
    ensures !wrote ==> w.items == old(w.items) && w.log == old(w.log)
  {
    w.ListedHere(x);
    var now: int := *;
    var same := Equal(WithCondition(x.rec.status, outcome, now), x.rec.status);
    SettingIsNoopExactlyWhen(x.rec.status, outcome, now);
    if same { return Continue, false; }
    var reply := w.UpdateDeleteDesireStatus(x, outcome, now);
    if reply == Failed(ErrVersionConflict) { return Continue, true; }
    return if reply.Failed? then Error else Continue, true;
  }

  /** What a delete outcome rests on: the calls since `log`, or a record that was already Deleted. */
  ghost predicate DeleteReports(log: History, log': History, base: Snapshot, c: Condition) {
    var id := base.rec.identity;
    && c.ty == Successful && c.observedGeneration == 1
    && (c.reason == PreCheckFailed <==> Happened(log, log', MappingFailed(id)))
    && (|| (c.reason == Deleted && IsDeleted(base.rec.status))
        || c.reason == PreCheckFailed
        || (&& Resolved(log', id).Some?
            && DeleteExplained(log, log', id, Resolved(log', id).value, c.reason)
            && (LiveFirst(log, log', id, Resolved(log', id).value) <==>
                  DeleteTried(log, log', id, Resolved(log', id).value))))
  }

  /**
    * Maps, re-reads, deletes and reports one listed desire; `base` is the snapshot the outcome is written over,
    * `reached` the history when the outcome was reached.
    */
  method ReconcileDelete(w: World, x: Snapshot)
    returns (flow: Flow, base: Snapshot, outcome: Option<Condition>, wrote: bool, ghost reached: History)
    requires w.Valid() && x in w.listed && x.rec.identity.ty == TypeDelete && PhaseOf(w.log) == Removing
    requires !w.cancelled
    modifies w
    ensures w.Valid() && Without(old(w.listed), x.rec.identity) <= w.listed
    ensures SamePass(old(w.log), w.log) && Between(old(w.log), x.rec.identity, reached, w.log)
    ensures flow.Stop? ==> w.cancelled
    ensures base == x || Reread(old(w.log), w.log, x, base)
    ensures outcome.Some? ==> DeleteReports(old(w.log) + [Began(x.rec.identity)], reached, base, outcome.value)
    ensures outcome.None? ==> NoOutcome(old(w.log) + [Began(x.rec.identity)], w.log, x.rec.identity, w.cancelled)
    ensures wrote <==> outcome.Some? && !Matched(outcome.value, base.rec.status)
    ensures wrote ==> WriteTried(reached, w.log, x.rec.identity)
    ensures !wrote ==> Storeless(old(w.log), w.log)
  {
    w.EndedHere();
    var id := x.rec.identity;
    w.Note(Began(id));
    ghost var began := w.log;
    BeganNow(old(w.log), id);
    flow, base, outcome := DeleteOutcome(w, x);
    reached := w.log;
    AfterBegan(old(w.log), id, reached);
    RereadWithin(old(w.log), began, reached, reached, x, base);
    wrote := false;
    if outcome.Some? {
      WithinKeepsBegan(began, reached, id);
      assert reached[..|began|] == began;
      flow, wrote := WriteDeleteStatus(w, base, outcome.value);
      assert Without(old(w.listed), id) <= w.listed;
      SamePassJoin(old(w.log), reached, w.log);
      RereadWithin(old(w.log), began, reached, w.log, x, base);
    }
  }

  /** The desire was read again since, and was Deleted by then. */
  ghost predicate Reread(log: History, log': History, x: Snapshot, y: Snapshot) {
    y.rec.identity == x.rec.identity && IsDeleted(y.rec.status) && Happened(log, log', Read(y))
  }

  lemma RereadWithin(log: History, from: History, to: History, log': History, x: Snapshot, y: Snapshot)
    requires log <= from <= to <= log' && (y == x || Reread(from, to, x, y))
    ensures y == x || Reread(log, log', x, y)
  {
    if y != x {
      HappenedEarlier(log, from, to, Read(y));
      HappenedLater(log, to, log', Read(y));
    }
  }

  /** What the delete controller may write of an outcome it reached since `log`. */
  lemma ReportsMayBeWritten(log: History, log': History, base: Snapshot, c: Condition)
    requires DeleteReports(log, log', base, c) && !Matched(c, base.rec.status) && base.rec.identity.ty == TypeDelete
    requires BeganLen(log', base.rec.identity) == Some(|log|) && log <= log'
    requires MayTell(log', base, c)
    ensures DeleteReport(log', base, c)
  {
    assert log'[..|log|] == log;
  }

  /** The outcome one reconciliation reaches, before it is compared with what is stored. */
  method DeleteOutcome(w: World, x: Snapshot) returns (flow: Flow, base: Snapshot, outcome: Option<Condition>)
    requires w.Valid() && x in w.listed && x.rec.identity.ty == TypeDelete && PhaseOf(w.log) == Removing
    requires BeganLen(w.log, x.rec.identity) == Some(|w.log|)
    modifies w
    ensures w.Valid() && old(w.listed) <= w.listed && base in w.listed && Within(old(w.log), w.log)
    ensures flow.Stop? ==> w.cancelled
    ensures base == x || Reread(old(w.log), w.log, x, base)
    ensures outcome.Some? ==> DeleteReports(old(w.log), w.log, base, outcome.value)
    ensures outcome.None? ==> NoOutcome(old(w.log), w.log, x.rec.identity, w.cancelled)
    ensures outcome.Some? && !Matched(outcome.value, base.rec.status) ==> DeleteReport(w.log, base, outcome.value)
  {
    var id := x.rec.identity;
    var message: string := *;
    w.ListedHere(x);
    var obj := w.SetupResourceClient(id);
    ghost var mapped := w.log;
    if obj.None? {
      var c := Outcome(x.rec.generation, PreCheckFailed, message);
      UnmappedMayBeWritten(old(w.log), mapped, x, c);
      return Continue, x, Some(c);
    }
    flow, base, outcome := DeleteMapped(w, x, obj.value, message);
    OutcomeSinceMapping(old(w.log), mapped, w.log, x, base, outcome, obj.value, w.cancelled);
  }

  /** What follows the mapping, told from the beginning. */
  lemma OutcomeSinceMapping(
    log: History, mapped: History, log': History, x: Snapshot, base: Snapshot, outcome: Option<Condition>, obj: Object,
    cancelled: bool)
    requires log < mapped && Within(log, mapped) && CallsOnly(mapped, log') && x.rec.identity.ty == TypeDelete
    requires Only(log, mapped, {mapped[|mapped| - 1]}) && !ClusterCall(mapped[|mapped| - 1])
    requires !Happened(log, mapped, MappingFailed(x.rec.identity)) && BeganLen(log, x.rec.identity) == Some(|log|)
    requires base == x || Reread(mapped, log', x, base)
    requires outcome.Some? ==> CallsReport(mapped, log', base, outcome.value, obj) && MayTell(log', base, outcome.value)
    requires outcome.None? ==> NoOutcome(mapped, log', x.rec.identity, cancelled)
    ensures Within(log, log') && (base == x || Reread(log, log', x, base))
    ensures outcome.Some? ==> DeleteReports(log, log', base, outcome.value)
    ensures outcome.Some? && !Matched(outcome.value, base.rec.status) ==> DeleteReport(log', base, outcome.value)
    ensures outcome.None? ==> NoOutcome(log, log', x.rec.identity, cancelled)
  {
    CallsAreWithin(mapped, log');
    WithinJoin(log, mapped, log');
    WithinKeepsBegan(log, log', x.rec.identity);
    RereadWithin(log, mapped, log', log', x, base);
    HappenedWithin(log, mapped, log', log', Missed(x.rec.identity));
    HappenedWithin(log, mapped, log', log', StoreFailed(x.rec.identity));
    if outcome.Some? {
      ReportsSinceMapping(log, mapped, log', base, outcome.value, obj);
      if !Matched(outcome.value, base.rec.status) {
        ReportsMayBeWritten(log, log', base, outcome.value);
      }
    }
  }

  /** What an outcome over a snapshot must meet to be written, if it is news. */
  ghost predicate MayTell(log: History, base: Snapshot, c: Condition) {
    && (!Matched(c, base.rec.status) ==> !Settled(log, base.rec.identity))
    && (c.reason == Deleted ==>
          c.status == True && c.message == "" && (IsDeleted(base.rec.status) || SeenAbsent(log, base.rec.identity)))
  }

  lemma UnmappedMayBeWritten(log: History, mapped: History, x: Snapshot, c: Condition)
    requires log <= mapped && Within(log, mapped) && Happened(log, mapped, MappingFailed(x.rec.identity))
    requires x.rec.identity.ty == TypeDelete && !Settled(mapped, x.rec.identity)
    requires BeganLen(log, x.rec.identity) == Some(|log|) && c == Outcome(1, PreCheckFailed, c.message)
    ensures DeleteReports(log, mapped, x, c)
    ensures !Matched(c, x.rec.status) ==> DeleteReport(mapped, x, c)
  {
    WithinKeepsBegan(log, mapped, x.rec.identity);
    if !Matched(c, x.rec.status) {
      ReportsMayBeWritten(log, mapped, x, c);
    }
  }

  /** What the calls since the mapping say, they say since the reconciliation began. */
  ghost predicate CallsReport(log: History, log': History, base: Snapshot, c: Condition, obj: Object) {
    && c.ty == Successful && c.observedGeneration == 1 && c.reason != PreCheckFailed
    && Resolved(log', base.rec.identity) == Some(obj)
    && !Happened(log, log', MappingFailed(base.rec.identity))
    && (|| (c.reason == Deleted && IsDeleted(base.rec.status))
        || CallsTell(log, log', base.rec.identity, obj, c.reason))
  }

  lemma ReportsSinceMapping(log: History, mapped: History, log': History, base: Snapshot, c: Condition, obj: Object)
    requires log < mapped <= log' && CallsReport(mapped, log', base, c, obj)
    requires Only(log, mapped, {mapped[|mapped| - 1]}) && !ClusterCall(mapped[|mapped| - 1])
    requires !Happened(log, mapped, MappingFailed(base.rec.identity))
    ensures DeleteReports(log, log', base, c)
  {
    var id := base.rec.identity;
    HappenedSplits(log, mapped, log', MappingFailed(id));
    TroubleWithin(log, mapped, log', log', id, obj);
    TriedIn(log, mapped, log', id, obj);
    OnlyThese(log, mapped, {mapped[|mapped| - 1]}, SentDelete(id, obj));
    OnlyThese(log, mapped, {mapped[|mapped| - 1]}, NotSent(id, obj));
    LiveSince(log, mapped, log', id, obj);
  }

  /** If nothing was probed before, the first look since then is the first look. */
  lemma LiveSince(log: History, mid: History, log': History, id: Identity, obj: Object)
    requires log <= mid <= log' && forall i :: |log| <= i < |mid| ==> !mid[i].Probed?
    ensures LiveFirst(log, log', id, obj) <==> LiveFirst(mid, log', id, obj)
  {
    assert forall i :: |log| <= i < |mid| ==> log'[i] == mid[i];
    if LiveFirst(mid, log', id, obj) {
      var k :| && |mid| <= k < |log'| && FoundPresent(log'[k], id, obj, false)
               && forall i :: |mid| <= i < k ==> !log'[i].Probed?;
      assert forall i :: |log| <= i < k ==> !log'[i].Probed?;
    }
    if LiveFirst(log, log', id, obj) {
      var k :| && |log| <= k < |log'| && FoundPresent(log'[k], id, obj, false)
               && forall i :: |log| <= i < k ==> !log'[i].Probed?;
      assert k >= |mid|;
    }
  }

  /** The re-check, and the delete of a desire that has not succeeded yet. */
  method DeleteMapped(w: World, x: Snapshot, obj: Object, message: string)
    returns (flow: Flow, base: Snapshot, outcome: Option<Condition>)
    requires w.Valid() && x in w.listed && x.rec.identity.ty == TypeDelete
    requires Resolved(w.log, x.rec.identity) == Some(obj)
    modifies w
    ensures w.Valid() && old(w.listed) <= w.listed && base in w.listed && CallsOnly(old(w.log), w.log)
    ensures flow.Stop? ==> w.cancelled
    ensures base == x || Reread(old(w.log), w.log, x, base)
    ensures outcome.Some? ==> CallsReport(old(w.log), w.log, base, outcome.value, obj)
    ensures outcome.Some? ==> MayTell(w.log, base, outcome.value)
    ensures outcome.None? ==> NoOutcome(old(w.log), w.log, x.rec.identity, w.cancelled)
  {
    var id := x.rec.identity;
    w.ListedHere(x);
    var found := w.GetDeleteDesire(id);
    ghost var read := w.log;
    PassiveChangesNothing(old(w.log), read, id);
    PassiveIsCalls(old(w.log), read);
    PassiveIsOnly(old(w.log), read, {});
    OnlyThese(old(w.log), read, {}, MappingFailed(id));
    if found.None? { return Error, x, None; }
    var y := found.value;
    w.SettledHere(id);
    if IsDeleted(y.rec.status) {
      return Continue, y, Some(Outcome(y.rec.generation, Deleted, ""));
    }
    var r := ExecuteDelete(w, id, obj);
    CallsJoin(old(w.log), read, w.log);
    if r.Aborted? { return Stop, x, None; }
    outcome := Some(Outcome(x.rec.generation, r.reason, r.message));
    CallsSinceRead(old(w.log), read, w.log, x, outcome.value, obj, r);
    return Continue, x, outcome;
  }

  /** What the calls since the re-check say, they say since before it. */
  lemma CallsSinceRead(
    log: History, read: History, log': History, x: Snapshot, c: Condition, obj: Object, r: DeleteResult)
    requires PassiveOnly(log, read) && CallsOnly(read, log') && Executed(read, log', x.rec.identity, obj, r)
    requires r.Deletion? && c == Outcome(1, r.reason, r.message) && Deleting(log', x.rec.identity, obj)
    ensures CallsReport(log, log', x, c, obj)
    ensures c.reason == Deleted ==> c.status == True && c.message == "" && SeenAbsent(log', x.rec.identity)
  {
    var id := x.rec.identity;
    PassiveIsOnly(log, read, {});
    OnlyThese(log, read, {}, SentDelete(id, obj));
    OnlyThese(log, read, {}, NotSent(id, obj));
    CallsJoin(log, read, log');
    LiveSince(log, read, log', id, obj);
    TriedIn(log, read, log', id, obj);
    TroubleWithin(log, read, log', log', id, obj);
  }

  /**
    * Reconciles every listed desire, whatever happens to the ones before it, unless the listing fails or the context
    * ends.
    */
  method DeleteRunOnce(w: World)
    requires w.Valid() && PhaseOf(w.log) == Applying && !w.cancelled
    modifies w
    ensures w.Valid() && old(w.log) + [DeletePassStarted] <= w.log && SamePass(old(w.log) + [DeletePassStarted], w.log)
    ensures w.cancelled || Worked(w.lib, w.managementCluster, TypeDelete, old(w.log), w.log)
  {
    w.EndedHere();
    w.Mark(DeletePassStarted);
    ghost var started := w.log;
    var ok, xs, scan := w.ListRecords(TypeDelete);
    ghost var mid := w.log;
    StartsUnderway(w.lib, w.managementCluster, TypeDelete, old(w.log), started, mid, w.listed, xs, scan, ok);
    HappenedWithin(old(w.log), started, mid, mid, ListFailed(TypeDelete));
    if !ok { return; }
    SamePassKeepsPhase(started, mid);
    DeleteEach(w, old(w.log), xs);
    SamePassJoin(started, mid, w.log);
    if Underway(old(w.log), w.log, w.listed, xs, |xs|, TypeDelete) {
      PassTakesUpAll(w.lib, w.managementCluster, TypeDelete, old(w.log), mid, w.log, w.listed, xs, scan);
    }
  }

  /** The loop of the pass that began at `start`. */
  method DeleteEach(w: World, ghost start: History, xs: seq<Snapshot>)
    requires w.Valid() && PhaseOf(w.log) == Removing && Underway(start, w.log, w.listed, xs, 0, TypeDelete)
    modifies w
    ensures w.Valid() && SamePass(old(w.log), w.log)
    ensures w.cancelled || Underway(start, w.log, w.listed, xs, |xs|, TypeDelete)
  {
    for done := 0 to |xs|
      invariant w.Valid() && SamePass(old(w.log), w.log)
      invariant Underway(start, w.log, w.listed, xs, done, TypeDelete)
    {
      ghost var before := w.log;
      var cancelled := w.IsCancelled();
      PassWaits(start, old(w.log), before, w.log, w.listed, xs, done, TypeDelete);
      if cancelled { return; }
      var flow := DeleteNext(w, start, old(w.log), xs, done);
      if !flow.Continue? {
        before := w.log;
        cancelled := w.IsCancelled();
        PassWaits(start, old(w.log), before, w.log, w.listed, xs, done + 1, TypeDelete);
        if cancelled { return; }
      }
    }
  }

  /** Takes up the next desire of a pass. */
  method DeleteNext(w: World, ghost start: History, ghost first: History, xs: seq<Snapshot>, done: nat)
    returns (flow: Flow)
    requires w.Valid() && done < |xs| && Underway(start, w.log, w.listed, xs, done, TypeDelete)
    requires SamePass(first, w.log) && PhaseOf(w.log) == Removing && !w.cancelled
    modifies w
    ensures w.Valid() && SamePass(first, w.log) && Underway(start, w.log, w.listed, xs, done + 1, TypeDelete)
    ensures flow.Stop? ==> w.cancelled
  {
    ghost var had, before := w.listed, w.log;
    var next, _, _, _, reached := ReconcileDelete(w, xs[done]);
    PassAdvances(start, first, before, reached, w.log, had, w.listed, xs, done, TypeDelete);
    flow := next;
  }

  // --------------------------------------------------------------- the serial loop

  ghost predicate NoMarker(log: History, from: nat, to: nat) {
    to <= |log| && forall i :: from <= i < to ==> !Marker(log[i])
  }

  /**
    * One full tick from moment `a` to moment `b`: its apply pass starts at `p`, its delete pass at `q`, and both do
    * their work.
    */
  ghost predicate Round(lib: Library, managementCluster: Str, log: History, a: nat, p: nat, q: nat, b: nat) {
    && a < p < q < b <= |log|
    && log[a] == TickStarted && log[p] == ApplyPassStarted && log[q] == DeletePassStarted
    && NoMarker(log, a + 1, p) && NoMarker(log, p + 1, q) && NoMarker(log, q + 1, b)
    && Worked(lib, managementCluster, TypeApply, log[..p], log[..q])
    && Worked(lib, managementCluster, TypeDelete, log[..q], log[..b])
  }

  /** From moment `from` to moment `to` there are exactly `n` ticks, and each is full. */
  ghost predicate Rounds(lib: Library, managementCluster: Str, log: History, from: nat, to: nat, n: nat)
    decreases n, 0
  {
    if n == 0 then from <= to && NoMarker(log, from, to)
    else exists m: nat, a: nat, p: nat, q: nat :: LastRound(lib, managementCluster, log, from, m, a, p, q, to, n)
  }

  /** The last of them starts at `a`, after the others were over at `m`. */
  ghost predicate LastRound(
    lib: Library, managementCluster: Str, log: History, from: nat, m: nat, a: nat, p: nat, q: nat, to: nat, n: nat)
    requires n > 0
    decreases n - 1, 1
  {
    && from <= m <= a && Rounds(lib, managementCluster, log, from, m, n - 1)
    && NoMarker(log, m, a) && Round(lib, managementCluster, log, a, p, q, to)
  }

  lemma RoundLater(
    lib: Library, managementCluster: Str, log: History, log': History, a: nat, p: nat, q: nat, b: nat, b': nat)
    requires Round(lib, managementCluster, log, a, p, q, b) && log <= log' && b <= b' && NoMarker(log', b, b')
    ensures Round(lib, managementCluster, log', a, p, q, b')
  {
    assert log'[..p] == log[..p] && log'[..q] == log[..q] && log'[..b] == log[..b] && log'[..b] <= log'[..b'];
    assert forall i :: 0 <= i < b ==> log'[i] == log[i];
    WorkedLater(lib, managementCluster, TypeDelete, log[..q], log[..b], log'[..b']);
  }

  /** Rounds stand as the history goes on, up to the next marker. */
  lemma {:induction false} RoundsLater(
    lib: Library, managementCluster: Str, log: History, log': History, from: nat, to: nat, to': nat, n: nat)
    requires Rounds(lib, managementCluster, log, from, to, n) && log <= log' && to <= |log|
    requires to <= to' && NoMarker(log', to, to')
    ensures Rounds(lib, managementCluster, log', from, to', n)
    decreases n
  {
    assert forall i :: 0 <= i < |log| ==> log'[i] == log[i];
    if n > 0 {
      var m: nat, a: nat, p: nat, q: nat :| LastRound(lib, managementCluster, log, from, m, a, p, q, to, n);
      RoundsLater(lib, managementCluster, log, log', from, m, m, n - 1);
      RoundLater(lib, managementCluster, log, log', a, p, q, to, to');
      assert LastRound(lib, managementCluster, log', from, m, a, p, q, to', n);
    }
  }

  /** One more full tick. */
  lemma OneMoreRound(
    lib: Library, managementCluster: Str, from: nat, n: nat, log: History, mid: History, log': History)
    requires from <= |log| && Rounds(lib, managementCluster, log, from, |log|, n)
    requires log + [TickStarted, ApplyPassStarted] <= mid && SamePass(log + [TickStarted, ApplyPassStarted], mid)
    requires mid + [DeletePassStarted] <= log' && SamePass(mid + [DeletePassStarted], log')
    requires Worked(lib, managementCluster, TypeApply, log + [TickStarted], mid)
    requires Worked(lib, managementCluster, TypeDelete, mid, log')
    ensures Rounds(lib, managementCluster, log', from, |log'|, n + 1)
  {
    var a, p, q, b := |log|, |log| + 1, |mid|, |log'|;
    assert mid[a] == (log + [TickStarted, ApplyPassStarted])[a] && mid[p] == (log + [TickStarted, ApplyPassStarted])[p];
    assert log'[q] == (mid + [DeletePassStarted])[q];
    assert log'[..p] == log + [TickStarted] && log'[..q] == mid && log'[..b] == log';
    assert forall i :: p < i < q ==> log'[i] == mid[i];
    RoundsLater(lib, managementCluster, log, log', from, a, a, n);
    assert LastRound(lib, managementCluster, log', from, a, a, p, q, b, n + 1);
  }

  /** No leader takes over. */
  ghost predicate SameTerm(log: History, log': History) {
    log <= log' && forall i :: |log| <= i < |log'| ==> !log'[i].TermStarted?
  }

  lemma TickKeepsTerm(start: History, log: History, log': History, first: seq<Event>)
    requires SameTerm(start, log) && log + first <= log' && SamePass(log + first, log')
    requires forall i :: 0 <= i < |first| ==> !first[i].TermStarted?
    ensures SameTerm(start, log')
  {
    forall i | |start| <= i < |log'|
      ensures !log'[i].TermStarted?
    {
      if i < |log| {
        assert log'[i] == log[i];
      } else if i < |log| + |first| {
        assert log'[i] == (log + first)[i] == first[i - |log|];
      }
    }
  }

  lemma RoundsWait(lib: Library, managementCluster: Str, start: History, log: History, log': History, n: nat)
    requires SameTerm(start, log) && Rounds(lib, managementCluster, log, |start|, |log|, n) && PassiveOnly(log, log')
    ensures SameTerm(start, log') && Rounds(lib, managementCluster, log', |start|, |log'|, n)
  {
    PassiveIsWithin(log, log');
    assert log + [] == log;
    TickKeepsTerm(start, log, log', []);
    RoundsLater(lib, managementCluster, log, log', |start|, |log|, |log'|, n);
  }

  /** Apply, then delete, on every tick: exactly `ticks` full ones, unless the context ends. */
  method Start(w: World, ticks: nat)
    requires w.Valid()
    modifies w
    ensures w.Valid() && SameTerm(old(w.log), w.log)
    ensures w.cancelled || Rounds(w.lib, w.managementCluster, w.log, |old(w.log)|, |w.log|, ticks)
  {
    for tick := 0 to ticks
      invariant w.Valid() && SameTerm(old(w.log), w.log)
      invariant Rounds(w.lib, w.managementCluster, w.log, |old(w.log)|, |w.log|, tick)
    {
      ghost var before := w.log;
      var cancelled := w.IsCancelled();
      RoundsWait(w.lib, w.managementCluster, old(w.log), before, w.log, tick);
      if cancelled { return; }
      before := w.log;
      cancelled := ApplyTick(w);
      TickKeepsTerm(old(w.log), before, w.log, [TickStarted, ApplyPassStarted]);
      if cancelled { return; }
      ghost var mid := w.log;
      cancelled := DeleteTick(w);
      TickKeepsTerm(old(w.log), mid, w.log, [DeletePassStarted]);
      if cancelled { return; }
      OneMoreRound(w.lib, w.managementCluster, |old(w.log)|, tick, before, mid, w.log);
    }
  }

  /** The first reconciler of a tick. */
  method ApplyTick(w: World) returns (cancelled: bool)
    requires w.Valid() && !w.cancelled
    modifies w
    ensures w.Valid() && PhaseOf(w.log) == Applying && cancelled == w.cancelled
    ensures old(w.log) + [TickStarted, ApplyPassStarted] <= w.log
    ensures SamePass(old(w.log) + [TickStarted, ApplyPassStarted], w.log)
    ensures cancelled || Worked(w.lib, w.managementCluster, TypeApply, old(w.log) + [TickStarted], w.log)
  {
    w.EndedHere();
    w.Mark(TickStarted);
    ghost var ticking := w.log;
    ApplyRunOnce(w);
    ghost var applied := w.log;
    cancelled := w.IsCancelled();
    assert old(w.log) + [TickStarted, ApplyPassStarted] == ticking + [ApplyPassStarted];
    PassIsOver(w.lib, w.managementCluster, TypeApply, ticking, ApplyPassStarted, applied, w.log);
  }

  /** What others do after a pass. */
  lemma PassIsOver(
    lib: Library, managementCluster: Str, ty: DesireType, log: History, e: Event, mid: History, log': History)
    requires log + [e] <= mid && SamePass(log + [e], mid) && PassiveOnly(mid, log') && Marker(e)
    ensures log + [e] <= log' && SamePass(log + [e], log') && PhaseOf(log') == PhaseOf([e])
    ensures Worked(lib, managementCluster, ty, log, mid) ==> Worked(lib, managementCluster, ty, log, log')
  {
    PassiveIsWithin(mid, log');
    SamePassJoin(log + [e], mid, log');
    SamePassKeepsPhase(log + [e], log');
    MarkerSetsPhase(log, e);
    if Worked(lib, managementCluster, ty, log, mid) {
      assert log <= log + [e];
      WorkedLater(lib, managementCluster, ty, log, mid, log');
    }
  }

  /** The second; it follows the first in the same tick. */
  method DeleteTick(w: World) returns (cancelled: bool)
    requires w.Valid() && PhaseOf(w.log) == Applying && !w.cancelled
    modifies w
    ensures w.Valid() && cancelled == w.cancelled
    ensures old(w.log) + [DeletePassStarted] <= w.log && SamePass(old(w.log) + [DeletePassStarted], w.log)
    ensures cancelled || Worked(w.lib, w.managementCluster, TypeDelete, old(w.log), w.log)
  {
    DeleteRunOnce(w);
    ghost var done := w.log;
    cancelled := w.IsCancelled();
    PassIsOver(w.lib, w.managementCluster, TypeDelete, old(w.log), DeletePassStarted, done, w.log);
  }

  /** The context of the leader that began at moment `from` ended before moment `to`. */
  ghost predicate EndedIn(log: History, from: nat, to: nat) {
    exists k :: from < k < to <= |log| && Ends(log[k])
  }

  lemma {:induction false} EndedSince(log: History, from: nat, n: nat)
    requires from < n <= |log| && log[from] == TermStarted && EndedThisTerm(log[..n])
    requires forall i :: from < i < n ==> !log[i].TermStarted?
    ensures EndedIn(log, from, n)
    decreases n
  {
    assert log[..n][..n - 1] == log[..n - 1];
    if !Ends(log[n - 1]) {
      EndedSince(log, from, n - 1);
    }
  }

  /** One leader's time: it takes up the loop wherever its predecessor left the store. */
  method Lead(w: World, ticks: nat)
    requires w.Valid()
    modifies w
    ensures w.Valid() && old(w.log) + [TermStarted] <= w.log && SameTerm(old(w.log) + [TermStarted], w.log)
    ensures || EndedIn(w.log, |old(w.log)|, |w.log|)
            || Rounds(w.lib, w.managementCluster, w.log, |old(w.log)| + 1, |w.log|, ticks)
  {
    w.BeginTerm();
    ghost var begun := w.log;
    Start(w, ticks);
    w.EndedHere();
    if w.cancelled {
      assert w.log[|old(w.log)|] == begun[|old(w.log)|] && w.log[..|w.log|] == w.log;
      EndedSince(w.log, |old(w.log)|, |w.log|);
    }
  }
}
