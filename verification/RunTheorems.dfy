/** What every good history says, event by event and of the replayed store; and where the naive claims fail. */
module RunTheorems {
  import opened Desire
  import opened MemoryStore
  import opened StoreHistory
  import opened Conditions
  import opened ApplyTarget
  import opened RunHistory
  import opened ReconcileLog
  import opened Controllers

  // --------------------------------------------------------------- quiet after Deleted

  lemma {:induction false} QuietUntilCreated(log: History, i: nat, j: nat, t: Target)
    requires i < j <= |log|
    requires log[i].StoredDelete? && log[i].id == Identity(t, TypeDelete) && IsDeleted(log[i].status)
    requires forall k :: i < k < j ==> !IsCreation(log[k], ApplyId(t))
    ensures Quiet(log[..j], t)
    decreases j
  {
    assert log[..j][..j - 1] == log[..j - 1];
    if i + 1 < j {
      QuietUntilCreated(log, i, j - 1, t);
    }
  }

  /** From the moment Deleted is stored for a target until an apply is created for it again, no apply is sent for it. */
  lemma NoApplyAfterDeleted(lib: Library, log: History, i: nat, j: nat, t: Target)
    requires LogGood(lib, log) && i < j < |log|
    requires log[i].StoredDelete? && log[i].id == Identity(t, TypeDelete) && IsDeleted(log[i].status)
    requires log[j].SentApply? && log[j].id.target == t
    ensures exists k :: i < k < j && IsCreation(log[k], ApplyId(t))
  {
    assert GoodAt(lib, log, j);
    if forall k :: i < k < j ==> !IsCreation(log[k], ApplyId(t)) {
      QuietUntilCreated(log, i, j, t);
    }
  }

  // ------------------------------------------------------------- a settled delete desire

  lemma {:induction false} SettledUntil(lib: Library, log: History, i: nat, j: nat, id: Identity)
    requires LogGood(lib, log) && i < j <= |log|
    requires log[i].StoredDelete? && log[i].id == id && IsDeleted(log[i].status)
    requires forall k :: i < k < j ==> !IsCreation(log[k], id) && log[k] != MappingFailed(id)
    ensures Settled(log[..j], id)
    decreases j
  {
    assert log[..j][..j - 1] == log[..j - 1];
    if i + 1 < j {
      SettledUntil(lib, log, i, j - 1, id);
      assert GoodAt(lib, log, j - 1);
    }
  }

  /**
    * A delete desire that became Deleted stays Deleted: until its mapping fails or it is created again, no cluster
    * call is made for it and no status is written.
    */
  lemma DeletedIsLeftAlone(lib: Library, log: History, i: nat, j: nat, id: Identity)
    requires LogGood(lib, log) && i < j < |log|
    requires log[i].StoredDelete? && log[i].id == id && IsDeleted(log[i].status)
    requires (log[j].Probed? || log[j].SentDelete? || log[j].StoredDelete?) && log[j].id == id
    ensures exists k :: i < k < j && (IsCreation(log[k], id) || log[k] == MappingFailed(id))
  {
    assert GoodAt(lib, log, j);
    if forall k :: i < k < j ==> !IsCreation(log[k], id) && log[k] != MappingFailed(id) {
      SettledUntil(lib, log, i, j, id);
    }
  }

  /** And the store says so all that time: at every moment of every run a settled desire that is present is Deleted. */
  lemma SettledIsDeleted(lib: Library, items: Items, log: History, cancelled: bool, id: Identity)
    requires Good(lib, items, log, cancelled) && id in items && id.ty == TypeDelete && Settled(log, id)
    ensures IsDeleted(items[id].status)
  {
    assert Matched(DeletedCondition(items[id].generation), items[id].status);
  }

  // ------------------------------------------------------------- Deleted needs an absence

  lemma {:induction false} AbsenceHasMoment(log: History, j: nat, id: Identity, obj: Object)
    requires j <= |log| && AbsentThisPass(log[..j], id, obj)
    ensures exists k :: 0 <= k < j && FoundAbsent(log[k], id, obj) && forall n :: k < n < j ==> !Marker(log[n])
    decreases j
  {
    assert log[..j][..j - 1] == log[..j - 1];
    if !FoundAbsent(log[j - 1], id, obj) {
      AbsenceHasMoment(log, j - 1, id, obj);
      var k :| 0 <= k < j - 1 && FoundAbsent(log[k], id, obj) && forall n :: k < n < j - 1 ==> !Marker(log[n]);
      assert forall n :: k < n < j ==> !Marker(log[n]);
    }
  }

  lemma {:induction false} ResolutionHasMoment(log: History, j: nat, id: Identity, obj: Object)
    requires j <= |log| && Resolved(log[..j], id) == Some(obj)
    ensures exists i :: && 0 <= i < j && log[i].Mapped? && log[i].id == id &&
              DeletedObject(id.target, log[i].mapping) == Some(obj)
                        && forall n :: i < n < j ==> !Marker(log[n])
    decreases j
  {
    assert log[..j][..j - 1] == log[..j - 1];
    var e := log[j - 1];
    if !(e.Mapped? && e.id == id) {
      ResolutionHasMoment(log, j - 1, id, obj);
      var i :| 0 <= i < j - 1 && log[i].Mapped? && log[i].id == id &&
            DeletedObject(id.target, log[i].mapping) == Some(obj)
               && forall n :: i < n < j - 1 ==> !Marker(log[n]);
      assert forall n :: i < n < j ==> !Marker(log[n]);
    }
  }

  /**
    * The object a mapping gives the identity, resolved at moment `i`, was found absent from the cluster at moment
    * `k`, in the pass that runs at `j`.
    */
  ghost predicate AbsentAt(log: History, i: nat, k: nat, j: nat, id: Identity) {
    && i < j <= |log| && k < j
    && log[i].Mapped? && log[i].id == id && log[k].Probed? && FoundAbsent(log[k], id, log[k].obj)
    && DeletedObject(id.target, log[i].mapping) == Some(log[k].obj)
    && (forall n :: i < n < j ==> !Marker(log[n]))
    && (forall n :: k < n < j ==> !Marker(log[n]))
  }

  /**
    * A delete desire first becomes Deleted only if the object its resolved mapping gives it was absent at some call
    * of the same pass; that object is the one the identity names if group, resource and scope of the mapping fit.
    */
  lemma DeletedNeedsAbsence(lib: Library, log: History, j: nat)
    requires LogGood(lib, log) && j < |log|
    requires log[j].StoredDelete? && IsDeleted(log[j].status)
    requires log[j].id in StoreOf(lib, log[..j]) && !IsDeleted(StoreOf(lib, log[..j])[log[j].id].status)
    ensures exists i: nat, k: nat :: && AbsentAt(log, i, k, j, log[j].id)
                                     && (MappingFits(log[j].id.target, log[i].mapping) ==>
                                           log[k].obj == Coordinates(log[j].id.target))
  {
    assert GoodAt(lib, log, j);
    var id := log[j].id;
    var obj := Resolved(log[..j], id).value;
    AbsenceHasMoment(log, j, id, obj);
    ResolutionHasMoment(log, j, id, obj);
    var k: nat :| k < j && FoundAbsent(log[k], id, obj) && forall n :: k < n < j ==> !Marker(log[n]);
    var i: nat :| i < j && log[i].Mapped? && log[i].id == id && DeletedObject(id.target, log[i].mapping) == Some(obj)
                  && forall n :: i < n < j ==> !Marker(log[n]);
    DeletesItsIdentityExactlyWhen(id.target, log[i].mapping);
    assert AbsentAt(log, i, k, j, id);
  }

  /** The object was resolved for the desire at moment `i`, in the pass that runs at `j`. */
  ghost predicate ResolvedAt(log: History, i: nat, j: nat, id: Identity, obj: Object) {
    && i < j <= |log| && log[i].Mapped? && log[i].id == id && DeletedObject(id.target, log[i].mapping) == Some(obj)
    && forall n :: i < n < j ==> !Marker(log[n])
  }

  /**
    * Every cluster call for a delete desire, DELETEs included, addresses the object a mapping of the same pass gives
    * it.
    */
  lemma DeletesAddressTheirObject(lib: Library, log: History, j: nat)
    requires LogGood(lib, log) && j < |log| && (log[j].SentDelete? || log[j].Probed?)
    ensures exists i: nat :: && ResolvedAt(log, i, j, log[j].id, log[j].obj)
                             && (MappingFits(log[j].id.target, log[i].mapping) ==>
                                   log[j].obj == Coordinates(log[j].id.target))
  {
    assert GoodAt(lib, log, j);
    ResolutionHasMoment(log, j, log[j].id, log[j].obj);
    var i: nat :| && i < j && log[i].Mapped? && log[i].id == log[j].id
                  && DeletedObject(log[j].id.target, log[i].mapping) == Some(log[j].obj)
                  && forall n :: i < n < j ==> !Marker(log[n]);
    DeletesItsIdentityExactlyWhen(log[j].id.target, log[i].mapping);
    assert ResolvedAt(log, i, j, log[j].id, log[j].obj);
  }

  // ----------------------------------------------------------------- apply, then delete

  lemma {:induction false} ClearedInItsPass(lib: Library, log: History, n: nat, id: Identity)
    requires LogGood(lib, log) && n <= |log| && Cleared(log[..n], id)
    ensures PhaseOf(log[..n]) == PassOf(id.ty)
    decreases n
  {
    assert log[..n][..n - 1] == log[..n - 1];
    if log[n - 1] == GatePassed(id) {
      assert GoodAt(lib, log, n - 1);
    } else {
      ClearedInItsPass(lib, log, n - 1, id);
    }
  }

  /** Once a tick is in its delete pass, no apply pass starts before the next tick, under any leader. */
  lemma {:induction false} RemovingUntilTick(lib: Library, log: History, i: nat, j: nat)
    requires LogGood(lib, log) && i <= j <= |log| && PhaseOf(log[..i]) == Removing
    requires forall k :: i <= k < j ==> log[k] != TickStarted
    ensures PhaseOf(log[..j]) == Removing || PhaseOf(log[..j]) == Resting
    decreases j
  {
    if i < j {
      assert log[..j][..j - 1] == log[..j - 1];
      RemovingUntilTick(lib, log, i, j - 1);
      assert GoodAt(lib, log, j - 1);
    }
  }

  /** An apply never follows a DELETE in one tick, whatever the targets: a tick starts in between. */
  lemma NoApplyAfterDeleteInOneTick(lib: Library, log: History, i: nat, j: nat)
    requires LogGood(lib, log) && i < j < |log| && log[i].SentDelete? && log[j].SentApply?
    ensures exists k :: i < k < j && log[k] == TickStarted
  {
    assert GoodAt(lib, log, i) && GoodAt(lib, log, j);
    ClearedInItsPass(lib, log, i, log[i].id);
    ClearedInItsPass(lib, log, j, log[j].id);
    if forall k :: i < k < j ==> log[k] != TickStarted {
      RemovingUntilTick(lib, log, i, j);
    }
  }

  lemma {:induction false} LateUntilMarker(log: History, i: nat, j: nat)
    requires i < j <= |log| && log[i].TimedOut? && forall k :: i < k < j ==> !Marker(log[k])
    ensures LateThisPass(log[..j])
    decreases j
  {
    assert log[..j][..j - 1] == log[..j - 1];
    if i + 1 < j {
      LateUntilMarker(log, i, j - 1);
    }
  }

  /** Once a store call of an apply pass has failed by its own deadline, the pass takes up no further desire. */
  lemma DeadlineEndsApplyPass(lib: Library, log: History, i: nat, j: nat)
    requires LogGood(lib, log) && i < j < |log| && log[i].TimedOut? && log[j].Began? && log[j].id.ty == TypeApply
    ensures exists k :: i < k < j && Marker(log[k])
  {
    assert GoodAt(lib, log, j);
    if forall k :: i < k < j ==> !Marker(log[k]) {
      LateUntilMarker(log, i, j);
    }
  }

  // --------------------------------------------------------------------- the gate

  lemma {:induction false} EndedUntilTerm(log: History, i: nat, j: nat)
    requires i < j <= |log| && Ends(log[i]) && forall k :: i < k < j ==> log[k] != TermStarted
    ensures EndedThisTerm(log[..j])
    decreases j
  {
    assert log[..j][..j - 1] == log[..j - 1];
    if i + 1 < j {
      EndedUntilTerm(log, i, j - 1);
    }
  }

  /**
    * After the gate's first denial of a leader, by the watcher or by a write path, or once its context has ended
    * otherwise, nothing is sent, and no tick, pass or reconciliation starts, until another leader takes up the loop.
    */
  lemma NothingSentAfterDenial(lib: Library, log: History, i: nat, j: nat)
    requires LogGood(lib, log) && i < j < |log| && Ends(log[i])
    requires log[j].SentApply? || log[j].SentDelete? || Starts(log[j])
    ensures exists k :: i < k < j && log[k] == TermStarted
  {
    assert GoodAt(lib, log, j);
    if forall k :: i < k < j ==> log[k] != TermStarted {
      EndedUntilTerm(log, i, j);
    }
  }

  lemma {:induction false} ClearanceHasMoment(log: History, j: nat, id: Identity)
    requires j <= |log| && Cleared(log[..j], id)
    ensures exists k :: 0 <= k < j && log[k] == GatePassed(id) && forall n :: k < n < j ==> log[n].Called?
    decreases j
  {
    assert log[..j][..j - 1] == log[..j - 1];
    if log[j - 1] != GatePassed(id) {
      ClearanceHasMoment(log, j - 1, id);
      var k :| 0 <= k < j - 1 && log[k] == GatePassed(id) && forall n :: k < n < j - 1 ==> log[n].Called?;
      assert forall n :: k < n < j ==> log[n].Called?;
    }
  }

  /** Every cluster write passed the gate for its own desire, and since that check only adapters have done anything. */
  lemma EveryWritePassesTheGate(lib: Library, log: History, j: nat)
    requires LogGood(lib, log) && j < |log| && (log[j].SentApply? || log[j].SentDelete?)
    ensures exists k :: 0 <= k < j && log[k] == GatePassed(log[j].id) && forall n :: k < n < j ==> log[n].Called?
  {
    assert GoodAt(lib, log, j);
    ClearanceHasMoment(log, j, log[j].id);
  }

  /** Two applies sent to one object come from one identity. */
  lemma AppliesKeepApart(lib: Library, log: History, i: nat, j: nat)
    requires LogGood(lib, log) && i < |log| && j < |log|
    requires log[i].SentApply? && log[j].SentApply? && log[i].obj == log[j].obj
    requires log[i].id.target.managementCluster == log[j].id.target.managementCluster
    ensures log[i].id.target == log[j].id.target
  {
    assert GoodAt(lib, log, i) && GoodAt(lib, log, j);
  }

  // ------------------------------------------------------------------ what Applied means

  lemma {:induction false} AcceptanceHasMoment(log: History, j: nat, id: Identity, spec: ApplySpec)
    requires j <= |log| && AppliedThisPass(log[..j], id, spec)
    ensures exists k :: 0 <= k < j && log[k] == AcceptedApply(id, spec) && forall n :: k < n < j ==> !Marker(log[n])
    decreases j
  {
    assert log[..j][..j - 1] == log[..j - 1];
    if log[j - 1] != AcceptedApply(id, spec) {
      AcceptanceHasMoment(log, j - 1, id, spec);
      var k :| 0 <= k < j - 1 && log[k] == AcceptedApply(id, spec) && forall n :: k < n < j - 1 ==> !Marker(log[n]);
      assert forall n :: k < n < j ==> !Marker(log[n]);
    }
  }

  /**
    * At moment k the cluster accepted this manifest, sent to the object the identity names, in the pass that runs at
    * j.
    */
  ghost predicate AcceptedAt(log: History, k: int, j: nat, id: Identity, spec: ApplySpec) {
    && 1 <= k < j <= |log| && log[k] == AcceptedApply(id, spec)
    && log[k - 1] == SentApply(id, Coordinates(id.target), spec)
    && forall n :: k < n < j ==> !Marker(log[n])
  }

  lemma AcceptanceFollowsSending(lib: Library, log: History, k: nat)
    requires LogGood(lib, log) && k < |log| && log[k].AcceptedApply?
    ensures k > 0 && log[k - 1] == SentApply(log[k].id, Coordinates(log[k].id.target), log[k].spec)
  {
    assert GoodAt(lib, log, k);
    assert k > 0 ==> log[k - 1] == log[..k][k - 1];
  }

  /** Applied is stored only after the cluster accepted, in the same pass, the very manifest reported on. */
  lemma AppliedNeedsAcceptance(lib: Library, log: History, j: nat)
    requires LogGood(lib, log) && j < |log|
    requires log[j].StoredApply? && log[j].outcome.reason == Applied
    ensures exists k :: AcceptedAt(log, k, j, log[j].id, log[j].spec)
  {
    assert GoodAt(lib, log, j);
    AcceptanceHasMoment(log, j, log[j].id, log[j].spec);
    var k: nat :| k < j && log[k] == AcceptedApply(log[j].id, log[j].spec) && forall n :: k < n < j ==> !Marker(log[n]);
    AcceptanceFollowsSending(lib, log, k);
    assert AcceptedAt(log, k, j, log[j].id, log[j].spec);
  }

  // ---------------------------------------------------------- what an outcome rests on

  /** The reconciliation that runs at moment `j` began at moment `b`. */
  ghost predicate BeganAt(log: History, b: nat, j: nat, id: Identity) {
    b < j <= |log| && log[b] == Began(id) && forall n :: b < n < j ==> !Marker(log[n]) && log[n] != Began(id)
  }

  lemma {:induction false} BeginningHasMoment(log: History, j: nat, id: Identity)
    requires j <= |log| && BeganLen(log[..j], id).Some?
    ensures BeganAt(log, BeganLen(log[..j], id).value - 1, j, id)
    decreases j
  {
    assert log[..j][..j - 1] == log[..j - 1];
    if log[j - 1] != Began(id) {
      BeginningHasMoment(log, j - 1, id);
    }
  }

  /**
    * Every stored apply outcome rests on what its reconciliation did: Applied on an acceptance of that manifest,
    * KubeAPIError on an apply that was tried and not accepted, PreCheckFailed on an unreadable manifest, a failed
    * mapping, or a mapping that disagrees with the identity in a named field; and there is no other outcome.
    */
  lemma ApplyOutcomeExplained(lib: Library, log: History, j: nat)
    requires LogGood(lib, log) && j < |log| && log[j].StoredApply?
    ensures
      var id, spec, reason := log[j].id, log[j].spec, log[j].outcome.reason;
      exists b: nat :: BeganAt(log, b, j, id) && ApplyExplained(lib, log[..b + 1], log[..j], id, spec, reason)
  {
    assert GoodAt(lib, log, j);
    BeginningHasMoment(log, j, log[j].id);
    var b := BeganLen(log[..j], log[j].id).value - 1;
    assert log[..j][..b + 1] == log[..b + 1];
  }

  /** The mapping failed between the two moments, or the calls for some object tell the outcome. */
  ghost predicate DeleteTold(log: History, log': History, id: Identity, reason: Reason) {
    || (reason == PreCheckFailed && Happened(log, log', MappingFailed(id)))
    || exists obj :: CallsTell(log, log', id, obj, reason)
  }

  lemma StoredDeleteHasReason(lib: Library, log: History, j: nat)
    requires LogGood(lib, log) && j < |log| && log[j].StoredDelete?
    ensures log[j].id in StoreOf(lib, log[..j])
    ensures || DeleteReason(log[..j], log[j].id, log[j].outcome.reason)
            || (log[j].outcome.reason == Deleted && IsDeleted(StoreOf(lib, log[..j])[log[j].id].status))
  {
    assert GoodAt(lib, log, j);
  }

  lemma ReasonHasMoment(log: History, j: nat, id: Identity, reason: Reason)
    requires j <= |log| && DeleteReason(log[..j], id, reason)
    ensures exists b: nat :: BeganAt(log, b, j, id) && DeleteTold(log[..b + 1], log[..j], id, reason)
  {
    BeginningHasMoment(log, j, id);
    var b := BeganLen(log[..j], id).value - 1;
    assert log[..j][..b + 1] == log[..b + 1];
  }

  /**
    * Every stored delete outcome, but the restamp of a Deleted record, rests on what its reconciliation did: on a
    * failed mapping, or on the calls for one object, which it resolved: Deleted on an absence, WaitingForDeletion on
    * a mark, KubeAPIError on a failed call or an unmarked object after an accepted DELETE; and a DELETE was tried if
    * and only if the first call saw the object live.
    */
  lemma DeleteOutcomeExplained(lib: Library, log: History, j: nat)
    requires LogGood(lib, log) && j < |log| && log[j].StoredDelete?
    requires log[j].id in StoreOf(lib, log[..j])
    requires log[j].outcome.reason == Deleted ==> !IsDeleted(StoreOf(lib, log[..j])[log[j].id].status)
    ensures
      var id, reason := log[j].id, log[j].outcome.reason;
      exists b: nat :: BeganAt(log, b, j, id) && DeleteTold(log[..b + 1], log[..j], id, reason)
  {
    StoredDeleteHasReason(lib, log, j);
    ReasonHasMoment(log, j, log[j].id, log[j].outcome.reason);
  }

  // ------------------------------------------------------- one manifest to a desire and pass

  ghost predicate OnePass(log: History, a: nat, b: nat)
    requires b <= |log|
  {
    forall k :: a <= k < b ==> !Marker(log[k])
  }

  /** Two moments of one pass, in either order. */
  ghost predicate SamePassMoments(log: History, a: nat, b: nat)
    requires a <= |log| && b <= |log|
  {
    if a <= b then OnePass(log, a, b) else OnePass(log, b, a)
  }

  lemma {:induction false} TakenHasMoment(log: History, n: nat, id: Identity)
    requires n <= |log| && Taken(log[..n], id).Some?
    ensures exists r: nat :: && r < n && log[r] == Read(Taken(log[..n], id).value)
                             && Taken(log[..n], id).value.rec.identity == id && OnePass(log, r, n)
    decreases n
  {
    assert log[..n][..n - 1] == log[..n - 1];
    var e := log[n - 1];
    if e.Read? && e.x.rec.identity == id {
      assert OnePass(log, n - 1, n);
    } else {
      TakenHasMoment(log, n - 1, id);
      var r: nat :| && r < n - 1 && log[r] == Read(Taken(log[..n - 1], id).value)
                    && Taken(log[..n - 1], id).value.rec.identity == id && OnePass(log, r, n - 1);
      assert OnePass(log, r, n);
    }
  }

  /** What a pass took of an apply desire stands until the pass ends: it is not read again. */
  lemma {:induction false} TakenStands(lib: Library, log: History, r: nat, n: nat)
    requires LogGood(lib, log) && r < n <= |log| && log[r].Read? && log[r].x.rec.identity.ty == TypeApply
    requires OnePass(log, r, n)
    ensures Taken(log[..n], log[r].x.rec.identity) == Some(log[r].x)
    decreases n
  {
    assert log[..n][..n - 1] == log[..n - 1];
    if r + 1 < n {
      assert OnePass(log, r, n - 1);
      TakenStands(lib, log, r, n - 1);
      assert GoodAt(lib, log, n - 1);
    }
  }

  /** Every apply a pass sends for a desire comes after its one read of it, and carries what was read. */
  lemma OneManifestPerPass(lib: Library, log: History, r: nat, n: nat)
    requires LogGood(lib, log) && r < |log| && n < |log| && log[r].Read? && log[r].x.rec.identity.ty == TypeApply
    requires log[n].SentApply? && log[n].id == log[r].x.rec.identity && SamePassMoments(log, r, n)
    ensures r < n && log[r].x.rec.apply == Some(log[n].spec)
  {
    assert GoodAt(lib, log, n) && GoodAt(lib, log, r);
    var id := log[n].id;
    if n < r {
      TakenHasMoment(log, n, id);
      var m: nat :| m < n && log[m] == Read(Taken(log[..n], id).value) && OnePass(log, m, n);
      assert OnePass(log, m, r);
      TakenStands(lib, log, m, r);
    } else {
      TakenStands(lib, log, r, n);
    }
  }

  // ---------------------------------------------------------------- condition freshness

  lemma {:induction false} ReportHasMoment(log: History, id: Identity)
    requires LastReport(log, id).Some?
    ensures exists j: nat :: && j < |log| && log[j] == LastReport(log, id).value
                             && forall n :: j < n < |log| ==> !IsCreation(log[n], id)
  {
    var e, before := log[|log| - 1], log[..|log| - 1];
    if !(e.StoredApply? && e.id == id) {
      ReportHasMoment(before, id);
      var j: nat :| && j < |before| && before[j] == LastReport(before, id).value
                    && forall n :: j < n < |before| ==> !IsCreation(before[n], id);
      assert log[j] == LastReport(log, id).value;
      assert forall n :: j < n < |log| ==> !IsCreation(log[n], id);
    }
  }

  /**
    * What the report stored at moment `j` reports on was read at moment `r` of the same pass: that incarnation, at
    * the reported generation, with that manifest; and every apply the pass sent for the desire carried it.
    */
  ghost predicate AttemptedAt(lib: Library, log: History, r: nat, j: nat) {
    && r < j < |log| && log[j].StoredApply? && log[r].Read? && OnePass(log, r, j)
    && var x, e := log[r].x, log[j];
    && x.rec.identity == e.id && x.rec.apply == Some(e.spec) && x.incarnation == e.listed == Births(log[..r], e.id)
    && x.rec.generation == e.outcome.observedGeneration
    && e.id in StoreOf(lib, log[..r]) && StoreOf(lib, log[..r])[e.id] == x.rec
    && forall n: nat :: n < |log| && log[n].SentApply? && log[n].id == e.id && SamePassMoments(log, r, n) ==>
                          r < n && log[n].spec == e.spec
  }

  lemma ReportWasAttempted(lib: Library, log: History, j: nat)
    requires LogGood(lib, log) && j < |log| && log[j].StoredApply?
    ensures exists r: nat :: AttemptedAt(lib, log, r, j)
  {
    var e := log[j];
    StoresNoRead(lib, log, j);
    assert GoodAt(lib, log, j);
    TakenHasMoment(log, j, e.id);
    var r: nat :| && r < j && log[r] == Read(Taken(log[..j], e.id).value)
                  && log[r].x.rec.identity == e.id && OnePass(log, r, j);
    assert GoodAt(lib, log, r);
    forall n: nat | n < |log| && log[n].SentApply? && log[n].id == e.id && SamePassMoments(log, r, n)
      ensures r < n && log[n].spec == e.spec
    {
      OneManifestPerPass(lib, log, r, n);
    }
    assert AttemptedAt(lib, log, r, j);
  }

  /** The report stands at moment `j`, and the desire was not created again since. */
  ghost predicate ReportedAt(log: History, j: nat, id: Identity) {
    && j < |log| && LastReport(log, id) == Some(log[j])
    && forall n :: j < n < |log| ==> !IsCreation(log[n], id)
  }

  /**
    * At any moment of any run: the condition on an apply desire is the outcome of a pass's attempt at what that pass
    * read. If it was this incarnation that was read, and the condition carries the current generation, the attempt
    * was at a manifest with the current JSON value, the only one the pass sent for the desire.
    */
  lemma MatchingGenerationIsCurrent(lib: Library, items: Items, log: History, cancelled: bool, id: Identity)
    requires Good(lib, items, log, cancelled) && id in items && id.ty == TypeApply
    requires FindCondition(items[id].status.conditions, Successful).Some?
    ensures exists r: nat, j: nat ::
              && ReportedAt(log, j, id) && AttemptedAt(lib, log, r, j)
              && SameOutcome(FindCondition(items[id].status.conditions, Successful).value, log[j].outcome)
              && (log[j].listed == Births(log, id) && log[j].outcome.observedGeneration == items[id].generation ==>
                    lib.decode(log[j].spec.kubeContent).Some? &&
                    lib.decode(log[j].spec.kubeContent) == lib.decode(items[id].apply.value.kubeContent))
  {
    assert FreshRecord(lib, log, id, items[id]);
    ReportHasMoment(log, id);
    var j: nat :| && j < |log| && log[j] == LastReport(log, id).value
                  && forall n :: j < n < |log| ==> !IsCreation(log[n], id);
    ReportWasAttempted(lib, log, j);
    var r: nat :| AttemptedAt(lib, log, r, j);
    SpecEqualIsValueEquality(lib, log[j].spec, items[id].apply.value);
    assert ReportedAt(log, j, id);
  }

  // -------------------------------------------------------------- what Applied means in the end

  /**
    * An apply desire whose condition says Applied at its own generation, reported by a pass that read this
    * incarnation.
    */
  ghost predicate UpToDate(items: Items, log: History, id: Identity) {
    && id in items && id.ty == TypeApply && items[id].apply.Some?
    && LastReport(log, id).Some? && LastReport(log, id).value.listed == Births(log, id)
    && var c := FindCondition(items[id].status.conditions, Successful);
    c.Some? && c.value.reason == Applied && c.value.observedGeneration == items[id].generation
  }

  ghost predicate SameValue(lib: Library, spec: ApplySpec, rec: Record) {
    && rec.apply.Some? && lib.decode(spec.kubeContent).Some?
    && lib.decode(spec.kubeContent) == lib.decode(rec.apply.value.kubeContent)
  }

  /**
    * At moment k the cluster accepted a manifest with the JSON value of the record's spec, and nothing sent for the
    * desire since carried another value.
    */
  ghost predicate LastWord(lib: Library, rec: Record, log: History, k: nat, id: Identity) {
    && k < |log| && log[k].AcceptedApply? && log[k].id == id && SameValue(lib, log[k].spec, rec)
    && forall n :: k < n < |log| && log[n].SentApply? && log[n].id == id ==> SameValue(lib, log[n].spec, rec)
  }

  /** Between two moments of one incarnation the generation only grows, and while it stands so does the JSON value. */
  ghost predicate ValueKept(lib: Library, rec: Record, rec': Record) {
    && rec.apply.Some? && rec'.apply.Some? && rec.generation <= rec'.generation
    && (rec.generation == rec'.generation ==> SpecEqual(lib, rec.apply.value, rec'.apply.value))
  }

  /** The store after an event is the one its call leaves, and the call's reply is the store's. */
  lemma ReplayedAt(lib: Library, log: History, j: nat)
    requires LogGood(lib, log) && j < |log|
    ensures Honest(lib, StoreOf(lib, log[..j]), log[j]) && (log[j].Called? ==> AdapterOp(log[j].call.op))
    ensures log[j].StoredApply? || log[j].StoredDelete? ==> !log[j].reply.Failed?
    ensures StoreOf(lib, log[..j + 1]) == (match CallOf(log[j])
                                            case None => StoreOf(lib, log[..j])
                                            case Some(c) => Step(lib, StoreOf(lib, log[..j]), c.op).0)
  {
    assert log[..j + 1] == log[..j] + [log[j]];
    StoreAppend(lib, log[..j], log[j]);
    assert GoodAt(lib, log, j);
  }

  lemma ValueStep(lib: Library, log: History, j: nat, id: Identity)
    requires LogGood(lib, log) && j < |log| && id.ty == TypeApply && !IsCreation(log[j], id)
    requires id in StoreOf(lib, log[..j + 1])
    ensures id in StoreOf(lib, log[..j]) && ValueKept(lib, StoreOf(lib, log[..j])[id], StoreOf(lib, log[..j + 1])[id])
  {
    var store, e := StoreOf(lib, log[..j]), log[j];
    ReplayedAt(lib, log, j);
    HistoryConsistent(lib, Calls(log[..j]));
    if e.Called? {
      AdapterStep(lib, store, e.call, id);
    } else if e.StoredApply? || e.StoredDelete? {
      StatusWritten(lib, store, CallOf(e).value.op);
    }
    assert WellFormed(lib, id, store[id]);
  }

  lemma {:induction false} ValueStands(lib: Library, log: History, a: nat, b: nat, id: Identity)
    requires LogGood(lib, log) && a <= b <= |log| && id.ty == TypeApply && id in StoreOf(lib, log[..b])
    requires forall k :: a <= k < b ==> !IsCreation(log[k], id)
    ensures id in StoreOf(lib, log[..a]) && ValueKept(lib, StoreOf(lib, log[..a])[id], StoreOf(lib, log[..b])[id])
    decreases b
  {
    if a == b {
      HistoryConsistent(lib, Calls(log[..a]));
      assert WellFormed(lib, id, StoreOf(lib, log[..a])[id]);
    } else {
      ValueStep(lib, log, b - 1, id);
      ValueStands(lib, log, a, b - 1, id);
    }
  }

  lemma {:induction false} SameBirthsNoCreation(log: History, a: nat, b: nat, id: Identity)
    requires a <= b <= |log|
    ensures Births(log[..a], id) <= Births(log[..b], id)
    ensures Births(log[..a], id) == Births(log[..b], id) ==> forall k :: a <= k < b ==> !IsCreation(log[k], id)
    decreases b
  {
    if a < b {
      assert log[..b][..b - 1] == log[..b - 1];
      SameBirthsNoCreation(log, a, b - 1, id);
    }
  }

  /** A manifest sent after moment `r` was read at `r` or later. */
  lemma SentWasReadLater(lib: Library, log: History, r: nat, n: nat) returns (m: nat)
    requires LogGood(lib, log) && r < n < |log| && log[r].Read? && log[r].x.rec.identity.ty == TypeApply
    requires log[n].SentApply? && log[n].id == log[r].x.rec.identity
    ensures r <= m < n && log[m].Read? && log[m].x.rec.identity == log[n].id && log[m].x.rec.apply == Some(log[n].spec)
  {
    var id := log[n].id;
    assert GoodAt(lib, log, n) && GoodAt(lib, log, r);
    TakenHasMoment(log, n, id);
    m :| m < n && log[m] == Read(Taken(log[..n], id).value) && log[m].x.rec.identity == id && OnePass(log, m, n);
    if m < r {
      assert OnePass(log, m, r);
      TakenStands(lib, log, m, r);
    }
  }

  /** What is read of the current generation and incarnation has the current JSON value. */
  lemma CurrentRead(lib: Library, log: History, r: nat, m: nat, id: Identity)
    requires LogGood(lib, log) && r <= m < |log| && id.ty == TypeApply && id in StoreOf(lib, log)
    requires forall k :: r <= k < |log| ==> !IsCreation(log[k], id)
    requires log[m].Read? && log[m].x.rec.identity == id && log[m].x.rec.apply.Some?
    requires id in StoreOf(lib, log[..r]) && StoreOf(lib, log[..r])[id].generation == StoreOf(lib, log)[id].generation
    ensures SameValue(lib, log[m].x.rec.apply.value, StoreOf(lib, log)[id])
  {
    assert log[..|log|] == log;
    assert GoodAt(lib, log, m);
    ValueStands(lib, log, m, |log|, id);
    ValueStands(lib, log, r, m, id);
  }

  /**
    * At any moment of any run, up to date means that a manifest with the current JSON value is the last word: the
    * cluster accepted one, and whatever was sent for the desire since carried that value too.
    */
  lemma UpToDateWasAccepted(lib: Library, items: Items, log: History, cancelled: bool, id: Identity)
    requires Good(lib, items, log, cancelled) && UpToDate(items, log, id)
    ensures exists k: nat :: LastWord(lib, items[id], log, k, id)
  {
    MatchingGenerationIsCurrent(lib, items, log, cancelled, id);
    var r: nat, j: nat :| && ReportedAt(log, j, id) && AttemptedAt(lib, log, r, j)
                          && SameOutcome(FindCondition(items[id].status.conditions, Successful).value, log[j].outcome);
    AppliedNeedsAcceptance(lib, log, j);
    var k: nat :| AcceptedAt(log, k, j, id, log[j].spec);
    ReplayIs(lib, log, items);
    AcceptedIsLastWord(lib, log, r, k, j);
    assert LastWord(lib, items[id], log, k, id);
  }

  /** The acceptance of an attempt at the current generation and incarnation. */
  lemma AcceptedIsLastWord(lib: Library, log: History, r: nat, k: nat, j: nat)
    requires LogGood(lib, log) && AttemptedAt(lib, log, r, j) && AcceptedAt(log, k, j, log[j].id, log[j].spec)
    requires log[j].id.ty == TypeApply && log[j].id in StoreOf(lib, log) && log[j].listed == Births(log, log[j].id)
    requires log[j].outcome.observedGeneration == StoreOf(lib, log)[log[j].id].generation
    ensures LastWord(lib, StoreOf(lib, log)[log[j].id], log, k, log[j].id)
  {
    ReadsBeforeAcceptance(lib, log, r, k, j);
    assert log[..|log|] == log;
    SameBirthsNoCreation(log, r, |log|, log[j].id);
    CurrentRead(lib, log, r, r, log[j].id);
    SentSinceIsCurrent(lib, log, r, log[j].id);
  }

  /** Whatever is sent after a read of the current generation and incarnation has the current JSON value. */
  lemma SentSinceIsCurrent(lib: Library, log: History, r: nat, id: Identity)
    requires LogGood(lib, log) && r < |log| && id.ty == TypeApply && id in StoreOf(lib, log)
    requires forall k :: r <= k < |log| ==> !IsCreation(log[k], id)
    requires log[r].Read? && log[r].x.rec.identity == id
    requires id in StoreOf(lib, log[..r]) && StoreOf(lib, log[..r])[id].generation == StoreOf(lib, log)[id].generation
    ensures forall n :: r < n < |log| && log[n].SentApply? && log[n].id == id ==>
                          SameValue(lib, log[n].spec, StoreOf(lib, log)[id])
  {
    forall n | r < n < |log| && log[n].SentApply? && log[n].id == id
      ensures SameValue(lib, log[n].spec, StoreOf(lib, log)[id])
    {
      var m := SentWasReadLater(lib, log, r, n);
      CurrentRead(lib, log, r, m, id);
    }
  }

  /** The acceptance of an attempt comes after its read. */
  lemma ReadsBeforeAcceptance(lib: Library, log: History, r: nat, k: nat, j: nat)
    requires LogGood(lib, log) && AttemptedAt(lib, log, r, j) && AcceptedAt(log, k, j, log[j].id, log[j].spec)
    ensures r < k
  {
    assert SamePassMoments(log, r, k - 1);
  }

  // ------------------------------------------------------- the same outcome a second time

  /** No adapter creates the desire or updates its spec here. */
  predicate Undisturbed(e: Event, id: Identity) { !IsCreation(e, id) && !(e.Called? && Writes(e.call, id)) }

  /** A step of the replay that spares a desire leaves its record as it is, or removes it. */
  lemma SparedStands(lib: Library, log: History, j: nat, id: Identity)
    requires LogGood(lib, log) && j < |log| && id.ty != TypeRead
    requires !IsCreation(log[j], id) && !Stores(log[j], id)
    requires id in StoreOf(lib, log[..j + 1])
    ensures id in StoreOf(lib, log[..j])
    ensures StoreOf(lib, log[..j + 1])[id].status == StoreOf(lib, log[..j])[id].status
    ensures Undisturbed(log[j], id) ==> StoreOf(lib, log[..j + 1])[id] == StoreOf(lib, log[..j])[id]
  {
    var store, e := StoreOf(lib, log[..j]), log[j];
    ReplayedAt(lib, log, j);
    if e.Called? {
      HistoryConsistent(lib, Calls(log[..j]));
      AdapterStep(lib, store, e.call, id);
    } else if e.StoredApply? || e.StoredDelete? {
      StatusWritten(lib, store, CallOf(e).value.op);
    }
  }

  lemma StoredNow(lib: Library, log: History, i: nat)
    requires LogGood(lib, log) && i < |log| && (log[i].StoredApply? || log[i].StoredDelete?)
    ensures log[i].id in StoreOf(lib, log[..i + 1]) ==> StoreOf(lib, log[..i + 1])[log[i].id].status == log[i].status
  {
    ReplayedAt(lib, log, i);
    StatusWritten(lib, StoreOf(lib, log[..i]), CallOf(log[i]).value.op);
  }

  /** Until the desire is created again or stored again, its status is the one stored last. */
  lemma {:induction false} StoredStatusStands(lib: Library, log: History, i: nat, j: nat)
    requires LogGood(lib, log) && i < j <= |log| && (log[i].StoredApply? || log[i].StoredDelete?)
    requires log[i].id.ty != TypeRead
    requires forall k :: i < k < j ==> !IsCreation(log[k], log[i].id) && !Stores(log[k], log[i].id)
    requires log[i].id in StoreOf(lib, log[..j])
    ensures StoreOf(lib, log[..j])[log[i].id].status == log[i].status
    decreases j
  {
    if j == i + 1 {
      StoredNow(lib, log, i);
    } else {
      SparedStands(lib, log, j - 1, log[i].id);
      StoredStatusStands(lib, log, i, j - 1);
    }
  }

  /** The loop stores statuses of apply and delete desires only. */
  lemma StoresNoRead(lib: Library, log: History, i: nat)
    requires LogGood(lib, log) && i < |log| && (log[i].StoredApply? || log[i].StoredDelete?)
    ensures log[i].id.ty == if log[i].StoredApply? then TypeApply else TypeDelete
  {
    assert GoodAt(lib, log, i);
    StatusWritten(lib, StoreOf(lib, log[..i]), CallOf(log[i]).value.op);
  }

  /**
    * Of two status writes in a row on one incarnation of a desire, whichever passes they belong to, the second
    * reports a different outcome: a pass that reaches the outcome already stored, at the same generation, writes
    * nothing.
    */
  lemma SameOutcomeWritesNothing(lib: Library, log: History, i: nat, j: nat)
    requires LogGood(lib, log) && i < j < |log|
    requires (log[i].StoredApply? || log[i].StoredDelete?) && Stores(log[j], log[i].id)
    requires forall k :: i < k < j ==> !IsCreation(log[k], log[i].id) && !Stores(log[k], log[i].id)
    ensures !SameOutcome(log[i].outcome, log[j].outcome)
  {
    StoresNoRead(lib, log, i);
    assert GoodAt(lib, log, i) && GoodAt(lib, log, j);
    StoredStatusStands(lib, log, i, j);
  }

  /** A stored outcome is news: the record did not report it. */
  lemma StoreIsNews(lib: Library, log: History, j: nat, c: Condition)
    requires LogGood(lib, log) && j < |log| && (log[j].StoredApply? || log[j].StoredDelete?)
    ensures log[j].id in StoreOf(lib, log[..j])
    ensures Matched(c, StoreOf(lib, log[..j])[log[j].id].status) ==> !SameOutcome(log[j].outcome, c)
  {
    assert GoodAt(lib, log, j);
  }

  /**
    * Between the two moments no adapter creates or updates the desire, and every status the loop stores for it
    * reports this outcome.
    */
  ghost predicate OnlyRepeats(log: History, i: nat, j: nat, id: Identity, c: Condition) {
    && i <= j <= |log| && (forall k :: i <= k < j ==> Undisturbed(log[k], id))
    && forall k :: i <= k < j && Stores(log[k], id) ==> SameOutcome(log[k].outcome, c)
  }

  /**
    * While every pass reaches the outcome a desire already reports, and no adapter creates or updates it, the passes
    * store nothing for it: its record, version included, stands.
    */
  lemma {:induction false} RepeatedOutcomeKeepsVersion(
    lib: Library, log: History, i: nat, j: nat, id: Identity, c: Condition)
    requires LogGood(lib, log) && OnlyRepeats(log, i, j, id, c) && id.ty != TypeRead
    requires id in StoreOf(lib, log[..i]) && Matched(c, StoreOf(lib, log[..i])[id].status)
    ensures forall k :: i <= k < j ==> !Stores(log[k], id)
    ensures id in StoreOf(lib, log[..j]) ==> StoreOf(lib, log[..j])[id] == StoreOf(lib, log[..i])[id]
  {
    var rec := StoreOf(lib, log[..i])[id];
    StandsExactlyWhen(lib, log, i, id, rec);
    StandsExactlyWhen(lib, log, j, id, rec);
    RepeatsKeep(lib, log, i, j, j, id, c, rec);
    forall k | i <= k < j
      ensures !Stores(log[k], id)
    {
      RepeatsKeep(lib, log, i, k, j, id, c, rec);
      RepeatedStep(lib, log, i, k, j, id, c, rec);
    }
  }

  lemma RepeatsKeep(
    lib: Library, log: History, i: nat, n: nat, j: nat, id: Identity, c: Condition, rec: Record)
    requires LogGood(lib, log) && OnlyRepeats(log, i, j, id, c) && i <= n <= j && id.ty != TypeRead
    requires Matched(c, rec.status) && StandsAt(lib, log, i, id, rec)
    ensures StandsAt(lib, log, n, id, rec)
  {
    var stands := (k: nat) => k <= |log| && StandsAt(lib, log, k, id, rec);
    forall k: nat | i <= k < n && stands(k)
      ensures stands(k + 1)
    {
      RepeatedStep(lib, log, i, k, j, id, c, rec);
    }
    Reach(stands, i, n);
  }

  /** What holds at one moment and is kept by every step after it holds at every later moment. */
  lemma {:induction false} Reach(p: nat -> bool, i: nat, n: nat)
    requires i <= n && p(i) && forall k: nat :: i <= k < n && p(k) ==> p(k + 1)
    ensures p(n)
  {
    if i < n {
      Reach(p, i, n - 1);
    }
  }

  /** At that moment the record, if it is there, is this one. */
  ghost predicate StandsAt(lib: Library, log: History, k: nat, id: Identity, rec: Record)
    requires k <= |log|
  {
    forall items: Items :: Replays(lib, log[..k], items) && id in items ==> items[id] == rec
  }

  lemma StandsExactlyWhen(lib: Library, log: History, k: nat, id: Identity, rec: Record)
    requires k <= |log|
    ensures StandsAt(lib, log, k, id, rec) <==>
              (id in StoreOf(lib, log[..k]) ==> StoreOf(lib, log[..k])[id] == rec)
  {
    var store := StoreOf(lib, log[..k]);
    ReplayIs(lib, log[..k], store);
    forall items: Items | Replays(lib, log[..k], items)
      ensures items == store
    {
      ReplayIs(lib, log[..k], items);
    }
  }

  /** One event that adapters leave the desire alone in, and that reports at most the same again. */
  lemma RepeatedStep(lib: Library, log: History, i: nat, k: nat, j: nat, id: Identity, c: Condition, rec: Record)
    requires LogGood(lib, log) && OnlyRepeats(log, i, j, id, c) && i <= k < j && id.ty != TypeRead
    requires Matched(c, rec.status) && StandsAt(lib, log, k, id, rec)
    ensures !Stores(log[k], id) && StandsAt(lib, log, k + 1, id, rec)
  {
    StandsExactlyWhen(lib, log, k, id, rec);
    StandsExactlyWhen(lib, log, k + 1, id, rec);
    if Stores(log[k], id) {
      StoreIsNews(lib, log, k, c);
    } else if id in StoreOf(lib, log[..k + 1]) {
      SparedStands(lib, log, k, id);
    }
  }

  /** A later mapping failure is a difference, so it is written over Deleted. */
  lemma MappingFailureReplacesDeleted(s: Status, generation: int, message: string, now: int)
    requires Keyed(s) && IsDeleted(s)
    ensures
      var s' := WithCondition(s, Outcome(generation, PreCheckFailed, message), now);
      !StatusEqual(s', s) && !IsDeleted(s')
  {
    var c := Outcome(generation, PreCheckFailed, message);
    SettingIsNoopExactlyWhen(s, c, now);
    SetThenFind(s.conditions, c, now, Successful);
  }

  // ------------------------------------------------- a condition forged across incarnations

  function Single(rec: Record): Items { map[rec.identity := rec] }

  lemma CreatesOnly(lib: Library, d: ApplyDesire)
    requires ValidApply(lib, d)
    ensures Step(lib, map[], CreateApply(d)) == (Single(NewApply(d)), ApplyReply(ProjectApply(NewApply(d))))
    ensures Step(lib, Single(NewApply(d)), RemoveApply(d.identity, d.owner, 1)) == (map[], Done)
  {
    assert Sibling(d.identity, TypeApply) == d.identity;
  }

  /** A good history and what it has listed; quantified over a bound, so that a proof unfolds it only on purpose. */
  ghost predicate Staged(lib: Library, items: Items, log: History, listed: set<Snapshot>) {
    forall bound: nat :: StagedUpTo(lib, items, log, listed, bound)
  }

  ghost predicate StagedUpTo(lib: Library, items: Items, log: History, listed: set<Snapshot>, bound: nat) {
    |log| <= bound ==> Good(lib, items, log, false) && AllListed(lib, items, log, listed)
  }

  lemma StagedRuns(lib: Library, items: Items, log: History, listed: set<Snapshot>)
    requires Staged(lib, items, log, listed)
    ensures !EndedThisTerm(log)
  {
    assert StagedUpTo(lib, items, log, listed, |log|);
  }

  /** One more event that stores nothing. */
  lemma Noted(lib: Library, items: Items, log: History, listed: set<Snapshot>, e: Event, id: Identity)
    returns (log': History)
    requires Staged(lib, items, log, listed) && EventGood(lib, items, log, e)
    requires CallOf(e).None? && !Ends(e) && !e.Read? && (Marker(e) ==> listed == {})
    ensures log' == log + [e] && Staged(lib, items, log', listed) && Births(log', id) == Births(log, id)
    ensures PhaseOf(log') == if Marker(e) then PhaseOf([e]) else PhaseOf(log)
    ensures LateThisPass(log') == (!Marker(e) && (e.TimedOut? || LateThisPass(log)))
  {
    assert StagedUpTo(lib, items, log, listed, |log|);
    EventKeepsAll(lib, items, log, false, listed, e);
    AppendUnfolds(log, e);
    log' := log + [e];
  }

  /** An adapter's accepted call, and what it leaves. */
  lemma AdapterCalls(lib: Library, items: Items, log: History, listed: set<Snapshot>, op: Op, items': Items)
    returns (log': History)
    requires Staged(lib, items, log, listed) && AdapterOp(op) && items' == Step(lib, items, op).0
    ensures log' == log + [Called(Call(op, Step(lib, items, op).1))] && Staged(lib, items', log', listed)
  {
    assert StagedUpTo(lib, items, log, listed, |log|);
    var c := Call(op, Step(lib, items, op).1);
    AdapterKeepsAll(lib, items, log, false, listed, c);
    log' := log + [Called(c)];
  }

  lemma Snapped(lib: Library, items: Items, log: History, id: Identity) returns (log': History, x: Snapshot)
    requires Staged(lib, items, log, {}) && id in items && id.ty != TypeRead && Taken(log, id).None?
    ensures x == Snapshot(items[id], Births(log, id)) && log' == log + [Read(x)] && Staged(lib, items, log', {x})
  {
    assert StagedUpTo(lib, items, log, {}, |log|);
    SnapshotKeeps(lib, items, log, false, {}, id);
    x := Snapshot(items[id], Births(log, id));
    log' := log + [Read(x)];
    assert {} + {x} == {x};
  }

  lemma ReadLeaves(log: History, x: Snapshot, id: Identity)
    ensures
      var log' := log + [Read(x)];
      Births(log', id) == Births(log, id) && PhaseOf(log') == PhaseOf(log) && LateThisPass(log') == LateThisPass(log)
  {
    AppendUnfolds(log, Read(x));
  }

  lemma PresentIsLoud(lib: Library, items: Items, log: History, x: Snapshot, t: Target)
    requires Staged(lib, items, log, {x}) && ApplyId(t) in items
    ensures Listed(lib, items, log, x) && !Quiet(log, t) && !EndedThisTerm(log)
  {
    assert StagedUpTo(lib, items, log, {x}, |log|);
  }

  lemma MayBeSent(lib: Library, items: Items, log: History, x: Snapshot, id: Identity)
    requires Listed(lib, items, log, x) && !Quiet(log, id.target) && !EndedThisTerm(log)
    requires log != [] && log[|log| - 1] == GatePassed(id) && PhaseOf(log) == Applying
    requires id.ty == TypeApply && x.rec.identity == id && x.rec.apply.Some?
    ensures EventGood(lib, items, log, SentApply(id, Coordinates(id.target), x.rec.apply.value))
  {
  }

  /** The gate check, and the apply right after it. */
  lemma Sent(lib: Library, items: Items, log: History, x: Snapshot, id: Identity) returns (log': History)
    requires Staged(lib, items, log, {x}) && PhaseOf(log) == Applying
    requires id.ty == TypeApply && id in items && x.rec.identity == id && x.rec.apply.Some?
    ensures Staged(lib, items, log', {x}) && Births(log', id) == Births(log, id)
    ensures log' == log + [GatePassed(id)] + [SentApply(id, Coordinates(id.target), x.rec.apply.value)]
  {
    var passed := Noted(lib, items, log, {x}, GatePassed(id), id);
    assert id == ApplyId(id.target);
    PresentIsLoud(lib, items, passed, x, id.target);
    MayBeSent(lib, items, passed, x, id);
    log' := Noted(lib, items, passed, {x}, SentApply(id, Coordinates(id.target), x.rec.apply.value), id);
  }

  lemma FirstCreated(lib: Library, d: ApplyDesire) returns (log: History)
    requires ValidApply(lib, d)
    ensures Staged(lib, Single(NewApply(d)), log, {}) && Births(log, d.identity) == 1
  {
    CreatesOnly(lib, d);
    StartGood(lib);
    log := AdapterCalls(lib, map[], [], {}, CreateApply(d), Single(NewApply(d)));
  }

  lemma FirstPass(lib: Library, d: ApplyDesire) returns (log: History)
    requires ValidApply(lib, d)
    ensures Staged(lib, Single(NewApply(d)), log, {}) && Births(log, d.identity) == 1
    ensures PhaseOf(log) == Applying && Taken(log, d.identity).None? && !LateThisPass(log)
  {
    var id, items := d.identity, Single(NewApply(d));
    var created := FirstCreated(lib, d);
    StagedRuns(lib, items, created, {});
    var ticking := Noted(lib, items, created, {}, TickStarted, id);
    StagedRuns(lib, items, ticking, {});
    log := Noted(lib, items, ticking, {}, ApplyPassStarted, id);
    MarkerTakesNothing(ticking, ApplyPassStarted);
  }

  /** A pass lists the only desire. */
  lemma FirstListed(lib: Library, d: ApplyDesire) returns (log: History, x: Snapshot)
    requires ValidApply(lib, d)
    ensures Staged(lib, Single(NewApply(d)), log, {x})
    ensures x == Snapshot(NewApply(d), 1) && Births(log, d.identity) == 1 && PhaseOf(log) == Applying
    ensures !LateThisPass(log)
  {
    var started := FirstPass(lib, d);
    log, x := Snapped(lib, Single(NewApply(d)), started, d.identity);
    ReadLeaves(started, x, d.identity);
  }

  /** It passes the gate and has the manifest accepted. */
  lemma FirstApplied(lib: Library, d: ApplyDesire) returns (log: History, x: Snapshot)
    requires ValidApply(lib, d)
    ensures Staged(lib, Single(NewApply(d)), log, {x})
    ensures x == Snapshot(NewApply(d), 1) && Births(log, d.identity) == 1 && AppliedThisPass(log, d.identity, d.spec)
    ensures ApplyReason(lib, log, d.identity, d.spec, Applied)
  {
    var id, items := d.identity, Single(NewApply(d));
    var listed: History;
    listed, x := FirstListed(lib, d);
    StagedRuns(lib, items, listed, {x});
    var began := Noted(lib, items, listed, {x}, Began(id), id);
    var sent := Sent(lib, items, began, x, id);
    log := Noted(lib, items, sent, {x}, AcceptedApply(id, d.spec), id);
    AcceptedSinceBegan(lib, listed, sent, id, d.spec);
  }

  lemma AcceptedSinceBegan(lib: Library, listed: History, sent: History, id: Identity, spec: ApplySpec)
    requires exists obj :: sent == listed + [Began(id)] + [GatePassed(id)] + [SentApply(id, obj, spec)]
    ensures ApplyReason(lib, sent + [AcceptedApply(id, spec)], id, spec, Applied)
  {
    var began, log := listed + [Began(id)], sent + [AcceptedApply(id, spec)];
    BeganNow(listed, id);
    AppendUnfolds(sent, AcceptedApply(id, spec));
    assert Within(began, sent);
    assert Within(began, log);
    WithinKeepsBegan(began, log, id);
    assert log[..|began|] == began;
    HappenedLast(began, log, AcceptedApply(id, spec));
  }

  /** Meanwhile an adapter removes the desire and creates it again with another manifest. */
  lemma Recreated(lib: Library, first: ApplyDesire, second: ApplyDesire) returns (log: History, x: Snapshot)
    requires ValidApply(lib, first) && ValidApply(lib, second) && first.identity == second.identity
    ensures Staged(lib, Single(NewApply(second)), log, {x})
    ensures x == Snapshot(NewApply(first), 1) && Births(log, first.identity) == 2
    ensures AppliedThisPass(log, first.identity, first.spec)
    ensures ApplyReason(lib, log, first.identity, first.spec, Applied)
  {
    var id := first.identity;
    var applied: History;
    applied, x := FirstApplied(lib, first);
    var remove, create := RemoveApply(id, first.owner, 1), CreateApply(second);
    CreatesOnly(lib, first);
    CreatesOnly(lib, second);
    var removed := AdapterCalls(lib, Single(NewApply(first)), applied, {x}, remove, map[]);
    log := AdapterCalls(lib, map[], removed, {x}, create, Single(NewApply(second)));
    var e, e' := Called(Call(remove, Done)), Called(Call(create, ApplyReply(ProjectApply(NewApply(second)))));
    BornAgain(applied, e, e', id, first.spec);
    assert PassiveOnly(applied, log);
    ApplyReasonStands(lib, applied, log, id, first.spec, Applied);
  }

  lemma BornAgain(log: History, e: Event, e': Event, id: Identity, spec: ApplySpec)
    requires e.Called? && !IsCreation(e, id) && IsCreation(e', id)
    ensures Births(log + [e] + [e'], id) == Births(log, id) + 1
    ensures AppliedThisPass(log, id, spec) ==> AppliedThisPass(log + [e] + [e'], id, spec)
  {
    AppendUnfolds(log, e);
    AppendUnfolds(log + [e], e');
  }

  /**
    * Across incarnations the freshness claim is false. In this history a pass lists the first incarnation and applies
    * its manifest; the desire is removed and created again with another manifest; the pass's status write then finds
    * the version it listed, since versions restart, and marks the second manifest as applied at its own generation,
    * although the cluster never accepted it.
    */
  lemma RecreationForgesFreshness(lib: Library, first: ApplyDesire, second: ApplyDesire, now: int)
    returns (items: Items, log: History)
    requires ValidApply(lib, first) && ValidApply(lib, second) && first.identity == second.identity
    requires lib.decode(first.spec.kubeContent) != lib.decode(second.spec.kubeContent)
    ensures Good(lib, items, log, false) && first.identity in items
    ensures
      var id, rec := first.identity, items[first.identity];
      var c, e := FindCondition(rec.status.conditions, Successful), LastReport(log, id);
      && rec.apply == Some(second.spec)
      && c.Some? && c.value.reason == Applied && c.value.observedGeneration == rec.generation
      && e.Some? && e.value.listed == 1 && Births(log, id) == 2
      && lib.decode(e.value.spec.kubeContent) != lib.decode(rec.apply.value.kubeContent)
  {
    var id, outcome := first.identity, Outcome(1, Applied, "");
    var before, x := Recreated(lib, first, second);
    var store := Single(NewApply(second));
    var op := ApplyWrite(x, outcome, now);
    var reply := Step(lib, store, op).1;
    assert FindCondition([], Successful).None?;
    assert StagedUpTo(lib, store, before, {x}, |before|);
    assert x in {x};
    StoreApplyKeeps(lib, store, before, false, x, outcome, now, reply);
    var e := ApplyEvent(x, outcome, now, reply);
    items, log := Step(lib, store, op).0, before + [e];
    AppendUnfolds(before, e);
    SetThenFind(NO_STATUS.conditions, outcome, now, Successful);
  }

  // --------------------------------------------------------------- whole runs

  /** NoApplyAfterDeleted, for all pairs of events. */
  ghost predicate AppliesStayQuiet(log: History) {
    forall i, j :: (&& 0 <= i < j < |log|
                    && log[i].StoredDelete? && log[i].id.ty == TypeDelete && IsDeleted(log[i].status)
                    && log[j].SentApply? && log[j].id.target == log[i].id.target) ==>
                     exists k :: i < k < j && IsCreation(log[k], ApplyId(log[i].id.target))
  }

  /** NothingSentAfterDenial, for all pairs of events. */
  ghost predicate EndIsFinal(log: History) {
    forall i, j :: (&& 0 <= i < j < |log| && Ends(log[i])
                    && (log[j].SentApply? || log[j].SentDelete? || Starts(log[j]))) ==>
                     exists k :: i < k < j && log[k] == TermStarted
  }

  /** NoApplyAfterDeleteInOneTick, for all pairs of events. */
  ghost predicate AppliesComeFirst(log: History) {
    forall i, j :: 0 <= i < j < |log| && log[i].SentDelete? && log[j].SentApply? ==>
                     exists k :: i < k < j && log[k] == TickStarted
  }

  /** AppliesKeepApart, for all pairs of events of one management cluster. */
  ghost predicate AppliesAreApart(log: History) {
    forall i, j :: (&& 0 <= i < |log| && 0 <= j < |log| && log[i].SentApply? && log[j].SentApply?
                    && log[i].id.target.managementCluster == log[j].id.target.managementCluster
                    && log[i].obj == log[j].obj) ==>
                     log[i].id.target == log[j].id.target
  }

  lemma GoodLogKeepsPromises(lib: Library, log: History)
    requires LogGood(lib, log)
    ensures AppliesStayQuiet(log) && EndIsFinal(log) && AppliesComeFirst(log) && AppliesAreApart(log)
  {
    forall i, j | 0 <= i < j < |log| && log[i].SentDelete? && log[j].SentApply?
      ensures exists k :: i < k < j && log[k] == TickStarted
    {
      NoApplyAfterDeleteInOneTick(lib, log, i, j);
    }
    forall i, j | && 0 <= i < j < |log|
                  && log[i].StoredDelete? && log[i].id.ty == TypeDelete && IsDeleted(log[i].status)
                  && log[j].SentApply? && log[j].id.target == log[i].id.target
      ensures exists k :: i < k < j && IsCreation(log[k], ApplyId(log[i].id.target))
    {
      NoApplyAfterDeleted(lib, log, i, j, log[i].id.target);
    }
    forall i, j | 0 <= i < j < |log| && Ends(log[i]) && (log[j].SentApply? || log[j].SentDelete? || Starts(log[j]))
      ensures exists k :: i < k < j && log[k] == TermStarted
    {
      NothingSentAfterDenial(lib, log, i, j);
    }
    forall i, j | && 0 <= i < |log| && 0 <= j < |log| && log[i].SentApply? && log[j].SentApply?
                  && log[i].id.target.managementCluster == log[j].id.target.managementCluster
                  && log[i].obj == log[j].obj
      ensures log[i].id.target == log[j].id.target
    {
      AppliesKeepApart(lib, log, i, j);
    }
  }

  function CountTicks(log: History, from: nat, end: nat): nat
    requires from <= end <= |log|
    decreases end
  {
    if from == end then 0 else CountTicks(log, from, end - 1) + (if log[end - 1] == TickStarted then 1 else 0)
  }

  lemma {:induction false} NoMarkerNoTick(log: History, from: nat, m: nat, end: nat)
    requires from <= m <= end && NoMarker(log, m, end)
    ensures CountTicks(log, from, end) == CountTicks(log, from, m)
    decreases end
  {
    if m < end {
      NoMarkerNoTick(log, from, m, end - 1);
    }
  }

  lemma OneTickMore(log: History, from: nat, m: nat, a: nat, p: nat, q: nat, end: nat)
    requires from <= m <= a < p < q < end <= |log|
    requires log[a] == TickStarted && log[p] == ApplyPassStarted && log[q] == DeletePassStarted
    requires NoMarker(log, m, a) && NoMarker(log, a + 1, p) && NoMarker(log, p + 1, q) && NoMarker(log, q + 1, end)
    ensures CountTicks(log, from, end) == CountTicks(log, from, m) + 1
  {
    NoMarkerNoTick(log, from, m, a);
    NoMarkerNoTick(log, from, a + 1, p);
    NoMarkerNoTick(log, from, p + 1, q);
    NoMarkerNoTick(log, from, q + 1, end);
  }

  /** Full rounds hold exactly that many ticks. */
  lemma {:induction false} RoundsCountTicks(
    lib: Library, managementCluster: Str, log: History, from: nat, to: nat, n: nat)
    requires Rounds(lib, managementCluster, log, from, to, n)
    ensures from <= to <= |log| && CountTicks(log, from, to) == n
    decreases n
  {
    if n == 0 {
      NoMarkerNoTick(log, from, from, to);
    } else {
      var m: nat, a: nat, p: nat, q: nat :| LastRound(lib, managementCluster, log, from, m, a, p, q, to, n);
      RoundsCountTicks(lib, managementCluster, log, from, m, n - 1);
      OneTickMore(log, from, m, a, p, q, to);
    }
  }

  /**
    * From moment `from` to moment `to` the leaders followed one another, each with exactly its number of full ticks
    * unless its context ended.
    */
  ghost predicate Terms(
    lib: Library, managementCluster: Str, log: History, from: nat, to: nat, terms: seq<nat>)
    decreases |terms|, 0
  {
    if terms == [] then from == to <= |log|
    else exists m: nat :: LastTerm(lib, managementCluster, log, from, m, to, terms)
  }

  /** The last of them began at moment `m`. */
  ghost predicate LastTerm(
    lib: Library, managementCluster: Str, log: History, from: nat, m: nat, to: nat, terms: seq<nat>)
    requires terms != []
    decreases |terms| - 1, 1
  {
    && from <= m < to <= |log| && Terms(lib, managementCluster, log, from, m, terms[..|terms| - 1])
    && log[m] == TermStarted && (forall i :: m < i < to ==> log[i] != TermStarted)
    && (EndedIn(log, m, to) || Rounds(lib, managementCluster, log, m + 1, to, terms[|terms| - 1]))
  }

  lemma {:induction false} TermsLater(
    lib: Library, managementCluster: Str, log: History, log': History, from: nat, to: nat, terms: seq<nat>)
    requires Terms(lib, managementCluster, log, from, to, terms) && log <= log' && to <= |log|
    ensures Terms(lib, managementCluster, log', from, to, terms)
    decreases |terms|
  {
    if terms != [] {
      var m: nat :| LastTerm(lib, managementCluster, log, from, m, to, terms);
      TermsLater(lib, managementCluster, log, log', from, m, terms[..|terms| - 1]);
      assert forall i :: 0 <= i < |log| ==> log'[i] == log[i];
      if EndedIn(log, m, to) {
        assert EndedIn(log', m, to);
      } else {
        RoundsLater(lib, managementCluster, log, log', m + 1, to, to, terms[|terms| - 1]);
      }
      assert LastTerm(lib, managementCluster, log', from, m, to, terms);
    }
  }

  lemma OneMoreTerm(lib: Library, managementCluster: Str, log: History, log': History, terms: seq<nat>, ticks: nat)
    requires Terms(lib, managementCluster, log, 0, |log|, terms)
    requires log + [TermStarted] <= log' && SameTerm(log + [TermStarted], log')
    requires || EndedIn(log', |log|, |log'|)
             || Rounds(lib, managementCluster, log', |log| + 1, |log'|, ticks)
    ensures Terms(lib, managementCluster, log', 0, |log'|, terms + [ticks])
  {
    var all := terms + [ticks];
    assert all[..|all| - 1] == terms && (log + [TermStarted])[|log|] == TermStarted;
    assert log <= log + [TermStarted];
    TermsLater(lib, managementCluster, log, log', 0, |log|, terms);
    assert LastTerm(lib, managementCluster, log', 0, |log|, |log'|, all);
  }

  /**
    * The serial loop under any succession of leaders from an empty store, each for any number of ticks, whatever
    * adapters, cluster and Lease do meanwhile: what it does, and what it never does.
    */
  method SerialRun(lib: Library, managementCluster: Str, terms: seq<nat>) returns (w: World)
    ensures LogGood(lib, w.log) && w.items == StoreOf(lib, w.log) && Consistent(lib, w.items)
    ensures Terms(lib, managementCluster, w.log, 0, |w.log|, terms)
    ensures AppliesStayQuiet(w.log) && EndIsFinal(w.log) && AppliesComeFirst(w.log) && AppliesAreApart(w.log)
    ensures forall id :: UpToDate(w.items, w.log, id) ==> exists k: nat :: LastWord(lib, w.items[id], w.log, k, id)
  {
    w := new World(lib, managementCluster);
    for i := 0 to |terms|
      invariant w.lib == lib && w.managementCluster == managementCluster && w.Valid() && fresh(w)
      invariant Terms(lib, managementCluster, w.log, 0, |w.log|, terms[..i])
    {
      ghost var before := w.log;
      Lead(w, terms[i]);
      OneMoreTerm(lib, managementCluster, before, w.log, terms[..i], terms[i]);
      assert terms[..i] + [terms[i]] == terms[..i + 1];
    }
    assert terms[..|terms|] == terms;
    RunKeepsPromises(w);
  }

  /** What every valid world promises. */
  lemma RunKeepsPromises(w: World)
    requires w.Valid()
    ensures LogGood(w.lib, w.log) && w.items == StoreOf(w.lib, w.log) && Consistent(w.lib, w.items)
    ensures AppliesStayQuiet(w.log) && EndIsFinal(w.log) && AppliesComeFirst(w.log) && AppliesAreApart(w.log)
    ensures forall id :: UpToDate(w.items, w.log, id) ==> exists k: nat :: LastWord(w.lib, w.items[id], w.log, k, id)
  {
    w.Open();
    w.ReplayHere();
    GoodLogKeepsPromises(w.lib, w.log);
    forall id | UpToDate(w.items, w.log, id)
      ensures exists k: nat :: LastWord(w.lib, w.items[id], w.log, k, id)
    {
      UpToDateWasAccepted(w.lib, w.items, w.log, w.cancelled, id);
    }
  }
}
