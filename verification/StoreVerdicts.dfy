/**
  * What the store answers to each call on a reachable store, in terms of all records of the target: which calls are
  * accepted, and which error a refused one gets.
  */
module StoreVerdicts {
  import opened Desire
  import opened MemoryStore
  import opened StoreHistory

  /** Every record the target has is the owner's. */
  ghost predicate OwnedBy(items: Items, t: Target, owner: string) {
    forall id :: id in items && id.target == t ==> items[id].owner == owner
  }

  /** The first condition of type Successful says that the object was deleted. */
  ghost predicate ReportsDeleted(s: Status) {
    exists i :: && 0 <= i < |s.conditions| && s.conditions[i].ty == Successful
                && s.conditions[i].status == True && s.conditions[i].reason == Deleted
                && forall k :: 0 <= k < i ==> s.conditions[k].ty != Successful
  }

  lemma {:induction false} FindIsFirst(cs: seq<Condition>, ty: ConditionType, i: nat)
    requires i < |cs| && cs[i].ty == ty && forall k :: 0 <= k < i ==> cs[k].ty != ty
    ensures FindCondition(cs, ty) == Some(cs[i])
  {
    if i > 0 {
      FindIsFirst(cs[1..], ty, i - 1);
    }
  }

  lemma {:induction false} FoundHasFirst(cs: seq<Condition>, ty: ConditionType) returns (i: nat)
    requires FindCondition(cs, ty).Some?
    ensures i < |cs| && cs[i] == FindCondition(cs, ty).value && forall k :: 0 <= k < i ==> cs[k].ty != ty
  {
    if cs[0].ty == ty {
      i := 0;
    } else {
      var j := FoundHasFirst(cs[1..], ty);
      i := j + 1;
      assert forall k :: 0 < k < i ==> cs[k] == cs[1..][k - 1];
    }
  }

  lemma IsDeletedExactlyWhen(s: Status)
    ensures IsDeleted(s) <==> ReportsDeleted(s)
  {
    if IsDeleted(s) {
      var i := FoundHasFirst(s.conditions, Successful);
    }
    if ReportsDeleted(s) {
      var i: nat :| && i < |s.conditions| && s.conditions[i].ty == Successful
                    && s.conditions[i].status == True && s.conditions[i].reason == Deleted
                    && forall k :: 0 <= k < i ==> s.conditions[k].ty != Successful;
      FindIsFirst(s.conditions, Successful, i);
    }
  }

  /** The owner check of a create, which reads one sibling, speaks for every record of the target. */
  lemma OwnerCheckSpeaksForAll(lib: Library, items: Items, id: Identity, owner: string)
    requires Consistent(lib, items)
    ensures OwnerAllows(items, id, owner) <==> OwnedBy(items, id.target, owner)
  {
    if OwnerAllows(items, id, owner) {
      OwnerJoins(lib, items, id, owner);
    } else {
      var ty :| ty in ALL_TYPES && Sibling(id, ty) in items && items[Sibling(id, ty)].owner != owner;
      assert Sibling(id, ty).target == id.target;
    }
  }

  /**
    * An apply is created exactly when it is valid, every record of its target is the owner's, and none stands in its
    * way.
    */
  lemma CreateApplyVerdict(lib: Library, items: Items, d: ApplyDesire)
    requires Consistent(lib, items)
    ensures
      var reply := Step(lib, items, CreateApply(d)).1;
      var t := d.identity.target;
      var valid := && d.identity.ty == TypeApply && lib.validIdentity(d.identity) && |d.owner| > 0
                   && |d.spec.kubeContent| > 0 && lib.decode(d.spec.kubeContent).Some?;
      var pending := Identity(t, TypeDelete) in items && !ReportsDeleted(items[Identity(t, TypeDelete)].status);
      && (reply == Failed(ErrInvalid) <==> !valid)
      && (reply == Failed(ErrOwnerConflict) <==> valid && !OwnedBy(items, t, d.owner))
      && (reply == Failed(ErrDeletePending) <==> valid && OwnedBy(items, t, d.owner) && pending)
      && (reply == Failed(ErrAlreadyExists) <==> valid && OwnedBy(items, t, d.owner) && Identity(t, TypeApply) in items)
      && (!reply.Failed? <==>
            valid && OwnedBy(items, t, d.owner) && !pending && Identity(t, TypeApply) !in items)
  {
    var t := d.identity.target;
    OwnerCheckSpeaksForAll(lib, items, d.identity, d.owner);
    assert Agreeing(items, t);
    if Identity(t, TypeDelete) in items {
      IsDeletedExactlyWhen(items[Identity(t, TypeDelete)].status);
      NeverBeside(lib, items, t);
    }
    assert Sibling(d.identity, TypeDelete) == Identity(t, TypeDelete);
  }

  lemma NeverBeside(lib: Library, items: Items, t: Target)
    requires Consistent(lib, items) && Identity(t, TypeDelete) in items
    ensures Identity(t, TypeApply) !in items
  {
    assert Agreeing(items, t);
  }

  /**
    * A delete is created exactly when it is valid, every record of its target is the owner's, and there is no delete.
    */
  lemma CreateDeleteVerdict(lib: Library, items: Items, d: DeleteDesire)
    requires Consistent(lib, items)
    ensures
      var reply := Step(lib, items, CreateDelete(d)).1;
      var t := d.identity.target;
      var valid := d.identity.ty == TypeDelete && lib.validIdentity(d.identity) && |d.owner| > 0;
      && (reply == Failed(ErrInvalid) <==> !valid)
      && (reply == Failed(ErrOwnerConflict) <==> valid && !OwnedBy(items, t, d.owner))
      && (reply == Failed(ErrAlreadyExists) <==>
            valid && OwnedBy(items, t, d.owner) && Identity(t, TypeDelete) in items)
      && (!reply.Failed? <==> valid && OwnedBy(items, t, d.owner) && Identity(t, TypeDelete) !in items)
      && (!reply.Failed? ==> Identity(t, TypeApply) !in Step(lib, items, CreateDelete(d)).0)
  {
    OwnerCheckSpeaksForAll(lib, items, d.identity, d.owner);
  }

  /** A read is created exactly when it is valid, every record of its target is the owner's, and there is no read. */
  lemma CreateReadVerdict(lib: Library, items: Items, d: ReadDesire)
    requires Consistent(lib, items)
    ensures
      var reply := Step(lib, items, CreateRead(d)).1;
      var t := d.identity.target;
      var valid := && d.identity.ty == TypeRead && lib.validIdentity(d.identity) && |d.owner| > 0
                   && |d.targetVersion| > 0;
      && (reply == Failed(ErrInvalid) <==> !valid)
      && (reply == Failed(ErrOwnerConflict) <==> valid && !OwnedBy(items, t, d.owner))
      && (reply == Failed(ErrAlreadyExists) <==> valid && OwnedBy(items, t, d.owner) && Identity(t, TypeRead) in items)
      && (!reply.Failed? <==> valid && OwnedBy(items, t, d.owner) && Identity(t, TypeRead) !in items)
  {
    OwnerCheckSpeaksForAll(lib, items, d.identity, d.owner);
  }

  /** The type of desire a compare-and-swap is for. */
  function SwapType(op: Op): DesireType
    requires CasToken(op).Some?
  {
    match op
    case UpdateDeleteStatus(_, _, _) => TypeDelete
    case RemoveDelete(_, _, _) => TypeDelete
    case RemoveRead(_, _, _) => TypeRead
    case _ => TypeApply
  }

  /**
    * A compare-and-swap is accepted exactly when there is a record of its type with that version, the call names its
    * owner if it names one, and a new spec is valid. A version conflict comes before an owner conflict.
    */
  lemma SwapVerdict(lib: Library, items: Items, op: Op)
    requires Consistent(lib, items) && CasToken(op).Some?
    ensures
      var reply, id, version := Step(lib, items, op).1, CasToken(op).value.0, CasToken(op).value.1;
      var valid := op.UpdateApplySpec? ==>
                     |op.spec.kubeContent| > 0 && lib.decode(op.spec.kubeContent).Some?;
      var present := id in items && id.ty == SwapType(op);
      var mine := ActsAs(op).Some? && id in items ==> items[id].owner == ActsAs(op).value.1;
      && (reply == Failed(ErrInvalid) <==> id.ty == SwapType(op) && !valid)
      && (reply == Failed(ErrNotFound) <==> !present && (valid || id.ty != SwapType(op)))
      && (reply == Failed(ErrVersionConflict) <==> valid && present && items[id].version != version)
      && (reply == Failed(ErrOwnerConflict) <==> valid && present && items[id].version == version && !mine)
      && (!reply.Failed? <==> valid && present && items[id].version == version && mine)
  {
    var id := CasToken(op).value.0;
    assert id in items ==> WellFormed(lib, id, items[id]);
  }
}
