/**
  * The in-memory store. Every call holds the mutex for its whole body, so one call is one step of `Step`, a function
  * from the map and the call to the new map and the reply; `Store` is the imperative code.
  */
module MemoryStore {
  import opened Desire

  type Items = map<Identity, Record>

  datatype Op =
    | CreateApply(apply: ApplyDesire)
    | CreateDelete(delete: DeleteDesire)
    | CreateRead(read: ReadDesire)
    | UpdateApplySpec(id: Identity, spec: ApplySpec, owner: string, version: int)
    | UpdateApplyStatus(id: Identity, status: Status, version: int)
    | UpdateDeleteStatus(id: Identity, status: Status, version: int)
    | UpdateReadStatus(id: Identity, readStatus: ReadStatus)
    | RemoveApply(id: Identity, owner: string, version: int)
    | RemoveDelete(id: Identity, owner: string, version: int)
    | RemoveRead(id: Identity, owner: string, version: int)
    | GetApply(id: Identity)
    | GetDelete(id: Identity)
    | GetRead(id: Identity)
    | DeleteByPrefix(managementCluster: Str, sel: PrefixSelector)
    | RemoveMatching(id: Identity, sel: PrefixSelector)  // one key's share of a Redis DeleteByPrefix

  datatype Reply =
    | ApplyReply(apply: ApplyDesire)
    | DeleteReply(delete: DeleteDesire)
    | ReadReply(read: ReadDesire)
    | Done
    | Failed(error: Error)

  function ProjectApply(rec: Record): ApplyDesire
    requires rec.apply.Some?
  {
    ApplyDesire(rec.identity, rec.owner, rec.originId, rec.apply.value, rec.status, rec.generation, rec.version)
  }

  function ProjectDelete(rec: Record): DeleteDesire {
    DeleteDesire(rec.identity, rec.owner, rec.originId, rec.status, rec.generation, rec.version)
  }

  function ProjectRead(rec: Record): ReadDesire {
    ReadDesire(rec.identity, rec.owner, rec.originId, rec.targetVersion, rec.readStatus, rec.generation, rec.version)
  }

  const NO_READ_STATUS := ReadStatus(NO_STATUS, "")

  function NewApply(d: ApplyDesire): Record {
    Record(Some(d.spec), d.identity, d.originId, d.owner, "", NO_READ_STATUS, NO_STATUS, INITIAL_GENERATION, 1)
  }

  function NewDelete(d: DeleteDesire): Record {
    Record(None, d.identity, d.originId, d.owner, "", NO_READ_STATUS, NO_STATUS, INITIAL_GENERATION, 1)
  }

  function NewRead(d: ReadDesire): Record {
    Record(None, d.identity, d.originId, d.owner, d.targetVersion, NO_READ_STATUS, NO_STATUS, INITIAL_GENERATION, 1)
  }

  function Lookup(items: Items, id: Identity): Option<Record> {
    if id in items then Some(items[id]) else None
  }

  function Sibling(id: Identity, ty: DesireType): Identity { id.(ty := ty) }

  /** The owner of the first sibling present, in the order apply, delete, read. */
  function TargetOwner(items: Items, id: Identity): Option<string> {
    if Sibling(id, TypeApply) in items then Some(items[Sibling(id, TypeApply)].owner)
    else if Sibling(id, TypeDelete) in items then Some(items[Sibling(id, TypeDelete)].owner)
    else if Sibling(id, TypeRead) in items then Some(items[Sibling(id, TypeRead)].owner)
    else None
  }

  predicate OwnerAllows(items: Items, id: Identity, owner: string) {
    TargetOwner(items, id).None? || TargetOwner(items, id).value == owner
  }

  /** The record an accepted spec update leaves: the generation moves only with the JSON value, the version always. */
  function WithSpec(lib: Library, rec: Record, spec: ApplySpec): Record
    requires rec.apply.Some?
  {
    rec.(generation := if SpecEqual(lib, rec.apply.value, spec) then rec.generation else rec.generation + 1,
         apply := Some(spec),
         version := rec.version + 1)
  }

  function WithStatus(rec: Record, status: Status): Record {
    rec.(status := status, version := rec.version + 1)
  }

  function StepCreateApply(lib: Library, items: Items, d: ApplyDesire): (Items, Reply) {
    var id := d.identity;
    var deleteId := Sibling(id, TypeDelete);
    if !ValidApply(lib, d) then (items, Failed(ErrInvalid))
    else if !OwnerAllows(items, id, d.owner) then (items, Failed(ErrOwnerConflict))
    else if deleteId in items && !IsDeleted(items[deleteId].status) then (items, Failed(ErrDeletePending))
    else
      var items' := items - {deleteId};
      if id in items' then (items', Failed(ErrAlreadyExists))
      else (items'[id := NewApply(d)], ApplyReply(ProjectApply(NewApply(d))))
  }

  function StepCreateDelete(lib: Library, items: Items, d: DeleteDesire): (Items, Reply) {
    var id := d.identity;
    if !ValidDelete(lib, d) then (items, Failed(ErrInvalid))
    else if !OwnerAllows(items, id, d.owner) then (items, Failed(ErrOwnerConflict))
    else if id in items then (items, Failed(ErrAlreadyExists))
    else ((items - {Sibling(id, TypeApply)})[id := NewDelete(d)], DeleteReply(ProjectDelete(NewDelete(d))))
  }

  function StepCreateRead(lib: Library, items: Items, d: ReadDesire): (Items, Reply) {
    var id := d.identity;
    if !ValidRead(lib, d) then (items, Failed(ErrInvalid))
    else if !OwnerAllows(items, id, d.owner) then (items, Failed(ErrOwnerConflict))
    else if id in items then (items, Failed(ErrAlreadyExists))
    else (items[id := NewRead(d)], ReadReply(ProjectRead(NewRead(d))))
  }

  function StepUpdateApplySpec(
    lib: Library, items: Items, id: Identity, spec: ApplySpec, owner: string, version: int
  ): (Items, Reply) {
    if id.ty != TypeApply then (items, Failed(ErrNotFound))
    else if !ValidSpec(lib, spec) then (items, Failed(ErrInvalid))
    else if id !in items || items[id].apply.None? then (items, Failed(ErrNotFound))
    else if items[id].version != version then (items, Failed(ErrVersionConflict))
    else if items[id].owner != owner then (items, Failed(ErrOwnerConflict))
    else
      var rec := WithSpec(lib, items[id], spec);
      (items[id := rec], ApplyReply(ProjectApply(rec)))
  }

  function StepUpdateApplyStatus(items: Items, id: Identity, status: Status, version: int): (Items, Reply) {
    if id.ty != TypeApply || id !in items || items[id].apply.None? then (items, Failed(ErrNotFound))
    else if items[id].version != version then (items, Failed(ErrVersionConflict))
    else
      var rec := WithStatus(items[id], status);
      (items[id := rec], ApplyReply(ProjectApply(rec)))
  }

  function StepUpdateDeleteStatus(items: Items, id: Identity, status: Status, version: int): (Items, Reply) {
    if id.ty != TypeDelete || id !in items then (items, Failed(ErrNotFound))
    else if items[id].version != version then (items, Failed(ErrVersionConflict))
    else
      var rec := WithStatus(items[id], status);
      (items[id := rec], DeleteReply(ProjectDelete(rec)))
  }

  function StepUpdateReadStatus(items: Items, id: Identity, readStatus: ReadStatus): (Items, Reply) {
    if id.ty != TypeRead || id !in items then (items, Failed(ErrNotFound))
    else
      var rec := items[id].(readStatus := readStatus);
      (items[id := rec], ReadReply(ProjectRead(rec)))
  }

  /** Removal of a desire of type `ty`, with the version and owner checks all three types share. */
  function StepRemove(items: Items, ty: DesireType, id: Identity, owner: string, version: int): (Items, Reply) {
    if id.ty != ty || id !in items || (ty == TypeApply && items[id].apply.None?) then (items, Failed(ErrNotFound))
    else if items[id].version != version then (items, Failed(ErrVersionConflict))
    else if items[id].owner != owner then (items, Failed(ErrOwnerConflict))
    else (items - {id}, Done)
  }

  function StepGet(items: Items, op: Op): Reply
    requires op.GetApply? || op.GetDelete? || op.GetRead?
  {
    var id := op.id;
    if id !in items then Failed(ErrNotFound)
    else if op.GetApply? && id.ty == TypeApply && items[id].apply.Some? then ApplyReply(ProjectApply(items[id]))
    else if op.GetDelete? && id.ty == TypeDelete then DeleteReply(ProjectDelete(items[id]))
    else if op.GetRead? && id.ty == TypeRead then ReadReply(ProjectRead(items[id]))
    else Failed(ErrNotFound)
  }

  /** The record is stored, and a listing of this cluster and type must return it. */
  predicate Belongs(items: Items, managementCluster: Str, ty: DesireType, rec: Record) {
    && rec.identity in items && items[rec.identity] == rec
    && rec.identity.target.managementCluster == managementCluster && rec.identity.ty == ty
  }

  predicate Selected(id: Identity, managementCluster: Str, sel: PrefixSelector) {
    id.target.managementCluster == managementCluster && Matches(sel, id)
  }

  function WithoutSelected(items: Items, managementCluster: Str, sel: PrefixSelector): Items {
    map id | id in items && !Selected(id, managementCluster, sel) :: items[id]
  }

  /** Exactly the records the selector picks are gone; the others stand. */
  ghost predicate Purged(items: Items, items': Items, managementCluster: Str, sel: PrefixSelector) {
    && (forall id :: id in items' ==> id in items && items'[id] == items[id])
    && forall id :: id in items ==> (id !in items' <==> Picks(managementCluster, sel, id))
  }

  lemma WithoutSelectedPurges(items: Items, managementCluster: Str, sel: PrefixSelector)
    ensures Purged(items, WithoutSelected(items, managementCluster, sel), managementCluster, sel)
  {
    forall id | id in items
      ensures id !in WithoutSelected(items, managementCluster, sel) <==> Picks(managementCluster, sel, id)
    {
      MatchesExactlyPicked(managementCluster, sel, id);
    }
  }

  function Step(lib: Library, items: Items, op: Op): (Items, Reply) {
    match op
    case CreateApply(d) => StepCreateApply(lib, items, d)
    case CreateDelete(d) => StepCreateDelete(lib, items, d)
    case CreateRead(d) => StepCreateRead(lib, items, d)
    case UpdateApplySpec(id, spec, owner, version) => StepUpdateApplySpec(lib, items, id, spec, owner, version)
    case UpdateApplyStatus(id, status, version) => StepUpdateApplyStatus(items, id, status, version)
    case UpdateDeleteStatus(id, status, version) => StepUpdateDeleteStatus(items, id, status, version)
    case UpdateReadStatus(id, readStatus) => StepUpdateReadStatus(items, id, readStatus)
    case RemoveApply(id, owner, version) => StepRemove(items, TypeApply, id, owner, version)
    case RemoveDelete(id, owner, version) => StepRemove(items, TypeDelete, id, owner, version)
    case RemoveRead(id, owner, version) => StepRemove(items, TypeRead, id, owner, version)
    case GetApply(_) => (items, StepGet(items, op))
    case GetDelete(_) => (items, StepGet(items, op))
    case GetRead(_) => (items, StepGet(items, op))
    case DeleteByPrefix(mc, sel) => (WithoutSelected(items, mc, sel), Done)
    case RemoveMatching(id, sel) => (if Matches(sel, id) then items - {id} else items, Done)
  }

  // ---------------------------------------------------------------- invariant

  /** What every stored record says about itself. */
  ghost predicate WellFormed(lib: Library, id: Identity, rec: Record) {
    && rec.identity == id
    && id.ty in ALL_TYPES
    && (rec.apply.Some? <==> id.ty == TypeApply)
    && (rec.apply.Some? ==> ValidSpec(lib, rec.apply.value))
    && 1 <= rec.generation <= rec.version
    && (id.ty != TypeApply ==> rec.generation == 1)
    && (id.ty == TypeRead ==> rec.version == 1)
  }

  /** Two records of one target have one owner, and are not an apply and a delete. */
  ghost predicate Coexist(a: Record, b: Record) {
    a.owner == b.owner && !(a.identity.ty == TypeApply && b.identity.ty == TypeDelete)
  }

  ghost predicate Consistent(lib: Library, items: Items) {
    && (forall id :: id in items ==> WellFormed(lib, id, items[id]))
    && (forall t :: Agreeing(items, t))
  }

  /** All records of a target coexist. */
  ghost predicate Agreeing(items: Items, t: Target) {
    forall a, b :: a in items && b in items && a.target == t && b.target == t ==> Coexist(items[a], items[b])
  }

  /** In a consistent store the owner the create check reads is the owner of every sibling. */
  lemma OwnerIsShared(lib: Library, items: Items, id: Identity)
    requires Consistent(lib, items) && id in items
    ensures TargetOwner(items, id) == Some(items[id].owner)
  {
    assert Agreeing(items, id.target);
    assert forall ty :: Sibling(id, ty) in items ==> Coexist(items[Sibling(id, ty)], items[id]);
    assert id == Sibling(id, id.ty) && WellFormed(lib, id, items[id]);
  }

  /** Replacing one record by another that agrees with its siblings keeps the store consistent. */
  lemma PutKeepsConsistent(lib: Library, items: Items, id: Identity, rec: Record)
    requires Consistent(lib, items)
    requires WellFormed(lib, id, rec)
    requires forall b :: b in items && b != id && b.target == id.target ==>
               Coexist(rec, items[b]) && Coexist(items[b], rec)
    ensures Consistent(lib, items[id := rec])
  {
    var items' := items[id := rec];
    forall t
      ensures Agreeing(items', t)
    {
      assert Agreeing(items, t);
    }
  }

  /** The owner check lets a new record join the records of its target. */
  lemma OwnerJoins(lib: Library, items: Items, id: Identity, owner: string)
    requires Consistent(lib, items) && OwnerAllows(items, id, owner)
    ensures forall b :: b in items && b.target == id.target ==> items[b].owner == owner && items[b].identity == b
  {
    forall b | b in items && b.target == id.target
      ensures items[b].owner == owner && items[b].identity == b
    {
      OwnerIsShared(lib, items, b);
      assert WellFormed(lib, b, items[b]);
      assert forall ty :: Sibling(id, ty) == Sibling(b, ty);
    }
  }

  lemma CreateApplyKeeps(lib: Library, items: Items, d: ApplyDesire)
    requires Consistent(lib, items) && !StepCreateApply(lib, items, d).1.Failed?
    ensures Consistent(lib, StepCreateApply(lib, items, d).0)
  {
    var rest := items - {Sibling(d.identity, TypeDelete)};
    OwnerJoins(lib, items, d.identity, d.owner);
    RemovalKeepsConsistent(lib, items, rest);
    PutKeepsConsistent(lib, rest, d.identity, NewApply(d));
  }

  lemma CreateDeleteKeeps(lib: Library, items: Items, d: DeleteDesire)
    requires Consistent(lib, items) && !StepCreateDelete(lib, items, d).1.Failed?
    ensures Consistent(lib, StepCreateDelete(lib, items, d).0)
  {
    var rest := items - {Sibling(d.identity, TypeApply)};
    OwnerJoins(lib, items, d.identity, d.owner);
    RemovalKeepsConsistent(lib, items, rest);
    PutKeepsConsistent(lib, rest, d.identity, NewDelete(d));
  }

  lemma CreateReadKeeps(lib: Library, items: Items, d: ReadDesire)
    requires Consistent(lib, items) && !StepCreateRead(lib, items, d).1.Failed?
    ensures Consistent(lib, StepCreateRead(lib, items, d).0)
  {
    OwnerJoins(lib, items, d.identity, d.owner);
    PutKeepsConsistent(lib, items, d.identity, NewRead(d));
  }

  lemma CreateKeepsConsistent(lib: Library, items: Items, op: Op)
    requires Consistent(lib, items)
    requires op.CreateApply? || op.CreateDelete? || op.CreateRead?
    ensures Consistent(lib, Step(lib, items, op).0)
  {
    if Step(lib, items, op).1.Failed? {
      FailureChangesNothing(lib, items, op);
    } else if op.CreateApply? {
      CreateApplyKeeps(lib, items, op.apply);
    } else if op.CreateDelete? {
      CreateDeleteKeeps(lib, items, op.delete);
    } else {
      CreateReadKeeps(lib, items, op.read);
    }
  }

  /** Every call keeps the store consistent, whatever it is given and whatever it replies. */
  lemma StepKeepsConsistent(lib: Library, items: Items, op: Op)
    requires Consistent(lib, items)
    ensures Consistent(lib, Step(lib, items, op).0)
  {
    if op.CreateApply? || op.CreateDelete? || op.CreateRead? {
      CreateKeepsConsistent(lib, items, op);
    } else if op.UpdateApplySpec? || op.UpdateApplyStatus? || op.UpdateDeleteStatus? || op.UpdateReadStatus? {
      UpdateKeepsConsistent(lib, items, op);
    } else {
      RemovalKeepsConsistent(lib, items, Step(lib, items, op).0);
    }
  }

  lemma UpdateKeepsConsistent(lib: Library, items: Items, op: Op)
    requires Consistent(lib, items)
    requires op.UpdateApplySpec? || op.UpdateApplyStatus? || op.UpdateDeleteStatus? || op.UpdateReadStatus?
    ensures Consistent(lib, Step(lib, items, op).0)
  {
    var (items', reply) := Step(lib, items, op);
    if !reply.Failed? {
      assert WellFormed(lib, op.id, items[op.id]);
      assert Agreeing(items, op.id.target);
      assert forall b :: b in items && b.target == op.id.target ==>
                           Coexist(items[op.id], items[b]) && Coexist(items[b], items[op.id]);
      PutKeepsConsistent(lib, items, op.id, items'[op.id]);
    }
  }

  lemma RemovalKeepsConsistent(lib: Library, items: Items, items': Items)
    requires Consistent(lib, items)
    requires forall id :: id in items' ==> id in items && items'[id] == items[id]
    ensures Consistent(lib, items')
  {
    forall t
      ensures Agreeing(items', t)
    {
      assert Agreeing(items, t);
    }
  }

  // ------------------------------------------------- errors leave the store alone

  /** In a consistent store a call that returns an error changes nothing. */
  lemma FailureChangesNothing(lib: Library, items: Items, op: Op)
    requires Consistent(lib, items)
    requires Step(lib, items, op).1.Failed?
    ensures Step(lib, items, op).0 == items
  {
    FailureChangesExactlyWhen(lib, items, op);
    if op.CreateApply? && op.apply.identity in items && Sibling(op.apply.identity, TypeDelete) in items {
      assert WellFormed(lib, op.apply.identity, items[op.apply.identity]);
      assert Agreeing(items, op.apply.identity.target);
      assert Coexist(items[op.apply.identity], items[Sibling(op.apply.identity, TypeDelete)]);
    }
  }

  /**
    * Without the invariant the claim is false for CreateApplyDesire alone: it loses the confirmed delete exactly when
    * that delete coexists with an apply, because the delete is retired before the already-exists check.
    */
  lemma FailureChangesExactlyWhen(lib: Library, items: Items, op: Op)
    ensures Step(lib, items, op).1.Failed? && Step(lib, items, op).0 != items <==>
              && op.CreateApply? && ValidApply(lib, op.apply)
              && op.apply.identity in items
              && items[op.apply.identity].owner == op.apply.owner
              && Sibling(op.apply.identity, TypeDelete) in items
              && IsDeleted(items[Sibling(op.apply.identity, TypeDelete)].status)
  {
    if op.CreateApply? {
      var deleteId := Sibling(op.apply.identity, TypeDelete);
      assert deleteId in items ==> items - {deleteId} != items;
      assert deleteId !in items ==> items - {deleteId} == items;
      assert ValidApply(lib, op.apply) ==> Sibling(op.apply.identity, TypeApply) == op.apply.identity;
    }
  }

  // ---------------------------------------------------------------- the code

  class Store {
    const lib: Library
    var items: Items

    constructor (lib: Library)
      ensures this.lib == lib && items == map[]
    {
      this.lib := lib;
      items := map[];
    }

    method FindTargetOwner(id: Identity) returns (r: Option<string>)
      ensures r == TargetOwner(items, id)
    {
      for i := 0 to |ALL_TYPES|
        invariant i > 0 ==> Sibling(id, TypeApply) !in items
        invariant i > 1 ==> Sibling(id, TypeDelete) !in items
        invariant i > 2 ==> Sibling(id, TypeRead) !in items
      {
        var sib := id.(ty := ALL_TYPES[i]);
        if sib in items {
          return Some(items[sib].owner);
        }
      }
      return None;
    }

    method CheckTargetOwner(id: Identity, attempted: string) returns (ok: bool)
      ensures ok == OwnerAllows(items, id, attempted)
    {
      var owner := FindTargetOwner(id);
      ok := owner.None? || owner.value == attempted;
    }

    method CreateApplyDesire(d: ApplyDesire) returns (r: Reply)
      modifies this
      ensures (items, r) == Step(lib, old(items), CreateApply(d))
    {
      if !ValidApply(lib, d) { return Failed(ErrInvalid); }
      var id := d.identity;
      var allowed := CheckTargetOwner(id, d.owner);
      if !allowed { return Failed(ErrOwnerConflict); }
      var deleteId := id.(ty := TypeDelete);
      assert deleteId !in items ==> items - {deleteId} == items;
      if deleteId in items {
        if !IsDeleted(items[deleteId].status) { return Failed(ErrDeletePending); }
        items := items - {deleteId};
      }
      if id in items { return Failed(ErrAlreadyExists); }
      var rec := NewApply(d);
      items := items[id := rec];
      return ApplyReply(ProjectApply(rec));
    }

    method UpdateApplyDesireSpec(id: Identity, spec: ApplySpec, owner: string, version: int) returns (r: Reply)
      modifies this
      ensures (items, r) == Step(lib, old(items), UpdateApplySpec(id, spec, owner, version))
    {
      if id.ty != TypeApply { return Failed(ErrNotFound); }
      if !ValidSpec(lib, spec) { return Failed(ErrInvalid); }
      if id !in items || items[id].apply.None? { return Failed(ErrNotFound); }
      var rec := items[id];
      if rec.version != version { return Failed(ErrVersionConflict); }
      if rec.owner != owner { return Failed(ErrOwnerConflict); }
      if !SpecEqual(lib, rec.apply.value, spec) {
        rec := rec.(generation := rec.generation + 1);
      }
      rec := rec.(apply := Some(spec));
      rec := rec.(version := rec.version + 1);
      items := items[id := rec];
      return ApplyReply(ProjectApply(rec));
    }

    method CreateDeleteDesire(d: DeleteDesire) returns (r: Reply)
      modifies this
      ensures (items, r) == Step(lib, old(items), CreateDelete(d))
    {
      if !ValidDelete(lib, d) { return Failed(ErrInvalid); }
      var id := d.identity;
      var allowed := CheckTargetOwner(id, d.owner);
      if !allowed { return Failed(ErrOwnerConflict); }
      if id in items { return Failed(ErrAlreadyExists); }
      items := items - {id.(ty := TypeApply)};
      var rec := NewDelete(d);
      items := items[id := rec];
      return DeleteReply(ProjectDelete(rec));
    }

    method CreateReadDesire(d: ReadDesire) returns (r: Reply)
      modifies this
      ensures (items, r) == Step(lib, old(items), CreateRead(d))
    {
      if !ValidRead(lib, d) { return Failed(ErrInvalid); }
      var id := d.identity;
      var allowed := CheckTargetOwner(id, d.owner);
      if !allowed { return Failed(ErrOwnerConflict); }
      if id in items { return Failed(ErrAlreadyExists); }
      var rec := NewRead(d);
      items := items[id := rec];
      return ReadReply(ProjectRead(rec));
    }

    method UpdateApplyDesireStatus(id: Identity, status: Status, version: int) returns (r: Reply)
      modifies this
      ensures (items, r) == Step(lib, old(items), UpdateApplyStatus(id, status, version))
    {
      if id.ty != TypeApply { return Failed(ErrNotFound); }
      if id !in items || items[id].apply.None? { return Failed(ErrNotFound); }
      var rec := items[id];
      if rec.version != version { return Failed(ErrVersionConflict); }
      rec := rec.(status := status);
      rec := rec.(version := rec.version + 1);
      items := items[id := rec];
      return ApplyReply(ProjectApply(rec));
    }

    method UpdateDeleteDesireStatus(id: Identity, status: Status, version: int) returns (r: Reply)
      modifies this
      ensures (items, r) == Step(lib, old(items), UpdateDeleteStatus(id, status, version))
    {
      if id.ty != TypeDelete { return Failed(ErrNotFound); }
      if id !in items { return Failed(ErrNotFound); }
      var rec := items[id];
      if rec.version != version { return Failed(ErrVersionConflict); }
      rec := rec.(status := status);
      rec := rec.(version := rec.version + 1);
      items := items[id := rec];
      return DeleteReply(ProjectDelete(rec));
    }

    method UpdateReadDesireStatus(id: Identity, status: ReadStatus) returns (r: Reply)
      modifies this
      ensures (items, r) == Step(lib, old(items), UpdateReadStatus(id, status))
    {
      if id.ty != TypeRead { return Failed(ErrNotFound); }
      if id !in items { return Failed(ErrNotFound); }
      var rec := items[id].(readStatus := status);
      items := items[id := rec];
      return ReadReply(ProjectRead(rec));
    }

    method DeleteApplyDesire(id: Identity, owner: string, version: int) returns (r: Reply)
      modifies this
      ensures (items, r) == Step(lib, old(items), RemoveApply(id, owner, version))
    {
      if id.ty != TypeApply { return Failed(ErrNotFound); }
      if id !in items || items[id].apply.None? { return Failed(ErrNotFound); }
      if items[id].version != version { return Failed(ErrVersionConflict); }
      if items[id].owner != owner { return Failed(ErrOwnerConflict); }
      items := items - {id};
      return Done;
    }

    /** DeleteDeleteDesire (`ty` delete) and DeleteReadDesire (`ty` read), whose bodies differ only in the type. */
    method DeleteDesireOfType(ty: DesireType, id: Identity, owner: string, version: int) returns (r: Reply)
      requires ty == TypeDelete || ty == TypeRead
      modifies this
      ensures (items, r) ==
              Step(lib, old(items),
                   if ty == TypeDelete then RemoveDelete(id, owner, version) else RemoveRead(id, owner, version))
    {
      if id.ty != ty { return Failed(ErrNotFound); }
      if id !in items { return Failed(ErrNotFound); }
      if items[id].version != version { return Failed(ErrVersionConflict); }
      if items[id].owner != owner { return Failed(ErrOwnerConflict); }
      items := items - {id};
      return Done;
    }

    /** Ranges over the map in any order, deleting entries as it goes. */
    method DeleteSelected(managementCluster: Str, sel: PrefixSelector)
      modifies this
      ensures items == Step(lib, old(items), DeleteByPrefix(managementCluster, sel)).0
      ensures Purged(old(items), items, managementCluster, sel)
    {
      var pending := items.Keys;
      while pending != {}
        invariant pending <= items.Keys <= old(items).Keys
        invariant forall id :: id in items ==> items[id] == old(items)[id]
        invariant forall id :: id in old(items) && id !in pending ==>
                                 (id in items <==> !Selected(id, managementCluster, sel))
        decreases |pending|
      {
        var id :| id in pending;
        pending := pending - {id};
        if id.target.managementCluster == managementCluster && Matches(sel, id) {
          items := items - {id};
        }
      }
      assert items == WithoutSelected(old(items), managementCluster, sel);
      WithoutSelectedPurges(old(items), managementCluster, sel);
    }

    /** ListApplyDesires, ListDeleteDesires and ListReadDesires range over the map in any order and keep one type. */
    method ListRecords(managementCluster: Str, ty: DesireType) returns (result: seq<Record>)
      requires forall id :: id in items ==> items[id].identity == id
      ensures forall i, j :: 0 <= i < j < |result| ==> result[i].identity != result[j].identity
      ensures forall rec :: rec in result <==> Belongs(items, managementCluster, ty, rec)
    {
      result := [];
      var pending := items.Keys;
      while pending != {}
        invariant pending <= items.Keys
        invariant forall rec :: rec in result <==>
                    rec.identity !in pending && Belongs(items, managementCluster, ty, rec)
        invariant forall i, j :: 0 <= i < j < |result| ==> result[i].identity != result[j].identity
        decreases |pending|
      {
        var id :| id in pending;
        pending := pending - {id};
        if id.target.managementCluster == managementCluster && id.ty == ty {
          assert forall i :: 0 <= i < |result| ==> result[i] in result;
          assert Belongs(items, managementCluster, ty, items[id]);
          result := result + [items[id]];
        }
      }
    }
  }
}
