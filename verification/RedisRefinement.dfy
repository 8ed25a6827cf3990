/** What every interleaving of Redis clients guarantees, in terms of the memory store. */
module RedisRefinement {
  import opened Desire
  import opened MemoryStore
  import opened StoreHistory
  import opened RedisProtocol

  /**
    * In every run the keyspace is exactly what the memory store holds after the committed calls in EXEC order, each
    * with the memory store's own reply; so the keyspace is always consistent: one owner per target, never an apply
    * beside a delete, every record under its own identity.
    */
  lemma RunRefinesMemory(lib: Library, cmds: seq<Command>)
    ensures Run(lib, cmds).ks == After(lib, Run(lib, cmds).log)
    ensures IsHistory(lib, Run(lib, cmds).log)
    ensures Consistent(lib, Run(lib, cmds).ks)
  {
    RunValid(lib, cmds);
    HistoryConsistent(lib, Run(lib, cmds).log);
  }

  /**
    * Every command either changes nothing in the store, or is the EXEC of one call and does what that call does
    * atomically to the whole keyspace, and the call returns the memory store's reply.
    */
  lemma CommandIsStepOrNothing(lib: Library, cmds: seq<Command>, cmd: Command)
    ensures
      var m, m' := Run(lib, cmds), Do(lib, Run(lib, cmds), cmd);
      || (m'.ks == m.ks && m'.log == m.log && m'.mods == m.mods)
      || (&& cmd.Exec? && ClientOf(m, cmd.c).Ready?
          && var op := ClientOf(m, cmd.c).op;
          var reply := Step(lib, m.ks, op).1;
          && m'.ks == Step(lib, m.ks, op).0
          && m'.log == m.log + [Call(op, reply)]
          && ClientOf(m', cmd.c) == Finished(op, ClientOf(m, cmd.c).from, reply)
          && !reply.Failed?)
  {
    RunValid(lib, cmds);
    if cmd.Exec? {
      ExecIsStepOrNothing(lib, Run(lib, cmds), cmd.c);
    } else {
      OnlyExecChanges(lib, Run(lib, cmds), cmd);
    }
  }

  lemma OnlyExecChanges(lib: Library, m: Machine, cmd: Command)
    requires !cmd.Exec?
    ensures Do(lib, m, cmd) == m.(clients := Do(lib, m, cmd).clients)
  {
  }

  lemma ExecIsStepOrNothing(lib: Library, m: Machine, c: nat)
    requires MachineValid(lib, m)
    ensures
      var m' := DoExec(m, c);
      || (m'.ks == m.ks && m'.log == m.log && m'.mods == m.mods)
      || (&& ClientOf(m, c).Ready?
          && var op := ClientOf(m, c).op;
          var reply := Step(lib, m.ks, op).1;
          && m'.ks == Step(lib, m.ks, op).0
          && m'.log == m.log + [Call(op, reply)]
          && ClientOf(m', c) == Finished(op, ClientOf(m, c).from, reply)
          && !reply.Failed?)
  {
    var client := ClientOf(m, c);
    if client.Ready? && Unmodified(m.mods, client.watched) {
      assert ClientValid(lib, m.ks, m.mods, |m.log|, client);
      CommitIsStep(lib, m, c);
      DecisionNotAborted(lib, client.op, client.gets);
    }
  }

  /**
    * A single-key call that ends at its GET, refused or answered, replies what the memory store replies at that
    * instant.
    */
  lemma SingleKeyReplyIsExact(lib: Library, cmds: seq<Command>, c: nat)
    requires ClientOf(Run(lib, cmds), c).Reading?
    requires IsTransaction(ClientOf(Run(lib, cmds), c).op) && |Keys(ClientOf(Run(lib, cmds), c).op)| == 1
    ensures
      var m, m' := Run(lib, cmds), Do(lib, Run(lib, cmds), Get(c));
      ClientOf(m', c).Finished? ==>
        Step(lib, m.ks, ClientOf(m, c).op) == (m.ks, ClientOf(m', c).reply)
  {
    var m := Run(lib, cmds);
    var client := ClientOf(m, c);
    RunValid(lib, cmds);
    HistoryConsistent(lib, m.log);
    assert ClientValid(lib, m.ks, m.mods, |m.log|, client);
    DecideAgrees(lib, m.ks, client.op, [Lookup(m.ks, client.op.id)]);
    assert client.gets == [];
    assert [] + [Lookup(m.ks, Keys(client.op)[0])] == [Lookup(m.ks, client.op.id)];
  }

  /**
    * A call refused before any command is refused with the memory store's error, whatever the store holds, except a
    * spec update whose identity is not an apply: there Redis reports the invalid spec first, memory the type.
    */
  lemma PrecheckAgreesExactlyWhen(lib: Library, items: Items, op: Op)
    requires Precheck(lib, op).Some?
    ensures Step(lib, items, op) == (items, Failed(Precheck(lib, op).value)) <==>
              !(op.UpdateApplySpec? && op.id.ty != TypeApply)
  {
  }

  /** A call gives up only after sixteen commits by others since it was made. */
  lemma AbortedOnlyUnderContention(lib: Library, cmds: seq<Command>, c: nat)
    requires ClientOf(Run(lib, cmds), c).Finished? && ClientOf(Run(lib, cmds), c).reply == Failed(ErrAborted)
    ensures |Run(lib, cmds).log| >= ClientOf(Run(lib, cmds), c).from + 16
  {
    RunValid(lib, cmds);
    var m := Run(lib, cmds);
    assert ClientValid(lib, m.ks, m.mods, |m.log|, m.clients[c]);
  }

  /** Of all clients that hold one version of one record, at most one commits before it is created again. */
  lemma ConcurrentSwapsExclude(lib: Library, cmds: seq<Command>, i: nat, j: nat)
    requires i < j < |Run(lib, cmds).log|
    requires CasToken(Run(lib, cmds).log[i].op).Some?
    requires CasToken(Run(lib, cmds).log[i].op) == CasToken(Run(lib, cmds).log[j].op)
    ensures exists k :: i < k < j && Creates(Run(lib, cmds).log[k], CasToken(Run(lib, cmds).log[i].op).value.0)
  {
    RunValid(lib, cmds);
    LogAccepted(lib, cmds, i);
    LogAccepted(lib, cmds, j);
    AtMostOneSwapPerVersion(lib, Run(lib, cmds).log, i, j);
  }

  /** Only accepted calls are committed. */
  lemma {:induction false} LogAccepted(lib: Library, cmds: seq<Command>, i: nat)
    requires i < |Run(lib, cmds).log|
    ensures Accepted(Run(lib, cmds).log[i])
    decreases |cmds|
  {
    var before := cmds[..|cmds| - 1];
    CommandIsStepOrNothing(lib, before, cmds[|cmds| - 1]);
    if i < |Run(lib, before).log| {
      LogAccepted(lib, before, i);
    }
  }

  // ---------------------------------------------------------- refused creates

  /** The sibling whose record a refused create's error is about. */
  function Decisive(op: Op, gets: seq<Option<Record>>, e: Error): (j: nat)
    requires IsCreate(op)
    requires |gets| == 3
    ensures j < 3
  {
    if e == ErrOwnerConflict then
      if gets[0].Some? then 0 else if gets[1].Some? then 1 else 2
    else if e == ErrDeletePending then 1
    else if op.CreateApply? then 0 else if op.CreateDelete? then 1 else 2
  }

  /**
    * A refused create decides from three GETs that no EXEC validates. Its error is the memory store's at the instant
    * of the GET that read the decisive record exactly when it is an owner conflict or that record has the caller's
    * owner.
    */
  lemma RefusedCreateMatchesExactlyWhen(
    lib: Library, op: Op, gets: seq<Option<Record>>, instants: seq<Items>)
    requires IsCreate(op)
    requires Precheck(lib, op).None? && |gets| == 3 && InstantsValid(lib, op, gets, instants)
    requires Decide(lib, op, gets).Refuse?
    ensures
      var e := Decide(lib, op, gets).error;
      var j := Decisive(op, gets, e);
      && gets[j].Some?
      && (Step(lib, instants[j], op) == (instants[j], Failed(e)) <==>
            e == ErrOwnerConflict || gets[j].value.owner == CreateOwner(op))
  {
    var j := Decisive(op, gets, Decide(lib, op, gets).error);
    var items, id := instants[j], Keys(op)[j];
    assert gets[j] == Lookup(items, id) && Consistent(lib, items);
    match op
    case CreateApply(d) => RefusedApply(lib, d, gets, items, j);
    case CreateDelete(d) => RefusedDelete(lib, d, gets, items, j);
    case CreateRead(d) => RefusedRead(lib, d, gets, items, j);
  }

  /** The owner check on one target reads the owner of any of its records. */
  lemma OwnerOfSibling(lib: Library, items: Items, own: Identity, ty: DesireType)
    requires Consistent(lib, items) && Sibling(own, ty) in items
    ensures TargetOwner(items, own) == Some(items[Sibling(own, ty)].owner)
  {
    OwnerIsShared(lib, items, Sibling(own, ty));
    assert forall t :: Sibling(Sibling(own, ty), t) == Sibling(own, t);
  }

  lemma RefusedApply(lib: Library, d: ApplyDesire, gets: seq<Option<Record>>, items: Items, j: nat)
    requires ValidApply(lib, d) && |gets| == 3 && BuildApply(d, gets).Refuse? && Consistent(lib, items)
    requires j == Decisive(CreateApply(d), gets, BuildApply(d, gets).error)
    requires gets[j] == Lookup(items, Siblings(d.identity)[j])
    ensures gets[j].Some?
    ensures Step(lib, items, CreateApply(d)) == (items, Failed(BuildApply(d, gets).error)) <==>
              BuildApply(d, gets).error == ErrOwnerConflict || gets[j].value.owner == d.owner
  {
    var applyId, deleteId := Sibling(d.identity, TypeApply), Sibling(d.identity, TypeDelete);
    assert applyId == d.identity;
    OwnerOfSibling(lib, items, d.identity, ALL_TYPES[j]);
    assert deleteId !in items ==> items - {deleteId} == items;
    assert Agreeing(items, d.identity.target);
    assert applyId in items && deleteId in items ==> Coexist(items[applyId], items[deleteId]);
    assert applyId in items ==> WellFormed(lib, applyId, items[applyId]);
    assert deleteId in items ==> WellFormed(lib, deleteId, items[deleteId]);
  }

  lemma RefusedDelete(lib: Library, d: DeleteDesire, gets: seq<Option<Record>>, items: Items, j: nat)
    requires ValidDelete(lib, d) && |gets| == 3 && BuildDelete(d, gets).Refuse? && Consistent(lib, items)
    requires j == Decisive(CreateDelete(d), gets, BuildDelete(d, gets).error)
    requires gets[j] == Lookup(items, Siblings(d.identity)[j])
    ensures gets[j].Some?
    ensures Step(lib, items, CreateDelete(d)) == (items, Failed(BuildDelete(d, gets).error)) <==>
              BuildDelete(d, gets).error == ErrOwnerConflict || gets[j].value.owner == d.owner
  {
    assert Sibling(d.identity, TypeDelete) == d.identity;
    OwnerOfSibling(lib, items, d.identity, ALL_TYPES[j]);
  }

  lemma RefusedRead(lib: Library, d: ReadDesire, gets: seq<Option<Record>>, items: Items, j: nat)
    requires ValidRead(lib, d) && |gets| == 3 && BuildRead(d, gets).Refuse? && Consistent(lib, items)
    requires j == Decisive(CreateRead(d), gets, BuildRead(d, gets).error)
    requires gets[j] == Lookup(items, Siblings(d.identity)[j])
    ensures gets[j].Some?
    ensures Step(lib, items, CreateRead(d)) == (items, Failed(BuildRead(d, gets).error)) <==>
              BuildRead(d, gets).error == ErrOwnerConflict || gets[j].value.owner == d.owner
  {
    assert Sibling(d.identity, TypeRead) == d.identity;
    OwnerOfSibling(lib, items, d.identity, ALL_TYPES[j]);
  }

  /** The store held `items` at some instant of the run with at least `since` commits behind it. */
  ghost predicate HeldSince(lib: Library, cmds: seq<Command>, since: nat, items: Items) {
    exists n :: 0 <= n <= |cmds| && Run(lib, cmds[..n]).ks == items && |Run(lib, cmds[..n]).log| >= since
  }

  lemma HeldLater(lib: Library, cmds: seq<Command>, since: nat, items: Items)
    requires cmds != [] && HeldSince(lib, cmds[..|cmds| - 1], since, items)
    ensures HeldSince(lib, cmds, since, items)
  {
    var before := cmds[..|cmds| - 1];
    var n :| 0 <= n <= |before| && Run(lib, before[..n]).ks == items && |Run(lib, before[..n]).log| >= since;
    assert before[..n] == cmds[..n];
  }

  lemma HeldNow(lib: Library, cmds: seq<Command>, since: nat)
    requires since <= |Run(lib, cmds).log|
    ensures HeldSince(lib, cmds, since, Run(lib, cmds).ks)
  {
    assert cmds[..|cmds|] == cmds;
  }

  /** What a client read, it read from a store that existed, after its WATCH. */
  lemma {:induction false} InstantsHeld(lib: Library, cmds: seq<Command>, c: nat, j: nat)
    requires ClientOf(Run(lib, cmds), c).Reading? && j < |ClientOf(Run(lib, cmds), c).instants|
    ensures HeldSince(lib, cmds, ClientOf(Run(lib, cmds), c).since, ClientOf(Run(lib, cmds), c).instants[j])
    decreases |cmds|
  {
    var before, cmd := cmds[..|cmds| - 1], cmds[|cmds| - 1];
    var was, client := ClientOf(Run(lib, before), c), ClientOf(Run(lib, cmds), c);
    if was == client {
      InstantsHeld(lib, before, c, j);
      HeldLater(lib, cmds, client.since, client.instants[j]);
    } else {
      GetExtends(lib, Run(lib, before), cmd, c);
      if j < |was.instants| {
        InstantsHeld(lib, before, c, j);
      } else {
        RunValid(lib, before);
        assert ClientValid(lib, Run(lib, before).ks, Run(lib, before).mods, |Run(lib, before).log|, was);
        HeldNow(lib, before, client.since);
      }
      HeldLater(lib, cmds, client.since, client.instants[j]);
    }
  }

  /** The only command that adds to what a client has read is its own GET. */
  lemma GetExtends(lib: Library, m: Machine, cmd: Command, c: nat)
    requires ClientOf(Do(lib, m, cmd), c).Reading? && ClientOf(Do(lib, m, cmd), c) != ClientOf(m, c)
    requires ClientOf(Do(lib, m, cmd), c).instants != []
    ensures
      var was, client := ClientOf(m, c), ClientOf(Do(lib, m, cmd), c);
      was.Reading? && client.since == was.since && client.instants == was.instants + [m.ks]
  {
  }

  /** What a client that has read two records knows. */
  lemma ReadingValid(lib: Library, m: Machine, c: nat)
    requires MachineValid(lib, m) && ClientOf(m, c).Reading? && |ClientOf(m, c).gets| == 2
    ensures
      var client := ClientOf(m, c);
      && IsCreate(client.op) && client.since <= |m.log| && Precheck(lib, client.op).None?
      && InstantsValid(lib, client.op, client.gets, client.instants)
  {
    assert ClientValid(lib, m.ks, m.mods, |m.log|, ClientOf(m, c));
  }

  /** A create is refused at its third GET or goes on to EXEC. */
  lemma LastGetDecides(lib: Library, m: Machine, c: nat)
    requires ClientOf(m, c).Reading? && |ClientOf(m, c).gets| == 2 && IsCreate(ClientOf(m, c).op)
    requires ClientOf(Do(lib, m, Get(c)), c).Finished?
    ensures
      var client, client' := ClientOf(m, c), ClientOf(Do(lib, m, Get(c)), c);
      var gets := client.gets + [Lookup(m.ks, Keys(client.op)[2])];
      Decide(lib, client.op, gets).Refuse? && client'.reply == Failed(Decide(lib, client.op, gets).error)
  {
    var client := ClientOf(m, c);
    CreateNeverAnswers(lib, client.op, client.gets + [Lookup(m.ks, Keys(client.op)[2])]);
  }

  lemma CreateNeverAnswers(lib: Library, op: Op, gets: seq<Option<Record>>)
    requires IsCreate(op) && |gets| == 3
    ensures !Decide(lib, op, gets).Answer?
  {
  }

  /**
    * The error is one a store that existed during the call gives, the one the decisive record was read from, exactly
    * when it is an owner conflict or that record has the caller's owner.
    */
  ghost predicate RefusalExplained(
    lib: Library, cmds: seq<Command>, since: nat, op: Op, gets: seq<Option<Record>>, instants: seq<Items>, e: Error)
  {
    && IsCreate(op) && |gets| == |instants| == 3
    && var j := Decisive(op, gets, e);
    && gets[j].Some? && HeldSince(lib, cmds, since, instants[j])
    && (Step(lib, instants[j], op) == (instants[j], Failed(e)) <==>
          e == ErrOwnerConflict || gets[j].value.owner == CreateOwner(op))
  }

  /** In every run, every create refused at its last GET is explained. */
  lemma RefusedCreateInRun(lib: Library, cmds: seq<Command>, c: nat)
    requires ClientOf(Run(lib, cmds), c).Reading? && |ClientOf(Run(lib, cmds), c).gets| == 2
    requires ClientOf(Do(lib, Run(lib, cmds), Get(c)), c).Finished?
    ensures
      var m, client, client' := Run(lib, cmds), ClientOf(Run(lib, cmds), c),
                                ClientOf(Do(lib, Run(lib, cmds), Get(c)), c);
      && client'.reply.Failed? && IsCreate(client.op)
      && RefusalExplained(lib, cmds, client.since, client.op, client.gets + [Lookup(m.ks, Keys(client.op)[2])],
                          client.instants + [m.ks], client'.reply.error)
  {
    var m, client := Run(lib, cmds), ClientOf(Run(lib, cmds), c);
    RunValid(lib, cmds);
    RunRefinesMemory(lib, cmds);
    ReadingValid(lib, m, c);
    LastGetDecides(lib, m, c);
    InstantsExtend(lib, client.op, client.gets, client.instants, m.ks);
    var gets, instants := client.gets + [Lookup(m.ks, Keys(client.op)[2])], client.instants + [m.ks];
    RefusedCreateMatchesExactlyWhen(lib, client.op, gets, instants);
    if Decisive(client.op, gets, Decide(lib, client.op, gets).error) < 2 {
      InstantsHeld(lib, cmds, c, Decisive(client.op, gets, Decide(lib, client.op, gets).error));
    } else {
      HeldNow(lib, cmds, client.since);
    }
  }

  function CreateTarget(op: Op): Target
    requires IsCreate(op)
  {
    match op
    case CreateApply(d) => d.identity.target
    case CreateDelete(d) => d.identity.target
    case CreateRead(d) => d.identity.target
  }

  ghost predicate OwnedBy(items: Items, t: Target, owner: string) {
    forall id :: id in items && id.target == t ==> items[id].owner == owner
  }

  /** From `since` commits on, every store of the run gives the target's records, whatever there are, to one owner. */
  ghost predicate OwnerSteady(lib: Library, cmds: seq<Command>, since: nat, t: Target, owner: string) {
    forall items :: HeldSince(lib, cmds, since, items) ==> OwnedBy(items, t, owner)
  }

  /** Every record a create has read then belongs to that owner. */
  lemma ReadsOwned(lib: Library, cmds: seq<Command>, c: nat, owner: string)
    requires ClientOf(Run(lib, cmds), c).Reading? && |ClientOf(Run(lib, cmds), c).gets| == 2 &&
               IsCreate(ClientOf(Run(lib, cmds), c).op)
    requires OwnerSteady(lib, cmds, ClientOf(Run(lib, cmds), c).since,
                         CreateTarget(ClientOf(Run(lib, cmds), c).op), owner)
    ensures
      var m, client := Run(lib, cmds), ClientOf(Run(lib, cmds), c);
      var gets := client.gets + [Lookup(m.ks, Keys(client.op)[2])];
      forall j :: 0 <= j < 3 && gets[j].Some? ==> gets[j].value.owner == owner
  {
    var m, client := Run(lib, cmds), ClientOf(Run(lib, cmds), c);
    RunValid(lib, cmds);
    ReadingValid(lib, m, c);
    HeldNow(lib, cmds, client.since);
    ReadOwned(m.ks, client.op, 2, owner);
    forall j | 0 <= j < 2
      ensures client.gets[j].Some? ==> client.gets[j].value.owner == owner
    {
      InstantsHeld(lib, cmds, c, j);
      ReadOwned(client.instants[j], client.op, j, owner);
    }
  }

  lemma ReadOwned(items: Items, op: Op, j: nat, owner: string)
    requires IsCreate(op) && j < 3 && OwnedBy(items, CreateTarget(op), owner)
    ensures Lookup(items, Keys(op)[j]).Some? ==> Lookup(items, Keys(op)[j]).value.owner == owner
  {
    assert Keys(op)[j].target == CreateTarget(op);
  }

  /** A refusal that is no owner conflict read some record of the caller's owner first. */
  lemma PassedOwnerCheck(lib: Library, op: Op, gets: seq<Option<Record>>)
    requires IsCreate(op) && |gets| == 3 && Decide(lib, op, gets).Refuse? &&
               Decide(lib, op, gets).error != ErrOwnerConflict
    ensures exists j :: 0 <= j < 3 && gets[j].Some? && gets[j].value.owner == CreateOwner(op)
  {
    assert OwnerPasses(gets, CreateOwner(op));
    var j := if gets[0].Some? then 0 else if gets[1].Some? then 1 else 2;
    assert gets[j].Some? && gets[j].value.owner == CreateOwner(op);
  }

  /**
    * If the owner of the target's records does not change between a create's WATCH and its last GET, a refusal is the
    * memory store's at an instant of the call. RefusalMatchesNoInstant shows that the hypothesis is needed.
    */
  lemma SteadyOwnerMakesRefusalExact(lib: Library, cmds: seq<Command>, c: nat, owner: string)
    requires ClientOf(Run(lib, cmds), c).Reading? && |ClientOf(Run(lib, cmds), c).gets| == 2
    requires ClientOf(Do(lib, Run(lib, cmds), Get(c)), c).Finished? && IsCreate(ClientOf(Run(lib, cmds), c).op)
    requires OwnerSteady(lib, cmds, ClientOf(Run(lib, cmds), c).since,
                         CreateTarget(ClientOf(Run(lib, cmds), c).op), owner)
    ensures
      var client, client' := ClientOf(Run(lib, cmds), c), ClientOf(Do(lib, Run(lib, cmds), Get(c)), c);
      exists items :: HeldSince(lib, cmds, client.since, items) && Step(lib, items, client.op) == (items, client'.reply)
  {
    var m, client := Run(lib, cmds), ClientOf(Run(lib, cmds), c);
    var gets, instants := client.gets + [Lookup(m.ks, Keys(client.op)[2])], client.instants + [m.ks];
    RefusedCreateInRun(lib, cmds, c);
    ReadsOwned(lib, cmds, c, owner);
    LastGetDecides(lib, m, c);
    var e := Decide(lib, client.op, gets).error;
    if e != ErrOwnerConflict {
      PassedOwnerCheck(lib, client.op, gets);
    }
    assert HeldSince(lib, cmds, client.since, instants[Decisive(client.op, gets, e)]);
  }

  // ----------------------------------------------------- a call that runs alone

  function RunFrom(lib: Library, m: Machine, cmds: seq<Command>): Machine
    decreases |cmds|
  {
    if cmds == [] then m else RunFrom(lib, Do(lib, m, cmds[0]), cmds[1..])
  }

  lemma {:induction false} RunThenRunFrom(lib: Library, cmds: seq<Command>, more: seq<Command>)
    ensures Run(lib, cmds + more) == RunFrom(lib, Run(lib, cmds), more)
    decreases |more|
  {
    if more == [] {
      assert cmds + more == cmds;
    } else {
      assert (cmds + [more[0]])[..|cmds|] == cmds;
      assert cmds + more == (cmds + [more[0]]) + more[1..];
      RunThenRunFrom(lib, cmds + [more[0]], more[1..]);
    }
  }

  /** The commands of one call with nothing in between. */
  function Alone(c: nat, op: Op): seq<Command>
    requires IsTransaction(op)
  {
    [Invoke(c, op), Watch(c)] + (if |Keys(op)| == 1 then [Get(c)] else [Get(c), Get(c), Get(c)]) + [Exec(c)]
  }

  ghost predicate Free(m: Machine, c: nat) { ClientOf(m, c).Idle? || ClientOf(m, c).Finished? }

  function CurrentReads(ks: Items, op: Op): (gets: seq<Option<Record>>)
    requires IsTransaction(op)
  {
    seq(|Keys(op)|, j requires 0 <= j < |Keys(op)| => Lookup(ks, Keys(op)[j]))
  }

  /** The client after a decision made from the current records. */
  ghost predicate DecidedNow(lib: Library, ks: Items, op: Op, from: nat, watched: map<Identity, nat>, client: Client)
    requires IsTransaction(op)
  {
    match Decide(lib, op, CurrentReads(ks, op))
    case Refuse(e) => client == Finished(op, from, Failed(e))
    case Answer(r) => client == Finished(op, from, r)
    case Write(put, drop, r) =>
      client.Ready? && client.op == op && client.from == from && client.watched == watched &&
      client.plan == Write(put, drop, r)
  }

  lemma LastReadDecides(lib: Library, m: Machine, c: nat)
    requires ClientOf(m, c).Reading? && IsTransaction(ClientOf(m, c).op)
    requires |ClientOf(m, c).gets| + 1 == |Keys(ClientOf(m, c).op)|
    requires ClientOf(m, c).gets <= CurrentReads(m.ks, ClientOf(m, c).op)
    ensures
      var m', client := Do(lib, m, Get(c)), ClientOf(m, c);
      && m' == m.(clients := m.clients[c := ClientOf(m', c)])
      && DecidedNow(lib, m.ks, client.op, client.from, client.watched, ClientOf(m', c))
  {
    var client := ClientOf(m, c);
    assert client.gets + [Lookup(m.ks, Keys(client.op)[|client.gets|])] == CurrentReads(m.ks, client.op);
  }

  /** From WATCH on, the GETs of a call nobody interrupts read the current records. */
  lemma {:induction false} AloneReads(lib: Library, m: Machine, c: nat, n: nat)
    requires ClientOf(m, c).Reading? && IsTransaction(ClientOf(m, c).op)
    requires n == |Keys(ClientOf(m, c).op)| - |ClientOf(m, c).gets| && n > 0
    requires ClientOf(m, c).gets <= CurrentReads(m.ks, ClientOf(m, c).op)
    ensures
      var m', client := RunFrom(lib, m, seq(n, _ => Get(c))), ClientOf(m, c);
      && m' == m.(clients := m.clients[c := ClientOf(m', c)])
      && DecidedNow(lib, m.ks, client.op, client.from, client.watched, ClientOf(m', c))
    decreases n
  {
    var m1 := Do(lib, m, Get(c));
    assert seq(n, _ => Get(c))[1..] == seq(n - 1, _ => Get(c));
    var m' := RunFrom(lib, m, seq(n, _ => Get(c)));
    assert m' == RunFrom(lib, m1, seq(n - 1, _ => Get(c)));
    if n == 1 {
      LastReadDecides(lib, m, c);
      assert m' == m1;
    } else {
      ReadsOn(lib, m, c);
      AloneReads(lib, m1, c, n - 1);
      assert m1.clients[c := ClientOf(m', c)] == m.clients[c := ClientOf(m', c)];
    }
  }

  /** A GET that is not the last only adds what it read. */
  lemma ReadsOn(lib: Library, m: Machine, c: nat)
    requires ClientOf(m, c).Reading? && IsTransaction(ClientOf(m, c).op)
    requires |ClientOf(m, c).gets| + 1 < |Keys(ClientOf(m, c).op)|
    requires ClientOf(m, c).gets <= CurrentReads(m.ks, ClientOf(m, c).op)
    ensures
      var m', client, client' := Do(lib, m, Get(c)), ClientOf(m, c), ClientOf(Do(lib, m, Get(c)), c);
      && m' == m.(clients := m.clients[c := client']) && client'.Reading?
      && client'.op == client.op && client'.from == client.from && client'.watched == client.watched
      && |client'.gets| == |client.gets| + 1 && client'.gets <= CurrentReads(m.ks, client.op)
  {
  }

  /** An EXEC with nothing modified since WATCH ends the call with the memory store's effect and reply. */
  lemma DecidedThenExec(lib: Library, m: Machine, c: nat, op: Op, from: nat, watched: map<Identity, nat>)
    requires Consistent(lib, m.ks) && IsTransaction(op) && Precheck(lib, op).None?
    requires c in m.clients && DecidedNow(lib, m.ks, op, from, watched, ClientOf(m, c)) && Unmodified(m.mods, watched)
    ensures
      var m' := DoExec(m, c);
      && m'.ks == Step(lib, m.ks, op).0
      && ClientOf(m', c) == Finished(op, from, Step(lib, m.ks, op).1)
      && forall o :: o != c ==> ClientOf(m', o) == ClientOf(m, o)
  {
    DecideAgrees(lib, m.ks, op, CurrentReads(m.ks, op));
    ExecOfDecided(lib, m, c, op, from, watched);
  }

  lemma ExecOfDecided(lib: Library, m: Machine, c: nat, op: Op, from: nat, watched: map<Identity, nat>)
    requires IsTransaction(op) && c in m.clients
    requires DecidedNow(lib, m.ks, op, from, watched, ClientOf(m, c)) && Unmodified(m.mods, watched)
    ensures
      var m', plan := DoExec(m, c), Decide(lib, op, CurrentReads(m.ks, op));
      && m'.ks == (if plan.Write? then Effect(m.ks, plan) else m.ks)
      && ClientOf(m', c) == Finished(op, from, if plan.Refuse? then Failed(plan.error) else plan.reply)
      && forall o :: o != c ==> ClientOf(m', o) == ClientOf(m, o)
  {
  }

  lemma AloneWatches(lib: Library, m: Machine, c: nat, op: Op)
    requires Free(m, c) && IsTransaction(op) && Precheck(lib, op).None?
    ensures
      var m2 := Do(lib, Do(lib, m, Invoke(c, op)), Watch(c));
      && m2 == m.(clients := m.clients[c := ClientOf(m2, c)])
      && ClientOf(m2, c).Reading? && ClientOf(m2, c).op == op && ClientOf(m2, c).from == |m.log|
      && ClientOf(m2, c).gets == [] && Unmodified(m.mods, ClientOf(m2, c).watched)
  {
    var m2 := Do(lib, Do(lib, m, Invoke(c, op)), Watch(c));
    assert m.clients[c := Pending(op, 1, |m.log|)][c := ClientOf(m2, c)] == m.clients[c := ClientOf(m2, c)];
  }

  /** A call that runs alone succeeds or fails at the first attempt, exactly as the memory store's call. */
  lemma AloneIsOneStep(lib: Library, m: Machine, c: nat, op: Op)
    requires Consistent(lib, m.ks) && Free(m, c) && IsTransaction(op) && Precheck(lib, op).None?
    ensures
      var m' := RunFrom(lib, m, Alone(c, op));
      && m'.ks == Step(lib, m.ks, op).0
      && ClientOf(m', c) == Finished(op, |m.log|, Step(lib, m.ks, op).1)
      && forall o :: o != c ==> ClientOf(m', o) == ClientOf(m, o)
  {
    AloneUnfolds(lib, m, c, op);
    var m3, watched := AloneDecides(lib, m, c, op);
    DecidedThenExec(lib, m3, c, op, |m.log|, watched);
  }

  /** Up to its EXEC a call that runs alone changes nothing but its own client. */
  lemma AloneDecides(lib: Library, m: Machine, c: nat, op: Op) returns (m3: Machine, watched: map<Identity, nat>)
    requires Free(m, c) && IsTransaction(op) && Precheck(lib, op).None?
    ensures m3 == RunFrom(lib, Do(lib, Do(lib, m, Invoke(c, op)), Watch(c)), seq(|Keys(op)|, _ => Get(c)))
    ensures m3 == m.(clients := m.clients[c := ClientOf(m3, c)])
    ensures DecidedNow(lib, m.ks, op, |m.log|, watched, ClientOf(m3, c)) && Unmodified(m.mods, watched)
  {
    AloneWatches(lib, m, c, op);
    var m2 := Do(lib, Do(lib, m, Invoke(c, op)), Watch(c));
    AloneReads(lib, m2, c, |Keys(op)|);
    m3 := RunFrom(lib, m2, seq(|Keys(op)|, _ => Get(c)));
    watched := ClientOf(m2, c).watched;
    assert m2.clients[c := ClientOf(m3, c)] == m.clients[c := ClientOf(m3, c)];
  }

  lemma AloneUnfolds(lib: Library, m: Machine, c: nat, op: Op)
    requires IsTransaction(op)
    ensures RunFrom(lib, m, Alone(c, op)) ==
            Do(lib, RunFrom(lib, Do(lib, Do(lib, m, Invoke(c, op)), Watch(c)), seq(|Keys(op)|, _ => Get(c))), Exec(c))
  {
    var n := |Keys(op)|;
    var gs := seq(n, _ => Get(c));
    var m2 := Do(lib, Do(lib, m, Invoke(c, op)), Watch(c));
    assert Alone(c, op)[1..][1..] == gs + [Exec(c)];
    assert Alone(c, op)[0] == Invoke(c, op) && Alone(c, op)[1..][0] == Watch(c);
    RunFromConcat(lib, m2, gs, [Exec(c)]);
    assert RunFrom(lib, RunFrom(lib, m2, gs), [Exec(c)]) == Do(lib, RunFrom(lib, m2, gs), Exec(c));
  }

  lemma {:induction false} RunFromConcat(lib: Library, m: Machine, a: seq<Command>, b: seq<Command>)
    ensures RunFrom(lib, m, a + b) == RunFrom(lib, RunFrom(lib, m, a), b)
    decreases |a|
  {
    if a == [] {
      assert a + b == b;
    } else {
      assert (a + b)[1..] == a[1..] + b;
      RunFromConcat(lib, Do(lib, m, a[0]), a[1..], b);
    }
  }

  // ------------------------- a refusal that no instant of the call would give

  ghost predicate NoExec(cmds: seq<Command>) { forall i :: 0 <= i < |cmds| ==> !cmds[i].Exec? }

  lemma {:induction false} OnlyExecWrites(lib: Library, m: Machine, cmds: seq<Command>)
    requires NoExec(cmds)
    ensures RunFrom(lib, m, cmds).ks == m.ks
    decreases |cmds|
  {
    if cmds != [] {
      OnlyExecWrites(lib, Do(lib, m, cmds[0]), cmds[1..]);
    }
  }

  /** The memory store would not answer this create with ErrDeletePending. */
  ghost predicate NotPending(lib: Library, ks: Items, d: ApplyDesire) {
    Step(lib, ks, CreateApply(d)).1 != Failed(ErrDeletePending)
  }

  /** It would not at any instant of the run. */
  ghost predicate NeverPending(lib: Library, cmds: seq<Command>, d: ApplyDesire) {
    forall n :: 0 <= n <= |cmds| ==> NotPending(lib, Run(lib, cmds[..n]).ks, d)
  }

  lemma NeverPendingExtends(lib: Library, cmds: seq<Command>, more: seq<Command>, d: ApplyDesire)
    requires NeverPending(lib, cmds, d)
    requires NoExec(if more == [] then [] else more[..|more| - 1])
    requires NotPending(lib, Run(lib, cmds).ks, d) && NotPending(lib, RunFrom(lib, Run(lib, cmds), more).ks, d)
    ensures NeverPending(lib, cmds + more, d)
  {
    forall n | 0 <= n <= |cmds + more|
      ensures NotPending(lib, Run(lib, (cmds + more)[..n]).ks, d)
    {
      if n <= |cmds| {
        assert (cmds + more)[..n] == cmds[..n];
      } else {
        var part := more[..n - |cmds|];
        assert (cmds + more)[..n] == cmds + part;
        RunThenRunFrom(lib, cmds, part);
        if n < |cmds + more| {
          OnlyExecWrites(lib, Run(lib, cmds), part);
        } else {
          assert part == more;
        }
      }
    }
  }

  /** Client 0 starts a create and reads the apply sibling; client 1 removes it and another owner creates a delete. */
  function Opening(d: ApplyDesire): seq<Command> {
    Alone(1, CreateApply(d)) + [Invoke(0, CreateApply(d)), Watch(0), Get(0)]
  }

  function Removed(d: ApplyDesire): seq<Command> {
    Opening(d) + Alone(1, RemoveApply(d.identity, d.owner, 1))
  }

  function Interlude(d: ApplyDesire, dd: DeleteDesire): seq<Command> {
    Removed(d) + Alone(1, CreateDelete(dd))
  }

  function StaleRefusal(d: ApplyDesire, dd: DeleteDesire): seq<Command> {
    Interlude(d, dd) + [Get(0), Get(0)]
  }

  /** One more uninterrupted call of client 1 that leaves a store in which the create is not pending. */
  lemma AloneKeepsNeverPending(lib: Library, cmds: seq<Command>, op: Op, d: ApplyDesire)
    requires NeverPending(lib, cmds, d) && Free(Run(lib, cmds), 1)
    requires IsTransaction(op) && Precheck(lib, op).None?
    requires NotPending(lib, Step(lib, Run(lib, cmds).ks, op).0, d)
    ensures NeverPending(lib, cmds + Alone(1, op), d)
    ensures
      var m, m' := Run(lib, cmds), Run(lib, cmds + Alone(1, op));
      m'.ks == Step(lib, m.ks, op).0 && Free(m', 1) && ClientOf(m', 0) == ClientOf(m, 0)
  {
    AloneRuns(lib, cmds, op);
    RunThenRunFrom(lib, cmds, Alone(1, op));
    assert cmds[..|cmds|] == cmds;
    NeverPendingExtends(lib, cmds, Alone(1, op), d);
  }

  lemma AloneRuns(lib: Library, cmds: seq<Command>, op: Op)
    requires Free(Run(lib, cmds), 1) && IsTransaction(op) && Precheck(lib, op).None?
    ensures
      var m, m' := Run(lib, cmds), Run(lib, cmds + Alone(1, op));
      m'.ks == Step(lib, m.ks, op).0 && Free(m', 1) && ClientOf(m', 0) == ClientOf(m, 0)
  {
    RunRefinesMemory(lib, cmds);
    AloneIsOneStep(lib, Run(lib, cmds), 1, op);
    RunThenRunFrom(lib, cmds, Alone(1, op));
  }

  lemma ThreeStores(lib: Library, d: ApplyDesire, dd: DeleteDesire)
    requires ValidApply(lib, d) && ValidDelete(lib, dd)
    requires dd.identity == Sibling(d.identity, TypeDelete) && dd.owner != d.owner
    ensures
      var one: Items := map[d.identity := NewApply(d)];
      var two: Items := map[dd.identity := NewDelete(dd)];
      && Step(lib, map[], CreateApply(d)).0 == one
      && Step(lib, one, RemoveApply(d.identity, d.owner, 1)).0 == map[]
      && Step(lib, map[], CreateDelete(dd)).0 == two
      && NotPending(lib, map[], d) && NotPending(lib, one, d) && NotPending(lib, two, d)
  {
  }

  /** Client 0 begins its create and reads the apply record. */
  lemma ReadsApply(lib: Library, m: Machine, d: ApplyDesire)
    requires ValidApply(lib, d) && ClientOf(m, 0).Idle? && m.ks == map[d.identity := NewApply(d)]
    ensures
      var m' := RunFrom(lib, m, [Invoke(0, CreateApply(d)), Watch(0), Get(0)]);
      && m'.ks == m.ks && ClientOf(m', 1) == ClientOf(m, 1)
      && ClientOf(m', 0).Reading? && ClientOf(m', 0).op == CreateApply(d) && ClientOf(m', 0).gets == [Some(NewApply(d))]
  {
    var m1 := Do(lib, m, Invoke(0, CreateApply(d)));
    var m2 := Do(lib, m1, Watch(0));
    var m3 := Do(lib, m2, Get(0));
    var cmds := [Invoke(0, CreateApply(d)), Watch(0), Get(0)];
    assert cmds[1..] == [Watch(0), Get(0)] && cmds[1..][1..] == [Get(0)] && [Get(0)][1..] == [];
    assert RunFrom(lib, m2, [Get(0)]) == m3;
    assert RunFrom(lib, m, cmds) == RunFrom(lib, m1, cmds[1..]) == m3;
    assert Keys(CreateApply(d))[0] == d.identity;
  }

  lemma FirstCreate(lib: Library, d: ApplyDesire)
    requires ValidApply(lib, d) && NotPending(lib, map[], d) && NotPending(lib, map[d.identity := NewApply(d)], d)
    requires Step(lib, map[], CreateApply(d)).0 == map[d.identity := NewApply(d)]
    ensures
      var m := Run(lib, Alone(1, CreateApply(d)));
      m.ks == map[d.identity := NewApply(d)] && Free(m, 1) && ClientOf(m, 0).Idle?
    ensures NeverPending(lib, Alone(1, CreateApply(d)), d)
  {
    assert Run(lib, []) == INIT && [] + Alone(1, CreateApply(d)) == Alone(1, CreateApply(d));
    AloneKeepsNeverPending(lib, [], CreateApply(d), d);
  }

  lemma OpeningReads(lib: Library, d: ApplyDesire)
    requires ValidApply(lib, d) && NotPending(lib, map[], d) && NotPending(lib, map[d.identity := NewApply(d)], d)
    requires Step(lib, map[], CreateApply(d)).0 == map[d.identity := NewApply(d)]
    ensures
      var m := Run(lib, Opening(d));
      && m.ks == map[d.identity := NewApply(d)] && Free(m, 1)
      && ClientOf(m, 0).Reading? && ClientOf(m, 0).op == CreateApply(d) && ClientOf(m, 0).gets == [Some(NewApply(d))]
    ensures NeverPending(lib, Opening(d), d)
  {
    var first := Alone(1, CreateApply(d));
    FirstCreate(lib, d);
    var rest := [Invoke(0, CreateApply(d)), Watch(0), Get(0)];
    ReadsApply(lib, Run(lib, first), d);
    RunThenRunFrom(lib, first, rest);
    NeverPendingExtends(lib, first, rest, d);
  }

  lemma InterludeKeepsReads(lib: Library, d: ApplyDesire, dd: DeleteDesire)
    requires ValidApply(lib, d) && ValidDelete(lib, dd)
    requires dd.identity == Sibling(d.identity, TypeDelete) && dd.owner != d.owner
    ensures
      var m := Run(lib, Interlude(d, dd));
      && m.ks == map[dd.identity := NewDelete(dd)]
      && ClientOf(m, 0).Reading? && ClientOf(m, 0).op == CreateApply(d) && ClientOf(m, 0).gets == [Some(NewApply(d))]
    ensures NeverPending(lib, Interlude(d, dd), d)
  {
    ThreeStores(lib, d, dd);
    RemovedKeepsReads(lib, d);
    AloneKeepsNeverPending(lib, Removed(d), CreateDelete(dd), d);
  }

  lemma RemovedKeepsReads(lib: Library, d: ApplyDesire)
    requires ValidApply(lib, d) && NotPending(lib, map[], d) && NotPending(lib, map[d.identity := NewApply(d)], d)
    requires Step(lib, map[], CreateApply(d)).0 == map[d.identity := NewApply(d)]
    requires Step(lib, map[d.identity := NewApply(d)], RemoveApply(d.identity, d.owner, 1)).0 == map[]
    ensures
      var m := Run(lib, Removed(d));
      && m.ks == map[] && Free(m, 1)
      && ClientOf(m, 0).Reading? && ClientOf(m, 0).op == CreateApply(d) && ClientOf(m, 0).gets == [Some(NewApply(d))]
    ensures NeverPending(lib, Removed(d), d)
  {
    OpeningReads(lib, d);
    AloneKeepsNeverPending(lib, Opening(d), RemoveApply(d.identity, d.owner, 1), d);
  }

  /**
    * A create that Redis refuses with ErrDeletePending although at no instant, before, during or after the call,
    * would the memory store refuse it so: it read the apply of one owner and, later, the delete of another.
    */
  lemma RefusalMatchesNoInstant(lib: Library, d: ApplyDesire, dd: DeleteDesire)
    requires ValidApply(lib, d) && ValidDelete(lib, dd)
    requires dd.identity == Sibling(d.identity, TypeDelete) && dd.owner != d.owner
    ensures ClientOf(Run(lib, StaleRefusal(d, dd)), 0).Finished?
    ensures ClientOf(Run(lib, StaleRefusal(d, dd)), 0).reply == Failed(ErrDeletePending)
    ensures NeverPending(lib, StaleRefusal(d, dd), d)
  {
    var cmds := Interlude(d, dd);
    ThreeStores(lib, d, dd);
    InterludeKeepsReads(lib, d, dd);
    RefusalFinishes(lib, Run(lib, cmds), d, dd);
    RunThenRunFrom(lib, cmds, [Get(0), Get(0)]);
    NeverPendingExtends(lib, cmds, [Get(0), Get(0)], d);
  }

  lemma RefusalFinishes(lib: Library, m: Machine, d: ApplyDesire, dd: DeleteDesire)
    requires ValidApply(lib, d) && dd.identity == Sibling(d.identity, TypeDelete)
    requires m.ks == map[dd.identity := NewDelete(dd)]
    requires ClientOf(m, 0).Reading? && ClientOf(m, 0).op == CreateApply(d) &&
               ClientOf(m, 0).gets == [Some(NewApply(d))]
    ensures
      var m' := RunFrom(lib, m, [Get(0), Get(0)]);
      m'.ks == m.ks && ClientOf(m', 0).Finished? && ClientOf(m', 0).reply == Failed(ErrDeletePending)
  {
    var m1 := Do(lib, m, Get(0));
    var m2 := Do(lib, m1, Get(0));
    assert [Get(0), Get(0)][1..] == [Get(0)] && [Get(0)][1..] == [];
    assert RunFrom(lib, m, [Get(0), Get(0)]) == RunFrom(lib, m1, [Get(0)]) == m2;
    assert Keys(CreateApply(d))[1] == dd.identity;
    assert ClientOf(m1, 0).gets == [Some(NewApply(d)), Some(NewDelete(dd))];
    assert FindCondition([], Successful).None?;
  }
}
