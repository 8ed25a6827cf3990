/**
  * The retry of a lost race, told from the commands of a run: how many EXECs of a call committed nothing, what the
  * call does next, and what a rival must have done for an EXEC to be lost.
  */
module RedisRetry {
  import opened Desire
  import opened MemoryStore
  import opened StoreHistory
  import opened RedisProtocol
  import opened RedisRefinement

  /** The command begins a call of the client, which has none under way. */
  predicate BeginsCall(m: Machine, cmd: Command, c: nat) {
    cmd.Invoke? && cmd.c == c && IsTransaction(cmd.op) && (ClientOf(m, c).Idle? || ClientOf(m, c).Finished?)
  }

  /** The command is an EXEC of the client's queued commands that commits nothing. */
  predicate LosesRace(lib: Library, m: Machine, cmd: Command, c: nat) {
    cmd == Exec(c) && ClientOf(m, c).Ready? && Do(lib, m, cmd).log == m.log
  }

  /** The EXECs of the client's running or last call that committed nothing. */
  function LostExecs(lib: Library, cmds: seq<Command>, c: nat): nat {
    if cmds == [] then 0
    else
      var before, cmd := cmds[..|cmds| - 1], cmds[|cmds| - 1];
      if BeginsCall(Run(lib, before), cmd, c) then 0
      else LostExecs(lib, before, c) + if LosesRace(lib, Run(lib, before), cmd, c) then 1 else 0
  }

  /** A call under way has lost one race less than it makes attempts; a call that is over gave up exactly at sixteen. */
  ghost predicate Counted(client: Client, lost: nat) {
    match client
    case Idle => lost == 0
    case Finished(_, _, reply) => lost <= 16 && (reply == Failed(ErrAborted) <==> lost == 16)
    case _ => client.attempt == lost + 1 && lost < 16
  }

  lemma GetCounts(lib: Library, m: Machine, c: nat, lost: nat)
    requires MachineValid(lib, m) && Counted(ClientOf(m, c), lost)
    ensures Counted(ClientOf(DoGet(lib, m, c), c), lost)
  {
    var client := ClientOf(m, c);
    if client.Reading? {
      assert ClientValid(lib, m.ks, m.mods, |m.log|, client);
      var gets := client.gets + [Lookup(m.ks, Keys(client.op)[|client.gets|])];
      if |gets| == |Keys(client.op)| {
        DecisionNotAborted(lib, client.op, gets);
      }
    }
  }

  lemma ExecCounts(lib: Library, m: Machine, c: nat, lost: nat)
    requires MachineValid(lib, m) && Counted(ClientOf(m, c), lost)
    ensures Counted(ClientOf(DoExec(m, c), c), lost + if LosesRace(lib, m, Exec(c), c) then 1 else 0)
  {
    var client := ClientOf(m, c);
    if client.Ready? {
      assert ClientValid(lib, m.ks, m.mods, |m.log|, client);
      DecisionNotAborted(lib, client.op, client.gets);
    }
  }

  lemma CommandCounts(lib: Library, m: Machine, cmd: Command, c: nat, lost: nat)
    requires MachineValid(lib, m) && Counted(ClientOf(m, c), lost)
    ensures
      var lost' := if BeginsCall(m, cmd, c) then 0 else lost + if LosesRace(lib, m, cmd, c) then 1 else 0;
      Counted(ClientOf(Do(lib, m, cmd), c), lost')
  {
    if cmd == Get(c) {
      GetCounts(lib, m, c, lost);
    } else if cmd == Exec(c) {
      ExecCounts(lib, m, c, lost);
    } else if cmd.c != c {
      OthersStand(lib, m, cmd, c);
    }
  }

  /** A client's state changes by its own commands alone. */
  lemma OthersStand(lib: Library, m: Machine, cmd: Command, c: nat)
    requires cmd.c != c
    ensures ClientOf(Do(lib, m, cmd), c) == ClientOf(m, c)
  {
  }

  lemma {:induction false} AttemptsCountLostRaces(lib: Library, cmds: seq<Command>, c: nat)
    ensures Counted(ClientOf(Run(lib, cmds), c), LostExecs(lib, cmds, c))
  {
    if cmds != [] {
      var before := cmds[..|cmds| - 1];
      AttemptsCountLostRaces(lib, before, c);
      RunValid(lib, before);
      CommandCounts(lib, Run(lib, before), cmds[|cmds| - 1], c, LostExecs(lib, before, c));
    }
  }

  /**
    * In every run, no call loses more than sixteen races, and ErrAborted is the reply exactly of one that lost
    * sixteen.
    */
  lemma AbortedExactlyAfterSixteen(lib: Library, cmds: seq<Command>, c: nat)
    ensures LostExecs(lib, cmds, c) <= 16
    ensures LostExecs(lib, cmds, c) == 16 <==>
              ClientOf(Run(lib, cmds), c).Finished? && ClientOf(Run(lib, cmds), c).reply == Failed(ErrAborted)
  {
    AttemptsCountLostRaces(lib, cmds, c);
  }

  /** A call that loses its k-th race goes on with the same operation if k < 16, and gives up if k is 16. */
  lemma LostRaceRetries(lib: Library, cmds: seq<Command>, c: nat)
    requires ClientOf(Run(lib, cmds), c).Ready? && Run(lib, cmds + [Exec(c)]).log == Run(lib, cmds).log
    ensures
      var client, client' := ClientOf(Run(lib, cmds), c), ClientOf(Run(lib, cmds + [Exec(c)]), c);
      var k := LostExecs(lib, cmds + [Exec(c)], c);
      && k == LostExecs(lib, cmds, c) + 1 && k <= 16
      && (k < 16 ==> client'.Pending? && client'.op == client.op && client'.from == client.from)
      && (k == 16 ==> client' == Finished(client.op, client.from, Failed(ErrAborted)))
  {
    var all := cmds + [Exec(c)];
    assert all[..|all| - 1] == cmds && all[|all| - 1] == Exec(c);
    AttemptsCountLostRaces(lib, cmds, c);
    RunValid(lib, cmds);
    var m := Run(lib, cmds);
    assert ClientValid(lib, m.ks, m.mods, |m.log|, ClientOf(m, c));
  }

  // ------------------------------------------------------------- what a lost race needs

  /** The identity a call is made for. */
  function OwnId(op: Op): Identity
    requires IsTransaction(op)
  {
    if IsCreate(op) then CreatedId(op) else op.id
  }

  /** The committed call is made for the key, or removes it. */
  ghost predicate Hits(lib: Library, log: Log, i: nat, key: Identity) {
    i < |log| && IsTransaction(log[i].op) &&
    (|| OwnId(log[i].op) == key
     || (key in After(lib, log[..i]) && key !in After(lib, log[..i + 1])))
  }

  /** Some call committed since then hits the key. */
  ghost predicate HitSince(lib: Library, log: Log, since: nat, key: Identity) {
    exists i: nat :: since <= i && Hits(lib, log, i, key)
  }

  lemma HitsLater(lib: Library, log: Log, c: Call, since: nat, key: Identity)
    requires HitSince(lib, log, since, key)
    ensures HitSince(lib, log + [c], since, key)
  {
    var i: nat :| since <= i && Hits(lib, log, i, key);
    assert (log + [c])[..i] == log[..i] && (log + [c])[..i + 1] == log[..i + 1];
    assert Hits(lib, log + [c], i, key);
  }

  lemma SetsItsOwn(lib: Library, op: Op, gets: seq<Option<Record>>)
    requires IsTransaction(op) && |gets| == |Keys(op)|
    ensures
      var plan := Decide(lib, op, gets);
      plan.Write? && plan.put.Some? ==> plan.put.value.0 == OwnId(op)
  {
  }

  /** A commit modifies the key it is made for, and keys it removes. */
  lemma TouchedIsHit(lib: Library, m: Machine, c: nat, since: nat, key: Identity)
    requires MachineValid(lib, m) && ClientOf(m, c).Ready? && Unmodified(m.mods, ClientOf(m, c).watched)
    requires since <= |m.log| && key in Touched(m.ks, ClientOf(m, c).plan)
    ensures HitSince(lib, DoExec(m, c).log, since, key)
  {
    var client, m' := ClientOf(m, c), DoExec(m, c);
    assert ClientValid(lib, m.ks, m.mods, |m.log|, client);
    CommitIsStep(lib, m, c);
    SetsItsOwn(lib, client.op, client.gets);
    assert m'.log[..|m.log|] == m.log && m'.log[..|m.log| + 1] == m'.log;
    assert m'.log[..|m'.log| - 1] == m.log;
    assert Hits(lib, m'.log, |m.log|, key);
  }

  /** The client waits for its EXEC, or reads towards it. */
  predicate Watching(client: Client) { client.Reading? || client.Ready? }

  /** Every key modified since a client's WATCH was hit by a call committed since. */
  ghost predicate RivalsKnown(lib: Library, m: Machine, client: Client) {
    Watching(client) ==>
      && client.since <= |m.log|
      && forall key :: key in client.watched && Count(m.mods, key) != client.watched[key] ==>
                         HitSince(lib, m.log, client.since, key)
  }

  lemma StillOrNewlyWatching(lib: Library, m: Machine, cmd: Command, c: nat)
    requires !cmd.Exec? && Watching(ClientOf(Do(lib, m, cmd), c))
    ensures
      var was, client := ClientOf(m, c), ClientOf(Do(lib, m, cmd), c);
      || (Watching(was) && client.watched == was.watched && client.since == was.since)
      || (client.since == |m.log| && forall key :: key in client.watched ==> client.watched[key] == Count(m.mods, key))
  {
    if cmd.c != c {
      OthersStand(lib, m, cmd, c);
    }
  }

  lemma CommandKeepsRivals(lib: Library, m: Machine, cmd: Command, c: nat)
    requires MachineValid(lib, m) && RivalsKnown(lib, m, ClientOf(m, c))
    ensures RivalsKnown(lib, Do(lib, m, cmd), ClientOf(Do(lib, m, cmd), c))
  {
    if cmd.Exec? {
      ExecKeepsRivals(lib, m, cmd.c, c);
    } else {
      OnlyExecChanges(lib, m, cmd);
      if Watching(ClientOf(Do(lib, m, cmd), c)) {
        StillOrNewlyWatching(lib, m, cmd, c);
      }
    }
  }

  lemma ExecKeepsRivals(lib: Library, m: Machine, o: nat, c: nat)
    requires MachineValid(lib, m) && RivalsKnown(lib, m, ClientOf(m, c))
    ensures RivalsKnown(lib, DoExec(m, o), ClientOf(DoExec(m, o), c))
  {
    var client, rival, m' := ClientOf(m, c), ClientOf(m, o), DoExec(m, o);
    if o != c && Watching(client) && rival.Ready? && Unmodified(m.mods, rival.watched) {
      assert ClientValid(lib, m.ks, m.mods, |m.log|, rival);
      forall key | key in client.watched && Count(m'.mods, key) != client.watched[key]
        ensures HitSince(lib, m'.log, client.since, key)
      {
        if key in Touched(m.ks, rival.plan) {
          TouchedIsHit(lib, m, o, client.since, key);
        } else {
          HitsLater(lib, m.log, Call(rival.op, rival.plan.reply), client.since, key);
        }
      }
    }
  }

  lemma {:induction false} RunKnowsRivals(lib: Library, cmds: seq<Command>, c: nat)
    ensures RivalsKnown(lib, Run(lib, cmds), ClientOf(Run(lib, cmds), c))
  {
    if cmds != [] {
      var before := cmds[..|cmds| - 1];
      RunKnowsRivals(lib, before, c);
      RunValid(lib, before);
      CommandKeepsRivals(lib, Run(lib, before), cmds[|cmds| - 1], c);
    }
  }

  /**
    * An EXEC is lost only to a rival: since the WATCH, a committed call was made for one of the keys watched, or
    * removed it. Commits elsewhere cost nothing.
    */
  lemma LostRaceHasRival(lib: Library, cmds: seq<Command>, c: nat)
    requires ClientOf(Run(lib, cmds), c).Ready? && Run(lib, cmds + [Exec(c)]).log == Run(lib, cmds).log
    ensures IsTransaction(ClientOf(Run(lib, cmds), c).op)
    ensures exists key :: && key in Keys(ClientOf(Run(lib, cmds), c).op)
                          && HitSince(lib, Run(lib, cmds).log, ClientOf(Run(lib, cmds), c).since, key)
  {
    var all, m := cmds + [Exec(c)], Run(lib, cmds);
    assert all[..|all| - 1] == cmds && all[|all| - 1] == Exec(c);
    RunValid(lib, cmds);
    RunKnowsRivals(lib, cmds, c);
    var client := ClientOf(m, c);
    assert ClientValid(lib, m.ks, m.mods, |m.log|, client);
    assert !Unmodified(m.mods, client.watched);
    var key :| key in client.watched && Count(m.mods, key) != client.watched[key];
    assert key in Keys(client.op);
  }
}
