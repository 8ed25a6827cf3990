/**
  * Replicas contending for one Lease, in real time. Lease writes are compare-and-swap on the resource version and may
  * be delayed anywhere: between issue and commit, and between commit and response. Each replica measures time on its
  * own clock, may pause at any point, and sends cluster writes only through the freshness gate.
  */
module LeaseGate {
  import opened Desire

  const LEASE_DURATION: real := 120.0
  const RETRY_PERIOD: real := 10.0
  const BOUND: real := LEASE_DURATION - RETRY_PERIOD
  const WRITE_TIMEOUT: real := 30.0

  /** The reading of a replica's clock at a true time. */
  type Clocks = (nat, real) -> real

  /**
    * Clocks never run backward, and when one measures a full Lease duration any other measures it short by at most
    * `skew`.
    */
  ghost predicate ClocksAgree(clk: Clocks, skew: real) {
    && (forall r: nat, t: real, u: real :: t <= u ==> clk(r, t) <= clk(r, u))
    && (forall a: nat, b: nat, t: real, u: real :: t <= u && clk(b, u) - clk(b, t) >= LEASE_DURATION ==>
                               clk(a, u) - clk(a, t) >= LEASE_DURATION - skew)
  }

  /** `delay` bounds what a replica's clock advances between the two readings inside WriteContext. */
  datatype Params = Params(clk: Clocks, skew: real, delay: real)

  /** Resource version 0 stands for a Lease that does not exist yet; `at` is the true time of the last commit. */
  datatype Lease = Lease(holder: Option<nat>, rv: nat, at: real)

  datatype Fetch = Fetch(rv: nat, holder: Option<nat>)

  /** A record a standby is watching, and its clock when it first saw it. */
  datatype Seen = Seen(rv: nat, since: real)

  /** A Lease write in flight; `issued` is the writer's clock when it was issued, `holder` what it would store. */
  datatype LeaseWrite = LeaseWrite(replica: nat, base: nat, issued: real, holder: Option<nat>)

  /** A committed Lease write whose response its writer has not handled, or has. */
  datatype Ack = Ack(replica: nat, issued: real)

  /** One cluster write: gate checked, remaining window measured, write context made. */
  datatype Writer = Idle | Allowed | Measured(window: real, reading: real) | Open(deadline: real)

  datatype Replica = Replica(
    lastSuccess: Option<real>,
    fetched: Option<Fetch>,
    seen: Option<Seen>,
    writer: Writer,
    cancelled: bool,
    drained: bool)

  const STANDBY := Replica(None, None, None, Idle, false, false)

  /** A cluster write that left a replica, and the Lease holder at that moment. */
  datatype Sent = Sent(replica: nat, holder: Option<nat>)

  datatype World = World(
    now: real, lease: Lease, replicas: map<nat, Replica>, inflight: set<LeaseWrite>, acks: set<Ack>, sent: seq<Sent>)

  const START := World(0.0, Lease(None, 0, 0.0), map[], {}, {}, [])

  datatype Event =
    | Tick(dt: real)
    | ReadLease(r: nat)
    | Observe(r: nat)
    | IssueLease(r: nat)
    | HandOver(r: nat)
    | CommitLease(w: LeaseWrite)
    | Respond(ack: Ack)
    | CheckGate(r: nat)
    | WatchGate(r: nat)
    | MeasureWindow(r: nat)
    | MakeContext(r: nat)
    | Send(r: nat)
    | EndWrite(r: nat)
    | Cancel(r: nat)
    | Drain(r: nat)

  function Of(w: World, r: nat): Replica { if r in w.replicas then w.replicas[r] else STANDBY }

  function With(w: World, r: nat, x: Replica): World { w.(replicas := w.replicas[r := x]) }

  function Clock(p: Params, w: World, r: nat): real { p.clk(r, w.now) }

  /** sinceLastSuccess is within the bound; a lock that never succeeded is infinitely stale. */
  predicate Fresh(p: Params, w: World, r: nat) {
    Of(w, r).lastSuccess.Some? && Clock(p, w, r) - Of(w, r).lastSuccess.value <= BOUND
  }

  /** markSuccess never moves the time backward. */
  function MarkSuccess(last: Option<real>, issued: real): Option<real> {
    if last.None? || issued > last.value then Some(issued) else last
  }

  /** A replica may write the Lease if it holds it, if nobody does, or if it watched one record for a full duration. */
  predicate MayTake(p: Params, w: World, r: nat) {
    var x := Of(w, r);
    && x.fetched.Some? && x.seen.Some? && x.seen.value.rv == x.fetched.value.rv
    && (x.fetched.value.holder == Some(r) || x.fetched.value.holder.None? ||
        Clock(p, w, r) >= x.seen.value.since + LEASE_DURATION)
  }

  predicate Enabled(p: Params, w: World, e: Event) {
    match e
    case Tick(dt) => dt >= 0.0
    case ReadLease(_) => true
    case Observe(r) => Of(w, r).fetched.Some? &&
      (Of(w, r).seen.None? || Of(w, r).seen.value.rv != Of(w, r).fetched.value.rv)
    case IssueLease(r) => !Of(w, r).drained && MayTake(p, w, r)
    case HandOver(r) => Of(w, r).drained && Of(w, r).fetched.Some? && Of(w, r).fetched.value.holder == Some(r)
    case CommitLease(x) => x in w.inflight && x.base == w.lease.rv
    case Respond(a) => a in w.acks
    case CheckGate(r) => Of(w, r).writer.Idle? && !Of(w, r).cancelled && !Of(w, r).drained
    case WatchGate(r) => !Of(w, r).drained
    case MeasureWindow(r) => Of(w, r).writer.Allowed? && Of(w, r).lastSuccess.Some?
    case MakeContext(r) =>
      Of(w, r).writer.Measured? && Clock(p, w, r) - Of(w, r).writer.reading <= p.delay
    case Send(r) => Of(w, r).writer.Open? && Clock(p, w, r) < Of(w, r).writer.deadline && !Of(w, r).cancelled
    case EndWrite(_) => true
    case Cancel(_) => true
    case Drain(r) => Of(w, r).writer.Idle?
  }

  function Min(a: real, b: real): real { if a < b then a else b }

  function Do(p: Params, w: World, e: Event): World {
    if !Enabled(p, w, e) then w
    else
      match e
      case Tick(dt) => w.(now := w.now + dt)
      case ReadLease(r) => With(w, r, Of(w, r).(fetched := Some(Fetch(w.lease.rv, w.lease.holder))))
      case Observe(r) => With(w, r, Of(w, r).(seen := Some(Seen(Of(w, r).fetched.value.rv, Clock(p, w, r)))))
      case IssueLease(r) =>
        w.(inflight := w.inflight + {LeaseWrite(r, Of(w, r).fetched.value.rv, Clock(p, w, r), Some(r))})
      case HandOver(r) =>
        w.(inflight := w.inflight + {LeaseWrite(r, Of(w, r).fetched.value.rv, Clock(p, w, r), None)})
      case CommitLease(x) =>
        w.(lease := Lease(x.holder, w.lease.rv + 1, w.now), acks := w.acks + {Ack(x.replica, x.issued)})
      case Respond(a) =>
        With(w, a.replica, Of(w, a.replica).(lastSuccess := MarkSuccess(Of(w, a.replica).lastSuccess, a.issued)))
      case CheckGate(r) =>
        With(w, r, if Fresh(p, w, r) then Of(w, r).(writer := Allowed) else Of(w, r).(cancelled := true))
      case WatchGate(r) => if Fresh(p, w, r) then w else With(w, r, Of(w, r).(cancelled := true))
      case MeasureWindow(r) =>
        var remaining := BOUND - (Clock(p, w, r) - Of(w, r).lastSuccess.value);
        With(w, r, Of(w, r).(writer := Measured(Min(WRITE_TIMEOUT, remaining), Clock(p, w, r))))
      case MakeContext(r) => With(w, r, Of(w, r).(writer := Open(Clock(p, w, r) + Of(w, r).writer.window)))
      case Send(r) => w.(sent := w.sent + [Sent(r, w.lease.holder)])
      case EndWrite(r) => With(w, r, Of(w, r).(writer := Idle))
      case Cancel(r) => With(w, r, Of(w, r).(cancelled := true))
      case Drain(r) => With(w, r, Of(w, r).(drained := true, cancelled := true))
  }

  function Run(p: Params, es: seq<Event>): World {
    if es == [] then START else Do(p, Run(p, es[..|es| - 1]), es[|es| - 1])
  }

  // ------------------------------------------------------------- the invariant

  /** The clock readings at which replica `r` issued writes that are known to have committed. */
  ghost predicate Stamp(w: World, r: nat, x: real) {
    Ack(r, x) in w.acks || Of(w, r).lastSuccess == Some(x)
  }

  /** Every such reading is a Lease duration, less the skew, in the past. */
  ghost predicate Expired(p: Params, w: World, r: nat) {
    forall x :: Stamp(w, r, x) ==> Clock(p, w, r) >= x + LEASE_DURATION - p.skew
  }

  ghost predicate ReplicaValid(p: Params, w: World, r: nat) {
    var x := Of(w, r);
    && (x.fetched.Some? ==> x.fetched.value.rv <= w.lease.rv)
    && (x.fetched.Some? && x.fetched.value.rv == w.lease.rv ==> x.fetched.value.holder == w.lease.holder)
    && (x.seen.Some? ==> x.seen.value.rv <= w.lease.rv)
    && (x.seen.Some? && x.seen.value.rv == w.lease.rv ==> x.seen.value.since >= p.clk(r, w.lease.at))
    && (x.drained ==> x.writer.Idle?)
    && (match x.writer
        case Idle => true
        case Allowed => true
        case Measured(window, reading) => x.lastSuccess.Some? && window + reading <= x.lastSuccess.value + BOUND
        case Open(deadline) => x.lastSuccess.Some? && deadline <= x.lastSuccess.value + BOUND + p.delay)
  }

  /** A Lease write that would still commit was allowed by the record it would replace. */
  ghost predicate WriteValid(p: Params, w: World, x: LeaseWrite) {
    && x.base <= w.lease.rv
    && x.issued <= Clock(p, w, x.replica)
    && (x.holder == Some(x.replica) || (x.holder.None? && Of(w, x.replica).drained))
    && (x.base == w.lease.rv ==>
          || w.lease.holder.None?
          || w.lease.holder == Some(x.replica)
          || x.issued >= p.clk(x.replica, w.lease.at) + LEASE_DURATION)
  }

  ghost predicate Valid(p: Params, w: World) {
    && w.lease.at <= w.now
    && (forall r: nat :: ReplicaValid(p, w, r))
    && (forall x :: x in w.inflight ==> WriteValid(p, w, x))
    && (forall r: nat, x: real :: Stamp(w, r, x) ==> x <= p.clk(r, w.lease.at))
    && (forall r: nat :: w.lease.holder == Some(r) || Of(w, r).drained || Expired(p, w, r))
    && (forall i :: 0 <= i < |w.sent| ==> w.sent[i].holder == Some(w.sent[i].replica))
  }

  lemma StartValid(p: Params)
    ensures Valid(p, START)
  {
  }

  lemma Monotone(p: Params, r: nat, t: real, u: real)
    requires ClocksAgree(p.clk, p.skew) && t <= u
    ensures p.clk(r, t) <= p.clk(r, u)
  {
  }

  lemma TickKeeps(p: Params, w: World, dt: real)
    requires ClocksAgree(p.clk, p.skew) && Valid(p, w) && dt >= 0.0
    ensures Valid(p, Do(p, w, Tick(dt)))
  {
    var w' := Do(p, w, Tick(dt));
    forall r: nat
      ensures Clock(p, w, r) <= Clock(p, w', r)
    {
      Monotone(p, r, w.now, w'.now);
    }
    assert forall r: nat :: Of(w', r) == Of(w, r);
    assert forall r: nat, x: real :: Stamp(w', r, x) == Stamp(w, r, x);
    forall r: nat
      ensures w'.lease.holder == Some(r) || Of(w', r).drained || Expired(p, w', r)
      ensures ReplicaValid(p, w', r)
    {
      assert ReplicaValid(p, w, r);
    }
  }

  /** Events that change one replica, other than the handling of a Lease response, add no stamp. */
  lemma LocalKeeps(p: Params, w: World, r: nat, x: Replica)
    requires Valid(p, w) && ReplicaValid(p, With(w, r, x), r)
    requires x.lastSuccess == Of(w, r).lastSuccess && (Of(w, r).drained ==> x.drained)
    ensures Valid(p, With(w, r, x))
  {
    var w' := With(w, r, x);
    assert forall o: nat, y: real :: Stamp(w', o, y) == Stamp(w, o, y);
    forall o: nat
      ensures ReplicaValid(p, w', o)
      ensures w'.lease.holder == Some(o) || Of(w', o).drained || Expired(p, w', o)
    {
      assert ReplicaValid(p, w, o);
      assert w.lease.holder == Some(o) || Of(w, o).drained || Expired(p, w, o);
    }
    forall y | y in w'.inflight
      ensures WriteValid(p, w', y)
    {
      assert WriteValid(p, w, y);
    }
  }

  lemma RespondKeeps(p: Params, w: World, a: Ack)
    requires Valid(p, w) && a in w.acks
    ensures Valid(p, Do(p, w, Respond(a)))
  {
    var w' := Do(p, w, Respond(a));
    forall o: nat, y: real | Stamp(w', o, y)
      ensures Stamp(w, o, y)
    {
    }
    forall o: nat
      ensures ReplicaValid(p, w', o)
      ensures w'.lease.holder == Some(o) || Of(w', o).drained || Expired(p, w', o)
    {
      assert ReplicaValid(p, w, o);
      assert w.lease.holder == Some(o) || Of(w, o).drained || Expired(p, w, o);
    }
    forall y | y in w'.inflight
      ensures WriteValid(p, w', y)
    {
      assert WriteValid(p, w, y);
    }
  }

  lemma IssueKeeps(p: Params, w: World, e: Event)
    requires Valid(p, w) && (e.IssueLease? || e.HandOver?) && Enabled(p, w, e)
    ensures Valid(p, Do(p, w, e))
  {
    var w' := Do(p, w, e);
    assert ReplicaValid(p, w, e.r);
    assert forall o: nat :: Of(w', o) == Of(w, o);
    assert forall o: nat, y: real :: Stamp(w', o, y) == Stamp(w, o, y);
    forall o: nat
      ensures ReplicaValid(p, w', o)
      ensures w'.lease.holder == Some(o) || Of(w', o).drained || Expired(p, w', o)
    {
      assert ReplicaValid(p, w, o);
      assert w.lease.holder == Some(o) || Of(w, o).drained || Expired(p, w, o);
    }
    forall y | y in w'.inflight
      ensures WriteValid(p, w', y)
    {
      if y in w.inflight {
        assert WriteValid(p, w, y);
      }
    }
  }

  /**
    * When a write takes the Lease from another holder, everything that holder ever committed has expired on its own
    * clock.
    */
  lemma TakeoverExpires(p: Params, w: World, x: LeaseWrite, a: nat)
    requires ClocksAgree(p.clk, p.skew) && Valid(p, w)
    requires x in w.inflight && x.base == w.lease.rv
    requires w.lease.holder == Some(a) && x.replica != a
    ensures Expired(p, w, a)
  {
    assert WriteValid(p, w, x);
    var b := x.replica;
    assert p.clk(b, w.now) - p.clk(b, w.lease.at) >= LEASE_DURATION;
    assert p.clk(a, w.now) - p.clk(a, w.lease.at) >= LEASE_DURATION - p.skew;
  }

  lemma CommitKeeps(p: Params, w: World, x: LeaseWrite)
    requires ClocksAgree(p.clk, p.skew) && Valid(p, w) && Enabled(p, w, CommitLease(x))
    ensures Valid(p, Do(p, w, CommitLease(x)))
  {
    var w' := Do(p, w, CommitLease(x));
    assert WriteValid(p, w, x);
    assert forall o: nat :: Of(w', o) == Of(w, o);
    forall o: nat, y: real | Stamp(w', o, y)
      ensures y <= p.clk(o, w'.lease.at)
    {
      if Stamp(w, o, y) {
        Monotone(p, o, w.lease.at, w.now);
      } else {
        assert o == x.replica && y == x.issued;
      }
    }
    forall o: nat
      ensures ReplicaValid(p, w', o)
      ensures w'.lease.holder == Some(o) || Of(w', o).drained || Expired(p, w', o)
    {
      assert ReplicaValid(p, w, o);
      assert w.lease.holder == Some(o) || Of(w, o).drained || Expired(p, w, o);
      if o != x.replica {
        if w.lease.holder == Some(o) {
          TakeoverExpires(p, w, x, o);
        }
        assert forall y: real :: Stamp(w', o, y) == Stamp(w, o, y);
      }
    }
    forall y | y in w'.inflight
      ensures WriteValid(p, w', y)
    {
      assert WriteValid(p, w, y);
    }
  }

  /** A replica whose write context has not run out holds the Lease. */
  lemma OpenMeansHolder(p: Params, w: World, r: nat)
    requires Valid(p, w) && p.skew + p.delay <= RETRY_PERIOD
    requires Enabled(p, w, Send(r))
    ensures w.lease.holder == Some(r)
  {
    assert ReplicaValid(p, w, r);
    var last := Of(w, r).lastSuccess.value;
    assert Stamp(w, r, last);
    assert w.lease.holder == Some(r) || Of(w, r).drained || Expired(p, w, r);
  }

  lemma DoKeeps(p: Params, w: World, e: Event)
    requires ClocksAgree(p.clk, p.skew) && p.skew + p.delay <= RETRY_PERIOD && Valid(p, w)
    ensures Valid(p, Do(p, w, e))
  {
    if Enabled(p, w, e) {
      match e
      case Tick(dt) => TickKeeps(p, w, dt);
      case CommitLease(x) => CommitKeeps(p, w, x);
      case Respond(a) => RespondKeeps(p, w, a);
      case IssueLease(r) => IssueKeeps(p, w, e);
      case HandOver(r) => IssueKeeps(p, w, e);
      case Send(r) => SendKeeps(p, w, r);
      case ReadLease(r) => LocalStep(p, w, r, e);
      case Observe(r) => LocalStep(p, w, r, e);
      case CheckGate(r) => LocalStep(p, w, r, e);
      case WatchGate(r) => LocalStep(p, w, r, e);
      case MeasureWindow(r) => LocalStep(p, w, r, e);
      case MakeContext(r) => LocalStep(p, w, r, e);
      case EndWrite(r) => LocalStep(p, w, r, e);
      case Cancel(r) => LocalStep(p, w, r, e);
      case Drain(r) => LocalStep(p, w, r, e);
    }
  }

  lemma SendKeeps(p: Params, w: World, r: nat)
    requires p.skew + p.delay <= RETRY_PERIOD && Valid(p, w) && Enabled(p, w, Send(r))
    ensures Valid(p, Do(p, w, Send(r)))
  {
    OpenMeansHolder(p, w, r);
    var w' := Do(p, w, Send(r));
    assert forall o: nat :: Of(w', o) == Of(w, o);
    assert forall o: nat, y: real :: Stamp(w', o, y) == Stamp(w, o, y);
    forall o: nat
      ensures ReplicaValid(p, w', o)
      ensures w'.lease.holder == Some(o) || Of(w', o).drained || Expired(p, w', o)
    {
      assert ReplicaValid(p, w, o);
      assert w.lease.holder == Some(o) || Of(w, o).drained || Expired(p, w, o);
    }
    forall y | y in w'.inflight
      ensures WriteValid(p, w', y)
    {
      assert WriteValid(p, w, y);
    }
  }

  lemma LocalStep(p: Params, w: World, r: nat, e: Event)
    requires ClocksAgree(p.clk, p.skew) && Valid(p, w) && Enabled(p, w, e)
    requires e == ReadLease(r) || e == Observe(r) || e == CheckGate(r) || e == WatchGate(r) || e == MeasureWindow(r)
          || e == MakeContext(r) || e == EndWrite(r) || e == Cancel(r) || e == Drain(r)
    ensures Valid(p, Do(p, w, e))
  {
    var w' := Do(p, w, e);
    assert ReplicaValid(p, w, r);
    if w' != w {
      Monotone(p, r, w.lease.at, w.now);
      LocalKeeps(p, w, r, Of(w', r));
      assert w' == With(w, r, Of(w', r));
    }
  }

  lemma {:induction false} RunValid(p: Params, es: seq<Event>)
    requires ClocksAgree(p.clk, p.skew) && p.skew + p.delay <= RETRY_PERIOD
    ensures Valid(p, Run(p, es))
  {
    if es == [] {
      StartValid(p);
    } else {
      RunValid(p, es[..|es| - 1]);
      DoKeeps(p, Run(p, es[..|es| - 1]), es[|es| - 1]);
    }
  }

  // -------------------------------------------------------------- the theorems

  /** Every cluster write a run sends leaves the replica that holds the Lease at that moment. */
  ghost predicate OnlyHolderSends(p: Params, es: seq<Event>) {
    forall i :: 0 <= i < |Run(p, es).sent| ==> Run(p, es).sent[i].holder == Some(Run(p, es).sent[i].replica)
  }

  /** For clocks within the skew, every run is safe exactly when skew plus delay fits in one retry period. */
  lemma SafeExactlyWhen(skew: real, delay: real)
    requires skew >= 0.0 && delay >= 0.0
    ensures (forall clk: Clocks, es :: ClocksAgree(clk, skew) ==> OnlyHolderSends(Params(clk, skew, delay), es))
            <==> skew + delay <= RETRY_PERIOD
  {
    if skew + delay <= RETRY_PERIOD {
      forall clk: Clocks, es | ClocksAgree(clk, skew)
        ensures OnlyHolderSends(Params(clk, skew, delay), es)
      {
        RunValid(Params(clk, skew, delay), es);
      }
    } else {
      var clk := PausedClock(skew);
      PausedClockAgrees(skew);
      var es := LateSend(Params(clk, skew, delay));
      assert Run(Params(clk, skew, delay), es).sent[0] == Sent(0, Some(1));
      assert !OnlyHolderSends(Params(clk, skew, delay), es);
    }
  }

  /**
    * After a replica's gate has denied once, it never sends again, whatever happens and however fresh the Lease
    * becomes.
    */
  lemma {:induction false} DenialIsFinal(p: Params, es: seq<Event>, more: seq<Event>, r: nat)
    requires Of(Run(p, es), r).cancelled
    ensures Run(p, es).sent <= Run(p, es + more).sent
    ensures forall i :: |Run(p, es).sent| <= i < |Run(p, es + more).sent| ==> Run(p, es + more).sent[i].replica != r
    ensures Of(Run(p, es + more), r).cancelled
    decreases |more|
  {
    if more == [] {
      assert es + more == es;
    } else {
      var before := more[..|more| - 1];
      DenialIsFinal(p, es, before, r);
      assert (es + more)[..|es + more| - 1] == es + before;
    }
  }

  /** A check of the gate, by a write path or by the watcher, on a Lease write past the bound is a denial. */
  lemma StaleCheckDenies(p: Params, w: World, r: nat, e: Event)
    requires (e == CheckGate(r) && Enabled(p, w, e)) || (e == WatchGate(r) && Enabled(p, w, e))
    requires !Fresh(p, w, r)
    ensures Of(Do(p, w, e), r).cancelled
  {
  }

  // ----------------------------------------------------- what a replica can always do

  lemma Append(p: Params, es: seq<Event>, e: Event)
    ensures Run(p, es + [e]) == Do(p, Run(p, es), e)
  {
    assert (es + [e])[..|es|] == es;
  }

  /** In any run, a leader whose last Lease write is less than 110 seconds old gets a cluster write out at once. */
  lemma FreshLeaderSends(p: Params, es: seq<Event>, r: nat)
    requires p.delay >= 0.0
    requires
      var w := Run(p, es);
      && Of(w, r).writer.Idle? && !Of(w, r).cancelled && !Of(w, r).drained
      && Of(w, r).lastSuccess.Some? && Clock(p, w, r) - Of(w, r).lastSuccess.value < 110.0
    ensures
      var w, w' := Run(p, es), Run(p, es + [CheckGate(r)] + [MeasureWindow(r)] + [MakeContext(r)] + [Send(r)]);
      w'.sent == w.sent + [Sent(r, w.lease.holder)] && w'.now == w.now && w'.lease == w.lease
  {
    var checked := es + [CheckGate(r)];
    var measured := checked + [MeasureWindow(r)];
    Append(p, es, CheckGate(r));
    Append(p, checked, MeasureWindow(r));
    Append(p, measured, MakeContext(r));
    Append(p, measured + [MakeContext(r)], Send(r));
  }

  /** The Lease write of a replica that takes what it just read. */
  function TakeNow(p: Params, w: World, r: nat): LeaseWrite { LeaseWrite(r, w.lease.rv, Clock(p, w, r), Some(r)) }

  /** In any run, a Lease that was handed over, or never held, is there for any replica to take at once. */
  lemma FreeLeaseIsTaken(p: Params, es: seq<Event>, r: nat)
    requires Run(p, es).lease.holder.None? && !Of(Run(p, es), r).drained
    ensures
      var w := Run(p, es);
      var w' := Run(p, es + [ReadLease(r)] + [Observe(r)] + [IssueLease(r)] + [CommitLease(TakeNow(p, w, r))]);
      w'.lease == Lease(Some(r), w.lease.rv + 1, w.now) && w'.now == w.now
  {
    var read := es + [ReadLease(r)];
    var observed := read + [Observe(r)];
    Append(p, es, ReadLease(r));
    Append(p, read, Observe(r));
    Append(p, observed, IssueLease(r));
    Append(p, observed + [IssueLease(r)], CommitLease(TakeNow(p, Run(p, es), r)));
  }

  // ------------------------------------------------- a late write beyond the limit

  /** A clock that stands still for the first `skew` seconds. */
  function Paused(skew: real, t: real): real {
    if t <= 0.0 then t else if t <= skew then 0.0 else t - skew
  }

  function PausedClock(skew: real): Clocks {
    (r: nat, t: real) => if r == 0 then Paused(skew, t) else t
  }

  lemma PausedFallsShort(skew: real, t: real, u: real)
    requires skew >= 0.0 && t <= u
    ensures u - t - skew <= Paused(skew, u) - Paused(skew, t) <= u - t
    ensures Paused(skew, t) <= Paused(skew, u)
  {
  }

  lemma PausedMeasures(skew: real, r: nat, t: real, u: real)
    requires skew >= 0.0 && t <= u
    ensures u - t - skew <= PausedClock(skew)(r, u) - PausedClock(skew)(r, t) <= u - t
  {
    PausedFallsShort(skew, t, u);
  }

  lemma PausedClockAgrees(skew: real)
    requires skew >= 0.0
    ensures ClocksAgree(PausedClock(skew), skew)
  {
    var clk := PausedClock(skew);
    forall r: nat, t: real, u: real | t <= u
      ensures clk(r, t) <= clk(r, u)
    {
      PausedFallsShort(skew, t, u);
    }
    forall a: nat, b: nat, t: real, u: real | t <= u && clk(b, u) - clk(b, t) >= LEASE_DURATION
      ensures clk(a, u) - clk(a, t) >= LEASE_DURATION - skew
    {
      PausedMeasures(skew, a, t, u);
      PausedMeasures(skew, b, t, u);
    }
  }

  /** Replica 0 issues its first Lease write at time 0. */
  lemma Issued(p: Params) returns (es: seq<Event>)
    requires p.clk == PausedClock(p.skew) && p.skew >= 0.0
    ensures
      var x := Replica(None, Some(Fetch(0, None)), Some(Seen(0, 0.0)), Idle, false, false);
      Run(p, es) == START.(replicas := map[0 := x], inflight := {LeaseWrite(0, 0, 0.0, Some(0))})
  {
    es := [];
    Append(p, es, ReadLease(0)); es := es + [ReadLease(0)];
    Append(p, es, Observe(0)); es := es + [Observe(0)];
    Append(p, es, IssueLease(0)); es := es + [IssueLease(0)];
  }

  /** Replica 0 acquires at time 0 and replica 1 sees its record at once. */
  lemma Acquired(p: Params) returns (es: seq<Event>)
    requires p.clk == PausedClock(p.skew) && p.skew >= 0.0
    ensures
      var w := Run(p, es);
      && w.now == 0.0 && w.lease == Lease(Some(0), 1, 0.0) && w.sent == []
      && Of(w, 0) == Replica(Some(0.0), Some(Fetch(0, None)), Some(Seen(0, 0.0)), Idle, false, false)
      && Of(w, 1) == Replica(None, Some(Fetch(1, Some(0))), Some(Seen(1, 0.0)), Idle, false, false)
  {
    es := Issued(p);
    var x := LeaseWrite(0, 0, 0.0, Some(0));
    Append(p, es, CommitLease(x)); es := es + [CommitLease(x)];
    Append(p, es, Respond(Ack(0, 0.0))); es := es + [Respond(Ack(0, 0.0))];
    Append(p, es, ReadLease(1)); es := es + [ReadLease(1)];
    Append(p, es, Observe(1)); es := es + [Observe(1)];
  }

  /** Replica 0 measures ten seconds left on its window, pauses for `delay`, and makes its write context. */
  lemma ContextMade(p: Params) returns (es: seq<Event>)
    requires p.clk == PausedClock(p.skew) && p.skew >= 0.0 && p.delay >= 0.0
    ensures
      var w := Run(p, es);
      && w.now == 100.0 + p.skew + p.delay && w.lease == Lease(Some(0), 1, 0.0) && w.sent == []
      && Of(w, 0).writer == Open(110.0 + p.delay) && !Of(w, 0).cancelled
      && Of(w, 1) == Replica(None, Some(Fetch(1, Some(0))), Some(Seen(1, 0.0)), Idle, false, false)
  {
    es := Acquired(p);
    Append(p, es, Tick(100.0 + p.skew)); es := es + [Tick(100.0 + p.skew)];
    assert Clock(p, Run(p, es), 0) == 100.0;
    Append(p, es, CheckGate(0)); es := es + [CheckGate(0)];
    Append(p, es, MeasureWindow(0)); es := es + [MeasureWindow(0)];
    assert Of(Run(p, es), 0).writer == Measured(10.0, 100.0);
    Append(p, es, Tick(p.delay)); es := es + [Tick(p.delay)];
    Append(p, es, MakeContext(0)); es := es + [MakeContext(0)];
  }

  /** Replica 1 takes the expired Lease, and replica 0 still sends. */
  lemma LateSend(p: Params) returns (es: seq<Event>)
    requires p.clk == PausedClock(p.skew) && p.skew >= 0.0 && p.delay >= 0.0
    requires p.skew + p.delay > RETRY_PERIOD
    ensures Run(p, es).sent == [Sent(0, Some(1))]
  {
    es := ContextMade(p);
    var wait := if p.skew + p.delay < 20.0 then 20.0 - p.skew - p.delay else 0.0;
    Append(p, es, Tick(wait)); es := es + [Tick(wait)];
    var at := Run(p, es).now;
    assert at >= 120.0 && at - p.skew < 110.0 + p.delay;
    Append(p, es, IssueLease(1)); es := es + [IssueLease(1)];
    var x := LeaseWrite(1, 1, at, Some(1));
    Append(p, es, CommitLease(x)); es := es + [CommitLease(x)];
    Append(p, es, Send(0)); es := es + [Send(0)];
  }
}
