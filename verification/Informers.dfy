/** The set of running per-desire informers, and the life of each one's stop channel. */
module Informers {
  import opened Desire

  datatype Gvr = Gvr(group: Str, version: string, resource: Str)

  datatype InformerTarget = InformerTarget(gvr: Gvr, namespace: Str, name: Str)

  /** A running informer; its stop channel is its own, so it also names the informer. */
  datatype Tracked = Tracked(gvr: Gvr, stopCh: nat)

  ghost predicate Live(informers: map<Identity, Tracked>, made: nat, open: set<nat>, closes: multiset<nat>) {
    && (forall k :: k in informers ==> informers[k].stopCh in open)
    && (forall k, l :: k in informers && l in informers && informers[k].stopCh == informers[l].stopCh ==> k == l)
    && (forall c :: c in open ==> c < made && exists k :: k in informers && informers[k].stopCh == c)
    && (forall c: nat :: closes[c] == if c < made && c !in open then 1 else 0)
  }

  /** Both maps treat the key alike: untracked, or the very same informer. */
  ghost predicate SameAt(a: map<Identity, Tracked>, b: map<Identity, Tracked>, key: Identity) {
    && (key in a <==> key in b)
    && (key in a ==> a[key] == b[key])
  }

  /** The informer of the key already runs on the wanted resource. */
  predicate Fits(informers: map<Identity, Tracked>, key: Identity, target: InformerTarget) {
    key in informers && informers[key].gvr == target.gvr
  }

  /**
    * What one reconciliation owes a wanted key: the very same informer if it fits, else a fresh one on the wanted
    * resource, unless wiring its event handler breaks, which leaves the key untracked.
    */
  ghost predicate Served(before: map<Identity, Tracked>, first: nat, after: map<Identity, Tracked>, key: Identity,
                         target: InformerTarget, breaks: bool)
  {
    if Fits(before, key, target) then key in after && after[key] == before[key]
    else if breaks then key !in after
    else Fits(after, key, target) && after[key].stopCh >= first
  }

  /** A listed desire, and the resource it resolved to in this tick, if any. */
  datatype Listed = Listed(id: Identity, gvr: Option<Gvr>)

  type Poll = seq<Listed>

  function SeenIn(poll: Poll): set<Identity> { set x | x in poll :: x.id }

  /** The wanted targets; a later entry for the same desire replaces an earlier one. */
  function WantedOf(poll: Poll): map<Identity, InformerTarget> {
    if poll == [] then map[]
    else
      var last, want := poll[|poll| - 1], WantedOf(poll[..|poll| - 1]);
      if last.gvr.None? then want
      else want[last.id := InformerTarget(last.gvr.value, last.id.target.namespace, last.id.target.name)]
  }

  /** A desire is wanted exactly when it resolved, and then on a resource it resolved to, for its own object. */
  lemma {:induction false} WantedExactlyResolved(poll: Poll, id: Identity)
    ensures id in WantedOf(poll) <==> exists i :: 0 <= i < |poll| && poll[i].id == id && poll[i].gvr.Some?
    ensures id in WantedOf(poll) ==>
              && Listed(id, Some(WantedOf(poll)[id].gvr)) in poll
              && WantedOf(poll)[id].namespace == id.target.namespace && WantedOf(poll)[id].name == id.target.name
  {
    if poll != [] {
      var before := poll[..|poll| - 1];
      WantedExactlyResolved(before, id);
      if exists i :: 0 <= i < |before| && before[i].id == id && before[i].gvr.Some? {
        var i :| 0 <= i < |before| && before[i].id == id && before[i].gvr.Some?;
        assert poll[i] == before[i];
      }
    }
  }

  /** What is tracked, and how many stop channels were made for it. */
  datatype Moment = Moment(informers: map<Identity, Tracked>, made: nat)

  /** Each desire of the poll that resolved is served, one that did not keeps its informer, no other is tracked. */
  ghost predicate ServesPoll(poll: Poll, before: Moment, after: Moment, breaks: set<Identity>) {
    && (forall k :: k in WantedOf(poll) ==>
          Served(before.informers, before.made, after.informers, k, WantedOf(poll)[k], k in breaks))
    && (forall k :: k in SeenIn(poll) && k !in WantedOf(poll) ==> SameAt(after.informers, before.informers, k))
    && (forall k :: k !in SeenIn(poll) ==> k !in after.informers)
  }

  /**
    * What a poll tick meets: a listing that fails, or one of which `visits` desires are visited before the context
    * ends, and the keys whose event handler breaks.
    */
  datatype Tick = ListFails | Lists(poll: Poll, visits: nat, breaks: set<Identity>)

  /** The context ends before all listed desires are visited. */
  predicate Aborts(tick: Tick) { tick.Lists? && tick.visits < |tick.poll| }

  /** A tick whose listing fails or that the context ends leaves the set alone; any other serves its poll. */
  ghost predicate TickDone(tick: Tick, before: Moment, after: Moment) {
    if tick.ListFails? || Aborts(tick) then after == before
    else ServesPoll(tick.poll, before, after, tick.breaks)
  }

  /** The ticks the poll loop runs: up to the first one that the context ends, and including it. */
  function TicksRun(ticks: seq<Tick>): (n: nat)
    ensures n <= |ticks|
    ensures forall i :: 0 <= i < n - 1 ==> !Aborts(ticks[i])
    ensures n < |ticks| ==> n > 0 && Aborts(ticks[n - 1])
  {
    if ticks == [] then 0 else if Aborts(ticks[0]) then 1 else 1 + TicksRun(ticks[1..])
  }

  class InformerManager {
    var informers: map<Identity, Tracked>
    var made: nat              // stop channels made so far, numbered from zero
    var open: set<nat>
    var closes: multiset<nat>  // how often each channel was closed

    /** The open channels are exactly the tracked ones, one each, and every other channel ever made was closed once. */
    ghost predicate Valid()
      reads this
    {
      Live(informers, made, open, closes)
    }

    constructor ()
      ensures Valid() && informers == map[] && made == 0
    {
      informers := map[];
      made := 0;
      open := {};
      closes := multiset{};
    }

    /** Closing a closed channel would panic; the precondition is what every caller must establish. */
    method Stop(key: Identity)
      requires Valid() && key in informers
      modifies this
      ensures Valid() && informers == old(informers) - {key} && made == old(made)
      ensures closes == old(closes) + multiset{old(informers)[key].stopCh}
    {
      var c := informers[key].stopCh;
      assert c in open;
      open := open - {c};
      closes := closes + multiset{c};
      informers := informers - {key};
      forall d | d in open
        ensures exists k :: k in informers && informers[k].stopCh == d
      {
        var k :| k in old(informers) && old(informers)[k].stopCh == d;
        assert k in informers;
      }
    }

    /** Starts an informer on a new channel, unless wiring its event handler breaks. */
    method StartInformer(key: Identity, target: InformerTarget, breaks: bool) returns (ok: bool)
      requires Valid() && key !in informers
      modifies this
      ensures Valid() && made >= old(made) && ok == !breaks
      ensures ok ==> informers == old(informers)[key := Tracked(target.gvr, old(made))]
      ensures !ok ==> informers == old(informers) && made == old(made)
    {
      if breaks { return false; }
      ok := true;
      var c := made;
      made := made + 1;
      open := open + {c};
      informers := informers[key := Tracked(target.gvr, c)];
      forall d | d in open
        ensures d < made && exists k :: k in informers && informers[k].stopCh == d
      {
        if d == c {
          assert informers[key].stopCh == d;
        } else {
          var k :| k in old(informers) && old(informers)[k].stopCh == d;
          assert informers[k].stopCh == d;
        }
      }
    }

    /**
      * Stops informers of unseen desires, then makes each wanted key run on its exact resource. A key that was seen
      * but not resolved keeps its informer untouched. Reported are exactly the keys whose start broke.
      */
    method Reconcile(seen: set<Identity>, want: map<Identity, InformerTarget>, breaks: set<Identity>)
      returns (failed: set<Identity>)
      requires Valid() && want.Keys <= seen
      modifies this
      ensures Valid() && made >= old(made)
      ensures failed == set k | k in want && k in breaks && !Fits(old(informers), k, want[k])
      ensures forall k :: k in want ==> Served(old(informers), old(made), informers, k, want[k], k in breaks)
      ensures forall k :: k in seen && k !in want ==> SameAt(informers, old(informers), k)
      ensures forall k :: k !in seen ==> k !in informers
    {
      DropUnseen(seen);
      label dropped:
      failed := ServeAll(want, breaks);
      forall k | k in seen && k !in want
        ensures SameAt(informers, old(informers), k)
      {
        assert SameAt(informers, old@dropped(informers), k);
      }
      forall k | k !in seen
        ensures k !in informers
      {
        assert SameAt(informers, old@dropped(informers), k);
      }
      forall k | k in want
        ensures Served(old(informers), old(made), informers, k, want[k], k in breaks)
        ensures Fits(old@dropped(informers), k, want[k]) <==> Fits(old(informers), k, want[k])
      {
        assert Served(old@dropped(informers), old@dropped(made), informers, k, want[k], k in breaks);
        assert SameAt(old@dropped(informers), old(informers), k);
      }
    }

    /** The first loop of Reconcile: ranges over the tracked informers in any order. */
    method DropUnseen(seen: set<Identity>)
      requires Valid()
      modifies this
      ensures Valid() && made == old(made)
      ensures forall k :: k in seen ==> SameAt(informers, old(informers), k)
      ensures forall k :: k !in seen ==> k !in informers
    {
      var pending := informers.Keys;
      while pending != {}
        invariant Valid() && made == old(made) && pending <= old(informers).Keys
        invariant forall k :: k in pending || k in seen ==> SameAt(informers, old(informers), k)
        invariant forall k :: k !in pending && k !in seen ==> k !in informers
        decreases |pending|
      {
        var key :| key in pending;
        pending := pending - {key};
        assert SameAt(informers, old(informers), key);
        if key !in seen {
          Stop(key);
        }
      }
    }

    /** The second loop of Reconcile: ranges over the wanted keys in any order. */
    method ServeAll(want: map<Identity, InformerTarget>, breaks: set<Identity>) returns (failed: set<Identity>)
      requires Valid()
      modifies this
      ensures Valid() && made >= old(made)
      ensures failed == set k | k in want && k in breaks && !Fits(old(informers), k, want[k])
      ensures forall k :: k in want ==> Served(old(informers), old(made), informers, k, want[k], k in breaks)
      ensures forall k :: k !in want ==> SameAt(informers, old(informers), k)
    {
      failed := {};
      var pending := want.Keys;
      while pending != {}
        invariant Valid() && made >= old(made)
        invariant pending <= want.Keys
        invariant failed == set k | k in want && k !in pending && k in breaks && !Fits(old(informers), k, want[k])
        invariant forall k :: k in pending || k !in want ==> SameAt(informers, old(informers), k)
        invariant forall k :: k in want && k !in pending ==>
                                Served(old(informers), old(made), informers, k, want[k], k in breaks)
        decreases |pending|
      {
        var key :| key in pending;
        pending := pending - {key};
        assert SameAt(informers, old(informers), key);
        label before:
        var err := ServeKey(key, want[key], key in breaks);
        if err {
          failed := failed + {key};
        }
        forall k | k in pending || k !in want
          ensures SameAt(informers, old(informers), k)
        {
          assert SameAt(informers, old@before(informers), k);
        }
        forall k | k in want && k !in pending
          ensures Served(old(informers), old(made), informers, k, want[k], k in breaks)
        {
          assert k != key ==> SameAt(informers, old@before(informers), k);
        }
      }
    }

    /** One round of the second loop: keep, replace, or start the informer of a wanted key. */
    method ServeKey(key: Identity, target: InformerTarget, breaks: bool) returns (err: bool)
      requires Valid()
      modifies this
      ensures Valid() && made >= old(made)
      ensures err <==> breaks && !Fits(old(informers), key, target)
      ensures Served(old(informers), old(made), informers, key, target, breaks)
      ensures forall k :: k != key ==> SameAt(informers, old(informers), k)
    {
      if key in informers {
        if informers[key].gvr == target.gvr { return false; }
        Stop(key);
      }
      var ok := StartInformer(key, target, breaks);
      return !ok;
    }

    method ShutdownAll()
      requires Valid()
      modifies this
      ensures Valid() && informers == map[] && open == {} && made == old(made)
    {
      while informers.Keys != {}
        invariant Valid() && made == old(made)
        decreases |informers|
      {
        var key :| key in informers.Keys;
        assert |informers - {key}| < |informers| by {
          assert (informers - {key}).Keys == informers.Keys - {key};
        }
        Stop(key);
      }
    }

    ghost function Now(): Moment
      reads this
    {
      Moment(informers, made)
    }

    /** A poll tick: every listed desire is seen, those whose resource resolves are wanted. */
    method PollOnce(tick: Tick) returns (aborted: bool)
      requires Valid()
      modifies this
      ensures Valid() && made >= old(made)
      ensures aborted <==> Aborts(tick)
      ensures TickDone(tick, old(Now()), Now())
    {
      if tick.ListFails? { return false; }
      var poll := tick.poll;
      var seen: set<Identity>, want: map<Identity, InformerTarget> := {}, map[];
      for i := 0 to |poll|
        invariant i <= tick.visits
        invariant seen == SeenIn(poll[..i]) && want == WantedOf(poll[..i]) && want.Keys <= seen
      {
        if i == tick.visits { return true; }
        var id, gvr := poll[i].id, poll[i].gvr;
        assert poll[..i + 1][..i] == poll[..i];
        seen := seen + {id};
        if gvr.Some? {
          want := want[id := InformerTarget(gvr.value, id.target.namespace, id.target.name)];
        }
      }
      assert poll[..|poll|] == poll;
      var _ := Reconcile(seen, want, tick.breaks);
      return false;
    }

    /**
      * The poll loop and the shutdown after it: tick by tick the set is served or left alone, up to the tick that the
      * context ends; then every stop channel ever made has been closed exactly once. `trace` is the set between
      * ticks.
      */
    method RunToShutdown(ticks: seq<Tick>) returns (ghost trace: seq<Moment>)
      requires Valid()
      modifies this
      ensures |trace| == TicksRun(ticks) + 1 && trace[0] == old(Now())
      ensures forall i :: 0 <= i < TicksRun(ticks) ==> TickDone(ticks[i], trace[i], trace[i + 1])
      ensures Valid() && informers == map[] && made == trace[TicksRun(ticks)].made >= old(made)
      ensures forall c: nat :: c < made ==> closes[c] == 1
    {
      trace := [Now()];
      var i := 0;
      while i < |ticks|
        invariant 0 <= i <= |ticks| && Valid() && made >= old(made)
        invariant TicksRun(ticks) == i + TicksRun(ticks[i..])
        invariant |trace| == i + 1 && trace[0] == old(Now()) && trace[i] == Now()
        invariant forall k :: 0 <= k < i ==> TickDone(ticks[k], trace[k], trace[k + 1])
      {
        assert ticks[i..][1..] == ticks[i + 1..] && ticks[i..][0] == ticks[i];
        var aborted := PollOnce(ticks[i]);
        trace := trace + [Now()];
        i := i + 1;
        if aborted { break; }
      }
      ShutdownAll();
    }
  }
}
