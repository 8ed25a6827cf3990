/** Listing a management cluster with SCAN and MGET, and the prefix delete built on it. */
module RedisListing {
  import opened Desire
  import opened MemoryStore
  import opened RedisProtocol
  import opened RedisRefinement
  import opened RedisKeys

  const MGET_BATCH: nat := 1000

  ghost predicate Distinct<T>(s: seq<T>) { forall i, j :: 0 <= i < j < |s| ==> s[i] != s[j] }

  ghost predicate OnSomePage(pages: seq<seq<Str>>, k: Str) { exists i :: 0 <= i < |pages| && k in pages[i] }

  /** Collects the pages of one SCAN iteration; SCAN may emit a key more than once, on one page or on several. */
  method ScanKeys(pages: seq<seq<Str>>) returns (keys: seq<Str>)
    ensures Distinct(keys)
    ensures forall k :: k in keys <==> OnSomePage(pages, k)
  {
    keys := [];
    var seen: set<Str> := {};
    for i := 0 to |pages|
      invariant Distinct(keys)
      invariant forall k :: k in keys <==> k in seen
      invariant forall k :: k in seen <==> OnSomePage(pages[..i], k)
    {
      var batch := pages[i];
      for j := 0 to |batch|
        invariant Distinct(keys)
        invariant forall k :: k in keys <==> k in seen
        invariant forall k :: k in seen <==> OnSomePage(pages[..i], k) || k in batch[..j]
      {
        var k := batch[j];
        assert batch[..j + 1] == batch[..j] + [k];
        if k !in seen {
          assert forall n :: 0 <= n < |keys| ==> keys[n] in keys;
          seen := seen + {k};
          keys := keys + [k];
        }
      }
      assert batch[..|batch|] == batch;
      OnNextPage(pages, i);
    }
    assert pages[..|pages|] == pages;
  }

  lemma OnNextPage(pages: seq<seq<Str>>, i: nat)
    requires i < |pages|
    ensures forall k :: OnSomePage(pages[..i + 1], k) <==> OnSomePage(pages[..i], k) || k in pages[i]
  {
    forall k
      ensures OnSomePage(pages[..i + 1], k) <==> OnSomePage(pages[..i], k) || k in pages[i]
    {
      if OnSomePage(pages[..i], k) {
        var n :| 0 <= n < i && k in pages[..i][n];
        assert k in pages[..i + 1][n];
      }
      if k in pages[i] {
        assert k in pages[..i + 1][i];
      }
      if OnSomePage(pages[..i + 1], k) {
        var n :| 0 <= n < i + 1 && k in pages[..i + 1][n];
        if n < i {
          assert k in pages[..i][n];
        }
      }
    }
  }

  datatype Loaded = Loaded(key: Str, rec: Record)

  /** What one MGET reply says about a key; each batch sees the keyspace of its own moment. */
  function Fetched(keys: seq<Str>, moments: seq<map<Str, Record>>, i: nat): Option<Record>
    requires i < |keys| && |keys| <= MGET_BATCH * |moments|
  {
    var ks := moments[i / MGET_BATCH];
    if keys[i] in ks then Some(ks[keys[i]]) else None
  }

  /** The keys still present when their batch was fetched, in order. */
  function Collect(keys: seq<Str>, moments: seq<map<Str, Record>>, n: nat): seq<Loaded>
    requires n <= |keys| <= MGET_BATCH * |moments|
  {
    if n == 0 then []
    else
      var v := Fetched(keys, moments, n - 1);
      Collect(keys, moments, n - 1) + if v.Some? then [Loaded(keys[n - 1], v.value)] else []
  }

  /** MGET in batches of 1000, then a pass over the values that skips keys gone since the scan. */
  method LoadClusterRecords(keys: seq<Str>, moments: seq<map<Str, Record>>) returns (records: seq<Loaded>)
    requires |keys| <= MGET_BATCH * |moments|
    ensures records == Collect(keys, moments, |keys|)
  {
    var values := new Option<Record>[|keys|](_ => None);
    var start, batch := 0, 0;
    while start < |keys|
      invariant start == MGET_BATCH * batch
      invariant forall i :: 0 <= i < |keys| && i < start ==> values[i] == Fetched(keys, moments, i)
      decreases |keys| - start
    {
      var end := if start + MGET_BATCH < |keys| then start + MGET_BATCH else |keys|;
      for i := start to end
        invariant forall j :: 0 <= j < i ==> values[j] == Fetched(keys, moments, j)
      {
        assert i / MGET_BATCH == batch;
        values[i] := if keys[i] in moments[batch] then Some(moments[batch][keys[i]]) else None;
      }
      start := start + MGET_BATCH;
      batch := batch + 1;
    }
    records := [];
    for i := 0 to |keys|
      invariant records == Collect(keys, moments, i)
    {
      if values[i].Some? {
        records := records + [Loaded(keys[i], values[i].value)];
      }
    }
  }

  /** A paging of an unchanging keyspace: it covers the matching keys, with any split and any duplicates. */
  ghost predicate Covers(pages: seq<seq<Str>>, ks: map<Str, Record>, managementCluster: Str) {
    forall k :: OnSomePage(pages, k) <==> k in ks && GlobMatch(ScanPattern(managementCluster), k)
  }

  lemma {:induction false} CollectUnchanging(
    keys: seq<Str>, ks: map<Str, Record>, moments: seq<map<Str, Record>>, n: nat)
    requires n <= |keys| <= MGET_BATCH * |moments|
    requires forall i :: 0 <= i < |moments| ==> moments[i] == ks
    requires forall k :: k in keys ==> k in ks
    ensures |Collect(keys, moments, n)| == n
    ensures forall i :: 0 <= i < n ==> Collect(keys, moments, n)[i] == Loaded(keys[i], ks[keys[i]])
  {
    if n > 0 {
      CollectUnchanging(keys, ks, moments, n - 1);
      assert keys[n - 1] in keys;
    }
  }

  /** Scan and load together, on an unchanging store: the cluster's records, each once. */
  method LoadCluster(
    ghost lib: Library, ghost items: Items, ks: map<Str, Record>, pages: seq<seq<Str>>, moments: seq<map<Str, Record>>,
    managementCluster: Str)
    returns (records: seq<Loaded>)
    requires Consistent(lib, items) && ks == Encode(items)
    requires Covers(pages, ks, managementCluster)
    requires forall i :: 0 <= i < |moments| ==> moments[i] == ks
    requires |ks| <= MGET_BATCH * |moments|
    ensures AreCluster(items, records, managementCluster)
    ensures forall i, j :: 0 <= i < j < |records| ==> records[i].rec.identity != records[j].rec.identity
  {
    var keys := ScanKeys(pages);
    DistinctFits(keys, ks.Keys);
    records := LoadClusterRecords(keys, moments);
    CollectUnchanging(keys, ks, moments, |keys|);
    LoadedIsCluster(lib, items, keys, records, managementCluster);
  }

  /**
    * On an unchanging store a List call returns each record of that cluster and type exactly once: the same records
    * the memory store's list returns.
    */
  method ListRecords(
    ghost lib: Library, ghost items: Items, ks: map<Str, Record>, pages: seq<seq<Str>>, moments: seq<map<Str, Record>>,
    managementCluster: Str, ty: DesireType)
    returns (result: seq<Record>)
    requires Consistent(lib, items) && ks == Encode(items)
    requires Covers(pages, ks, managementCluster)
    requires forall i :: 0 <= i < |moments| ==> moments[i] == ks
    requires |ks| <= MGET_BATCH * |moments|
    ensures forall i, j :: 0 <= i < j < |result| ==> result[i].identity != result[j].identity
    ensures forall rec :: rec in result <==> Belongs(items, managementCluster, ty, rec)
  {
    var records := LoadCluster(lib, items, ks, pages, moments, managementCluster);
    result := OfType(records, ty);
    forall rec
      ensures rec in result <==> Belongs(items, managementCluster, ty, rec)
    {
      LoadedBelongs(items, records, managementCluster, ty, rec);
    }
  }

  lemma LoadedBelongs(items: Items, records: seq<Loaded>, managementCluster: Str, ty: DesireType, rec: Record)
    requires AreCluster(items, records, managementCluster)
    ensures rec.identity.ty == ty && (exists j :: 0 <= j < |records| && records[j].rec == rec)
            <==> Belongs(items, managementCluster, ty, rec)
  {
  }

  /** The records are the stored ones of the cluster, each under its own key. */
  ghost predicate AreCluster(items: Items, records: seq<Loaded>, managementCluster: Str) {
    && (forall i :: 0 <= i < |records| ==>
                      && records[i].rec.identity in items && items[records[i].rec.identity] == records[i].rec
                      && records[i].key == RedisKey(records[i].rec.identity)
                      && records[i].rec.identity.target.managementCluster == managementCluster)
    && (forall id :: id in items && id.target.managementCluster == managementCluster ==>
                       exists i :: 0 <= i < |records| && records[i].rec == items[id])
  }

  /** The filter each List call ends with. */
  method OfType(records: seq<Loaded>, ty: DesireType) returns (result: seq<Record>)
    requires forall i, j :: 0 <= i < j < |records| ==> records[i].rec.identity != records[j].rec.identity
    ensures forall rec :: rec in result <==>
              rec.identity.ty == ty && exists j :: 0 <= j < |records| && records[j].rec == rec
    ensures forall i, j :: 0 <= i < j < |result| ==> result[i].identity != result[j].identity
  {
    result := [];
    for i := 0 to |records|
      invariant forall rec :: rec in result <==>
                  rec.identity.ty == ty && exists j :: 0 <= j < i && records[j].rec == rec
      invariant forall n, p :: 0 <= n < p < |result| ==> result[n].identity != result[p].identity
    {
      var rec := records[i].rec;
      if rec.identity.ty == ty {
        forall n | 0 <= n < |result|
          ensures result[n].identity != rec.identity
        {
          assert result[n] in result;
          var j :| 0 <= j < i && records[j].rec == result[n];
        }
        result := result + [rec];
      }
    }
  }

  lemma {:induction false} DistinctFits(keys: seq<Str>, s: set<Str>)
    requires Distinct(keys) && forall k :: k in keys ==> k in s
    ensures |keys| <= |s|
  {
    if keys != [] {
      var n := |keys| - 1;
      assert forall i :: 0 <= i < n ==> keys[i] in keys && keys[i] != keys[n];
      assert forall k :: k in keys[..n] ==> k in keys && k != keys[n];
      DistinctFits(keys[..n], s - {keys[n]});
    }
  }

  /** The loaded records are the cluster's records, each once. */
  lemma LoadedIsCluster(lib: Library, items: Items, keys: seq<Str>, records: seq<Loaded>, managementCluster: Str)
    requires Consistent(lib, items) && Distinct(keys)
    requires forall k :: k in keys <==> k in Encode(items) && GlobMatch(ScanPattern(managementCluster), k)
    requires |records| == |keys| && forall i :: 0 <= i < |keys| ==>
               keys[i] in Encode(items) && records[i] == Loaded(keys[i], Encode(items)[keys[i]])
    ensures AreCluster(items, records, managementCluster)
    ensures forall i, j :: 0 <= i < j < |records| ==> records[i].rec.identity != records[j].rec.identity
  {
    forall i | 0 <= i < |records|
      ensures records[i].rec.identity in items && items[records[i].rec.identity] == records[i].rec
      ensures records[i].key == RedisKey(records[i].rec.identity)
      ensures records[i].rec.identity.target.managementCluster == managementCluster
    {
      var k := keys[i];
      var id :| id in items && RedisKey(id) == k;
      EncodeGet(items, id);
      assert WellFormed(lib, id, items[id]);
      ScanMatchesExactlyTheCluster(managementCluster, id);
      assert k in keys;
    }
    forall id | id in items && id.target.managementCluster == managementCluster
      ensures exists i :: 0 <= i < |records| && records[i].rec == items[id]
    {
      EncodeGet(items, id);
      ScanMatchesExactlyTheCluster(managementCluster, id);
      var i :| 0 <= i < |keys| && keys[i] == RedisKey(id);
      assert records[i].rec == items[id];
    }
  }

  // ---------------------------------------------------------------- DeleteByPrefix

  /** The per-key transactions of a prefix delete over the loaded records, when nothing runs in between. */
  function DeleteAll(c: nat, ids: seq<Identity>, sel: PrefixSelector): seq<Command> {
    if ids == [] then []
    else if Matches(sel, ids[0]) then Alone(c, RemoveMatching(ids[0], sel)) + DeleteAll(c, ids[1..], sel)
    else DeleteAll(c, ids[1..], sel)
  }

  function Remaining(ks: Items, ids: seq<Identity>, sel: PrefixSelector): Items {
    map id | id in ks && !(id in ids && Matches(sel, id)) :: ks[id]
  }

  lemma RemainingAfterOne(ks: Items, ids: seq<Identity>, sel: PrefixSelector)
    requires ids != []
    ensures Remaining(ks, ids, sel) == Remaining(if Matches(sel, ids[0]) then ks - {ids[0]} else ks, ids[1..], sel)
  {
    assert forall id :: id in ids <==> id == ids[0] || id in ids[1..];
  }

  /** One per-key transaction that nothing interrupts. */
  lemma RemovesAlone(lib: Library, m: Machine, c: nat, id: Identity, sel: PrefixSelector)
    requires Consistent(lib, m.ks) && Free(m, c) && Matches(sel, id)
    ensures
      var m' := RunFrom(lib, m, Alone(c, RemoveMatching(id, sel)));
      m'.ks == m.ks - {id} && Free(m', c)
  {
    AloneIsOneStep(lib, m, c, RemoveMatching(id, sel));
  }

  lemma DeleteFirst(lib: Library, m: Machine, c: nat, ids: seq<Identity>, sel: PrefixSelector) returns (m': Machine)
    requires Consistent(lib, m.ks) && Free(m, c) && ids != [] && Matches(sel, ids[0])
    ensures RunFrom(lib, m, DeleteAll(c, ids, sel)) == RunFrom(lib, m', DeleteAll(c, ids[1..], sel))
    ensures m'.ks == m.ks - {ids[0]} && Consistent(lib, m'.ks) && Free(m', c)
  {
    var commands := Alone(c, RemoveMatching(ids[0], sel));
    m' := RunFrom(lib, m, commands);
    RemovesAlone(lib, m, c, ids[0], sel);
    RemovalKeepsConsistent(lib, m.ks, m.ks - {ids[0]});
    RunFromConcat(lib, m, commands, DeleteAll(c, ids[1..], sel));
  }

  lemma {:induction false} DeleteAllRemoves(lib: Library, m: Machine, c: nat, ids: seq<Identity>, sel: PrefixSelector)
    requires Consistent(lib, m.ks) && Free(m, c)
    ensures RunFrom(lib, m, DeleteAll(c, ids, sel)).ks == Remaining(m.ks, ids, sel)
    decreases |ids|
  {
    if ids == [] {
      assert m.ks == Remaining(m.ks, ids, sel);
    } else {
      RemainingAfterOne(m.ks, ids, sel);
      if Matches(sel, ids[0]) {
        var m' := DeleteFirst(lib, m, c, ids, sel);
        DeleteAllRemoves(lib, m', c, ids[1..], sel);
      } else {
        DeleteAllRemoves(lib, m, c, ids[1..], sel);
      }
    }
  }

  /** With no concurrent change a prefix delete leaves the store the memory version leaves. */
  lemma PrefixDeleteAlone(
    lib: Library, m: Machine, c: nat, ids: seq<Identity>, managementCluster: Str, sel: PrefixSelector)
    requires Consistent(lib, m.ks) && Free(m, c)
    requires forall id :: id in ids <==> id in m.ks && id.target.managementCluster == managementCluster
    ensures RunFrom(lib, m, DeleteAll(c, ids, sel)).ks == Step(lib, m.ks, DeleteByPrefix(managementCluster, sel)).0
    ensures Purged(m.ks, RunFrom(lib, m, DeleteAll(c, ids, sel)).ks, managementCluster, sel)
  {
    DeleteAllRemoves(lib, m, c, ids, sel);
    RemainingIsUnselected(m.ks, ids, managementCluster, sel);
  }

  lemma RemainingIsUnselected(ks: Items, ids: seq<Identity>, managementCluster: Str, sel: PrefixSelector)
    requires forall id :: id in ids <==> id in ks && id.target.managementCluster == managementCluster
    ensures Remaining(ks, ids, sel) == WithoutSelected(ks, managementCluster, sel)
    ensures Purged(ks, Remaining(ks, ids, sel), managementCluster, sel)
  {
    assert Remaining(ks, ids, sel) == WithoutSelected(ks, managementCluster, sel);
    WithoutSelectedPurges(ks, managementCluster, sel);
  }

  function Identities(records: seq<Loaded>): seq<Identity> {
    seq(|records|, i requires 0 <= i < |records| => records[i].rec.identity)
  }

  /** The commands of a prefix delete over loaded records, one transaction per record that matches. */
  method DeleteLoaded(c: nat, records: seq<Loaded>, sel: PrefixSelector) returns (cmds: seq<Command>)
    ensures cmds == DeleteAll(c, Identities(records), sel)
  {
    cmds := [];
    for i := |records| downto 0
      invariant cmds == DeleteAll(c, Identities(records)[i..], sel)
    {
      assert Identities(records)[i..] == [records[i].rec.identity] + Identities(records)[i + 1..];
      if Matches(sel, records[i].rec.identity) {
        cmds := Alone(c, RemoveMatching(records[i].rec.identity, sel)) + cmds;
      }
    }
    assert Identities(records)[0..] == Identities(records);
  }

  /**
    * DeleteByPrefix with no concurrent change: scan with any paging, load in batches, then one transaction per
    * matching record. It ends in the store the memory version leaves.
    */
  method DeleteSelected(
    ghost lib: Library, ghost m: Machine, c: nat, ks: map<Str, Record>, pages: seq<seq<Str>>,
    moments: seq<map<Str, Record>>, managementCluster: Str, sel: PrefixSelector)
    returns (cmds: seq<Command>)
    requires Consistent(lib, m.ks) && Free(m, c) && ks == Encode(m.ks)
    requires Covers(pages, ks, managementCluster)
    requires forall i :: 0 <= i < |moments| ==> moments[i] == ks
    requires |ks| <= MGET_BATCH * |moments|
    ensures RunFrom(lib, m, cmds).ks == Step(lib, m.ks, DeleteByPrefix(managementCluster, sel)).0
    ensures Purged(m.ks, RunFrom(lib, m, cmds).ks, managementCluster, sel)
  {
    var records := LoadCluster(lib, m.ks, ks, pages, moments, managementCluster);
    cmds := DeleteLoaded(c, records, sel);
    assert forall id :: id in m.ks ==> WellFormed(lib, id, m.ks[id]);
    LoadedIdentities(m.ks, records, managementCluster);
    PrefixDeleteAlone(lib, m, c, Identities(records), managementCluster, sel);
  }

  lemma LoadedIdentities(items: Items, records: seq<Loaded>, managementCluster: Str)
    requires AreCluster(items, records, managementCluster)
    requires forall id :: id in items ==> items[id].identity == id
    ensures forall id :: id in Identities(records) <==> id in items && id.target.managementCluster == managementCluster
  {
    forall id | id in items && id.target.managementCluster == managementCluster
      ensures id in Identities(records)
    {
      var i :| 0 <= i < |records| && records[i].rec == items[id];
      assert Identities(records)[i] == id;
    }
  }

  lemma RemovesAtMostOne(lib: Library, items: Items, id: Identity, sel: PrefixSelector)
    ensures
      var items' := Step(lib, items, RemoveMatching(id, sel)).0;
      items' != items ==> id in items && Matches(sel, id) && items' == items - {id}
  {
    assert id !in items ==> items - {id} == items;
  }

  /**
    * Under any interleaving, a committed transaction of a prefix delete, on a key its scan returned, removes exactly
    * one record, and that record is in the given cluster and picked by the selector.
    */
  lemma PrefixDeleteRemovesOnlySelected(
    lib: Library, cmds: seq<Command>, c: nat, managementCluster: Str, sel: PrefixSelector)
    requires ClientOf(Run(lib, cmds), c).Ready?
    requires ClientOf(Run(lib, cmds), c).op.RemoveMatching? && ClientOf(Run(lib, cmds), c).op.sel == sel
    requires GlobMatch(ScanPattern(managementCluster), RedisKey(ClientOf(Run(lib, cmds), c).op.id))
    ensures
      var m, m' := Run(lib, cmds), Do(lib, Run(lib, cmds), Exec(c));
      var id := ClientOf(m, c).op.id;
      m'.ks != m.ks ==> id in m.ks && Picks(managementCluster, sel, id) && m'.ks == m.ks - {id}
  {
    var ks, op := Run(lib, cmds).ks, ClientOf(Run(lib, cmds), c).op;
    CommandIsStepOrNothing(lib, cmds, Exec(c));
    ScanMatchesExactlyTheCluster(managementCluster, op.id);
    RemovesAtMostOne(lib, ks, op.id, sel);
    MatchesExactlyPicked(managementCluster, sel, op.id);
  }
}
