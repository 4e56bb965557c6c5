/**
 Storing the zone list of an account: an upsert on (account, zone id) that keeps primary keys,
 then a prune, with hosts referring to zones by primary key and ON DELETE SET NULL.
 */
module ZoneSync {
  import opened Prelude

  /** A zone as Cloudflare lists it. */
  datatype Listed = Listed(id: string, name: string, status: string)

  datatype Zone = Zone(pk: nat, account: nat, id: string, name: string, status: string, syncedAt: nat)

  datatype Tables = Tables(zones: seq<Zone>, nextPk: nat, hosts: map<nat, Option<nat>>)

  datatype Sync = Sync(account: nat, list: seq<Listed>, now: nat)

  /** The row with this account and zone id, or |zones|. */
  function Find(zones: seq<Zone>, account: nat, id: string): (i: nat)
    ensures i <= |zones|
    ensures i < |zones| ==> zones[i].account == account && zones[i].id == id
    ensures forall j :: 0 <= j < i ==> !(zones[j].account == account && zones[j].id == id)
  {
    if zones == [] || (zones[0].account == account && zones[0].id == id) then 0
    else 1 + Find(zones[1..], account, id)
  }

  function Upsert(t: Tables, account: nat, z: Listed, now: nat): Tables {
    var i := Find(t.zones, account, z.id);
    if i < |t.zones| then
      t.(zones := t.zones[i := t.zones[i].(name := z.name, status := z.status, syncedAt := now)])
    else
      t.(zones := t.zones + [Zone(t.nextPk, account, z.id, z.name, z.status, now)], nextPk := t.nextPk + 1)
  }

  function UpsertAll(t: Tables, account: nat, list: seq<Listed>, now: nat): Tables {
    if list == [] then t
    else Upsert(UpsertAll(t, account, list[..|list| - 1], now), account, list[|list| - 1], now)
  }

  predicate Lists(list: seq<Listed>, id: string) {
    exists z <- list :: z.id == id
  }

  predicate Stale(z: Zone, account: nat, list: seq<Listed>) {
    z.account == account && !Lists(list, z.id)
  }

  function Keep(zones: seq<Zone>, account: nat, list: seq<Listed>): seq<Zone> {
    if zones == [] then []
    else
      Keep(zones[..|zones| - 1], account, list) +
      (if Stale(zones[|zones| - 1], account, list) then [] else [zones[|zones| - 1]])
  }

  /** References to rows that are gone become null. */
  function SetNull(hosts: map<nat, Option<nat>>, zones: seq<Zone>): map<nat, Option<nat>> {
    map h | h in hosts :: if hosts[h].Some? && (exists z <- zones :: z.pk == hosts[h].value) then hosts[h] else None
  }

  function Prune(t: Tables, account: nat, list: seq<Listed>): Tables {
    var kept := Keep(t.zones, account, list);
    t.(zones := kept, hosts := SetNull(t.hosts, kept))
  }

  function Run(t: Tables, s: Sync): Tables {
    Prune(UpsertAll(t, s.account, s.list, s.now), s.account, s.list)
  }

  function RunAll(t: Tables, syncs: seq<Sync>): Tables {
    if syncs == [] then t else Run(RunAll(t, syncs[..|syncs| - 1]), syncs[|syncs| - 1])
  }

  // ------------------------------------------------------------------------
  // What the tables guarantee
  // ------------------------------------------------------------------------

  /** The row with primary key `pk` is zone `id` of `account`. */
  ghost predicate Has(zones: seq<Zone>, pk: nat, account: nat, id: string) {
    exists z <- zones :: z.pk == pk && z.account == account && z.id == id
  }

  ghost predicate Separate(zones: seq<Zone>) {
    forall i, j :: 0 <= i < j < |zones| ==>
                     && zones[i].pk != zones[j].pk
                     && (zones[i].account != zones[j].account || zones[i].id != zones[j].id)
  }

  ghost predicate Unique(t: Tables) {
    Separate(t.zones) && forall z <- t.zones :: z.pk < t.nextPk
  }

  ghost predicate ForeignKeys(t: Tables) {
    forall h <- t.hosts :: t.hosts[h].Some? ==> exists z <- t.zones :: z.pk == t.hosts[h].value
  }

  ghost predicate Wf(t: Tables) {
    Unique(t) && ForeignKeys(t)
  }

  function Ids(zones: seq<Zone>, account: nat): set<string> {
    set z | z in zones && z.account == account :: z.id
  }

  function ListedIds(list: seq<Listed>): set<string> {
    set z | z in list :: z.id
  }

  function Others(zones: seq<Zone>, account: nat): seq<Zone> {
    if zones == [] then []
    else
      Others(zones[..|zones| - 1], account) +
      (if zones[|zones| - 1].account == account then [] else [zones[|zones| - 1]])
  }

  /** Where a row's name and status come from: the last entry with its id. */
  ghost predicate LatestIs(list: seq<Listed>, id: string, name: string, status: string) {
    exists i :: 0 <= i < |list| && list[i] == Listed(id, name, status)
                && forall j :: i < j < |list| ==> list[j].id != id
  }

  lemma UpsertKeepsWf(t: Tables, account: nat, z: Listed, now: nat)
    requires Wf(t)
    ensures Wf(Upsert(t, account, z, now))
  {
    var u, i := Upsert(t, account, z, now), Find(t.zones, account, z.id);
    assert Unique(u);
    forall h <- u.hosts | u.hosts[h].Some? ensures exists y <- u.zones :: y.pk == u.hosts[h].value {
      var y :| y in t.zones && y.pk == t.hosts[h].value;
      var k :| 0 <= k < |t.zones| && t.zones[k] == y;
      assert u.zones[k] in u.zones;
    }
  }

  lemma UpsertKeepsIdentities(t: Tables, account: nat, z: Listed, now: nat, pk: nat, a: nat, id: string)
    requires Has(t.zones, pk, a, id)
    ensures Has(Upsert(t, account, z, now).zones, pk, a, id)
  {
    var u := Upsert(t, account, z, now);
    var y :| y in t.zones && y.pk == pk && y.account == a && y.id == id;
    var k :| 0 <= k < |t.zones| && t.zones[k] == y;
    assert u.zones[k] in u.zones;
  }

  /** Where a row comes from: it was there, or it is the upserted one. */
  lemma UpsertedRow(t: Tables, account: nat, z: Listed, now: nat, k: nat)
    requires Wf(t) && k < |Upsert(t, account, z, now).zones|
    ensures var y := Upsert(t, account, z, now).zones[k];
            if y.account == account && y.id == z.id then
              && y.name == z.name && y.status == z.status && y.syncedAt == now
              && (y.pk == t.nextPk || Has(t.zones, y.pk, account, z.id))
            else y in t.zones
  {
    var i := Find(t.zones, account, z.id);
    if k < |t.zones| {
      assert t.zones[k] in t.zones;
      assert k != i ==> !(t.zones[k].account == account && t.zones[k].id == z.id);
    }
  }

  /** Upserting keeps every row's identity and touches no other account. */
  lemma UpsertKeepsRows(t: Tables, account: nat, z: Listed, now: nat)
    requires Wf(t)
    ensures var u := Upsert(t, account, z, now);
            && (forall pk, a, id :: Has(t.zones, pk, a, id) ==> Has(u.zones, pk, a, id))
            && (forall y <- u.zones :: Has(t.zones, y.pk, y.account, y.id)
                                       || (y.account == account && y.id == z.id && y.pk == t.nextPk))
            && (forall y <- u.zones :: y.account == account && y.id == z.id ==>
                                         y.name == z.name && y.status == z.status)
            && (forall y <- u.zones :: !(y.account == account && y.id == z.id) ==> y in t.zones)
            && (exists y <- u.zones :: y.account == account && y.id == z.id)
            && u.hosts == t.hosts
  {
    var u, i := Upsert(t, account, z, now), Find(t.zones, account, z.id);
    assert i < |u.zones| && u.zones[i].account == account && u.zones[i].id == z.id && u.zones[i] in u.zones;
    assert u.hosts == t.hosts;
    hide Upsert, Wf;
    forall pk, a, id | Has(t.zones, pk, a, id) ensures Has(u.zones, pk, a, id) {
      UpsertKeepsIdentities(t, account, z, now, pk, a, id);
    }
    forall y <- u.zones
      ensures Has(t.zones, y.pk, y.account, y.id) || (y.account == account && y.id == z.id && y.pk == t.nextPk)
      ensures if y.account == account && y.id == z.id then y.name == z.name && y.status == z.status else y in t.zones
    {
      var k :| 0 <= k < |u.zones| && u.zones[k] == y;
      UpsertedRow(t, account, z, now, k);
    }
  }

  lemma {:induction false} OthersUpdate(zones: seq<Zone>, i: nat, z: Zone, account: nat)
    requires i < |zones| && zones[i].account == account == z.account
    ensures Others(zones[i := z], account) == Others(zones, account)
  {
    var n := |zones| - 1;
    if i == n {
      assert zones[i := z][..n] == zones[..n];
    } else {
      OthersUpdate(zones[..n], i, z, account);
      assert zones[i := z][..n] == zones[..n][i := z];
    }
  }

  lemma UpsertLeavesOthers(t: Tables, account: nat, z: Listed, now: nat)
    ensures Others(Upsert(t, account, z, now).zones, account) == Others(t.zones, account)
  {
    var u, i := Upsert(t, account, z, now), Find(t.zones, account, z.id);
    if i < |t.zones| {
      OthersUpdate(t.zones, i, u.zones[i], account);
    } else {
      assert u.zones[..|u.zones| - 1] == t.zones;
    }
  }

  /** What a whole list of upserts does. */
  ghost predicate Upserted(t: Tables, u: Tables, account: nat, list: seq<Listed>) {
    && Wf(u) && u.hosts == t.hosts
    && (forall pk, a, id :: Has(t.zones, pk, a, id) ==> Has(u.zones, pk, a, id))
    && (forall y <- u.zones :: Has(t.zones, y.pk, y.account, y.id) || (y.account == account && Lists(list, y.id)))
    && (forall y <- u.zones :: y.account == account && Lists(list, y.id) ==> LatestIs(list, y.id, y.name, y.status))
    && (forall z <- list :: z.id in Ids(u.zones, account))
    && Others(u.zones, account) == Others(t.zones, account)
  }

  lemma UpsertedByNone(t: Tables, account: nat)
    requires Wf(t)
    ensures Upserted(t, t, account, [])
  {
    forall y <- t.zones ensures Has(t.zones, y.pk, y.account, y.id) {}
  }

  lemma {:induction false} UpsertAllUpserts(t: Tables, account: nat, list: seq<Listed>, now: nat)
    requires Wf(t)
    ensures Upserted(t, UpsertAll(t, account, list, now), account, list)
  {
    hide Upserted, Upsert, Wf;
    if list == [] {
      UpsertedByNone(t, account);
    } else {
      var first, z := list[..|list| - 1], list[|list| - 1];
      UpsertAllUpserts(t, account, first, now);
      UpsertExtends(t, UpsertAll(t, account, first, now), account, first, z, now);
      assert list == first + [z];
    }
  }

  lemma LatestOfLast(first: seq<Listed>, z: Listed)
    ensures LatestIs(first + [z], z.id, z.name, z.status)
  {
    assert (first + [z])[|first|] == z;
  }

  lemma LatestStays(first: seq<Listed>, z: Listed, id: string, name: string, status: string)
    requires id != z.id && LatestIs(first, id, name, status)
    ensures LatestIs(first + [z], id, name, status)
  {
    var list := first + [z];
    var i :| 0 <= i < |first| && first[i] == Listed(id, name, status)
             && forall j :: i < j < |first| ==> first[j].id != id;
    assert list[i] == Listed(id, name, status);
    forall j | i < j < |list| ensures list[j].id != id {
      assert j < |first| ==> list[j] == first[j];
    }
  }

  lemma ListsOther(first: seq<Listed>, z: Listed, id: string)
    requires id != z.id
    ensures Lists(first + [z], id) <==> Lists(first, id)
  {
    if x :| x in first && x.id == id {
      assert x in first + [z];
    }
  }

  /** The row contents after one more upsert. */
  lemma UpsertExtendsContents(t: Tables, u: Tables, account: nat, first: seq<Listed>, z: Listed, now: nat)
    requires Upserted(t, u, account, first)
    ensures var v := Upsert(u, account, z, now);
            forall y <- v.zones | y.account == account && Lists(first + [z], y.id) ::
              LatestIs(first + [z], y.id, y.name, y.status)
  {
    var v := Upsert(u, account, z, now);
    UpsertKeepsRows(u, account, z, now);
    hide LatestIs, Lists, Has, Upsert, Wf, Others;
    LatestOfLast(first, z);
    forall y <- v.zones | y.account == account && Lists(first + [z], y.id)
      ensures LatestIs(first + [z], y.id, y.name, y.status)
    {
      if y.id != z.id {
        ListsOther(first, z, y.id);
        LatestStays(first, z, y.id, y.name, y.status);
      }
    }
  }

  /** The ids after one more upsert. */
  lemma UpsertExtendsIds(t: Tables, u: Tables, account: nat, first: seq<Listed>, z: Listed, now: nat)
    requires Upserted(t, u, account, first)
    ensures var v := Upsert(u, account, z, now);
            && (forall x <- first + [z] :: x.id in Ids(v.zones, account))
            && (forall y <- v.zones ::
                  Has(t.zones, y.pk, y.account, y.id) || (y.account == account && Lists(first + [z], y.id)))
  {
    var v, list := Upsert(u, account, z, now), first + [z];
    UpsertKeepsRows(u, account, z, now);
    assert list[|first|] == z && forall y <- first :: y in list;
    forall y <- v.zones
      ensures Has(t.zones, y.pk, y.account, y.id) || (y.account == account && Lists(list, y.id))
    {
      if Has(u.zones, y.pk, y.account, y.id) {
        var x :| x in u.zones && x.pk == y.pk && x.account == y.account && x.id == y.id;
        assert Lists(first, x.id) ==> Lists(list, x.id);
      }
    }
    forall x <- list ensures x.id in Ids(v.zones, account) {
      if x != z {
        assert x in first;
        var y :| y in u.zones && y.account == account && y.id == x.id;
        assert Has(u.zones, y.pk, account, y.id);
        assert Has(v.zones, y.pk, account, y.id);
      }
    }
  }

  lemma UpsertExtends(t: Tables, u: Tables, account: nat, first: seq<Listed>, z: Listed, now: nat)
    requires Upserted(t, u, account, first)
    ensures Upserted(t, Upsert(u, account, z, now), account, first + [z])
  {
    UpsertExtendsContents(t, u, account, first, z, now);
    UpsertExtendsIds(t, u, account, first, z, now);
    UpsertKeepsWf(u, account, z, now);
    UpsertKeepsRows(u, account, z, now);
    UpsertLeavesOthers(u, account, z, now);
    hide Has, Lists, LatestIs, Wf, Others, Ids, Upsert;
  }

  lemma {:induction false} KeepSelects(zones: seq<Zone>, account: nat, list: seq<Listed>)
    ensures forall z :: z in Keep(zones, account, list) <==> z in zones && !Stale(z, account, list)
  {
    if zones == [] {
    } else {
      var before, last := zones[..|zones| - 1], zones[|zones| - 1];
      KeepSelects(before, account, list);
      assert zones == before + [last];
    }
  }

  lemma {:induction false} KeepLeavesOthers(zones: seq<Zone>, account: nat, list: seq<Listed>)
    ensures Others(Keep(zones, account, list), account) == Others(zones, account)
  {
    if zones == [] {
    } else {
      var before, last := zones[..|zones| - 1], zones[|zones| - 1];
      var kept := Keep(before, account, list);
      KeepLeavesOthers(before, account, list);
      assert (kept + [last])[..|kept|] == kept;
      assert Others(kept + [last], account) ==
             Others(kept, account) + (if last.account == account then [] else [last]);
      assert Keep(zones, account, list) == if Stale(last, account, list) then kept else kept + [last];
      assert Others(before, account) + [] == Others(before, account);
    }
  }

  lemma {:induction false} KeepKeepsSeparate(zones: seq<Zone>, account: nat, list: seq<Listed>)
    requires Separate(zones)
    ensures Separate(Keep(zones, account, list))
  {
    if zones == [] {
    } else {
      var before, last := zones[..|zones| - 1], zones[|zones| - 1];
      var kept := Keep(before, account, list);
      KeepKeepsSeparate(before, account, list);
      KeepSelects(before, account, list);
      forall z <- kept ensures z.pk != last.pk && (z.account != last.account || z.id != last.id) {
        var i :| 0 <= i < |before| && before[i] == z;
        assert zones[i] == z;
      }
    }
  }

  // ------------------------------------------------------------------------
  // One sync
  // ------------------------------------------------------------------------

  /** What one sync promises. */
  ghost predicate Synced(t: Tables, u: Tables, s: Sync) {
    && Wf(u)
    && Ids(u.zones, s.account) == ListedIds(s.list)
    && Others(u.zones, s.account) == Others(t.zones, s.account)
    && (forall y <- u.zones :: y.account == s.account ==> LatestIs(s.list, y.id, y.name, y.status))
    && (forall pk, a, id :: Has(t.zones, pk, a, id) && !(a == s.account && !Lists(s.list, id)) ==>
                              Has(u.zones, pk, a, id))
    && u.hosts.Keys == t.hosts.Keys
    && (forall h <- t.hosts ::
          if t.hosts[h].Some? && exists id :: Has(t.zones, t.hosts[h].value, s.account, id) && !Lists(s.list, id)
          then u.hosts[h] == None
          else u.hosts[h] == t.hosts[h])
  }

  lemma SameRow(t: Tables, pk: nat, a: nat, id: string, b: nat, id2: string)
    requires Unique(t) && Has(t.zones, pk, a, id) && Has(t.zones, pk, b, id2)
    ensures a == b && id == id2
  {
    var x :| x in t.zones && x.pk == pk && x.account == a && x.id == id;
    var y :| y in t.zones && y.pk == pk && y.account == b && y.id == id2;
    var i :| 0 <= i < |t.zones| && t.zones[i] == x;
    var j :| 0 <= j < |t.zones| && t.zones[j] == y;
    assert i == j;
  }

  lemma PruneKeepsRows(u: Tables, account: nat, list: seq<Listed>)
    requires Wf(u)
    ensures var v := Prune(u, account, list);
            && Wf(v)
            && (forall pk, a, id :: Has(v.zones, pk, a, id) <==>
                                    Has(u.zones, pk, a, id) && !(a == account && !Lists(list, id)))
  {
    var v := Prune(u, account, list);
    KeepSelects(u.zones, account, list);
    KeepKeepsSeparate(u.zones, account, list);
    forall pk, a, id | Has(u.zones, pk, a, id) && !(a == account && !Lists(list, id)) ensures Has(v.zones, pk, a, id) {
      var y :| y in u.zones && y.pk == pk && y.account == a && y.id == id;
      assert y in v.zones;
    }
  }

  lemma HostAfterPrune(t: Tables, u: Tables, account: nat, list: seq<Listed>, h: nat)
    requires Wf(t) && Upserted(t, u, account, list) && h in t.hosts
    ensures var v := Prune(u, account, list);
            if t.hosts[h].Some? && exists id :: Has(t.zones, t.hosts[h].value, account, id) && !Lists(list, id)
            then v.hosts[h] == None
            else v.hosts[h] == t.hosts[h]
  {
    PruneKeepsRows(u, account, list);
    if t.hosts[h].Some? {
      var v, pk := Prune(u, account, list), t.hosts[h].value;
      var y :| y in t.zones && y.pk == pk;
      assert Has(t.zones, pk, y.account, y.id);
      assert Has(u.zones, pk, y.account, y.id);
      if id :| Has(t.zones, pk, account, id) && !Lists(list, id) {
        SameRow(t, pk, account, id, y.account, y.id);
        if x :| x in v.zones && x.pk == pk {
          assert Has(v.zones, pk, x.account, x.id);
          SameRow(u, pk, account, id, x.account, x.id);
        }
      } else {
        assert Has(v.zones, pk, y.account, y.id);
      }
    }
  }

  /** After a sync the account has exactly the listed zones; identities, other accounts and hosts survive. */
  lemma SyncPreservesIdentity(t: Tables, s: Sync)
    requires Wf(t)
    ensures Synced(t, Run(t, s), s)
  {
    var u, v := UpsertAll(t, s.account, s.list, s.now), Run(t, s);
    UpsertAllUpserts(t, s.account, s.list, s.now);
    PruneKeepsRows(u, s.account, s.list);
    KeepSelects(u.zones, s.account, s.list);
    KeepLeavesOthers(u.zones, s.account, s.list);
    forall h <- t.hosts ensures
        if t.hosts[h].Some? && exists id :: Has(t.zones, t.hosts[h].value, s.account, id) && !Lists(s.list, id)
        then v.hosts[h] == None
        else v.hosts[h] == t.hosts[h]
    {
      HostAfterPrune(t, u, s.account, s.list, h);
    }
    forall id ensures id in Ids(v.zones, s.account) <==> id in ListedIds(s.list) {
      if id in ListedIds(s.list) {
        var z :| z in s.list && z.id == id;
        var y :| y in u.zones && y.account == s.account && y.id == z.id;
        assert y in v.zones;
      }
    }
  }

  lemma UpsertStamps(u: Tables, account: nat, first: seq<Listed>, z: Listed, now: nat)
    requires Wf(u) && forall y <- u.zones :: y.account == account && Lists(first, y.id) ==> y.syncedAt == now
    ensures forall y <- Upsert(u, account, z, now).zones ::
              y.account == account && Lists(first + [z], y.id) ==> y.syncedAt == now
  {
    var v := Upsert(u, account, z, now);
    hide Wf, Upsert, Lists, Has;
    forall y <- v.zones | y.account == account && Lists(first + [z], y.id) ensures y.syncedAt == now {
      var k :| 0 <= k < |v.zones| && v.zones[k] == y;
      UpsertedRow(u, account, z, now, k);
      if y.id != z.id {
        ListsOther(first, z, y.id);
      }
    }
  }

  lemma {:induction false} UpsertAllStamps(t: Tables, account: nat, list: seq<Listed>, now: nat)
    requires Wf(t)
    ensures forall y <- UpsertAll(t, account, list, now).zones ::
              y.account == account && Lists(list, y.id) ==> y.syncedAt == now
  {
    if list == [] {
    } else {
      var first, z := list[..|list| - 1], list[|list| - 1];
      UpsertAllStamps(t, account, first, now);
      UpsertAllUpserts(t, account, first, now);
      assert list == first + [z];
      UpsertStamps(UpsertAll(t, account, first, now), account, first, z, now);
    }
  }

  /** Every zone of the account carries the time of the sync. */
  lemma SyncStampsRows(t: Tables, s: Sync)
    requires Wf(t)
    ensures forall y <- Run(t, s).zones :: y.account == s.account ==> y.syncedAt == s.now
  {
    UpsertAllStamps(t, s.account, s.list, s.now);
    KeepSelects(UpsertAll(t, s.account, s.list, s.now).zones, s.account, s.list);
  }

  // ------------------------------------------------------------------------
  // Any number of syncs
  // ------------------------------------------------------------------------

  lemma {:induction false} RunsKeepWf(t: Tables, syncs: seq<Sync>)
    requires Wf(t)
    ensures Wf(RunAll(t, syncs))
  {
    if syncs == [] {
    } else {
      RunsKeepWf(t, syncs[..|syncs| - 1]);
      SyncPreservesIdentity(RunAll(t, syncs[..|syncs| - 1]), syncs[|syncs| - 1]);
    }
  }

  lemma {:induction false} IdsAreThoseOfOthers(zones: seq<Zone>, account: nat, other: nat)
    requires account != other
    ensures Ids(Others(zones, other), account) == Ids(zones, account)
  {
    if zones == [] {
    } else {
      var before, last := zones[..|zones| - 1], zones[|zones| - 1];
      IdsAreThoseOfOthers(before, account, other);
      assert zones == before + [last];
      assert Ids(zones, account) == Ids(before, account) + Ids([last], account);
      assert Ids(Others(zones, other), account) ==
             Ids(Others(before, other), account) + (if last.account == other then {} else Ids([last], account));
    }
  }

  /** The last list synced for an account, if there was one. */
  function LastList(syncs: seq<Sync>, account: nat): Option<seq<Listed>> {
    if syncs == [] then None
    else if syncs[|syncs| - 1].account == account then Some(syncs[|syncs| - 1].list)
    else LastList(syncs[..|syncs| - 1], account)
  }

  /** After any run an account's zones are those of its last list; an account never synced is unchanged. */
  lemma {:induction false} ZonesAreThoseLastListed(t: Tables, syncs: seq<Sync>, account: nat)
    requires Wf(t)
    ensures var last := LastList(syncs, account);
            Ids(RunAll(t, syncs).zones, account) ==
            if last.Some? then ListedIds(last.value) else Ids(t.zones, account)
  {
    if syncs == [] {
    } else {
      var before, s := syncs[..|syncs| - 1], syncs[|syncs| - 1];
      RunsKeepWf(t, before);
      SyncPreservesIdentity(RunAll(t, before), s);
      if s.account != account {
        ZonesAreThoseLastListed(t, before, account);
        IdsAreThoseOfOthers(RunAll(t, before).zones, account, s.account);
        IdsAreThoseOfOthers(RunAll(t, syncs).zones, account, s.account);
      }
    }
  }

  /** Every sync of the account lists the zone. */
  ghost predicate AlwaysListed(syncs: seq<Sync>, account: nat, id: string) {
    forall s <- syncs :: s.account == account ==> Lists(s.list, id)
  }

  /**
   A host keeps its zone, and the zone its primary key, through any run exactly when the zone is
   in every list synced for its account.
   */
  lemma {:induction false} HostsKeepTheirZoneExactly(t: Tables, syncs: seq<Sync>, h: nat, account: nat, id: string)
    requires Wf(t) && h in t.hosts && t.hosts[h].Some? && Has(t.zones, t.hosts[h].value, account, id)
    ensures var u := RunAll(t, syncs);
            && h in u.hosts
            && (if AlwaysListed(syncs, account, id) then
                  u.hosts[h] == t.hosts[h] && Has(u.zones, t.hosts[h].value, account, id)
                else u.hosts[h] == None)
  {
    if syncs == [] {
    } else {
      var before, s := syncs[..|syncs| - 1], syncs[|syncs| - 1];
      assert syncs == before + [s];
      HostsKeepTheirZoneExactly(t, before, h, account, id);
      RunsKeepWf(t, before);
      var u := RunAll(t, before);
      SyncPreservesIdentity(u, s);
      assert AlwaysListed(syncs, account, id) <==>
             AlwaysListed(before, account, id) && (s.account == account ==> Lists(s.list, id));
      if AlwaysListed(before, account, id) {
        if id2 :| Has(u.zones, t.hosts[h].value, s.account, id2) && !Lists(s.list, id2) {
          SameRow(u, t.hosts[h].value, account, id, s.account, id2);
        }
      }
    }
  }

  // ------------------------------------------------------------------------
  // The transaction
  // ------------------------------------------------------------------------

  class ZoneStore {
    var zones: seq<Zone>
    var nextPk: nat
    var hosts: map<nat, Option<nat>>

    ghost function View(): Tables
      reads this
    {
      Tables(zones, nextPk, hosts)
    }

    method SyncZonesForAccount(account: nat, list: seq<Listed>, now: nat) returns (count: nat)
      requires Wf(View())
      modifies this
      ensures View() == Run(old(View()), Sync(account, list, now))
      ensures Synced(old(View()), View(), Sync(account, list, now))
      ensures count == |list|
    {
      hide Synced, Wf, Upsert, Prune;
      SyncPreservesIdentity(View(), Sync(account, list, now));
      for n := 0 to |list|
        invariant View() == UpsertAll(old(View()), account, list[..n], now)
      {
        assert list[..n + 1][..n] == list[..n];
        InsertOrMerge(account, list[n], now);
      }
      assert list[..|list|] == list;
      DeleteUnlisted(account, list);
      return |list|;
    }

    method DeleteUnlisted(account: nat, list: seq<Listed>)
      modifies `zones, `hosts
      ensures View() == Prune(old(View()), account, list)
    {
      var kept: seq<Zone> := [];
      for n := 0 to |zones|
        invariant unchanged(this)
        invariant kept == Keep(zones[..n], account, list)
      {
        assert zones[..n + 1][..n] == zones[..n];
        if !(zones[n].account == account && !(exists z <- list :: z.id == zones[n].id)) {
          kept := kept + [zones[n]];
        }
      }
      assert zones[..|zones|] == zones;
      zones := kept;
      hosts := SetNull(hosts, kept);
    }

    method InsertOrMerge(account: nat, z: Listed, now: nat)
      modifies `zones, `nextPk
      ensures View() == Upsert(old(View()), account, z, now)
    {
      var i := 0;
      while i < |zones| && !(zones[i].account == account && zones[i].id == z.id)
        invariant i <= Find(zones, account, z.id)
      {
        i := i + 1;
      }
      if i < |zones| {
        zones := zones[i := zones[i].(name := z.name, status := z.status, syncedAt := now)];
      } else {
        zones := zones + [Zone(nextPk, account, z.id, z.name, z.status, now)];
        nextPk := nextPk + 1;
      }
    }
  }
}
