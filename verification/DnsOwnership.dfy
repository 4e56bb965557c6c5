/**
 Who owns which DNS record.

 Host rows hold the id of the record that was created for them; the records themselves live in
 Cloudflare's zones, where users can also edit, add and delete them. Every request handler is a
 function on the pair of stores. What Cloudflare and the tunnel provider answer is an argument.
 Handlers do not overlap here; `OverlapExactly` says what two overlapping deploys do.
 */
module DnsOwnership {
  import opened Prelude
  import opened Text

  type HostId = nat
  type ZoneId = nat
  type RecordId = nat

  /** What a provider asks to be published for a host. */
  datatype Edge =
    | Cname(target: string)
    | Srv(service: string, proto: string, port: nat, target: string)
    | HostPort

  datatype DnsRecord = DnsRecord(zone: ZoneId, hostname: string, edge: Edge)

  datatype Mode = LocalNginx | Tunnel

  datatype Row = Row(
    mode: Mode,
    hostname: string,
    tunnel: Option<nat>,
    zone: Option<ZoneId>,
    isRecoveryUi: bool, // forwards to port 8001 on a loopback address
    enabled: bool,
    record: Option<RecordId>)

  /** `created` are the record ids that CloudGate made; ids are never reused. */
  datatype Stores = Stores(
    rows: map<HostId, Row>,
    nextHost: HostId,
    zones: map<ZoneId, string>,
    remote: map<RecordId, DnsRecord>,
    nextRecord: RecordId,
    created: set<RecordId>)

  /** Is the zone's token usable, and which calls fail with anything but 404? */
  datatype Api = Api(tokenOk: bool, updateFails: bool, createFails: bool, deleteFails: bool)

  /** `usable`: the tunnel row exists and its provider supports the protocol. `edge`: what addHost returns. */
  datatype Provider = Provider(usable: bool, edge: Option<Edge>)

  const EMPTY: Stores := Stores(map[], 0, map[], map[], 0, {})

  // ------------------------------------------------------------------------
  // The Cloudflare client
  // ------------------------------------------------------------------------

  predicate Found(s: Stores, zone: ZoneId, id: RecordId) {
    id in s.remote && s.remote[id].zone == zone
  }

  function CreateRecord(s: Stores, record: DnsRecord): Stores {
    s.(remote := s.remote[s.nextRecord := record], nextRecord := s.nextRecord + 1,
       created := s.created + {s.nextRecord})
  }

  /** Update in place; when the known record is gone (404), create a fresh one. */
  function Upsert(s: Stores, existing: Option<RecordId>, record: DnsRecord, api: Api)
    : (r: (Stores, Option<RecordId>))
  {
    if existing.Some? && api.updateFails then (s, None)
    else if existing.Some? && Found(s, record.zone, existing.value) then
      (s.(remote := s.remote[existing.value := record]), existing)
    else if api.createFails then (s, None)
    else (CreateRecord(s, record), Some(s.nextRecord))
  }

  /** A delete that finds nothing (404) is a success. */
  function DeleteRecord(s: Stores, zone: ZoneId, id: RecordId, api: Api): Stores {
    if api.deleteFails || !Found(s, zone, id) then s else s.(remote := s.remote - {id})
  }

  // ------------------------------------------------------------------------
  // Deploy and undeploy
  // ------------------------------------------------------------------------

  function Persist(s: Stores, h: HostId, id: RecordId): Stores {
    if h in s.rows then s.(rows := s.rows[h := s.rows[h].(record := Some(id))]) else s
  }

  /** Writes the DNS record for an edge; `false` when it throws. */
  function WriteDns(s: Stores, h: HostId, row: Row, edge: Edge, api: Api): (Stores, bool) {
    if edge.HostPort? then (s, true)
    else if row.zone.None? || row.zone.value !in s.zones || !api.tokenOk then (s, false)
    else
      var (s1, id) := Upsert(s, row.record, DnsRecord(row.zone.value, row.hostname, edge), api);
      if id.None? then (s1, false) else (Persist(s1, h, id.value), true)
  }

  function Deploy(s: Stores, h: HostId, provider: Provider, api: Api): (Stores, bool) {
    if h !in s.rows || s.rows[h].isRecoveryUi then (s, false)
    else if s.rows[h].mode == LocalNginx then (s, true)
    else if s.rows[h].tunnel.None? || !provider.usable || provider.edge.None? then (s, false)
    else WriteDns(s, h, s.rows[h], provider.edge.value, api)
  }

  /** Deletes the record but leaves its id in the row. */
  function Undeploy(s: Stores, h: HostId, api: Api): Stores {
    if h !in s.rows || s.rows[h].record.None? || s.rows[h].zone.None? then s
    else if s.rows[h].zone.value !in s.zones || !api.tokenOk then s
    else DeleteRecord(s, s.rows[h].zone.value, s.rows[h].record.value, api)
  }

  // ------------------------------------------------------------------------
  // The request handlers
  // ------------------------------------------------------------------------

  /** `tunnelOk`: the requested tunnel is the user's and supports the protocol. */
  datatype Edit = Edit(tunnel: Option<nat>, zone: Option<ZoneId>, tunnelOk: bool)

  datatype Request =
    | Create(row: Row, placementOk: bool, provider: Provider, api: Api)
    | Redeploy(host: HostId, provider: Provider, api: Api)
    | Put(host: HostId, edit: Edit, teardown: Api, provider: Provider, api: Api)
    | Delete(host: HostId, api: Api)
    | Toggle(host: HostId, provider: Provider, api: Api)
    | AddZone(zone: ZoneId, name: string)
    | PruneZone(zone: ZoneId)
    | DashboardDelete(id: RecordId)
    | DashboardEdit(id: RecordId, edge: Edge)
    | DashboardCreate(record: DnsRecord)

  predicate CreateRefused(s: Stores, row: Row, placementOk: bool) {
    || !placementOk
    || (row.zone.Some? && row.zone.value !in s.zones)
    || (exists h <- s.rows :: s.rows[h].hostname == row.hostname)
  }

  function CreateHost(s: Stores, row: Row, placementOk: bool, provider: Provider, api: Api): Stores {
    if CreateRefused(s, row, placementOk) then s
    else
      var added := row.(enabled := true, record := None);
      Deploy(s.(rows := s.rows[s.nextHost := added], nextHost := s.nextHost + 1), s.nextHost, provider, api).0
  }

  predicate TunnelChanging(row: Row, e: Edit) {
    e.tunnel.Some? && e.tunnel != row.tunnel
  }

  predicate ZoneChanging(row: Row, e: Edit) {
    e.zone.Some? && e.zone != row.zone
  }

  predicate Accepted(s: Stores, row: Row, e: Edit) {
    TunnelChanging(row, e) || ZoneChanging(row, e) ==>
      && (TunnelChanging(row, e) ==> e.tunnelOk)
      && (e.zone.Some? ==> e.zone.value in s.zones && EndsWith(row.hostname, s.zones[e.zone.value]))
  }

  function Edited(row: Row, e: Edit): Row {
    row.(tunnel := if e.tunnel.Some? then e.tunnel else row.tunnel,
         zone := if e.zone.Some? then e.zone else row.zone,
         record := if ZoneChanging(row, e) then None else row.record)
  }

  function PutHost(s: Stores, h: HostId, e: Edit, teardown: Api, provider: Provider, api: Api): Stores {
    if h !in s.rows || !Accepted(s, s.rows[h], e) then s
    else
      var row := s.rows[h];
      var s1 := if TunnelChanging(row, e) || ZoneChanging(row, e) then Undeploy(s, h, teardown) else s;
      Deploy(s1.(rows := s1.rows[h := Edited(row, e)]), h, provider, api).0
  }

  function DeleteHost(s: Stores, h: HostId, api: Api): Stores {
    var s1 := Undeploy(s, h, api);
    s1.(rows := s1.rows - {h})
  }

  function ToggleHost(s: Stores, h: HostId, provider: Provider, api: Api): Stores {
    if h !in s.rows then s
    else
      var row := s.rows[h];
      var s1 := s.(rows := s.rows[h := row.(enabled := !row.enabled)]);
      if !row.enabled then Deploy(s1, h, provider, api).0
      else if row.tunnel.Some? then Undeploy(s1, h, api)
      else s1
  }

  function Unzone(rows: map<HostId, Row>, zone: ZoneId): map<HostId, Row> {
    map h | h in rows :: if rows[h].zone == Some(zone) then rows[h].(zone := None) else rows[h]
  }

  function Handle(s: Stores, q: Request): Stores {
    match q
    case Create(row, placementOk, provider, api) => CreateHost(s, row, placementOk, provider, api)
    case Redeploy(h, provider, api) => Deploy(s, h, provider, api).0
    case Put(h, e, teardown, provider, api) => PutHost(s, h, e, teardown, provider, api)
    case Delete(h, api) => DeleteHost(s, h, api)
    case Toggle(h, provider, api) => ToggleHost(s, h, provider, api)
    case AddZone(z, name) => s.(zones := s.zones[z := name])
    case PruneZone(z) => s.(zones := s.zones - {z}, rows := Unzone(s.rows, z))
    case DashboardDelete(id) => s.(remote := s.remote - {id})
    case DashboardEdit(id, edge) =>
      if id in s.remote then s.(remote := s.remote[id := s.remote[id].(edge := edge)]) else s
    case DashboardCreate(record) =>
      s.(remote := s.remote[s.nextRecord := record], nextRecord := s.nextRecord + 1)
  }

  // ------------------------------------------------------------------------
  // Ownership
  // ------------------------------------------------------------------------

  /** Row `h` is where record `id` can be found again. */
  ghost predicate Holds(s: Stores, h: HostId, id: RecordId)
    requires id in s.remote
  {
    h in s.rows && s.rows[h].record == Some(id) && s.rows[h].zone == Some(s.remote[id].zone)
  }

  /** What every state satisfies: ids are unique, ours, and never point across zones. */
  ghost predicate Wf(s: Stores) {
    && (forall h <- s.rows :: h < s.nextHost)
    && (forall id <- s.remote :: id < s.nextRecord)
    && (forall id <- s.created :: id < s.nextRecord)
    && (forall h <- s.rows :: s.rows[h].record.Some? ==> s.rows[h].record.value in s.created)
    && (forall h <- s.rows :: s.rows[h].zone.Some? ==> s.rows[h].zone.value in s.zones)
    && (forall g, h :: g in s.rows && h in s.rows && g != h && s.rows[g].record.Some? ==>
                         s.rows[g].record != s.rows[h].record)
    && (forall h <- s.rows :: s.rows[h].record.Some? && s.rows[h].zone.Some?
                              && s.rows[h].record.value in s.remote ==>
                                s.remote[s.rows[h].record.value].zone == s.rows[h].zone.value)
  }

  /** Every record CloudGate made that still exists is held by a host row in the record's zone. */
  ghost predicate Owned(s: Stores) {
    forall id :: id in s.remote && id in s.created ==> exists h :: Holds(s, h, id)
  }

  /** Host `h` holds a record that still exists. */
  predicate HasLiveRecord(s: Stores, h: HostId) {
    && h in s.rows && s.rows[h].record.Some? && s.rows[h].zone.Some?
    && Found(s, s.rows[h].zone.value, s.rows[h].record.value)
  }

  predicate CannotDelete(s: Stores, h: HostId, api: Api) {
    HasLiveRecord(s, h) && (!api.tokenOk || api.deleteFails)
  }

  /**
   The requests that drop the last reference to a live record: deleting a host or moving it to
   another zone while Cloudflare refuses the delete, and pruning a zone whose records survive.
   */
  predicate Loses(s: Stores, q: Request) {
    match q
    case Delete(h, api) => CannotDelete(s, h, api)
    case Put(h, e, teardown, _, _) =>
      && CannotDelete(s, h, teardown)
      && Accepted(s, s.rows[h], e) && ZoneChanging(s.rows[h], e)
    case PruneZone(z) => exists h <- s.rows :: s.rows[h].zone == Some(z) && HasLiveRecord(s, h)
    case _ => false
  }

  /** Writing a record for host `h` either changes nothing or gives `h` the record it wrote. */
  lemma WriteDnsEffect(s: Stores, h: HostId, edge: Edge, api: Api)
    requires Wf(s) && h in s.rows
    ensures var (t, ok) := WriteDns(s, h, s.rows[h], edge, api);
            || t == s
            || exists id, zone :: Wrote(s, t, h, id, zone, edge)
  {
    var (t, ok) := WriteDns(s, h, s.rows[h], edge, api);
    if t != s {
      var row := s.rows[h];
      var id := if row.record.Some? && Found(s, row.zone.value, row.record.value) then row.record.value
                else s.nextRecord;
      assert Wrote(s, t, h, id, row.zone.value, edge);
    }
  }

  /** `t` is `s` after host `h` wrote record `id` in its zone, in place or fresh. */
  ghost predicate Wrote(s: Stores, t: Stores, h: HostId, id: RecordId, zone: ZoneId, edge: Edge) {
    && h in s.rows && s.rows[h].zone == Some(zone)
    && t.rows == s.rows[h := s.rows[h].(record := Some(id))]
    && t.nextHost == s.nextHost && t.zones == s.zones
    && t.remote == s.remote[id := DnsRecord(zone, s.rows[h].hostname, edge)]
    && (if id == s.nextRecord then
          t.nextRecord == s.nextRecord + 1 && t.created == s.created + {id} && !HasLiveRecord(s, h)
        else
          t.nextRecord == s.nextRecord && t.created == s.created
          && HasLiveRecord(s, h) && s.rows[h].record == Some(id))
  }

  lemma WroteKeepsWf(s: Stores, t: Stores, h: HostId, id: RecordId, zone: ZoneId, edge: Edge)
    requires Wf(s) && Wrote(s, t, h, id, zone, edge)
    ensures Wf(t)
  {
  }

  lemma WroteKeepsOwned(s: Stores, t: Stores, h: HostId, id: RecordId, zone: ZoneId, edge: Edge)
    requires Wf(s) && Wrote(s, t, h, id, zone, edge)
    ensures Wf(t)
    ensures Owned(s) ==> Owned(t)
    ensures forall lost :: Lost(s, lost) ==> Lost(t, lost)
  {
    WroteKeepsWf(s, t, h, id, zone, edge);
    if Owned(s) {
      forall r | r in t.remote && r in t.created ensures exists g :: Holds(t, g, r) {
        if r == id {
          assert Holds(t, h, r);
        } else {
          var g :| Holds(s, g, r);
          assert Holds(t, g, r);
        }
      }
    }
  }

  /** A record CloudGate made that no row leads to. */
  ghost predicate Lost(s: Stores, id: RecordId) {
    id in s.remote && id in s.created && forall h <- s.rows :: !Holds(s, h, id)
  }

  lemma LostIsNotOwned(s: Stores, id: RecordId)
    requires Lost(s, id)
    ensures !Owned(s)
  {
  }

  lemma DeployKeeps(s: Stores, h: HostId, provider: Provider, api: Api)
    requires Wf(s)
    ensures var t := Deploy(s, h, provider, api).0;
            && Wf(t) && (Owned(s) ==> Owned(t)) && (forall lost :: Lost(s, lost) ==> Lost(t, lost))
  {
    var t := Deploy(s, h, provider, api).0;
    if t != s {
      WriteDnsEffect(s, h, provider.edge.value, api);
      var id, zone :| Wrote(s, t, h, id, zone, provider.edge.value);
      WroteKeepsOwned(s, t, h, id, zone, provider.edge.value);
    }
  }

  /** Undeploying never loses a record: the row keeps the id of one it could not delete. */
  lemma UndeployKeeps(s: Stores, h: HostId, api: Api)
    requires Wf(s)
    ensures var t := Undeploy(s, h, api);
            && Wf(t) && (Owned(s) ==> Owned(t))
            && t == s.(remote := t.remote)
            && (HasLiveRecord(t, h) <==> CannotDelete(s, h, api))
            && (HasLiveRecord(t, h) ==> t == s)
  {
    var t := Undeploy(s, h, api);
    if Owned(s) {
      forall id | id in t.remote && id in t.created ensures exists g :: Holds(t, g, id) {
        var g :| Holds(s, g, id);
        assert Holds(t, g, id);
      }
    }
  }

  /** Replacing or removing row `h` loses a record exactly when it drops the reference to a live one. */
  lemma RowChange(s: Stores, t: Stores, h: HostId)
    requires Wf(s) && Owned(s) && h in s.rows
    requires t.remote == s.remote && t.created == s.created && t.rows - {h} == s.rows - {h}
    requires h in t.rows ==> t.rows[h].record == s.rows[h].record || t.rows[h].record.None?
    requires h in t.rows && t.rows[h].zone != s.rows[h].zone ==> t.rows[h].record.None?
    ensures var kept := h in t.rows && t.rows[h].record == s.rows[h].record;
            if HasLiveRecord(s, h) && !kept then Lost(t, s.rows[h].record.value) else Owned(t)
  {
    forall g ensures g != h ==> (g in t.rows <==> g in s.rows) && (g in t.rows ==> t.rows[g] == s.rows[g]) {
      assert g != h ==> (g in t.rows - {h} <==> g in s.rows - {h});
      assert g != h && g in t.rows ==> (t.rows - {h})[g] == (s.rows - {h})[g];
    }
    if !HasLiveRecord(s, h) || (h in t.rows && t.rows[h].record == s.rows[h].record) {
      forall id | id in t.remote && id in t.created ensures exists g :: Holds(t, g, id) {
        var g :| Holds(s, g, id);
        assert Holds(t, g, id);
      }
    }
  }

  lemma CreateKeepsWf(s: Stores, added: Row)
    requires Wf(s) && added.record.None? && (added.zone.Some? ==> added.zone.value in s.zones)
    ensures var u := s.(rows := s.rows[s.nextHost := added], nextHost := s.nextHost + 1);
            Wf(u) && (Owned(s) ==> Owned(u))
  {
    var u := s.(rows := s.rows[s.nextHost := added], nextHost := s.nextHost + 1);
    if Owned(s) {
      forall id | id in u.remote && id in u.created ensures exists g :: Holds(u, g, id) {
        var g :| Holds(s, g, id);
        assert Holds(u, g, id);
      }
    }
  }

  lemma CreateKeeps(s: Stores, row: Row, placementOk: bool, provider: Provider, api: Api)
    requires Wf(s)
    ensures var t := CreateHost(s, row, placementOk, provider, api); Wf(t) && (Owned(s) ==> Owned(t))
  {
    hide Wf, Owned, Deploy, Lost;
    if !CreateRefused(s, row, placementOk) {
      var added := row.(enabled := true, record := None);
      CreateKeepsWf(s, added);
      hide CreateRefused;
      DeployKeeps(s.(rows := s.rows[s.nextHost := added], nextHost := s.nextHost + 1), s.nextHost, provider, api);
    }
  }

  /** The row update of an accepted edit, after the old deployment was torn down. */
  lemma EditKeeps(s: Stores, h: HostId, e: Edit)
    requires Wf(s) && h in s.rows && Accepted(s, s.rows[h], e)
    ensures var t := s.(rows := s.rows[h := Edited(s.rows[h], e)]);
            && Wf(t)
            && (Owned(s) ==>
                  if ZoneChanging(s.rows[h], e) && HasLiveRecord(s, h) then Lost(t, s.rows[h].record.value)
                  else Owned(t))
  {
    var t := s.(rows := s.rows[h := Edited(s.rows[h], e)]);
    assert Wf(t);
    if Owned(s) {
      assert t.rows - {h} == s.rows - {h};
      RowChange(s, t, h);
    }
  }

  lemma PutKeeps(s: Stores, h: HostId, e: Edit, teardown: Api, provider: Provider, api: Api)
    requires Wf(s)
    ensures var t := PutHost(s, h, e, teardown, provider, api);
            Wf(t) && (Owned(s) ==> (Owned(t) <==> !Loses(s, Put(h, e, teardown, provider, api))))
  {
    if h in s.rows && Accepted(s, s.rows[h], e) {
      hide Wf, Owned, Lost, Undeploy, Deploy;
      var row := s.rows[h];
      var s1 := if TunnelChanging(row, e) || ZoneChanging(row, e) then Undeploy(s, h, teardown) else s;
      UndeployKeeps(s, h, teardown);
      EditKeeps(s1, h, e);
      var s2 := s1.(rows := s1.rows[h := Edited(row, e)]);
      DeployKeeps(s2, h, provider, api);
      if Owned(s) && Loses(s, Put(h, e, teardown, provider, api)) {
        LostIsNotOwned(PutHost(s, h, e, teardown, provider, api), row.record.value);
      }
    }
  }

  lemma DeleteKeeps(s: Stores, h: HostId, api: Api)
    requires Wf(s)
    ensures var t := DeleteHost(s, h, api);
            Wf(t) && (Owned(s) ==> (Owned(t) <==> !Loses(s, Delete(h, api))))
  {
    var s1 := Undeploy(s, h, api);
    UndeployKeeps(s, h, api);
    var t := s1.(rows := s1.rows - {h});
    if h !in s.rows {
      assert t.rows == s.rows;
    } else if Owned(s) {
      assert t.rows - {h} == s1.rows - {h};
      RowChange(s1, t, h);
      if CannotDelete(s, h, api) {
        LostIsNotOwned(t, s.rows[h].record.value);
      }
    }
  }

  lemma ToggleKeeps(s: Stores, h: HostId, provider: Provider, api: Api)
    requires Wf(s)
    ensures var t := ToggleHost(s, h, provider, api); Wf(t) && (Owned(s) ==> Owned(t))
  {
    if h in s.rows {
      var s1 := s.(rows := s.rows[h := s.rows[h].(enabled := !s.rows[h].enabled)]);
      ToggleKeepsWf(s, h);
      if Owned(s) {
        assert s1.rows - {h} == s.rows - {h};
        RowChange(s, s1, h);
      }
      DeployKeeps(s1, h, provider, api);
      UndeployKeeps(s1, h, api);
    }
  }

  lemma PruneLoses(s: Stores, z: ZoneId, h: HostId)
    requires Wf(s) && h in s.rows && s.rows[h].zone == Some(z) && HasLiveRecord(s, h)
    ensures Lost(Handle(s, PruneZone(z)), s.rows[h].record.value)
  {
  }

  lemma PruneKeeps(s: Stores, z: ZoneId)
    requires Wf(s)
    ensures var t := Handle(s, PruneZone(z));
            Wf(t) && (Owned(s) ==> (Owned(t) <==> !Loses(s, PruneZone(z))))
  {
    var t := Handle(s, PruneZone(z));
    assert Wf(t);
    if Loses(s, PruneZone(z)) {
      var h :| h in s.rows && s.rows[h].zone == Some(z) && HasLiveRecord(s, h);
      PruneLoses(s, z, h);
      LostIsNotOwned(t, s.rows[h].record.value);
    } else if Owned(s) {
      forall id | id in t.remote && id in t.created ensures exists g :: Holds(t, g, id) {
        var g :| Holds(s, g, id);
        assert HasLiveRecord(s, g);
        assert Holds(t, g, id);
      }
    }
  }

  predicate IsDashboard(q: Request) {
    q.DashboardDelete? || q.DashboardEdit? || q.DashboardCreate?
  }

  lemma DashboardKeeps(s: Stores, q: Request)
    requires Wf(s) && (q.AddZone? || IsDashboard(q))
    ensures Wf(Handle(s, q)) && (Owned(s) ==> Owned(Handle(s, q)))
  {
    var t := Handle(s, q);
    assert Wf(t);
    if Owned(s) {
      forall id | id in t.remote && id in t.created ensures exists g :: Holds(t, g, id) {
        var g :| Holds(s, g, id);
        assert Holds(t, g, id);
      }
    }
  }

  /** One request keeps every record owned exactly when it does not lose one. */
  lemma RequestKeepsOwned(s: Stores, q: Request)
    requires Wf(s)
    ensures Wf(Handle(s, q))
    ensures Owned(s) ==> (Owned(Handle(s, q)) <==> !Loses(s, q))
  {
    match q
    case Create(row, placementOk, provider, api) => CreateKeeps(s, row, placementOk, provider, api);
    case Redeploy(h, provider, api) => DeployKeeps(s, h, provider, api);
    case Put(h, e, teardown, provider, api) => PutKeeps(s, h, e, teardown, provider, api);
    case Delete(h, api) => DeleteKeeps(s, h, api);
    case Toggle(h, provider, api) => ToggleKeeps(s, h, provider, api);
    case PruneZone(z) => PruneKeeps(s, z);
    case _ => DashboardKeeps(s, q);
  }

  // ------------------------------------------------------------------------
  // Whole runs
  // ------------------------------------------------------------------------

  ghost predicate AlwaysOwned(s: Stores, run: seq<Request>)
    decreases |run|
  {
    Owned(s) && (run != [] ==> AlwaysOwned(Handle(s, run[0]), run[1..]))
  }

  ghost predicate NeverLoses(s: Stores, run: seq<Request>)
    decreases |run|
  {
    run != [] ==> !Loses(s, run[0]) && NeverLoses(Handle(s, run[0]), run[1..])
  }

  lemma {:induction false} OwnershipExactly(s: Stores, run: seq<Request>)
    requires Wf(s) && Owned(s)
    ensures AlwaysOwned(s, run) <==> NeverLoses(s, run)
    decreases |run|
  {
    if run == [] {
    } else {
      RequestKeepsOwned(s, run[0]);
      if Owned(Handle(s, run[0])) {
        OwnershipExactly(Handle(s, run[0]), run[1..]);
      }
    }
  }

  /**
   In any run from an empty installation, after every request each existing record that
   CloudGate made is held by a host row in its zone, exactly when no request loses one.
   */
  lemma EveryRecordIsOwned(run: seq<Request>)
    ensures AlwaysOwned(EMPTY, run) <==> NeverLoses(EMPTY, run)
  {
    OwnershipExactly(EMPTY, run);
  }

  function After(s: Stores, run: seq<Request>): Stores
    decreases |run|
  {
    if run == [] then s else After(Handle(s, run[0]), run[1..])
  }

  lemma {:induction false} AfterIsWf(s: Stores, run: seq<Request>)
    requires Wf(s)
    ensures Wf(After(s, run))
    decreases |run|
  {
    if run == [] {
    } else {
      RequestKeepsOwned(s, run[0]);
      AfterIsWf(Handle(s, run[0]), run[1..]);
    }
  }

  /** After any run, lossy or not, no two rows hold the same record id, live or stale. */
  lemma HolderIsUnique(run: seq<Request>, g: HostId, h: HostId)
    requires var s := After(EMPTY, run);
             g in s.rows && h in s.rows && s.rows[g].record.Some? && s.rows[g].record == s.rows[h].record
    ensures g == h
  {
    AfterIsWf(EMPTY, run);
  }

  ghost predicate LeftAlone(s: Stores, t: Stores, id: RecordId)
    requires id in s.remote
  {
    id in t.remote && t.remote[id] == s.remote[id] && id !in t.created
  }

  lemma DeployLeavesForeign(s: Stores, h: HostId, provider: Provider, api: Api, id: RecordId)
    requires Wf(s) && id in s.remote && id !in s.created
    ensures LeftAlone(s, Deploy(s, h, provider, api).0, id)
  {
    var t := Deploy(s, h, provider, api).0;
    if t != s {
      WriteDnsEffect(s, h, provider.edge.value, api);
    }
  }

  lemma PutLeavesForeign(s: Stores, h: HostId, e: Edit, teardown: Api, provider: Provider, api: Api, id: RecordId)
    requires Wf(s) && id in s.remote && id !in s.created
    ensures LeftAlone(s, PutHost(s, h, e, teardown, provider, api), id)
  {
    if h in s.rows && Accepted(s, s.rows[h], e) {
      var row := s.rows[h];
      var s1 := if TunnelChanging(row, e) || ZoneChanging(row, e) then Undeploy(s, h, teardown) else s;
      assert LeftAlone(s, s1, id);
      hide Wf, Undeploy, Deploy;
      UndeployKeeps(s, h, teardown);
      EditKeeps(s1, h, e);
      DeployLeavesForeign(s1.(rows := s1.rows[h := Edited(row, e)]), h, provider, api, id);
    }
  }

  /** CloudGate never edits or deletes a record it did not create. */
  lemma ForeignRecordsAreUntouched(run: seq<Request>, q: Request, id: RecordId)
    requires !IsDashboard(q)
    requires var s := After(EMPTY, run); id in s.remote && id !in s.created
    ensures LeftAlone(After(EMPTY, run), Handle(After(EMPTY, run), q), id)
  {
    AfterIsWf(EMPTY, run);
    RequestLeavesForeign(After(EMPTY, run), q, id);
  }

  lemma CreateLeavesForeign(s: Stores, row: Row, placementOk: bool, provider: Provider, api: Api, id: RecordId)
    requires Wf(s) && id in s.remote && id !in s.created
    ensures LeftAlone(s, CreateHost(s, row, placementOk, provider, api), id)
  {
    hide Wf, Deploy;
    if !CreateRefused(s, row, placementOk) {
      var added := row.(enabled := true, record := None);
      CreateKeepsWf(s, added);
      var u := s.(rows := s.rows[s.nextHost := added], nextHost := s.nextHost + 1);
      DeployLeavesForeign(u, s.nextHost, provider, api, id);
    }
  }

  lemma UndeployLeavesForeign(s: Stores, h: HostId, api: Api, id: RecordId)
    requires Wf(s) && id in s.remote && id !in s.created
    ensures LeftAlone(s, Undeploy(s, h, api), id)
  {
  }

  lemma ToggleLeavesForeign(s: Stores, h: HostId, provider: Provider, api: Api, id: RecordId)
    requires Wf(s) && id in s.remote && id !in s.created
    ensures LeftAlone(s, ToggleHost(s, h, provider, api), id)
  {
    hide Wf, Deploy, Undeploy;
    if h in s.rows {
      var s1 := s.(rows := s.rows[h := s.rows[h].(enabled := !s.rows[h].enabled)]);
      ToggleKeepsWf(s, h);
      DeployLeavesForeign(s1, h, provider, api, id);
      UndeployLeavesForeign(s1, h, api, id);
    }
  }

  lemma RequestLeavesForeign(s: Stores, q: Request, id: RecordId)
    requires Wf(s) && !IsDashboard(q)
    requires id in s.remote && id !in s.created
    ensures LeftAlone(s, Handle(s, q), id)
  {
    hide Wf, CreateHost, Deploy, PutHost, ToggleHost, Undeploy;
    match q
    case Create(row, placementOk, provider, api) => CreateLeavesForeign(s, row, placementOk, provider, api, id);
    case Redeploy(h, provider, api) => DeployLeavesForeign(s, h, provider, api, id);
    case Put(h, e, teardown, provider, api) => PutLeavesForeign(s, h, e, teardown, provider, api, id);
    case Delete(h, api) => UndeployLeavesForeign(s, h, api, id);
    case Toggle(h, provider, api) => ToggleLeavesForeign(s, h, provider, api, id);
    case _ =>
  }

  lemma ToggleKeepsWf(s: Stores, h: HostId)
    requires Wf(s) && h in s.rows
    ensures Wf(s.(rows := s.rows[h := s.rows[h].(enabled := !s.rows[h].enabled)]))
  {
  }

  // ------------------------------------------------------------------------
  // Deploying
  // ------------------------------------------------------------------------

  /** The row's record, if it still exists in the row's zone. */
  predicate IsLive(s: Stores, row: Row) {
    && row.record.Some? && row.zone.Some?
    && row.record.value in s.remote && s.remote[row.record.value].zone == row.zone.value
  }

  /** Cloudflare takes the record of `row`: the update of the id it stores, or a new one. */
  predicate CanWrite(s: Stores, row: Row, api: Api) {
    && row.zone.Some? && row.zone.value in s.zones && api.tokenOk
    && (row.record.Some? ==> !api.updateFails)
    && (!IsLive(s, row) ==> !api.createFails)
  }

  /** Nothing stands in the way of deploying `row`. */
  predicate CanDeploy(s: Stores, row: Row, provider: Provider, api: Api) {
    && !row.isRecoveryUi
    && (row.mode == Tunnel ==>
          && row.tunnel.Some? && provider.usable && provider.edge.Some?
          && (provider.edge.value.HostPort? || CanWrite(s, row, api)))
  }

  /** A deploy of `row` is to leave a DNS record behind. */
  predicate BindsDns(row: Row, provider: Provider) {
    row.mode == Tunnel && provider.edge.Some? && !provider.edge.value.HostPort?
  }

  /** `t` is `s` after deploying host `h`: its record is written, in place or fresh, or nothing happens. */
  ghost predicate Deployed(s: Stores, t: Stores, h: HostId, provider: Provider, api: Api) {
    if h in s.rows && CanDeploy(s, s.rows[h], provider, api) && BindsDns(s.rows[h], provider) then
      var row, live := s.rows[h], IsLive(s, s.rows[h]);
      var id := if live then row.record.value else s.nextRecord;
      t == Stores(s.rows[h := row.(record := Some(id))], s.nextHost, s.zones,
                  s.remote[id := DnsRecord(row.zone.value, row.hostname, provider.edge.value)],
                  if live then s.nextRecord else id + 1, if live then s.created else s.created + {id})
    else t == s
  }

  /** A deploy succeeds exactly when nothing stands in its way, and publishes exactly then. */
  lemma DeploySucceedsExactly(s: Stores, h: HostId, provider: Provider, api: Api)
    ensures var (t, ok) := Deploy(s, h, provider, api);
            && (ok <==> h in s.rows && CanDeploy(s, s.rows[h], provider, api))
            && Deployed(s, t, h, provider, api)
            && (!api.tokenOk ==> t == s)
  {
  }

  /** What is left of Cloudflare's records once the record of host `h` was to be deleted. */
  ghost predicate Cleared(s: Stores, remote: map<RecordId, DnsRecord>, h: HostId, api: Api) {
    && remote.Keys <= s.remote.Keys
    && forall id <- s.remote ::
         && (id in remote ==> remote[id] == s.remote[id])
         && (id in remote <==> !(Holds(s, h, id) && api.tokenOk && !api.deleteFails))
  }

  /** Undeploying deletes the record of the host and nothing else, unless Cloudflare refuses. */
  lemma UndeployExactly(s: Stores, h: HostId, api: Api)
    requires Wf(s)
    ensures var t := Undeploy(s, h, api); t == s.(remote := t.remote) && Cleared(s, t.remote, h, api)
  {
  }

  /** Deleting a host takes its row away and clears its record. */
  lemma DeleteExactly(s: Stores, h: HostId, api: Api)
    requires Wf(s)
    ensures var t := DeleteHost(s, h, api);
            && t == s.(rows := t.rows, remote := t.remote)
            && (forall g :: g in t.rows <==> g in s.rows && g != h)
            && (forall g <- t.rows :: t.rows[g] == s.rows[g])
            && Cleared(s, t.remote, h, api)
  {
  }

  /** Enabling a host deploys it; disabling one that has a tunnel clears its record. */
  lemma ToggleExactly(s: Stores, h: HostId, provider: Provider, api: Api)
    requires Wf(s) && h in s.rows
    ensures var (t, row) := (ToggleHost(s, h, provider, api), s.rows[h]);
            if !row.enabled then
              Deployed(s.(rows := s.rows[h := row.(enabled := true)]), t, h, provider, api)
            else
              && t == s.(rows := s.rows[h := row.(enabled := false)], remote := t.remote)
              && (if row.tunnel.Some? then Cleared(s, t.remote, h, api) else t.remote == s.remote)
  {
    hide Deploy, Undeploy, Wf, Deployed;
    var row := s.rows[h];
    var s1 := s.(rows := s.rows[h := row.(enabled := !row.enabled)]);
    ToggleKeepsWf(s, h);
    DeploySucceedsExactly(s1, h, provider, api);
    UndeployExactly(s1, h, api);
    assert forall id <- s.remote :: Holds(s1, h, id) == Holds(s, h, id);
  }

  /** A new host gets the next id, is enabled, holds no record of its own yet, and is deployed. */
  lemma CreateExactly(s: Stores, row: Row, placementOk: bool, provider: Provider, api: Api)
    ensures var t := CreateHost(s, row, placementOk, provider, api);
            if && placementOk && (row.zone.Some? ==> row.zone.value in s.zones)
               && (forall h <- s.rows :: s.rows[h].hostname != row.hostname)
            then
              var added := Row(row.mode, row.hostname, row.tunnel, row.zone, row.isRecoveryUi, true, None);
              Deployed(s.(rows := s.rows[s.nextHost := added], nextHost := s.nextHost + 1),
                       t, s.nextHost, provider, api)
            else t == s
  {
    var u := s.(rows := s.rows[s.nextHost := row.(enabled := true, record := None)], nextHost := s.nextHost + 1);
    DeploySucceedsExactly(u, s.nextHost, provider, api);
    hide Deploy, Deployed;
  }

  /**
   An edit that moves a host to another tunnel or zone is refused unless the tunnel is fit for it
   and its name belongs to the zone that was sent. An accepted move clears the old record; a move to
   another zone forgets its id. Then the row is deployed, moved or not.
   */
  lemma PutExactly(s: Stores, h: HostId, e: Edit, teardown: Api, provider: Provider, api: Api) returns (u: Stores)
    requires Wf(s) && h in s.rows
    ensures var (t, row) := (PutHost(s, h, e, teardown, provider, api), s.rows[h]);
            var toTunnel, toZone := e.tunnel.Some? && e.tunnel != row.tunnel, e.zone.Some? && e.zone != row.zone;
            if || (toTunnel && !e.tunnelOk)
               || ((toTunnel || toZone) && e.zone.Some? &&
                   !(e.zone.value in s.zones && EndsWith(row.hostname, s.zones[e.zone.value])))
            then t == s
            else
              && u == s.(remote := u.remote, rows := s.rows[h := row.(
                     tunnel := if toTunnel then e.tunnel else row.tunnel,
                     zone := if toZone then e.zone else row.zone,
                     record := if toZone then None else row.record)])
              && (if toTunnel || toZone then Cleared(s, u.remote, h, teardown) else u.remote == s.remote)
              && Deployed(u, t, h, provider, api)
  {
    hide Deploy, Undeploy, Wf, Cleared, Deployed;
    var row := s.rows[h];
    var s1 := if TunnelChanging(row, e) || ZoneChanging(row, e) then Undeploy(s, h, teardown) else s;
    u := s1.(rows := s1.rows[h := Edited(row, e)]);
    UndeployExactly(s, h, teardown);
    DeploySucceedsExactly(u, h, provider, api);
  }

  /** A deploy that reports success on a DNS-bound edge leaves the host holding exactly that record. */
  lemma DeployPublishes(s: Stores, h: HostId, provider: Provider, api: Api)
    requires Wf(s) && h in s.rows && s.rows[h].mode == Tunnel
    requires Deploy(s, h, provider, api).1 && !provider.edge.value.HostPort?
    ensures var t := Deploy(s, h, provider, api).0;
            && HasLiveRecord(t, h)
            && t.remote[t.rows[h].record.value] ==
               DnsRecord(s.rows[h].zone.value, s.rows[h].hostname, provider.edge.value)
            && (forall id <- s.remote :: id in t.remote)
            && (HasLiveRecord(s, h) ==> t.remote.Keys == s.remote.Keys)
  {
  }

  /** Redeploying an unchanged host changes nothing. */
  lemma RedeployAddsNothing(s: Stores, h: HostId, provider: Provider, first: Api, second: Api)
    requires Wf(s) && Deploy(s, h, provider, first).1
    ensures var t := Deploy(s, h, provider, first).0; Deploy(t, h, provider, second).0 == t
  {
    var t := Deploy(s, h, provider, first).0;
    if s.rows[h].mode == Tunnel && !provider.edge.value.HostPort? {
      DeployPublishes(s, h, provider, first);
      var id := t.rows[h].record.value;
      assert t.remote == t.remote[id := t.remote[id]];
      assert t.rows == t.rows[h := t.rows[h].(record := Some(id))];
    }
  }

  /** What two deploys of `h` do that both read its row in `s` before either writes it. */
  function Overlapped(s: Stores, h: HostId, edge: Edge, first: Api, second: Api)
    : (r: (Stores, Option<RecordId>, Option<RecordId>))
    requires h in s.rows && s.rows[h].zone.Some?
  {
    var record := DnsRecord(s.rows[h].zone.value, s.rows[h].hostname, edge);
    var (s1, a) := Upsert(s, s.rows[h].record, record, first);
    var (s2, b) := Upsert(s1, s.rows[h].record, record, second);
    var s3 := if a.Some? then Persist(s2, h, a.value) else s2;
    (if b.Some? then Persist(s3, h, b.value) else s3, a, b)
  }

  lemma OverlapOnLiveRecord(s: Stores, h: HostId, edge: Edge, first: Api, second: Api)
    requires Wf(s) && Owned(s) && HasLiveRecord(s, h)
    ensures Owned(Overlapped(s, h, edge, first, second).0)
  {
    var t := Overlapped(s, h, edge, first, second).0;
    assert t.rows == s.rows;
    forall id | id in t.remote && id in t.created ensures exists g :: Holds(t, g, id) {
      var g :| Holds(s, g, id);
      assert Holds(t, g, id);
    }
  }

  /** Without a live record each deploy that succeeds creates one; the row keeps the last. */
  lemma OverlapOfBoth(s: Stores, h: HostId, edge: Edge, first: Api, second: Api)
    requires Wf(s) && h in s.rows && s.rows[h].zone.Some? && !HasLiveRecord(s, h)
    requires var (t, a, b) := Overlapped(s, h, edge, first, second); a.Some? && b.Some?
    ensures var (t, a, b) := Overlapped(s, h, edge, first, second); Lost(t, a.value)
  {
  }

  /** At most one record is created, and then the row of `h` holds it; nothing else changes. */
  lemma OverlapOfOne(s: Stores, h: HostId, edge: Edge, first: Api, second: Api)
    requires Wf(s) && h in s.rows && s.rows[h].zone.Some? && !HasLiveRecord(s, h)
    requires var (t, a, b) := Overlapped(s, h, edge, first, second); a.None? || b.None?
    ensures var t := Overlapped(s, h, edge, first, second).0;
            || t == s
            || (exists zone :: Wrote(s, t, h, s.nextRecord, zone, edge))
  {
    var t := Overlapped(s, h, edge, first, second).0;
    if t != s {
      assert Wrote(s, t, h, s.nextRecord, s.rows[h].zone.value, edge);
    }
  }

  /** Without a live record each deploy that succeeds creates one; the row keeps the last. */
  lemma OverlapWithoutRecord(s: Stores, h: HostId, edge: Edge, first: Api, second: Api)
    requires Wf(s) && Owned(s) && h in s.rows && s.rows[h].zone.Some? && !HasLiveRecord(s, h)
    ensures var (t, a, b) := Overlapped(s, h, edge, first, second);
            if a.Some? && b.Some? then Lost(t, a.value) else Owned(t)
  {
    hide Overlapped, Wf, Owned, Lost, Wrote;
    var (t, a, b) := Overlapped(s, h, edge, first, second);
    if a.Some? && b.Some? {
      OverlapOfBoth(s, h, edge, first, second);
    } else {
      OverlapOfOne(s, h, edge, first, second);
      if t != s {
        var zone :| Wrote(s, t, h, s.nextRecord, zone, edge);
        WroteKeepsOwned(s, t, h, s.nextRecord, zone, edge);
      }
    }
  }

  /**
   Two overlapping deploys of a host lose a record exactly when it had no live record, be it that
   it had none or that the one it had is gone, and both deploys get their write through.
   */
  lemma OverlapExactly(s: Stores, h: HostId, edge: Edge, first: Api, second: Api)
    requires Wf(s) && Owned(s) && h in s.rows && s.rows[h].zone.Some?
    ensures var (t, a, b) := Overlapped(s, h, edge, first, second);
            Owned(t) <==> HasLiveRecord(s, h) || a.None? || b.None?
  {
    hide Overlapped, Wf, Owned, Lost;
    if HasLiveRecord(s, h) {
      OverlapOnLiveRecord(s, h, edge, first, second);
    } else {
      OverlapWithoutRecord(s, h, edge, first, second);
      var (t, a, b) := Overlapped(s, h, edge, first, second);
      if a.Some? && b.Some? {
        LostIsNotOwned(t, a.value);
      }
    }
  }

  /** The simplest case: no record yet, and Cloudflare answers both deploys. */
  lemma OverlapLosesARecord(s: Stores, h: HostId, edge: Edge, api: Api)
    requires Wf(s) && Owned(s) && h in s.rows && s.rows[h].zone.Some? && s.rows[h].record.None?
    requires !api.updateFails && !api.createFails
    ensures var (t, first, second) := Overlapped(s, h, edge, api, api);
            first.Some? && second.Some? && Lost(t, first.value)
  {
    hide Wf, Owned, Lost;
    OverlapOfBoth(s, h, edge, api, api);
  }

  // ------------------------------------------------------------------------
  // The handlers as they update the stores
  // ------------------------------------------------------------------------

  class Registry {
    var rows: map<HostId, Row>
    var nextHost: HostId
    var zones: map<ZoneId, string>
    var remote: map<RecordId, DnsRecord>
    var nextRecord: RecordId
    ghost var created: set<RecordId>

    ghost function View(): Stores
      reads this
    {
      Stores(rows, nextHost, zones, remote, nextRecord, created)
    }

    constructor ()
      ensures View() == EMPTY
    {
      rows, nextHost, zones, remote, nextRecord, created := map[], 0, map[], map[], 0, {};
    }

    /** `upsertCnameRecord` and `upsertSrvRecord`, which differ only in the payload. */
    method UpsertRecord(existing: Option<RecordId>, record: DnsRecord, api: Api) returns (id: Option<RecordId>)
      modifies `remote, `nextRecord, `created
      ensures (View(), id) == Upsert(old(View()), existing, record, api)
      ensures var live := existing.Some? && existing.value in old(remote)
                          && old(remote)[existing.value].zone == record.zone;
              && (id.None? <==> (existing.Some? && api.updateFails) || (!live && api.createFails))
              && (id.None? ==> remote == old(remote) && nextRecord == old(nextRecord))
              && (id.Some? ==>
                    && id.value == (if live then existing.value else old(nextRecord))
                    && remote == old(remote)[id.value := record]
                    && nextRecord == old(nextRecord) + if live then 0 else 1)
    {
      if existing.Some? {
        if api.updateFails {
          return None;
        }
        if existing.value in remote && remote[existing.value].zone == record.zone {
          remote := remote[existing.value := record];
          return existing;
        }
        // 404: the record is gone, so create a new one below.
      }
      if api.createFails {
        return None;
      }
      id := Some(nextRecord);
      remote := remote[nextRecord := record];
      created := created + {nextRecord};
      nextRecord := nextRecord + 1;
    }

    method DeleteDnsRecord(zone: ZoneId, id: RecordId, api: Api)
      modifies `remote
      ensures View() == DeleteRecord(old(View()), zone, id, api)
      ensures forall r <- old(remote) ::
                && (r in remote ==> remote[r] == old(remote)[r])
                && (r !in remote <==> r == id && old(remote)[r].zone == zone && !api.deleteFails)
      ensures remote.Keys <= old(remote).Keys
    {
      if !api.deleteFails && id in remote && remote[id].zone == zone {
        remote := remote - {id};
      }
    }

    method WriteDnsForEdge(h: HostId, row: Row, edge: Edge, api: Api) returns (ok: bool)
      modifies this
      ensures (View(), ok) == WriteDns(old(View()), h, row, edge, api)
      ensures ok <==> edge.HostPort? || CanWrite(old(View()), row, api)
    {
      if edge.HostPort? {
        return true;
      }
      if row.zone.None? || row.zone.value !in zones || !api.tokenOk {
        return false;
      }
      var id := UpsertRecord(row.record, DnsRecord(row.zone.value, row.hostname, edge), api);
      if id.None? {
        return false;
      }
      if h in rows {
        rows := rows[h := rows[h].(record := id)];
      }
      return true;
    }

    method DeployHost(h: HostId, provider: Provider, api: Api) returns (ok: bool)
      modifies this
      ensures (View(), ok) == Deploy(old(View()), h, provider, api)
      ensures ok <==> h in old(rows) && CanDeploy(old(View()), old(rows)[h], provider, api)
    {
      if h !in rows {
        return false;
      }
      var host := rows[h];
      if host.isRecoveryUi {
        return false;
      }
      if host.mode == LocalNginx {
        return true;
      }
      if host.tunnel.None? || !provider.usable || provider.edge.None? {
        return false;
      }
      ok := WriteDnsForEdge(h, host, provider.edge.value, api);
    }

    method UndeployHost(h: HostId, api: Api)
      modifies `remote
      ensures View() == Undeploy(old(View()), h, api)
    {
      if h !in rows {
        return;
      }
      var host := rows[h];
      if host.record.Some? && host.zone.Some? && host.zone.value in zones && api.tokenOk {
        DeleteDnsRecord(host.zone.value, host.record.value, api);
      }
    }

    method CheckPlacement(row: Row, placementOk: bool) returns (refused: bool)
      ensures refused == CreateRefused(View(), row, placementOk)
    {
      if !placementOk || (row.zone.Some? && row.zone.value !in zones) {
        return true;
      }
      refused := exists h <- rows :: rows[h].hostname == row.hostname;
    }

    method PostHost(row: Row, placementOk: bool, provider: Provider, api: Api)
      modifies this
      ensures View() == CreateHost(old(View()), row, placementOk, provider, api)
    {
      var refused := CheckPlacement(row, placementOk);
      if refused {
        return;
      }
      var id := nextHost;
      rows := rows[id := row.(enabled := true, record := None)];
      nextHost := nextHost + 1;
      hide CreateRefused, Deploy;
      var _ := DeployHost(id, provider, api);
    }

    /** A host may move only to the user's own tunnel, and to a zone that its name belongs to. */
    method CheckReassignment(row: Row, e: Edit) returns (valid: bool)
      ensures valid == Accepted(View(), row, e)
      ensures valid <==>
              || ((e.tunnel.None? || e.tunnel == row.tunnel) && (e.zone.None? || e.zone == row.zone))
              || (&& (e.tunnel.None? || e.tunnel == row.tunnel || e.tunnelOk)
                  && (e.zone.None? ||
                      (e.zone.value in zones && EndsWith(row.hostname, zones[e.zone.value]))))
    {
      var tunnelChanging := e.tunnel.Some? && e.tunnel != row.tunnel;
      var zoneChanging := e.zone.Some? && e.zone != row.zone;
      if tunnelChanging || zoneChanging {
        if tunnelChanging && !e.tunnelOk {
          return false;
        }
        if e.zone.Some? {
          if e.zone.value !in zones {
            return false;
          }
          if !EndsWith(row.hostname, zones[e.zone.value]) {
            return false;
          }
        }
      }
      return true;
    }

    method PutHostById(h: HostId, e: Edit, teardown: Api, provider: Provider, api: Api)
      modifies this
      ensures View() == PutHost(old(View()), h, e, teardown, provider, api)
    {
      if h !in rows {
        return;
      }
      var row := rows[h];
      var tunnelChanging := e.tunnel.Some? && e.tunnel != row.tunnel;
      var zoneChanging := e.zone.Some? && e.zone != row.zone;
      var valid := CheckReassignment(row, e);
      if !valid {
        return;
      }
      if tunnelChanging || zoneChanging {
        UndeployHost(h, teardown);
      }
      var updated := row;
      if e.tunnel.Some? {
        updated := updated.(tunnel := e.tunnel);
      }
      if e.zone.Some? {
        updated := updated.(zone := e.zone);
      }
      if zoneChanging {
        updated := updated.(record := None);
      }
      assert updated == Edited(row, e);
      rows := rows[h := updated];
      var _ := DeployHost(h, provider, api);
    }

    method DeleteHostById(h: HostId, api: Api)
      modifies this
      ensures View() == DeleteHost(old(View()), h, api)
    {
      UndeployHost(h, api);
      rows := rows - {h};
    }

    method ToggleHostById(h: HostId, provider: Provider, api: Api) returns (enabled: Option<bool>)
      modifies this
      ensures View() == ToggleHost(old(View()), h, provider, api)
      ensures enabled == if h in old(rows) then Some(!old(rows)[h].enabled) else None
    {
      if h !in rows {
        return None;
      }
      var row := rows[h];
      rows := rows[h := row.(enabled := !row.enabled)];
      if !row.enabled {
        var _ := DeployHost(h, provider, api);
      } else if row.tunnel.Some? {
        UndeployHost(h, api);
      }
      return Some(!row.enabled);
    }
  }
}
