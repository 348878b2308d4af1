/** What each mutation does to the desired state, entry by entry and field by field, and what it reports. */
module MutationEffects {
  import opened Wrappers
  import opened Mutation

  // Relations between the old and the new state; the version is treated apart.

  ghost predicate SameEntry<T>(before: map<string, T>, after: map<string, T>, k: string) {
    (k in before <==> k in after) && (k in before && k in after ==> before[k] == after[k])
  }

  /** Nothing but the routes may have changed, and of these only the one named. */
  ghost predicate OnlyRoute(s: DesiredState, n: DesiredState, id: string) {
    && n.upstreams == s.upstreams && n.tls == s.tls && n.global == s.global && n.rest == s.rest
    && forall k :: k != id ==> SameEntry(s.routes, n.routes, k)
  }

  ghost predicate OnlyUpstream(s: DesiredState, n: DesiredState, id: string) {
    && n.routes == s.routes && n.tls == s.tls && n.global == s.global && n.rest == s.rest
    && forall k :: k != id ==> SameEntry(s.upstreams, n.upstreams, k)
  }

  /** A field that the patch names has its value, any other has the old one. */
  predicate FieldPatched<T(==)>(patch: Option<T>, before: T, after: T) {
    (patch.Some? ==> after == patch.value) && (patch.None? ==> after == before)
  }

  predicate RoutePatched(r: Route, p: RoutePatch, n: Route) {
    && FieldPatched(p.hostnames, r.hostnames, n.hostnames)
    && FieldPatched(p.upstreams, r.upstreams, n.upstreams)
    && FieldPatched(p.matchers, r.matchers, n.matchers)
    && FieldPatched(p.headers, r.headers, n.headers)
    && FieldPatched(p.redirects, r.redirects, n.redirects)
    && FieldPatched(p.attachment, r.attachment, n.attachment)
    && FieldPatched(p.enabled, r.enabled, n.enabled)
    && n.id == r.id && n.createdAt == r.createdAt && n.updatedAt == r.updatedAt
  }

  predicate UpstreamPatched(u: Upstream, p: UpstreamPatch, n: Upstream) {
    && FieldPatched(p.destination, u.destination, n.destination)
    && FieldPatched(p.probe, u.probe, n.probe)
    && FieldPatched(p.weight, u.weight, n.weight)
    && FieldPatched(p.maxRequestBytes, u.maxRequestBytes, n.maxRequestBytes)
    && n.id == u.id
  }

  predicate GlobalPatched(g: GlobalConfig, p: GlobalPatch, n: GlobalConfig) {
    && FieldPatched(p.adminListen, g.adminListen, n.adminListen)
    && FieldPatched(p.defaultSni, g.defaultSni, n.defaultSni)
    && FieldPatched(p.logLevel, g.logLevel, n.logLevel)
  }

  predicate TlsPatched(t: TlsConfig, p: TlsPatch, n: TlsConfig) {
    && FieldPatched(p.email, t.email, n.email)
    && FieldPatched(p.onDemandEnabled, t.onDemandEnabled, n.onDemandEnabled)
    && FieldPatched(p.onDemandAskUrl, t.onDemandAskUrl, n.onDemandAskUrl)
    && FieldPatched(p.defaultIssuer, t.defaultIssuer, n.defaultIssuer)
  }

  /** The route is the old one with another attachment. */
  predicate Reattached(r: Route, n: Route, attachment: Option<Attachment>) {
    && n.attachment == attachment
    && n.id == r.id && n.hostnames == r.hostnames && n.upstreams == r.upstreams && n.matchers == r.matchers
    && n.headers == r.headers && n.redirects == r.redirects && n.enabled == r.enabled
    && n.createdAt == r.createdAt && n.updatedAt == r.updatedAt
  }

  /** The key at `i` does not come again. */
  predicate LastAt(keys: seq<string>, i: nat) {
    i < |keys| && forall j :: i < j < |keys| ==> keys[j] != keys[i]
  }

  /** Every key given has its last value, every other key what it had. */
  ghost predicate Imported<T>(before: map<string, T>, keys: seq<string>, values: seq<T>, after: map<string, T>)
    requires |keys| == |values|
  {
    && (forall k :: k !in keys ==> SameEntry(before, after, k))
    && (forall i: nat :: LastAt(keys, i) ==> keys[i] in after && after[keys[i]] == values[i])
  }

  function UpstreamKeys(us: seq<Upstream>): seq<string> {
    seq(|us|, i requires 0 <= i < |us| => us[i].id)
  }

  function RouteKeys(rs: seq<Route>): seq<string> {
    seq(|rs|, i requires 0 <= i < |rs| => rs[i].id)
  }

  /** The mutation leads from `s` to `n`. */
  ghost predicate Does(s: DesiredState, m: Mutation, n: DesiredState) {
    match m
    case CreateRoute(_, r) => OnlyRoute(s, n, r.id) && r.id in n.routes && n.routes[r.id] == r
    case UpdateRoute(_, id, p) =>
      OnlyRoute(s, n, id) && id in s.routes && id in n.routes && RoutePatched(s.routes[id], p, n.routes[id])
    case DeleteRoute(_, id) => OnlyRoute(s, n, id) && id !in n.routes
    case CreateUpstream(_, u) => OnlyUpstream(s, n, u.id) && u.id in n.upstreams && n.upstreams[u.id] == u
    case UpdateUpstream(_, id, p) =>
      OnlyUpstream(s, n, id) && id in s.upstreams && id in n.upstreams && UpstreamPatched(s.upstreams[id], p, n.upstreams[id])
    case DeleteUpstream(_, id) => OnlyUpstream(s, n, id) && id !in n.upstreams
    case AttachPolicy(_, id, presetId, presetVersion) =>
      && OnlyRoute(s, n, id) && id in s.routes && id in n.routes
      && Reattached(s.routes[id], n.routes[id], Some(Attachment(presetId, presetVersion)))
    case DetachPolicy(_, id) =>
      OnlyRoute(s, n, id) && id in s.routes && id in n.routes && Reattached(s.routes[id], n.routes[id], None)
    case UpgradePolicy(_, id, toVersion) =>
      && OnlyRoute(s, n, id) && id in s.routes && id in n.routes && s.routes[id].attachment.Some?
      && Reattached(s.routes[id], n.routes[id], Some(Attachment(s.routes[id].attachment.value.presetId, toVersion)))
    case SetGlobalConfig(_, p) =>
      && n.routes == s.routes && n.upstreams == s.upstreams && n.tls == s.tls && n.rest == s.rest
      && GlobalPatched(s.global, p, n.global)
    case SetTlsConfig(_, p) =>
      && n.routes == s.routes && n.upstreams == s.upstreams && n.global == s.global && n.rest == s.rest
      && TlsPatched(s.tls, p, n.tls)
    case ImportFromCaddyfile(_, us, rs) =>
      && n.tls == s.tls && n.global == s.global && n.rest == s.rest
      && Imported(s.upstreams, UpstreamKeys(us), us, n.upstreams)
      && Imported(s.routes, RouteKeys(rs), rs, n.routes)
    case _ => false
  }

  /** The change list says where something changed, what stood there, and what stands there now. */
  predicate Reports(s: DesiredState, m: Mutation, n: DesiredState, changes: seq<Change>) {
    match m
    case CreateRoute(_, r) => changes == [Change(RouteSpot(r.id), None, Some(RouteContent(r)))]
    case UpdateRoute(_, id, _) =>
      id in s.routes && id in n.routes
      && changes == [Change(RouteSpot(id), Some(RouteContent(s.routes[id])), Some(RouteContent(n.routes[id])))]
    case DeleteRoute(_, id) =>
      changes == [Change(RouteSpot(id), if id in s.routes then Some(RouteContent(s.routes[id])) else None, None)]
    case CreateUpstream(_, u) => changes == [Change(UpstreamSpot(u.id), None, Some(UpstreamContent(u)))]
    case UpdateUpstream(_, id, _) =>
      id in s.upstreams && id in n.upstreams
      && changes == [Change(UpstreamSpot(id), Some(UpstreamContent(s.upstreams[id])), Some(UpstreamContent(n.upstreams[id])))]
    case DeleteUpstream(_, id) =>
      changes == [Change(UpstreamSpot(id), if id in s.upstreams then Some(UpstreamContent(s.upstreams[id])) else None, None)]
    case AttachPolicy(_, id, _, _) => ReportsAttachment(s, n, id, changes)
    case DetachPolicy(_, id) => ReportsAttachment(s, n, id, changes)
    case UpgradePolicy(_, id, _) => ReportsAttachment(s, n, id, changes)
    case SetGlobalConfig(_, _) =>
      changes == if n.global == s.global then [] else [Change(GlobalSpot, Some(GlobalContent(s.global)), Some(GlobalContent(n.global)))]
    case SetTlsConfig(_, _) =>
      changes == if n.tls == s.tls then [] else [Change(TlsSpot, Some(TlsContent(s.tls)), Some(TlsContent(n.tls)))]
    case ImportFromCaddyfile(_, us, rs) =>
      && |changes| == |us| + |rs|
      && (forall i :: 0 <= i < |us| ==> changes[i] == Change(UpstreamSpot(us[i].id), None, Some(UpstreamContent(us[i]))))
      && (forall i :: 0 <= i < |rs| ==> changes[|us| + i] == Change(RouteSpot(rs[i].id), None, Some(RouteContent(rs[i]))))
    case _ => false
  }

  predicate ReportsAttachment(s: DesiredState, n: DesiredState, id: string, changes: seq<Change>) {
    && id in s.routes && id in n.routes && |changes| == 1 && changes[0].spot == AttachmentSpot(id)
    && ReportedAs(s.routes[id].attachment, changes[0].before)
    && ReportedAs(n.routes[id].attachment, changes[0].after)
  }

  predicate ReportedAs(a: Option<Attachment>, c: Option<Content>) {
    if a.Some? then c == Some(AttachmentContent(a.value)) else c == None
  }

  /** What the mutation is about is there; some kinds are never applied here. */
  predicate HasTarget(s: DesiredState, m: Mutation) {
    match m
    case UpdateRoute(_, id, _) => id in s.routes
    case UpdateUpstream(_, id, _) => id in s.upstreams
    case AttachPolicy(_, id, _, _) => id in s.routes
    case DetachPolicy(_, id) => id in s.routes
    case UpgradePolicy(_, id, _) => id in s.routes && s.routes[id].attachment.Some?
    case _ => !m.Rollback? && !m.ReplaceDesiredState? && !m.ReapplySnapshot? && !m.DriftDeferred?
  }

  /** Why a mutation without its target is refused. */
  predicate MissesTarget(s: DesiredState, m: Mutation, e: MutationError) {
    match e
    case RouteMissing =>
      || (m.UpdateRoute? && m.id !in s.routes)
      || ((m.AttachPolicy? || m.DetachPolicy? || m.UpgradePolicy?) && m.routeId !in s.routes)
    case UpstreamMissing => m.UpdateUpstream? && m.id !in s.upstreams
    case PolicyAttachmentMissing => m.UpgradePolicy? && m.routeId in s.routes && s.routes[m.routeId].attachment.None?
    case RollbackTargetUnknown => m.Rollback? || m.ReplaceDesiredState? || m.ReapplySnapshot? || m.DriftDeferred?
    case _ => false
  }

  // Imports.

  lemma ImportStep<T>(before: map<string, T>, keys: seq<string>, values: seq<T>, k: string, v: T, mid: map<string, T>)
    requires |keys| == |values| && Imported(before, keys, values, mid)
    ensures Imported(before, keys + [k], values + [v], mid[k := v])
  {
    var more := keys + [k];
    forall x | x !in more ensures SameEntry(before, mid[k := v], x) {
      assert x !in keys && more[|keys|] == k;
    }
    forall i: nat | LastAt(more, i) && i < |keys| ensures LastAt(keys, i) && keys[i] != k {
      assert more[|keys|] == k;
      forall j | i < j < |keys| ensures keys[j] != keys[i] {
        assert more[j] == keys[j];
      }
    }
  }

  lemma {:induction false} ReplayUpstreams(s: DesiredState, us: seq<Upstream>)
    ensures var n := Replay(s, UpstreamCreations(us));
      n == s.(upstreams := n.upstreams) && Imported(s.upstreams, UpstreamKeys(us), us, n.upstreams)
  {
    if us == [] {
      assert Replay(s, []) == s;
    } else {
      var init, last := us[..|us| - 1], us[|us| - 1];
      ReplayUpstreams(s, init);
      assert UpstreamCreations(us) == UpstreamCreations(init) + [Creation(UpstreamSpot(last.id), UpstreamContent(last))];
      ReplayMore(s, UpstreamCreations(init), Creation(UpstreamSpot(last.id), UpstreamContent(last)));
      assert UpstreamKeys(us) == UpstreamKeys(init) + [last.id] && us == init + [last];
      ImportStep(s.upstreams, UpstreamKeys(init), init, last.id, last, Replay(s, UpstreamCreations(init)).upstreams);
    }
  }

  lemma RouteImported(base: DesiredState, cur: DesiredState, init: seq<Route>, last: Route)
    requires cur == base.(routes := cur.routes) && Imported(base.routes, RouteKeys(init), init, cur.routes)
    ensures var next := Put(cur, RouteSpot(last.id), Some(RouteContent(last)));
      next == base.(routes := next.routes) && Imported(base.routes, RouteKeys(init + [last]), init + [last], next.routes)
  {
    assert RouteKeys(init + [last]) == RouteKeys(init) + [last.id];
    ImportStep(base.routes, RouteKeys(init), init, last.id, last, cur.routes);
  }

  lemma OneRouteMore(s: DesiredState, before: seq<Change>, init: seq<Route>, last: Route)
    ensures Replay(s, before + RouteCreations(init + [last])) ==
      Put(Replay(s, before + RouteCreations(init)), RouteSpot(last.id), Some(RouteContent(last)))
  {
    var c := Creation(RouteSpot(last.id), RouteContent(last));
    assert RouteCreations(init + [last]) == RouteCreations(init) + [c];
    assert before + RouteCreations(init + [last]) == before + RouteCreations(init) + [c];
    ReplayMore(s, before + RouteCreations(init), c);
  }

  lemma {:induction false} ReplayRoutes(s: DesiredState, before: seq<Change>, rs: seq<Route>)
    ensures var mid, n := Replay(s, before), Replay(s, before + RouteCreations(rs));
      n == mid.(routes := n.routes) && Imported(mid.routes, RouteKeys(rs), rs, n.routes)
    decreases |rs|
  {
    if rs == [] {
      assert before + RouteCreations(rs) == before;
    } else {
      var init, last := rs[..|rs| - 1], rs[|rs| - 1];
      assert rs == init + [last];
      ReplayRoutes(s, before, init);
      OneRouteMore(s, before, init, last);
      RouteImported(Replay(s, before), Replay(s, before + RouteCreations(init)), init, last);
    }
  }

  // The law.

  /** A mutation is possible exactly when its target is there. */
  lemma ChangesIfTarget(s: DesiredState, m: Mutation)
    ensures Changes(s, m).Ok? <==> HasTarget(s, m)
    ensures Changes(s, m).Err? ==> MissesTarget(s, m, Changes(s, m).error)
  {
  }

  lemma OneChangeDoes(s: DesiredState, m: Mutation, changes: seq<Change>)
    requires Changes(s, m) == Ok(changes) && !m.ImportFromCaddyfile? && changes != []
    ensures |changes| == 1 && Does(s, m, Put(s, changes[0].spot, changes[0].after))
    ensures Reports(s, m, Put(s, changes[0].spot, changes[0].after), changes)
    ensures Put(s, changes[0].spot, changes[0].after).version == s.version
  {
  }

  lemma ImportDoes(s: DesiredState, m: Mutation)
    requires m.ImportFromCaddyfile?
    ensures var changes := UpstreamCreations(m.newUpstreams) + RouteCreations(m.newRoutes); var n := Replay(s, changes);
      Does(s, m, n) && Reports(s, m, n, changes) && n.version == s.version
  {
    ReplayUpstreams(s, m.newUpstreams);
    ReplayRoutes(s, UpstreamCreations(m.newUpstreams), m.newRoutes);
  }

  /** Replaying what a mutation reports does what the mutation says, and the report is right. */
  lemma ReplayDoes(s: DesiredState, m: Mutation)
    requires Changes(s, m).Ok?
    ensures var n := Replay(s, Changes(s, m).value); Does(s, m, n) && Reports(s, m, n, Changes(s, m).value) && n.version == s.version
  {
    var changes := Changes(s, m).value;
    if m.ImportFromCaddyfile? {
      ImportDoes(s, m);
    } else if changes != [] {
      OneChangeDoes(s, m, changes);
      assert changes == [changes[0]];
      ReplayOne(s, changes[0]);
    }
  }

  /**
   * `apply_mutation` accepts exactly when the version is the expected one and not the last, both
   * checks pass and the target is there; then it does what the mutation says, reports it, and the
   * version is one higher. Otherwise the first failing check decides the error.
   */
  lemma ApplyDoes(s: DesiredState, m: Mutation, capabilities: Check, preConditions: Check)
    ensures var r := Applied(s, m, capabilities, preConditions);
      && (r.Ok? <==>
           m.expected == s.version && capabilities(s, m).None? && preConditions(s, m).None?
           && s.version < 9_223_372_036_854_775_807 && HasTarget(s, m))
      && (r.Ok? ==>
           Does(s, m, r.value.newState) && Reports(s, m, r.value.newState, r.value.changes)
           && r.value.newState.version == s.version + 1)
    ensures var r := Applied(s, m, capabilities, preConditions);
      if m.expected != s.version then r == Err(Conflict(s.version, m.expected))
      else if capabilities(s, m).Some? then r == Err(capabilities(s, m).value)
      else if preConditions(s, m).Some? then r == Err(preConditions(s, m).value)
      else if s.version >= 9_223_372_036_854_775_807 then r == Err(VersionOverflow)
      else r.Err? ==> MissesTarget(s, m, r.error)
  {
    ChangesIfTarget(s, m);
    if Changes(s, m).Ok? {
      ReplayDoes(s, m);
      DoesWhateverVersion(s, m, Replay(s, Changes(s, m).value), Changes(s, m).value, s.version + 1);
    }
  }

  lemma DoesWhateverVersion(s: DesiredState, m: Mutation, n: DesiredState, changes: seq<Change>, v: int)
    ensures Does(s, m, n) ==> Does(s, m, n.(version := v))
    ensures Reports(s, m, n, changes) ==> Reports(s, m, n.(version := v), changes)
  {
  }
}
