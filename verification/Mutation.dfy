/** Pure mutation of the desired state, and the change list that goes into the audit log. */
module Mutation {
  import opened Wrappers
  import Pointer

  const I64_MAX := 0x7FFF_FFFF_FFFF_FFFF

  // The desired state. Parts the mutations only copy are plain text here.

  datatype Attachment = Attachment(presetId: string, presetVersion: nat)

  datatype Route = Route(
    id: string,
    hostnames: seq<string>,
    upstreams: seq<string>,
    matchers: string,
    headers: string,
    redirects: Option<string>,
    attachment: Option<Attachment>,
    enabled: bool,
    createdAt: int,
    updatedAt: int)

  datatype Upstream = Upstream(id: string, destination: string, probe: string, weight: nat, maxRequestBytes: Option<nat>)

  datatype GlobalConfig = GlobalConfig(adminListen: Option<string>, defaultSni: Option<string>, logLevel: Option<string>)

  datatype TlsConfig = TlsConfig(email: Option<string>, onDemandEnabled: bool, onDemandAskUrl: Option<string>, defaultIssuer: Option<string>)

  /** `rest` holds the policies, presets and unknown extensions, which no mutation changes. */
  datatype DesiredState = DesiredState(
    version: int,
    routes: map<string, Route>,
    upstreams: map<string, Upstream>,
    tls: TlsConfig,
    global: GlobalConfig,
    rest: string)

  // Patches: a missing field leaves the old value.

  datatype RoutePatch = RoutePatch(
    hostnames: Option<seq<string>>,
    upstreams: Option<seq<string>>,
    matchers: Option<string>,
    headers: Option<string>,
    redirects: Option<Option<string>>,
    attachment: Option<Option<Attachment>>,
    enabled: Option<bool>)

  datatype UpstreamPatch = UpstreamPatch(
    destination: Option<string>, probe: Option<string>, weight: Option<nat>, maxRequestBytes: Option<Option<nat>>)

  datatype GlobalPatch = GlobalPatch(
    adminListen: Option<Option<string>>, defaultSni: Option<Option<string>>, logLevel: Option<Option<string>>)

  datatype TlsPatch = TlsPatch(
    email: Option<Option<string>>, onDemandEnabled: Option<bool>,
    onDemandAskUrl: Option<Option<string>>, defaultIssuer: Option<Option<string>>)

  function Or<T>(patch: Option<T>, current: T): T {
    match patch
    case Some(v) => v
    case None => current
  }

  function PatchRoute(r: Route, p: RoutePatch): Route {
    r.(hostnames := Or(p.hostnames, r.hostnames), upstreams := Or(p.upstreams, r.upstreams),
       matchers := Or(p.matchers, r.matchers), headers := Or(p.headers, r.headers),
       redirects := Or(p.redirects, r.redirects), attachment := Or(p.attachment, r.attachment),
       enabled := Or(p.enabled, r.enabled))
  }

  function PatchUpstream(u: Upstream, p: UpstreamPatch): Upstream {
    u.(destination := Or(p.destination, u.destination), probe := Or(p.probe, u.probe),
       weight := Or(p.weight, u.weight), maxRequestBytes := Or(p.maxRequestBytes, u.maxRequestBytes))
  }

  function PatchGlobal(g: GlobalConfig, p: GlobalPatch): GlobalConfig {
    GlobalConfig(Or(p.adminListen, g.adminListen), Or(p.defaultSni, g.defaultSni), Or(p.logLevel, g.logLevel))
  }

  function PatchTls(t: TlsConfig, p: TlsPatch): TlsConfig {
    TlsConfig(Or(p.email, t.email), Or(p.onDemandEnabled, t.onDemandEnabled),
              Or(p.onDemandAskUrl, t.onDemandAskUrl), Or(p.defaultIssuer, t.defaultIssuer))
  }

  datatype Mutation =
    | CreateRoute(expected: int, route: Route)
    | UpdateRoute(expected: int, id: string, routePatch: RoutePatch)
    | DeleteRoute(expected: int, id: string)
    | CreateUpstream(expected: int, upstream: Upstream)
    | UpdateUpstream(expected: int, id: string, upstreamPatch: UpstreamPatch)
    | DeleteUpstream(expected: int, id: string)
    | AttachPolicy(expected: int, routeId: string, presetId: string, presetVersion: nat)
    | DetachPolicy(expected: int, routeId: string)
    | UpgradePolicy(expected: int, routeId: string, toVersion: nat)
    | SetGlobalConfig(expected: int, globalPatch: GlobalPatch)
    | SetTlsConfig(expected: int, tlsPatch: TlsPatch)
    | ImportFromCaddyfile(expected: int, newUpstreams: seq<Upstream>, newRoutes: seq<Route>)
    | Rollback(expected: int)
    | ReplaceDesiredState(expected: int)
    | ReapplySnapshot(expected: int)
    | DriftDeferred(expected: int)

  datatype MutationError =
    | Conflict(observed: int, expected: int)
    | CapabilityMissing
    | Validation
    | VersionOverflow
    | RouteMissing
    | UpstreamMissing
    | PolicyAttachmentMissing
    | RollbackTargetUnknown

  /** The capability check and the pre-conditions: what they reject, if anything. */
  type Check = (DesiredState, Mutation) -> Option<MutationError>

  // Changes.

  /** What stands at a pointer of the state, serialised. */
  datatype Content =
    | RouteContent(route: Route)
    | UpstreamContent(upstream: Upstream)
    | AttachmentContent(attachment: Attachment)
    | GlobalContent(global: GlobalConfig)
    | TlsContent(tls: TlsConfig)

  /** The places a mutation reports on. */
  datatype Spot = RouteSpot(id: string) | UpstreamSpot(id: string) | AttachmentSpot(id: string) | GlobalSpot | TlsSpot

  /** The pointer of a place, as it is written into the change list. */
  function PointerOf(spot: Spot): string {
    Pointer.Encode(PathOf(spot))
  }

  function PathOf(spot: Spot): seq<string> {
    match spot
    case RouteSpot(id) => ["routes", id]
    case UpstreamSpot(id) => ["upstreams", id]
    case AttachmentSpot(id) => ["routes", id, "policy_attachment"]
    case GlobalSpot => ["global"]
    case TlsSpot => ["tls"]
  }

  /** The pointer in a change list names one place, whatever characters the ids contain. */
  lemma PointerNamesSpot(x: Spot, y: Spot)
    requires PointerOf(x) == PointerOf(y)
    ensures x == y
  {
    Pointer.EncodeInjective(PathOf(x), PathOf(y));
    assert PathOf(x)[0] == PathOf(y)[0];
    assert |"routes"| != |"upstreams"| && "global"[0] != "tls"[0];
    if |PathOf(x)| > 1 { assert PathOf(x)[1] == PathOf(y)[1]; }
  }

  predicate Plain(s: string) {
    '~' !in s && '/' !in s
  }

  lemma {:induction false} EscapesTo(s: string)
    requires Plain(s)
    ensures Pointer.Escape(s) == s
  {
    if s != "" {
      Pointer.EscapeHead(s);
      EscapesTo(s[1..]);
    }
  }

  lemma NamesArePlain()
    ensures Plain("global") && Plain("tls") && Plain("routes") && Plain("upstreams") && Plain("policy_attachment")
  {
  }

  lemma NamesEscapeToThemselves()
    ensures Pointer.Escape("global") == "global" && Pointer.Escape("tls") == "tls"
    ensures Pointer.Escape("routes") == "routes" && Pointer.Escape("upstreams") == "upstreams"
    ensures Pointer.Escape("policy_attachment") == "policy_attachment"
  {
    NamesArePlain();
    EscapesTo("global");
    EscapesTo("tls");
    EscapesTo("routes");
    EscapesTo("upstreams");
    EscapesTo("policy_attachment");
  }

  lemma EncodePushes(p: seq<string>, a: string)
    ensures Pointer.Encode(p + [a]) == Pointer.Encode(p) + "/" + Pointer.Escape(a)
  {
    assert (p + [a])[..|p|] == p;
  }

  lemma EncodeOne(a: string)
    ensures Pointer.Encode([a]) == "/" + Pointer.Escape(a)
  {
    EncodePushes([], a);
    assert [] + [a] == [a] && "" + "/" == "/";
  }

  lemma EncodeTwo(a: string, b: string)
    ensures Pointer.Encode([a, b]) == "/" + Pointer.Escape(a) + "/" + Pointer.Escape(b)
  {
    EncodeOne(a);
    EncodePushes([a], b);
    assert [a] + [b] == [a, b];
  }

  lemma EncodeThree(a: string, b: string, c: string)
    ensures Pointer.Encode([a, b, c]) == "/" + Pointer.Escape(a) + "/" + Pointer.Escape(b) + "/" + Pointer.Escape(c)
  {
    EncodeTwo(a, b);
    EncodePushes([a, b], c);
    assert [a, b] + [c] == [a, b, c];
  }

  /** The pointers of the change list, written out. */
  lemma PointersAre(id: string)
    ensures PointerOf(GlobalSpot) == "/" + "global" && PointerOf(TlsSpot) == "/" + "tls"
    ensures PointerOf(RouteSpot(id)) == "/" + "routes" + "/" + Pointer.Escape(id)
    ensures PointerOf(UpstreamSpot(id)) == "/" + "upstreams" + "/" + Pointer.Escape(id)
    ensures PointerOf(AttachmentSpot(id)) == "/" + "routes" + "/" + Pointer.Escape(id) + "/" + "policy_attachment"
  {
    NamesEscapeToThemselves();
    EncodeOne("global");
    EncodeOne("tls");
    EncodeTwo("routes", id);
    EncodeTwo("upstreams", id);
    EncodeThree("routes", id, "policy_attachment");
  }

  datatype Change = Change(spot: Spot, before: Option<Content>, after: Option<Content>)

  datatype Outcome = Outcome(newState: DesiredState, changes: seq<Change>)

  /** Puts a value at a place, or takes away what stands there. */
  function Put(s: DesiredState, spot: Spot, c: Option<Content>): DesiredState {
    match spot
    case RouteSpot(id) =>
      if c.None? then s.(routes := s.routes - {id})
      else if c.value.RouteContent? then s.(routes := s.routes[id := c.value.route])
      else s
    case UpstreamSpot(id) =>
      if c.None? then s.(upstreams := s.upstreams - {id})
      else if c.value.UpstreamContent? then s.(upstreams := s.upstreams[id := c.value.upstream])
      else s
    case AttachmentSpot(id) =>
      if id !in s.routes then s
      else if c.None? then s.(routes := s.routes[id := s.routes[id].(attachment := None)])
      else if c.value.AttachmentContent? then
        s.(routes := s.routes[id := s.routes[id].(attachment := Some(c.value.attachment))])
      else s
    case GlobalSpot => if c.Some? && c.value.GlobalContent? then s.(global := c.value.global) else s
    case TlsSpot => if c.Some? && c.value.TlsContent? then s.(tls := c.value.tls) else s
  }

  /** Reading the change list forwards on the old state. */
  function Replay(s: DesiredState, changes: seq<Change>): DesiredState
    decreases |changes|
  {
    if changes == [] then s
    else Put(Replay(s, changes[..|changes| - 1]), changes[|changes| - 1].spot, changes[|changes| - 1].after)
  }

  /** Taking the changes back, last one first. */
  function Undo(s: DesiredState, changes: seq<Change>): DesiredState
    decreases |changes|
  {
    if changes == [] then s
    else
      Undo(Put(s, changes[|changes| - 1].spot, changes[|changes| - 1].before), changes[..|changes| - 1])
  }

  function RouteAt(s: DesiredState, id: string): Option<Content> {
    if id in s.routes then Some(RouteContent(s.routes[id])) else None
  }

  function UpstreamAt(s: DesiredState, id: string): Option<Content> {
    if id in s.upstreams then Some(UpstreamContent(s.upstreams[id])) else None
  }

  function AttachmentOf(a: Option<Attachment>): Option<Content> {
    match a
    case Some(x) => Some(AttachmentContent(x))
    case None => None
  }

  function Creation(spot: Spot, c: Content): Change {
    Change(spot, None, Some(c))
  }

  function UpstreamCreations(us: seq<Upstream>): seq<Change> {
    seq(|us|, i requires 0 <= i < |us| => Creation(UpstreamSpot(us[i].id), UpstreamContent(us[i])))
  }

  function RouteCreations(rs: seq<Route>): seq<Change> {
    seq(|rs|, i requires 0 <= i < |rs| => Creation(RouteSpot(rs[i].id), RouteContent(rs[i])))
  }

  function AttachmentChange(s: DesiredState, id: string, after: Option<Attachment>): seq<Change>
    requires id in s.routes
  {
    [Change(AttachmentSpot(id), AttachmentOf(s.routes[id].attachment), AttachmentOf(after))]
  }

  /** What a mutation reports to have changed, read off the old state. */
  function Changes(s: DesiredState, m: Mutation): Result<seq<Change>, MutationError> {
    match m
    case CreateRoute(_, route) => Ok([Creation(RouteSpot(route.id), RouteContent(route))])
    case UpdateRoute(_, id, p) =>
      if id !in s.routes then Err(RouteMissing)
      else Ok([Change(RouteSpot(id), RouteAt(s, id), Some(RouteContent(PatchRoute(s.routes[id], p))))])
    case DeleteRoute(_, id) => Ok([Change(RouteSpot(id), RouteAt(s, id), None)])
    case CreateUpstream(_, upstream) => Ok([Creation(UpstreamSpot(upstream.id), UpstreamContent(upstream))])
    case UpdateUpstream(_, id, p) =>
      if id !in s.upstreams then Err(UpstreamMissing)
      else Ok([Change(UpstreamSpot(id), UpstreamAt(s, id), Some(UpstreamContent(PatchUpstream(s.upstreams[id], p))))])
    case DeleteUpstream(_, id) => Ok([Change(UpstreamSpot(id), UpstreamAt(s, id), None)])
    case AttachPolicy(_, id, presetId, presetVersion) =>
      if id !in s.routes then Err(RouteMissing)
      else Ok(AttachmentChange(s, id, Some(Attachment(presetId, presetVersion))))
    case DetachPolicy(_, id) =>
      if id !in s.routes then Err(RouteMissing) else Ok(AttachmentChange(s, id, None))
    case UpgradePolicy(_, id, toVersion) =>
      if id !in s.routes then Err(RouteMissing)
      else if s.routes[id].attachment.None? then Err(PolicyAttachmentMissing)
      else Ok(AttachmentChange(s, id, Some(s.routes[id].attachment.value.(presetVersion := toVersion))))
    case SetGlobalConfig(_, p) =>
      var after := PatchGlobal(s.global, p);
      Ok(if after == s.global then [] else [Change(GlobalSpot, Some(GlobalContent(s.global)), Some(GlobalContent(after)))])
    case SetTlsConfig(_, p) =>
      var after := PatchTls(s.tls, p);
      Ok(if after == s.tls then [] else [Change(TlsSpot, Some(TlsContent(s.tls)), Some(TlsContent(after)))])
    case ImportFromCaddyfile(_, us, rs) => Ok(UpstreamCreations(us) + RouteCreations(rs))
    case _ => Err(RollbackTargetUnknown)
  }

  /** The outcome of `apply_mutation`: the checks in their order, then the changes replayed on the state. */
  function Applied(s: DesiredState, m: Mutation, capabilities: Check, preConditions: Check): Result<Outcome, MutationError> {
    if m.expected != s.version then Err(Conflict(s.version, m.expected))
    else if capabilities(s, m).Some? then Err(capabilities(s, m).value)
    else if preConditions(s, m).Some? then Err(preConditions(s, m).value)
    else if s.version >= I64_MAX then Err(VersionOverflow)
    else
      var changes :- Changes(s, m);
      Ok(Outcome(Replay(s, changes).(version := s.version + 1), changes))
  }

  // The in-place application.

  lemma ReplayOne(s: DesiredState, c: Change)
    ensures Replay(s, [c]) == Put(s, c.spot, c.after)
  {
    assert [c][..0] == [];
    assert Replay(s, []) == s;
  }

  lemma ReplayMore(s: DesiredState, changes: seq<Change>, c: Change)
    ensures Replay(s, changes + [c]) == Put(Replay(s, changes), c.spot, c.after)
  {
    assert (changes + [c])[..|changes|] == changes;
  }

  lemma {:induction false} ReplayKeepsVersion(s: DesiredState, changes: seq<Change>, v: int)
    ensures Replay(s.(version := v), changes) == Replay(s, changes).(version := v)
    decreases |changes|
  {
    if changes != [] { ReplayKeepsVersion(s, changes[..|changes| - 1], v); }
  }

  method OverlayRoute(base: Route, p: RoutePatch) returns (route: Route)
    ensures route == PatchRoute(base, p)
  {
    route := base;
    if p.hostnames.Some? { route := route.(hostnames := p.hostnames.value); }
    if p.upstreams.Some? { route := route.(upstreams := p.upstreams.value); }
    if p.matchers.Some? { route := route.(matchers := p.matchers.value); }
    if p.headers.Some? { route := route.(headers := p.headers.value); }
    if p.redirects.Some? { route := route.(redirects := p.redirects.value); }
    if p.attachment.Some? { route := route.(attachment := p.attachment.value); }
    if p.enabled.Some? { route := route.(enabled := p.enabled.value); }
  }

  /** The state under construction, updated field by field. */
  class Draft {
    var version: int
    var routes: map<string, Route>
    var upstreams: map<string, Upstream>
    var tls: TlsConfig
    var global: GlobalConfig
    const rest: string

    constructor (s: DesiredState, version: int)
      ensures Now() == s.(version := version)
    {
      this.version, routes, upstreams, tls, global, rest := version, s.routes, s.upstreams, s.tls, s.global, s.rest;
    }

    function Now(): DesiredState
      reads this
    {
      DesiredState(version, routes, upstreams, tls, global, rest)
    }

    /** Applies the mutation to the draft; the draft then is the old state with the reported changes replayed. */
    method ApplyVariant(s: DesiredState, m: Mutation) returns (r: Result<seq<Change>, MutationError>)
      requires Now() == s.(version := version)
      modifies this
      ensures r == Changes(s, m)
      ensures r.Ok? ==> Now() == Replay(old(Now()), r.value)
    {
      match m {
        case CreateRoute(_, route) =>
          routes := routes[route.id := route];
          r := Ok([Creation(RouteSpot(route.id), RouteContent(route))]);
          ReplayOne(old(Now()), r.value[0]);
        case UpdateRoute(_, id, patch) => r := ApplyRoutePatch(s, id, patch);
        case DeleteRoute(_, id) =>
          routes := routes - {id};
          r := Ok([Change(RouteSpot(id), RouteAt(s, id), None)]);
          ReplayOne(old(Now()), r.value[0]);
        case CreateUpstream(_, upstream) =>
          upstreams := upstreams[upstream.id := upstream];
          r := Ok([Creation(UpstreamSpot(upstream.id), UpstreamContent(upstream))]);
          ReplayOne(old(Now()), r.value[0]);
        case UpdateUpstream(_, id, patch) => r := ApplyUpstreamPatch(s, id, patch);
        case DeleteUpstream(_, id) =>
          upstreams := upstreams - {id};
          r := Ok([Change(UpstreamSpot(id), UpstreamAt(s, id), None)]);
          ReplayOne(old(Now()), r.value[0]);
        case AttachPolicy(_, id, presetId, presetVersion) =>
          if id !in routes { return Err(RouteMissing); }
          r := SetAttachment(s, id, Some(Attachment(presetId, presetVersion)));
        case DetachPolicy(_, id) =>
          if id !in routes { return Err(RouteMissing); }
          r := SetAttachment(s, id, None);
        case UpgradePolicy(_, id, toVersion) =>
          if id !in routes { return Err(RouteMissing); }
          if routes[id].attachment.None? { return Err(PolicyAttachmentMissing); }
          r := SetAttachment(s, id, Some(routes[id].attachment.value.(presetVersion := toVersion)));
        case SetGlobalConfig(_, patch) => r := ApplySetGlobalConfig(s, patch);
        case SetTlsConfig(_, patch) => r := ApplySetTlsConfig(s, patch);
        case ImportFromCaddyfile(_, us, rs) =>
          var changes := ApplyImportCaddyfile(us, rs);
          r := Ok(changes);
        case _ => r := Err(RollbackTargetUnknown);
      }
    }

    method ApplyRoutePatch(s: DesiredState, id: string, p: RoutePatch) returns (r: Result<seq<Change>, MutationError>)
      requires Now() == s.(version := version)
      modifies this
      ensures r == Changes(s, UpdateRoute(0, id, p))
      ensures r.Ok? ==> Now() == Replay(old(Now()), r.value)
    {
      if id !in routes {
        return Err(RouteMissing);
      }
      var route := OverlayRoute(routes[id], p);
      routes := routes[id := route];
      r := Ok([Change(RouteSpot(id), RouteAt(s, id), Some(RouteContent(route)))]);
      ReplayOne(old(Now()), r.value[0]);
    }

    method ApplyUpstreamPatch(s: DesiredState, id: string, p: UpstreamPatch) returns (r: Result<seq<Change>, MutationError>)
      requires Now() == s.(version := version)
      modifies this
      ensures r == Changes(s, UpdateUpstream(0, id, p))
      ensures r.Ok? ==> Now() == Replay(old(Now()), r.value)
    {
      if id !in upstreams {
        return Err(UpstreamMissing);
      }
      var upstream := upstreams[id];
      if p.destination.Some? { upstream := upstream.(destination := p.destination.value); }
      if p.probe.Some? { upstream := upstream.(probe := p.probe.value); }
      if p.weight.Some? { upstream := upstream.(weight := p.weight.value); }
      if p.maxRequestBytes.Some? { upstream := upstream.(maxRequestBytes := p.maxRequestBytes.value); }
      upstreams := upstreams[id := upstream];
      r := Ok([Change(UpstreamSpot(id), UpstreamAt(s, id), Some(UpstreamContent(upstream)))]);
      ReplayOne(old(Now()), r.value[0]);
    }

    /** The common part of attaching, detaching and upgrading: the before-value comes from the old state. */
    method SetAttachment(s: DesiredState, id: string, attachment: Option<Attachment>) returns (r: Result<seq<Change>, MutationError>)
      requires Now() == s.(version := version) && id in s.routes
      modifies this
      ensures r == Ok(AttachmentChange(s, id, attachment))
      ensures Now() == Replay(old(Now()), r.value)
    {
      var before := AttachmentOf(s.routes[id].attachment);
      routes := routes[id := routes[id].(attachment := attachment)];
      r := Ok([Change(AttachmentSpot(id), before, AttachmentOf(routes[id].attachment))]);
      ReplayOne(old(Now()), r.value[0]);
    }

    method ApplySetGlobalConfig(s: DesiredState, p: GlobalPatch) returns (r: Result<seq<Change>, MutationError>)
      requires Now() == s.(version := version)
      modifies this
      ensures r == Changes(s, SetGlobalConfig(0, p))
      ensures r.Ok? ==> Now() == Replay(old(Now()), r.value)
    {
      if p.adminListen.Some? { global := global.(adminListen := p.adminListen.value); }
      if p.defaultSni.Some? { global := global.(defaultSni := p.defaultSni.value); }
      if p.logLevel.Some? { global := global.(logLevel := p.logLevel.value); }
      if global == s.global {
        return Ok([]);
      }
      r := Ok([Change(GlobalSpot, Some(GlobalContent(s.global)), Some(GlobalContent(global)))]);
      ReplayOne(old(Now()), r.value[0]);
    }

    method ApplySetTlsConfig(s: DesiredState, p: TlsPatch) returns (r: Result<seq<Change>, MutationError>)
      requires Now() == s.(version := version)
      modifies this
      ensures r == Changes(s, SetTlsConfig(0, p))
      ensures r.Ok? ==> Now() == Replay(old(Now()), r.value)
    {
      if p.email.Some? { tls := tls.(email := p.email.value); }
      if p.onDemandEnabled.Some? { tls := tls.(onDemandEnabled := p.onDemandEnabled.value); }
      if p.onDemandAskUrl.Some? { tls := tls.(onDemandAskUrl := p.onDemandAskUrl.value); }
      if p.defaultIssuer.Some? { tls := tls.(defaultIssuer := p.defaultIssuer.value); }
      if tls == s.tls {
        return Ok([]);
      }
      r := Ok([Change(TlsSpot, Some(TlsContent(s.tls)), Some(TlsContent(tls)))]);
      ReplayOne(old(Now()), r.value[0]);
    }

    /** Upstreams first, then routes, one change each. */
    method ApplyImportCaddyfile(us: seq<Upstream>, rs: seq<Route>) returns (changes: seq<Change>)
      modifies this
      ensures changes == UpstreamCreations(us) + RouteCreations(rs)
      ensures Now() == Replay(old(Now()), changes)
    {
      changes := [];
      for i := 0 to |us|
        invariant changes == UpstreamCreations(us[..i])
        invariant Now() == Replay(old(Now()), changes)
      {
        UpstreamCreationsMore(us, i);
        ReplayMore(old(Now()), changes, Creation(UpstreamSpot(us[i].id), UpstreamContent(us[i])));
        upstreams := upstreams[us[i].id := us[i]];
        changes := changes + [Creation(UpstreamSpot(us[i].id), UpstreamContent(us[i]))];
      }
      AllOf(us);
      NoRouteCreations(UpstreamCreations(us), rs);
      for i := 0 to |rs|
        invariant changes == UpstreamCreations(us) + RouteCreations(rs[..i])
        invariant Now() == Replay(old(Now()), changes)
      {
        RouteCreationsMore(UpstreamCreations(us), rs, i);
        ReplayMore(old(Now()), changes, Creation(RouteSpot(rs[i].id), RouteContent(rs[i])));
        routes := routes[rs[i].id := rs[i]];
        changes := changes + [Creation(RouteSpot(rs[i].id), RouteContent(rs[i]))];
      }
      AllOf(rs);
    }
  }

  lemma AllOf<T>(ts: seq<T>)
    ensures ts[..|ts|] == ts
  {
  }

  lemma UpstreamCreationsMore(us: seq<Upstream>, i: nat)
    requires i < |us|
    ensures UpstreamCreations(us[..i + 1]) == UpstreamCreations(us[..i]) + [Creation(UpstreamSpot(us[i].id), UpstreamContent(us[i]))]
  {
  }

  lemma NoRouteCreations(before: seq<Change>, rs: seq<Route>)
    ensures before + RouteCreations(rs[..0]) == before
  {
  }

  lemma RouteCreationsMore(before: seq<Change>, rs: seq<Route>, i: nat)
    requires i < |rs|
    ensures before + RouteCreations(rs[..i + 1]) == before + RouteCreations(rs[..i]) + [Creation(RouteSpot(rs[i].id), RouteContent(rs[i]))]
  {
    assert RouteCreations(rs[..i + 1]) == RouteCreations(rs[..i]) + [Creation(RouteSpot(rs[i].id), RouteContent(rs[i]))];
  }

  /** `apply_mutation`: the argument is not touched, and the new state is the old one with the changes replayed. */
  method ApplyMutation(s: DesiredState, m: Mutation, capabilities: Check, preConditions: Check)
    returns (r: Result<Outcome, MutationError>)
    ensures r == Applied(s, m, capabilities, preConditions)
  {
    if m.expected != s.version {
      return Err(Conflict(s.version, m.expected));
    }
    if capabilities(s, m).Some? {
      return Err(capabilities(s, m).value);
    }
    if preConditions(s, m).Some? {
      return Err(preConditions(s, m).value);
    }
    if s.version >= I64_MAX {
      return Err(VersionOverflow);
    }
    var draft := new Draft(s, s.version + 1);
    var changes := draft.ApplyVariant(s, m);
    if changes.Err? {
      return Err(changes.error);
    }
    ReplayKeepsVersion(s, changes.value, s.version + 1);
    r := Ok(Outcome(draft.Now(), changes.value));
  }

  // Undoing.

  /** The places a mutation creates. */
  function Created(m: Mutation): seq<Change> {
    match m
    case CreateRoute(_, route) => [Creation(RouteSpot(route.id), RouteContent(route))]
    case CreateUpstream(_, upstream) => [Creation(UpstreamSpot(upstream.id), UpstreamContent(upstream))]
    case ImportFromCaddyfile(_, us, rs) => UpstreamCreations(us) + RouteCreations(rs)
    case _ => []
  }

  function RouteIds(changes: seq<Change>): set<string> {
    set c | c in changes && c.spot.RouteSpot? :: c.spot.id
  }

  function UpstreamIds(changes: seq<Change>): set<string> {
    set c | c in changes && c.spot.UpstreamSpot? :: c.spot.id
  }

  /** Nothing the mutation creates is there already. */
  predicate CreatesNew(s: DesiredState, m: Mutation) {
    RouteIds(Created(m)) !! s.routes.Keys && UpstreamIds(Created(m)) !! s.upstreams.Keys
  }

  function Without(s: DesiredState, changes: seq<Change>): DesiredState {
    s.(routes := s.routes - RouteIds(changes), upstreams := s.upstreams - UpstreamIds(changes))
  }

  predicate IsCreation(c: Change) {
    && c.before.None? && c.after.Some?
    && match c.spot
       case RouteSpot(_) => c.after.value.RouteContent?
       case UpstreamSpot(_) => c.after.value.UpstreamContent?
       case _ => false
  }

  lemma WithoutMore(s: DesiredState, changes: seq<Change>, c: Change)
    requires IsCreation(c)
    ensures Without(s, changes + [c]) == Without(Put(s, c.spot, None), changes)
    ensures Put(Put(s, c.spot, c.after), c.spot, None) == Put(s, c.spot, None)
  {
    assert forall x :: x in changes + [c] <==> x in changes || x == c;
    if c.spot.RouteSpot? {
      assert RouteIds(changes + [c]) == RouteIds(changes) + {c.spot.id};
      assert UpstreamIds(changes + [c]) == UpstreamIds(changes);
    } else {
      assert UpstreamIds(changes + [c]) == UpstreamIds(changes) + {c.spot.id};
      assert RouteIds(changes + [c]) == RouteIds(changes);
    }
  }

  /** Taking creations back, on any state, removes what they created. */
  lemma {:induction false} UndoCreations(s: DesiredState, changes: seq<Change>)
    requires forall c :: c in changes ==> IsCreation(c)
    ensures Undo(s, changes) == Without(s, changes)
    decreases |changes|
  {
    if changes == [] {
      assert s.routes - {} == s.routes && s.upstreams - {} == s.upstreams;
    } else {
      var init, last := changes[..|changes| - 1], changes[|changes| - 1];
      assert changes == init + [last];
      assert forall c :: c in init ==> c in changes;
      UndoCreations(Put(s, last.spot, None), init);
      WithoutMore(s, init, last);
    }
  }

  /** Creations do not touch what they do not create. */
  lemma {:induction false} ReplayCreations(s: DesiredState, changes: seq<Change>)
    requires forall c :: c in changes ==> IsCreation(c)
    ensures Without(Replay(s, changes), changes) == Without(s, changes)
    decreases |changes|
  {
    if changes != [] {
      var init, last := changes[..|changes| - 1], changes[|changes| - 1];
      assert changes == init + [last];
      assert forall c :: c in init ==> c in changes;
      ReplayCreations(s, init);
      var mid := Replay(s, init);
      WithoutMore(mid, init, last);
      WithoutMore(Replay(s, changes), init, last);
      WithoutMore(s, init, last);
      WithoutCommutes(mid, init, last);
      WithoutCommutes(s, init, last);
    }
  }

  lemma WithoutCommutes(s: DesiredState, changes: seq<Change>, c: Change)
    requires IsCreation(c)
    ensures Without(Put(s, c.spot, None), changes) == Put(Without(s, changes), c.spot, None)
  {
    assert s.routes - {c.spot.id} - RouteIds(changes) == s.routes - RouteIds(changes) - {c.spot.id};
    assert s.upstreams - {c.spot.id} - UpstreamIds(changes) == s.upstreams - UpstreamIds(changes) - {c.spot.id};
  }

  lemma WithoutNothing(s: DesiredState, changes: seq<Change>)
    ensures Without(s, changes) == s <==> RouteIds(changes) !! s.routes.Keys && UpstreamIds(changes) !! s.upstreams.Keys
  {
    SubtractNothing(s.routes, RouteIds(changes));
    SubtractNothing(s.upstreams, UpstreamIds(changes));
  }

  lemma SubtractNothing<T>(m: map<string, T>, keys: set<string>)
    ensures m - keys == m <==> keys !! m.Keys
  {
    if m - keys == m {
      assert m.Keys == m.Keys - keys;
    }
  }

  /** Putting back what stood there before. */
  lemma PutBack(s: DesiredState, spot: Spot, after: Option<Content>)
    ensures spot.RouteSpot? ==> Put(Put(s, spot, after), spot, RouteAt(s, spot.id)) == s
    ensures spot.UpstreamSpot? ==> Put(Put(s, spot, after), spot, UpstreamAt(s, spot.id)) == s
    ensures spot.AttachmentSpot? && spot.id in s.routes ==>
      Put(Put(s, spot, after), spot, AttachmentOf(s.routes[spot.id].attachment)) == s
    ensures spot.GlobalSpot? ==> Put(Put(s, spot, after), spot, Some(GlobalContent(s.global))) == s
    ensures spot.TlsSpot? ==> Put(Put(s, spot, after), spot, Some(TlsContent(s.tls))) == s
  {
    if spot.RouteSpot? {
      assert Put(Put(s, spot, after), spot, RouteAt(s, spot.id)).routes == s.routes;
    } else if spot.UpstreamSpot? {
      assert Put(Put(s, spot, after), spot, UpstreamAt(s, spot.id)).upstreams == s.upstreams;
    } else if spot.AttachmentSpot? && spot.id in s.routes {
      assert Put(Put(s, spot, after), spot, AttachmentOf(s.routes[spot.id].attachment)).routes == s.routes;
    }
  }

  lemma UndoOne(s: DesiredState, c: Change)
    ensures Undo(s, [c]) == Put(s, c.spot, c.before)
  {
    assert [c][..0] == [];
  }

  /**
   * Taking the reported changes back restores the old state, for every mutation, exactly when what
   * it creates was not there before.
   */
  lemma UndoRestores(s: DesiredState, m: Mutation)
    requires Changes(s, m).Ok?
    ensures var changes := Changes(s, m).value;
      Undo(Replay(s, changes), changes) == s <==> CreatesNew(s, m)
  {
    var changes := Changes(s, m).value;
    if m.CreateRoute? || m.CreateUpstream? || m.ImportFromCaddyfile? {
      assert changes == Created(m);
      UndoCreations(Replay(s, changes), changes);
      ReplayCreations(s, changes);
      WithoutNothing(s, changes);
    } else {
      assert CreatesNew(s, m);
      if changes != [] {
        SingleChange(s, m);
        ReplayOne(s, changes[0]);
        UndoOne(Replay(s, changes), changes[0]);
        PutBack(s, changes[0].spot, changes[0].after);
      }
    }
  }

  /** A mutation that creates nothing reports at most one change, with the old value as its before. */
  lemma SingleChange(s: DesiredState, m: Mutation)
    requires Changes(s, m).Ok? && !m.CreateRoute? && !m.CreateUpstream? && !m.ImportFromCaddyfile?
    requires Changes(s, m).value != []
    ensures var changes := Changes(s, m).value;
      && changes == [changes[0]]
      && match changes[0].spot
         case RouteSpot(id) => changes[0].before == RouteAt(s, id)
         case UpstreamSpot(id) => changes[0].before == UpstreamAt(s, id)
         case AttachmentSpot(id) => id in s.routes && changes[0].before == AttachmentOf(s.routes[id].attachment)
         case GlobalSpot => changes[0].before == Some(GlobalContent(s.global))
         case TlsSpot => changes[0].before == Some(TlsContent(s.tls))
  {
  }

  // Patches.

  function Over<T>(later: Option<T>, earlier: Option<T>): Option<T> {
    if later.Some? then later else earlier
  }

  function OverRoute(q: RoutePatch, p: RoutePatch): RoutePatch {
    RoutePatch(Over(q.hostnames, p.hostnames), Over(q.upstreams, p.upstreams), Over(q.matchers, p.matchers),
               Over(q.headers, p.headers), Over(q.redirects, p.redirects), Over(q.attachment, p.attachment),
               Over(q.enabled, p.enabled))
  }

  /** Two updates of a route amount to one, the later patch winning field by field; identity and times stay. */
  lemma PatchesCompose(r: Route, p: RoutePatch, q: RoutePatch)
    ensures PatchRoute(PatchRoute(r, p), q) == PatchRoute(r, OverRoute(q, p))
    ensures var n := PatchRoute(r, p); n.id == r.id && n.createdAt == r.createdAt && n.updatedAt == r.updatedAt
  {
  }

  // Runs.

  /** The state after handing in a mutation: unchanged if it is rejected. */
  function Submit(s: DesiredState, m: Mutation, capabilities: Check, preConditions: Check): DesiredState {
    match Applied(s, m, capabilities, preConditions)
    case Ok(o) => o.newState
    case Err(_) => s
  }

  function SubmitAll(s: DesiredState, ms: seq<Mutation>, capabilities: Check, preConditions: Check): DesiredState
    decreases |ms|
  {
    if ms == [] then s
    else Submit(SubmitAll(s, ms[..|ms| - 1], capabilities, preConditions), ms[|ms| - 1], capabilities, preConditions)
  }

  predicate Accepts(s: DesiredState, m: Mutation, capabilities: Check, preConditions: Check) {
    Applied(s, m, capabilities, preConditions).Ok?
  }

  /** The positions of the accepted mutations. */
  function AcceptedAt(s: DesiredState, ms: seq<Mutation>, capabilities: Check, preConditions: Check): seq<nat>
    decreases |ms|
  {
    if ms == [] then []
    else
      var init := ms[..|ms| - 1];
      AcceptedAt(s, init, capabilities, preConditions) +
      if Accepts(SubmitAll(s, init, capabilities, preConditions), ms[|ms| - 1], capabilities, preConditions)
      then [|ms| - 1] else []
  }

  /**
   * Over any run the version is the first one plus the number of accepted mutations, and the
   * accepted ones expected exactly the versions in between, each once and in order.
   */
  lemma {:induction false} VersionCountsAccepted(s: DesiredState, ms: seq<Mutation>, capabilities: Check, preConditions: Check)
    ensures var at := AcceptedAt(s, ms, capabilities, preConditions);
      && SubmitAll(s, ms, capabilities, preConditions).version == s.version + |at|
      && forall i :: 0 <= i < |at| ==> at[i] < |ms| && ms[at[i]].expected == s.version + i
    decreases |ms|
  {
    if ms != [] {
      VersionCountsAccepted(s, ms[..|ms| - 1], capabilities, preConditions);
    }
  }
}
