/** The reverse-proxy adapter: it keeps the proxy's routing objects for each
    service in the store, under a key prefix. Register writes the backend,
    then the server, then the frontend, and stops at the first failure;
    Deregister removes only the server; Refresh rewrites only the server. */
module Vulcan {
  import opened Base
  import Strings
  import Paths
  import Json
  import Etcd
  import opened BridgeTypes
  import opened VulcanApi
  import opened VulcanService

  const DefaultPrefix: string := "vulcand"

  datatype Adapter = Adapter(machines: seq<string>, prefix: string)

  /** The adapter for a `vulcan://host/prefix` URI: the URI's path replaces
      the default prefix unless it is shorter than two characters. */
  function New(uri: Uri): (a: Adapter)
    ensures a.machines == Etcd.Machines(uri.host)
    ensures a.prefix != ""
    ensures |uri.path| < 2 ==> a.prefix == DefaultPrefix
    ensures |uri.path| >= 2 ==> a.prefix == uri.path
  {
    Adapter(Etcd.Machines(uri.host), if |uri.path| >= 2 then uri.path else DefaultPrefix)
  }

  /** The store key of a path relative to the prefix. */
  function Key(a: Adapter, vulcanPath: string): string
  {
    Paths.Join([a.prefix, vulcanPath])
  }

  /** `setJSON`: one write of a record under the prefix, with the TTL
      converted to `uint64`; the store's error is returned as it is. */
  function SetJson(a: Adapter, st: Etcd.Store, vulcanPath: string, item: Json.Value, ttl: Int64): (o: Etcd.Outcome)
    ensures o.store.journal == st.journal + [Etcd.SetRequest(Key(a, vulcanPath), item, Uint64Of(ttl))]
    ensures o.store.faulty == st.faulty
    ensures o.err.None? <==> Key(a, vulcanPath) !in st.faulty
    ensures o.err.Some? ==> o.err == Some(Etcd.Rejected(Key(a, vulcanPath))) && o.store.entries == st.entries
    ensures o.err.None? ==> o.store.entries == st.entries[Key(a, vulcanPath) := Etcd.Entry(item, Uint64Of(ttl))]
  {
    Etcd.Set(st, Key(a, vulcanPath), item, Uint64Of(ttl))
  }

  /** `del`: one non-recursive delete under the prefix; the store's error,
      including a missing key, is returned as it is. */
  function Del(a: Adapter, st: Etcd.Store, vulcanPath: string): (o: Etcd.Outcome)
    ensures o.store.journal == st.journal + [Etcd.DeleteRequest(Key(a, vulcanPath), false)]
    ensures o.store.faulty == st.faulty
    ensures Key(a, vulcanPath) in st.faulty ==> o.err == Some(Etcd.Rejected(Key(a, vulcanPath)))
    ensures Key(a, vulcanPath) !in st.faulty && Key(a, vulcanPath) !in st.entries ==> o.err == Some(Etcd.KeyNotFound(Key(a, vulcanPath)))
    ensures o.err.None? <==> Key(a, vulcanPath) !in st.faulty && Key(a, vulcanPath) in st.entries
    ensures o.err.Some? ==> o.store.entries == st.entries
    ensures o.err.None? ==> o.store.entries == st.entries - {Key(a, vulcanPath)}
  {
    Etcd.Delete(st, Key(a, vulcanPath), false)
  }

  function BackendKey(a: Adapter, s: Service): string
  {
    Key(a, BackendEntry(ServiceAttrsOf(s)).0)
  }

  function ServerKey(a: Adapter, s: Service): string
  {
    Key(a, ServerEntry(ServiceAttrsOf(s)).0)
  }

  function FrontendKey(a: Adapter, s: Service): string
  {
    Key(a, FrontendEntry(ServiceAttrsOf(s)).0)
  }

  /** `Register`: the backend, server and frontend records, each written
      only when the service has it, in that order, returning at the first
      error. At most three requests are appended to the journal, and an
      error names a key the store refuses. */
  function Register(a: Adapter, s: Service, st: Etcd.Store): (o: Etcd.Outcome)
    ensures o.store.faulty == st.faulty
    ensures st.journal <= o.store.journal && |o.store.journal| <= |st.journal| + 3
    ensures o.err.Some? ==> o.err.value.Rejected? && o.err.value.key in st.faulty
  {
    var attrs := ServiceAttrsOf(s);
    var (backendPath, backend) := BackendEntry(attrs);
    var afterBackend :=
      if backendPath != "" then SetJson(a, st, backendPath, BackendJson(backend), 0)
      else Etcd.Outcome(st, None);
    if afterBackend.err.Some? then afterBackend
    else
      var (serverPath, server) := ServerEntry(attrs);
      var afterServer :=
        if serverPath != "" then SetJson(a, afterBackend.store, serverPath, BackendServerJson(server), s.ttl)
        else afterBackend;
      if afterServer.err.Some? then afterServer
      else
        var (frontendPath, frontend) := FrontendEntry(attrs);
        if frontendPath != "" then SetJson(a, afterServer.store, frontendPath, FrontendJson(frontend), 0)
        else afterServer
  }

  /** `Deregister`: a delete of the server's key only, and no request at all
      for a service without a server id. */
  function Deregister(a: Adapter, s: Service, st: Etcd.Store): (o: Etcd.Outcome)
    ensures ServiceAttrsOf(s).server == "" ==> o == Etcd.Outcome(st, None)
    ensures ServiceAttrsOf(s).server != "" ==>
      o.store.journal == st.journal + [Etcd.DeleteRequest(ServerKey(a, s), false)]
    ensures o.store.faulty == st.faulty
    ensures o.err.None? <==> ServiceAttrsOf(s).server == "" || (ServerKey(a, s) !in st.faulty && ServerKey(a, s) in st.entries)
    ensures ServiceAttrsOf(s).server != "" && o.err.None? ==> ServerKey(a, s) !in o.store.entries
    ensures ServiceAttrsOf(s).server != "" && o.err.Some? ==> o.store.entries == st.entries
    ensures ServiceAttrsOf(s).server != "" && ServerKey(a, s) in st.faulty ==> o.err == Some(Etcd.Rejected(ServerKey(a, s)))
    ensures ServiceAttrsOf(s).server != "" && ServerKey(a, s) !in st.faulty && ServerKey(a, s) !in st.entries ==>
      o.err == Some(Etcd.KeyNotFound(ServerKey(a, s)))
    ensures forall k :: k != ServerKey(a, s) ==> (k in o.store.entries <==> k in st.entries)
    ensures forall k :: k != ServerKey(a, s) && k in st.entries ==> o.store.entries[k] == st.entries[k]
  {
    var (serverPath, _) := ServerEntry(ServiceAttrsOf(s));
    if serverPath != "" then Del(a, st, serverPath) else Etcd.Outcome(st, None)
  }

  /** `Refresh`: the server's record rewritten with the service's TTL, nothing
      else; no request at all for a service without a server id. */
  function Refresh(a: Adapter, s: Service, st: Etcd.Store): (o: Etcd.Outcome)
    ensures ServiceAttrsOf(s).server == "" ==> o == Etcd.Outcome(st, None)
    ensures ServiceAttrsOf(s).server != "" ==>
      o.store.journal == st.journal + [Etcd.SetRequest(ServerKey(a, s), BackendServerJson(BackendServer(ServiceAttrsOf(s).serverUrl)), Uint64Of(s.ttl))]
    ensures o.store.faulty == st.faulty
    ensures o.err.None? <==> ServiceAttrsOf(s).server == "" || ServerKey(a, s) !in st.faulty
    ensures ServiceAttrsOf(s).server != "" && o.err.None? ==>
      ServerKey(a, s) in o.store.entries &&
      o.store.entries[ServerKey(a, s)] == Etcd.Entry(BackendServerJson(BackendServer(ServiceAttrsOf(s).serverUrl)), Uint64Of(s.ttl))
    ensures ServiceAttrsOf(s).server != "" && o.err.Some? ==>
      o.err == Some(Etcd.Rejected(ServerKey(a, s))) && o.store.entries == st.entries
    ensures forall k :: k != ServerKey(a, s) ==> (k in o.store.entries <==> k in st.entries)
    ensures forall k :: k != ServerKey(a, s) && k in st.entries ==> o.store.entries[k] == st.entries[k]
  {
    var (serverPath, server) := ServerEntry(ServiceAttrsOf(s));
    if serverPath != "" then SetJson(a, st, serverPath, BackendServerJson(server), s.ttl)
    else Etcd.Outcome(st, None)
  }

  // ---------------------------------------------------------------------------
  // Register as a plan of writes

  datatype Role = BackendRole | ServerRole | FrontendRole

  /** The order in which Register writes the three kinds of record. */
  function Rank(r: Role): nat
  {
    match r
    case BackendRole => 0
    case ServerRole => 1
    case FrontendRole => 2
  }

  /** One Set a registration issues. */
  datatype Write = Write(role: Role, key: string, value: Json.Value, ttl: Uint64)

  /** Whether the service has a record of this kind. */
  predicate Present(s: Service, r: Role)
  {
    var attrs := ServiceAttrsOf(s);
    match r
    case BackendRole => attrs.backend != ""
    case ServerRole => attrs.server != ""
    case FrontendRole => attrs.frontend != ""
  }

  /** The write of one kind of record: backend and frontend never expire, the
      server lives for the service's TTL. */
  function WriteFor(a: Adapter, s: Service, r: Role): (w: Write)
    ensures w.role == r
  {
    var attrs := ServiceAttrsOf(s);
    match r
    case BackendRole => Write(r, BackendKey(a, s), BackendJson(BackendEntry(attrs).1), 0)
    case ServerRole => Write(r, ServerKey(a, s), BackendServerJson(ServerEntry(attrs).1), Uint64Of(s.ttl))
    case FrontendRole => Write(r, FrontendKey(a, s), FrontendJson(FrontendEntry(attrs).1), 0)
  }

  /** The write of one kind of record, if the service has one. */
  function WriteIf(a: Adapter, s: Service, r: Role): (ws: seq<Write>)
    ensures AtMostOneOf(ws, r)
    ensures |ws| == if Present(s, r) then 1 else 0
    ensures forall i :: 0 <= i < |ws| ==> Present(s, r) && ws[i] == WriteFor(a, s, r)
  {
    if Present(s, r) then [WriteFor(a, s, r)] else []
  }

  function PresentCount(s: Service): nat
  {
    (if Present(s, BackendRole) then 1 else 0) + (if Present(s, ServerRole) then 1 else 0) + (if Present(s, FrontendRole) then 1 else 0)
  }

  /** Roles in strictly increasing rank. */
  predicate Ascending(roles: seq<Role>)
  {
    forall i, j :: 0 <= i < j < |roles| ==> Rank(roles[i]) < Rank(roles[j])
  }

  function RolesOf(plan: seq<Write>): (r: seq<Role>)
    ensures |r| == |plan| && forall i :: 0 <= i < |plan| ==> r[i] == plan[i].role
  {
    seq(|plan|, i requires 0 <= i < |plan| => plan[i].role)
  }

  /** At most one write of the given role. */
  predicate AtMostOneOf(ws: seq<Write>, r: Role)
  {
    |ws| <= 1 && forall i :: 0 <= i < |ws| ==> ws[i].role == r
  }

  /** The writes Register attempts when nothing fails: backend, server and
      frontend, each only when the service has one. */
  function Plan(a: Adapter, s: Service): seq<Write>
  {
    WriteIf(a, s, BackendRole) + WriteIf(a, s, ServerRole) + WriteIf(a, s, FrontendRole)
  }

  /** Concatenating at most one backend, one server and one frontend write, in
      that order, keeps the roles in rank order. */
  lemma ConcatAscending(xs: seq<Write>, ys: seq<Write>, zs: seq<Write>)
    requires AtMostOneOf(xs, BackendRole) && AtMostOneOf(ys, ServerRole) && AtMostOneOf(zs, FrontendRole)
    ensures Ascending(RolesOf(xs + ys + zs))
  {
    var ws := xs + ys + zs;
    forall k | 0 <= k < |ws|
      ensures Rank(ws[k].role) == if k < |xs| then 0 else if k < |xs| + |ys| then 1 else 2
    {
      if k < |xs| {
        assert ws[k] == xs[k];
      } else if k < |xs| + |ys| {
        assert ws[k] == ys[k - |xs|];
      } else {
        assert ws[k] == zs[k - |xs| - |ys|];
      }
    }
  }

  /** The plan holds exactly one write per record the service has, each as
      `WriteFor` describes it, in the order backend, server, frontend. */
  lemma PlanShape(a: Adapter, s: Service)
    ensures var plan := Plan(a, s);
      |plan| == PresentCount(s) &&
      (forall i :: 0 <= i < |plan| ==> Present(s, plan[i].role) && plan[i] == WriteFor(a, s, plan[i].role)) &&
      Ascending(RolesOf(plan))
  {
    var xs, ys, zs := WriteIf(a, s, BackendRole), WriteIf(a, s, ServerRole), WriteIf(a, s, FrontendRole);
    ConcatAscending(xs, ys, zs);
    var plan := xs + ys + zs;
    forall i | 0 <= i < |plan|
      ensures Present(s, plan[i].role) && plan[i] == WriteFor(a, s, plan[i].role)
    {
      if i < |xs| {
        assert plan[i] == xs[i];
      } else if i < |xs| + |ys| {
        assert plan[i] == ys[i - |xs|];
      } else {
        assert plan[i] == zs[i - |xs| - |ys|];
      }
    }
  }

  /** The first write whose key the store refuses, or the number of writes. */
  function FirstFault(faulty: set<string>, writes: seq<Write>): (n: nat)
    ensures n <= |writes|
    ensures forall i :: 0 <= i < n ==> writes[i].key !in faulty
    ensures n < |writes| ==> writes[n].key in faulty
  {
    if |writes| == 0 then 0
    else if writes[0].key in faulty then 0
    else 1 + FirstFault(faulty, writes[1..])
  }

  function Requests(writes: seq<Write>): (r: seq<Etcd.Request>)
    ensures |r| == |writes|
    ensures forall i :: 0 <= i < |writes| ==> r[i] == Etcd.SetRequest(writes[i].key, writes[i].value, writes[i].ttl)
  {
    seq(|writes|, i requires 0 <= i < |writes| => Etcd.SetRequest(writes[i].key, writes[i].value, writes[i].ttl))
  }

  /** The entries after all of `writes` succeed, in order. */
  function Apply(entries: map<string, Etcd.Entry>, writes: seq<Write>): map<string, Etcd.Entry>
    decreases |writes|
  {
    if |writes| == 0 then entries
    else Apply(entries[writes[0].key := Etcd.Entry(writes[0].value, writes[0].ttl)], writes[1..])
  }

  /** Writes issued one after the other, stopping at the first failure. The
      store then holds the writes before the failing one, the journal shows
      every write up to and including it, and the error names its key. */
  function RunSets(st: Etcd.Store, writes: seq<Write>): (o: Etcd.Outcome)
    ensures FirstFault(st.faulty, writes) < |writes| ==> o.err == Some(Etcd.Rejected(writes[FirstFault(st.faulty, writes)].key))
    ensures FirstFault(st.faulty, writes) == |writes| ==> o.err == None
    ensures o.store.entries == Apply(st.entries, writes[..FirstFault(st.faulty, writes)])
    ensures o.store.faulty == st.faulty
    ensures o.store.journal == st.journal + Requests(writes[..Attempted(st.faulty, writes)])
    decreases |writes|
  {
    if |writes| == 0 then Etcd.Outcome(st, None)
    else
      var first := Etcd.Set(st, writes[0].key, writes[0].value, writes[0].ttl);
      if first.err.Some? then
        PrefixCons(st.entries, writes, 1);
        first
      else
        var rest := RunSets(first.store, writes[1..]);
        PrefixCons(st.entries, writes, FirstFault(st.faulty, writes));
        PrefixCons(st.entries, writes, Attempted(st.faulty, writes));
        rest
  }

  /** How many writes RunSets sends: those before the first refused one and
      the refused one itself. */
  function Attempted(faulty: set<string>, writes: seq<Write>): (m: nat)
    ensures m <= |writes|
    ensures m == if FirstFault(faulty, writes) < |writes| then FirstFault(faulty, writes) + 1 else |writes|
  {
    if |writes| == 0 then 0
    else if writes[0].key in faulty then 1
    else 1 + Attempted(faulty, writes[1..])
  }

  /** A non-empty prefix of the writes is its first write followed by a
      prefix of the rest. */
  lemma PrefixCons(e: map<string, Etcd.Entry>, writes: seq<Write>, m: nat)
    requires 1 <= m <= |writes|
    ensures Apply(e, writes[..m]) == Apply(e[writes[0].key := Etcd.Entry(writes[0].value, writes[0].ttl)], writes[1..][..m - 1])
    ensures Requests(writes[..m]) == [Etcd.SetRequest(writes[0].key, writes[0].value, writes[0].ttl)] + Requests(writes[1..][..m - 1])
  {
    assert writes[..m][1..] == writes[1..][..m - 1];
  }

  // ---------------------------------------------------------------------------
  // Register and its plan

  /** Running a concatenation runs the second part only if the first succeeds. */
  lemma {:induction false} RunSetsConcat(st: Etcd.Store, xs: seq<Write>, ys: seq<Write>)
    ensures RunSets(st, xs + ys) ==
      (var o := RunSets(st, xs); if o.err.Some? then o else RunSets(o.store, ys))
    decreases |xs|
  {
    if |xs| == 0 {
      assert xs + ys == ys;
    } else {
      assert (xs + ys)[0] == xs[0];
      assert (xs + ys)[1..] == xs[1..] + ys;
      var first := Etcd.Set(st, xs[0].key, xs[0].value, xs[0].ttl);
      if first.err.None? {
        RunSetsConcat(first.store, xs[1..], ys);
      }
    }
  }

  /** One step of Register is the write of its role, when the service has
      that record. */
  lemma RunSetsWriteIf(a: Adapter, s: Service, r: Role, st: Etcd.Store)
    ensures RunSets(st, WriteIf(a, s, r)) ==
      if Present(s, r) then Etcd.Set(st, WriteFor(a, s, r).key, WriteFor(a, s, r).value, WriteFor(a, s, r).ttl)
      else Etcd.Outcome(st, None)
  {
    if Present(s, r) {
      var w := WriteFor(a, s, r);
      var first := Etcd.Set(st, w.key, w.value, w.ttl);
      assert [w][1..] == [];
      assert first.err.None? ==> RunSets(first.store, []) == Etcd.Outcome(first.store, None);
    }
  }

  /** Register is its plan run write by write: backend, server, frontend,
      stopping at the first failure. */
  lemma RegisterRunsPlan(a: Adapter, s: Service, st: Etcd.Store)
    ensures Register(a, s, st) == RunSets(st, Plan(a, s))
  {
    var xs, ys, zs := WriteIf(a, s, BackendRole), WriteIf(a, s, ServerRole), WriteIf(a, s, FrontendRole);
    RunSetsConcat(st, xs + ys, zs);
    RunSetsConcat(st, xs, ys);
    RunSetsWriteIf(a, s, BackendRole, st);
    var o1 := RunSets(st, xs);
    RunSetsWriteIf(a, s, ServerRole, o1.store);
    var o2 := RunSets(o1.store, ys);
    RunSetsWriteIf(a, s, FrontendRole, o2.store);
  }

  /** Where each record's write sits in the plan. */
  lemma PlanIndex(a: Adapter, s: Service, r: Role) returns (i: nat)
    requires Present(s, r)
    ensures i < |Plan(a, s)| && Plan(a, s)[i] == WriteFor(a, s, r)
  {
    var xs, ys, zs := WriteIf(a, s, BackendRole), WriteIf(a, s, ServerRole), WriteIf(a, s, FrontendRole);
    var plan := xs + ys + zs;
    match r
    case BackendRole =>
      i := 0;
      assert plan[0] == xs[0];
    case ServerRole =>
      i := |xs|;
      assert plan[i] == ys[0];
    case FrontendRole =>
      i := |xs| + |ys|;
      assert plan[i] == zs[0];
  }

  // ---------------------------------------------------------------------------
  // Writes as map updates

  /** Writes land on top of the entries: the entries after them are the old
      entries overridden by what the writes alone produce. */
  lemma {:induction false} ApplyOverrides(e: map<string, Etcd.Entry>, ws: seq<Write>)
    ensures Apply(e, ws) == e + Apply(map[], ws)
    decreases |ws|
  {
    if |ws| > 0 {
      var k, v := ws[0].key, Etcd.Entry(ws[0].value, ws[0].ttl);
      ApplyOverrides(e[k := v], ws[1..]);
      ApplyOverrides(map[k := v], ws[1..]);
      assert map[][k := v] == map[k := v];
      assert e[k := v] == e + map[k := v];
      assert (e + map[k := v]) + Apply(map[], ws[1..]) == e + (map[k := v] + Apply(map[], ws[1..]));
    }
  }

  /** Applying the same writes twice leaves what applying them once leaves. */
  lemma ApplyTwice(e: map<string, Etcd.Entry>, ws: seq<Write>)
    ensures Apply(Apply(e, ws), ws) == Apply(e, ws)
  {
    ApplyOverrides(e, ws);
    ApplyOverrides(Apply(e, ws), ws);
    var d := Apply(map[], ws);
    assert (e + d) + d == e + d;
  }

  /** A key no write touches keeps its entry, or its absence. */
  lemma {:induction false} ApplyUntouched(e: map<string, Etcd.Entry>, ws: seq<Write>, k: string)
    requires forall j :: 0 <= j < |ws| ==> ws[j].key != k
    ensures k in Apply(e, ws) <==> k in e
    ensures k in e ==> Apply(e, ws)[k] == e[k]
    decreases |ws|
  {
    if |ws| > 0 {
      ApplyUntouched(e[ws[0].key := Etcd.Entry(ws[0].value, ws[0].ttl)], ws[1..], k);
    }
  }

  /** A key written once holds that write's value. */
  lemma {:induction false} ApplyWritten(e: map<string, Etcd.Entry>, ws: seq<Write>, i: nat)
    requires i < |ws|
    requires forall j :: 0 <= j < |ws| && j != i ==> ws[j].key != ws[i].key
    ensures ws[i].key in Apply(e, ws) && Apply(e, ws)[ws[i].key] == Etcd.Entry(ws[i].value, ws[i].ttl)
    decreases |ws|
  {
    var e' := e[ws[0].key := Etcd.Entry(ws[0].value, ws[0].ttl)];
    if i == 0 {
      ApplyUntouched(e', ws[1..], ws[0].key);
    } else {
      ApplyWritten(e', ws[1..], i - 1);
    }
  }

  // ---------------------------------------------------------------------------
  // Properties of the adapter

  /** Register is idempotent on the store's contents: a second registration of
      the same service rewrites the same entries, and fails exactly as the
      first one did. */
  lemma RegisterIdempotent(a: Adapter, s: Service, st: Etcd.Store)
    ensures var once := Register(a, s, st);
      var twice := Register(a, s, once.store);
      twice.err == once.err && twice.store.entries == once.store.entries && twice.store.faulty == once.store.faulty
  {
    var plan := Plan(a, s);
    RegisterRunsPlan(a, s, st);
    var once := Register(a, s, st);
    RegisterRunsPlan(a, s, once.store);
    ApplyTwice(st.entries, plan[..FirstFault(st.faulty, plan)]);
  }

  /** Store keys of one service's records are pairwise distinct when its
      names are plain. */
  lemma KeysDistinct(a: Adapter, s: Service, r1: Role, r2: Role)
    requires a.prefix != "" && PlainNames(ServiceAttrsOf(s))
    requires Present(s, r1) && Present(s, r2) && r1 != r2
    ensures WriteFor(a, s, r1).key != WriteFor(a, s, r2).key
  {
    var attrs := ServiceAttrsOf(s);
    var n1, n2 := NamesOf(attrs, r1), NamesOf(attrs, r2);
    assert WriteFor(a, s, r1).key == Key(a, RelPath(attrs, r1));
    assert WriteFor(a, s, r2).key == Key(a, RelPath(attrs, r2));
    RelativePath(attrs, r1);
    RelativePath(attrs, r2);
    assert n1 != n2;
    if Key(a, RelPath(attrs, r1)) == Key(a, RelPath(attrs, r2)) {
      Paths.PrefixedPathInjective(a.prefix, n1, n2);
    }
  }

  /** The path elements of a record's relative path. */
  function NamesOf(attrs: ServiceAttrs, r: Role): seq<string>
  {
    match r
    case BackendRole => BackendNames(attrs)
    case ServerRole => ServerNames(attrs)
    case FrontendRole => FrontendNames(attrs)
  }

  /** A record's path relative to the prefix. */
  function RelPath(attrs: ServiceAttrs, r: Role): string
  {
    match r
    case BackendRole => BackendEntry(attrs).0
    case ServerRole => ServerEntry(attrs).0
    case FrontendRole => FrontendEntry(attrs).0
  }

  /** With plain names, a record's relative path is the slash-join of its
      path elements. */
  lemma RelativePath(attrs: ServiceAttrs, r: Role)
    requires PlainNames(attrs) && RelPath(attrs, r) != ""
    ensures |NamesOf(attrs, r)| >= 1 && Paths.AllNames(NamesOf(attrs, r))
    ensures RelPath(attrs, r) == Strings.Join(NamesOf(attrs, r), '/')
  {
    NamesPlain(attrs);
    match r
    case BackendRole => BackendPath(attrs);
    case ServerRole => ServerPath(attrs);
    case FrontendRole => FrontendPath(attrs);
  }

  /** With a healthy store and plain names, registering and then
      deregistering a service with a server id leaves its shared backend and
      frontend records in place and its server record gone. */
  lemma RegisterThenDeregister(a: Adapter, s: Service, st: Etcd.Store)
    requires a.prefix != "" && PlainNames(ServiceAttrsOf(s)) && ServiceAttrsOf(s).server != ""
    requires st.faulty == {}
    ensures var registered := Register(a, s, st);
      var after := Deregister(a, s, registered.store);
      registered.err.None? && after.err.None? &&
      ServerKey(a, s) !in after.store.entries &&
      (ServiceAttrsOf(s).backend != "" ==>
        BackendKey(a, s) in after.store.entries &&
        after.store.entries[BackendKey(a, s)] == Etcd.Entry(BackendJson(Backend(BackendType)), 0)) &&
      (ServiceAttrsOf(s).frontend != "" ==>
        FrontendKey(a, s) in after.store.entries &&
        after.store.entries[FrontendKey(a, s)] == Etcd.Entry(FrontendJson(FrontendEntry(ServiceAttrsOf(s)).1), 0))
  {
    var plan := Plan(a, s);
    RegisterRunsPlan(a, s, st);
    PlanShape(a, s);
    assert FirstFault(st.faulty, plan) == |plan|;
    assert plan[..|plan|] == plan;
    forall i, j | 0 <= i < |plan| && 0 <= j < |plan| && i != j
      ensures plan[i].key != plan[j].key
    {
      assert Rank(RolesOf(plan)[i]) != Rank(RolesOf(plan)[j]);
      KeysDistinct(a, s, plan[i].role, plan[j].role);
    }
    var si := PlanIndex(a, s, ServerRole);
    ApplyWritten(st.entries, plan, si);
    if ServiceAttrsOf(s).backend != "" {
      var bi := PlanIndex(a, s, BackendRole);
      ApplyWritten(st.entries, plan, bi);
      KeysDistinct(a, s, BackendRole, ServerRole);
    }
    if ServiceAttrsOf(s).frontend != "" {
      var fi := PlanIndex(a, s, FrontendRole);
      ApplyWritten(st.entries, plan, fi);
      KeysDistinct(a, s, FrontendRole, ServerRole);
    }
  }

  /** Refresh sends exactly the server write of Register's plan. */
  lemma RefreshIsPlannedServerWrite(a: Adapter, s: Service, st: Etcd.Store)
    requires ServiceAttrsOf(s).server != ""
    ensures WriteFor(a, s, ServerRole) in Plan(a, s)
    ensures Refresh(a, s, st) == RunSets(st, [WriteFor(a, s, ServerRole)])
  {
    RunSetsWriteIf(a, s, ServerRole, st);
    var i := PlanIndex(a, s, ServerRole);
  }

  /** Under a prefix that is one plain name, a key is the prefix, a slash
      and the relative path. */
  lemma KeyUnderPlainPrefix(a: Adapter, names: seq<string>)
    requires |names| >= 1 && Paths.AllNames(names)
    requires Paths.IsName(a.prefix)
    ensures Key(a, Strings.Join(names, '/')) == a.prefix + "/" + Strings.Join(names, '/')
  {
    var p := a.prefix;
    Paths.PrefixedPath(p, names);
    assert !Paths.Rooted(p);
    assert Paths.PrefixStack(p) == [p] by {
      Strings.SplitWithoutSeparator(p, '/');
      Paths.ResolveNames(false, [], [p]);
    }
    Strings.JoinCons(p, names, '/');
    assert [p] + names != [];
  }

  /** Under a prefix that is a slash and one plain name, likewise. */
  lemma KeyUnderRootedPrefix(a: Adapter, p: string, names: seq<string>)
    requires |names| >= 1 && Paths.AllNames(names)
    requires Paths.IsName(p) && a.prefix == "/" + p
    ensures Key(a, Strings.Join(names, '/')) == "/" + p + "/" + Strings.Join(names, '/')
  {
    RootedKeyRender(a, p, names);
    RenderUnderName(p, names);
  }

  lemma RenderUnderName(p: string, names: seq<string>)
    requires |names| >= 1
    ensures Paths.Render(true, [p] + names) == "/" + p + "/" + Strings.Join(names, '/')
  {
    Strings.JoinCons(p, names, '/');
  }

  lemma RootedKeyRender(a: Adapter, p: string, names: seq<string>)
    requires |names| >= 1 && Paths.AllNames(names)
    requires Paths.IsName(p) && a.prefix == "/" + p
    ensures Key(a, Strings.Join(names, '/')) == Paths.Render(true, [p] + names)
  {
    RootedPrefixStack(p);
    Paths.PrefixedPath(a.prefix, names);
  }

  lemma RootedPrefixStack(p: string)
    requires Paths.IsName(p)
    ensures Paths.Rooted("/" + p) && Paths.PrefixStack("/" + p) == [p]
  {
    var prefix := "/" + p;
    assert prefix == "" + ['/'] + p;
    Strings.SplitConcat("", p, '/');
    Strings.SplitWithoutSeparator(p, '/');
    assert Strings.Split(prefix, '/') == [""] + [p];
    Paths.ResolveAppend(true, [], [""], [p]);
    Paths.ResolveNames(true, [], [p]);
  }
}
