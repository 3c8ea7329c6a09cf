/** The DNS adapter: one record per service in a SkyDNS zone kept in the
    store. A domain name is stored under `/skydns/` followed by its labels in
    reverse order, slash-separated, so `a.b.com` lives at `/skydns/com/b/a`. */
module Skydns2 {
  import opened Base
  import Strings
  import Json
  import Etcd
  import opened BridgeTypes

  /** The record written for a service (the adapter's own `Service` struct):
      the name or address to resolve to, and a port that is 0 for a
      host-level service. */
  datatype Record = Record(host: string, port: Int64)

  /** The record as JSON: `host` always, `port` only when it is not zero. */
  function Marshal(r: Record): (v: Json.Value)
    ensures v.Obj? && Json.StringField(v, "host") == Some(r.host)
    ensures Json.NumberField(v, "port") == if r.port == 0 then None else Some(r.port as int)
  {
    var fields := [Json.Field("host", Json.Str(r.host))] +
      (if r.port == 0 then [] else [Json.Field("port", Json.Num(r.port))]);
    assert r.port != 0 ==> fields[1..] == [Json.Field("port", Json.Num(r.port))];
    Json.Obj(fields)
  }

  /** Reading a record back: a missing field reads as its zero value, a field
      of the wrong kind or a port beyond 64 bits is an error. */
  function Unmarshal(v: Json.Value): Option<Record>
  {
    if !v.Obj? then None
    else
      var host := match Json.Lookup(v.fields, "host")
        case None => Some("")
        case Some(Str(h)) => Some(h)
        case Some(_) => None;
      var port := match Json.Lookup(v.fields, "port")
        case None => Some(0)
        case Some(Num(n)) => if -0x8000_0000_0000_0000 <= n < 0x8000_0000_0000_0000 then Some(n) else None
        case Some(_) => None;
      if host.Some? && port.Some? then Some(Record(host.value, port.value)) else None
  }

  /** Omitting a zero port loses nothing: reading back gives the record. */
  lemma UnmarshalMarshal(r: Record)
    ensures Unmarshal(Marshal(r)) == Some(r)
  {
    var fields := Marshal(r).fields;
    assert Json.Lookup(fields, "host") == Some(Json.Str(r.host));
    if r.port == 0 {
      assert Json.Lookup(fields, "port") == None;
    } else {
      assert fields[1..] == [Json.Field("port", Json.Num(r.port))];
      assert Json.Lookup(fields, "port") == Some(Json.Num(r.port));
    }
  }

  const Root: string := "/skydns/"

  const DomainRequired: string := "skydns2: dns domain required e.g.: skydns2://<host>/<domain>"

  /** An adapter: the store endpoints and the zone records are placed in. */
  datatype Adapter = Adapter(machines: seq<string>, domain: string)

  /** Building the adapter from `skydns2://<host>/<domain>`: the path must
      hold at least one character after its leading one, which is dropped to
      give the zone. A shorter path is a fatal configuration error. */
  function New(uri: Uri): (r: Result<Adapter, string>)
    ensures r.Failure? <==> |uri.path| < 2
    ensures r.Failure? ==> r.error == DomainRequired
    ensures r.Success? ==> r.value.machines == Etcd.Machines(uri.host)
    ensures r.Success? ==> |r.value.domain| >= 1 && uri.path == uri.path[..1] + r.value.domain
  {
    if |uri.path| < 2 then Failure(DomainRequired)
    else Success(Adapter(Etcd.Machines(uri.host), uri.path[1..]))
  }

  /** Domain names from their labels, dot-separated, in order; dot-free
      labels split back out of the name. */
  function DomainJoin(components: seq<string>): (domain: string)
    ensures |components| >= 1 && (forall i :: 0 <= i < |components| ==> '.' !in components[i]) ==>
      Strings.Split(domain, '.') == components
  {
    if |components| >= 1 && forall i :: 0 <= i < |components| ==> '.' !in components[i] then
      Strings.SplitJoin(components, '.');
      Strings.Join(components, '.')
    else
      Strings.Join(components, '.')
  }

  /** The store key of a domain: `/skydns/` and the labels reversed,
      slash-separated. */
  function DomainPath(domain: string): (key: string)
    ensures Root <= key
  {
    Root + Strings.Join(Strings.Reverse(Strings.Split(domain, '.')), '/')
  }

  /** A key is as long as `/skydns/` plus its domain: reversing the labels and
      writing `/` for `.` moves characters without adding or dropping any. */
  lemma DomainPathLength(domain: string)
    ensures |DomainPath(domain)| == |Root| + |domain|
  {
    var labels := Strings.Split(domain, '.');
    Strings.JoinSplit(domain, '.');
    Strings.JoinLength(labels, '.');
    Strings.JoinLength(Strings.Reverse(labels), '/');
    Strings.TotalLengthReverse(labels);
  }

  /** The labels a store key lists below `/skydns/`, in key order. */
  function KeyLabels(key: string): seq<string>
    requires Root <= key
  {
    Strings.Split(key[|Root|..], '/')
  }

  /** The reversal `domainPath` performs in place: swap the outermost pair
      and move inwards until the indexes meet. */
  method ReverseLabels(components: seq<string>) returns (r: seq<string>)
    ensures r == Strings.Reverse(components)
  {
    r := components;
    var i: int, j: int := 0, |components| - 1;
    while i < j
      invariant 0 <= i && i + j == |components| - 1
      invariant i <= j + 1
      invariant |r| == |components|
      invariant forall k :: 0 <= k < i ==> r[k] == components[|components| - 1 - k]
      invariant forall k :: j < k < |r| ==> r[k] == components[|components| - 1 - k]
      invariant forall k :: i <= k <= j ==> r[k] == components[k]
    {
      r := r[i := r[j]][j := r[i]];
      i, j := i + 1, j - 1;
    }
  }

  /** `<container>.<host>.<service>.<zone>`: the domain of the container.
      With dot-free names, its labels are those names followed by the zone's. */
  function ContainerDomain(a: Adapter, s: Service): (domain: string)
    ensures '.' !in s.container.hostname && '.' !in s.host.hostname && '.' !in s.name ==>
      Strings.Split(domain, '.') == [s.container.hostname, s.host.hostname, s.name] + Strings.Split(a.domain, '.')
  {
    var labels := [s.container.hostname, s.host.hostname, s.name];
    assert labels + [a.domain] == [s.container.hostname, s.host.hostname, s.name, a.domain];
    if '.' !in s.container.hostname && '.' !in s.host.hostname && '.' !in s.name then
      DomainJoinLabels(labels, a.domain);
      DomainJoin(labels + [a.domain])
    else
      DomainJoin(labels + [a.domain])
  }

  /** `<container>.<host>._<port>._<protocol>.<service>.<zone>`: the domain
      of one exposed port, in SRV style. With dot-free names, its labels are
      those names, port and protocol underscored, followed by the zone's. */
  function ServiceDomain(a: Adapter, s: Service): (domain: string)
    ensures '.' !in s.container.hostname && '.' !in s.host.hostname && '.' !in s.name &&
            '.' !in s.origin.exposedPort && '.' !in s.origin.portType ==>
      Strings.Split(domain, '.') ==
        [s.container.hostname, s.host.hostname, "_" + s.origin.exposedPort, "_" + s.origin.portType, s.name] + Strings.Split(a.domain, '.')
  {
    var labels := [s.container.hostname, s.host.hostname, "_" + s.origin.exposedPort, "_" + s.origin.portType, s.name];
    assert labels + [a.domain] == [s.container.hostname, s.host.hostname, "_" + s.origin.exposedPort, "_" + s.origin.portType, s.name, a.domain];
    if '.' !in s.container.hostname && '.' !in s.host.hostname && '.' !in s.name &&
       '.' !in s.origin.exposedPort && '.' !in s.origin.portType then
      assert forall i :: 0 <= i < |labels| ==> '.' !in labels[i];
      DomainJoinLabels(labels, a.domain);
      DomainJoin(labels + [a.domain])
    else
      DomainJoin(labels + [a.domain])
  }

  /** What the record resolves to: the service address for a host-level
      service, the container domain for a port-level one. */
  function ServiceHost(a: Adapter, s: Service): (host: string)
    ensures s.port == 0 ==> host == s.ip
    ensures s.port != 0 ==> host == ContainerDomain(a, s)
  {
    if s.port == 0 then s.ip else ContainerDomain(a, s)
  }

  /** The one key a service's record lives under: the container domain's key
      for a host-level service, the SRV domain's key for a port-level one. */
  function ServicePath(a: Adapter, s: Service): (key: string)
    ensures Root <= key
  {
    if s.port == 0 then DomainPath(ContainerDomain(a, s)) else DomainPath(ServiceDomain(a, s))
  }

  /** The record written for a service. */
  function ServiceRecord(a: Adapter, s: Service): Record
  {
    Record(ServiceHost(a, s), s.port)
  }

  /** Registration is exactly one Set of the service record under the
      service's key, with the service TTL; the store's error is returned as
      it is and nothing else in the store changes. */
  function Register(a: Adapter, s: Service, st: Etcd.Store): (o: Etcd.Outcome)
    ensures o.store.journal == st.journal + [Etcd.SetRequest(ServicePath(a, s), Marshal(ServiceRecord(a, s)), Uint64Of(s.ttl))]
    ensures o.store.faulty == st.faulty
    ensures o.err.None? <==> ServicePath(a, s) !in st.faulty
    ensures o.err.Some? ==> o.err == Some(Etcd.Rejected(ServicePath(a, s))) && o.store.entries == st.entries
    ensures o.err.None? ==> o.store.entries == st.entries[ServicePath(a, s) := Etcd.Entry(Marshal(ServiceRecord(a, s)), Uint64Of(s.ttl))]
  {
    Etcd.Set(st, ServicePath(a, s), Marshal(ServiceRecord(a, s)), Uint64Of(s.ttl))
  }

  /** Deregistration is exactly one non-recursive Delete of the key Register
      writes, for host-level and port-level services alike; the store's
      error, including a missing key, is returned as it is. */
  function Deregister(a: Adapter, s: Service, st: Etcd.Store): (o: Etcd.Outcome)
    ensures o.store.journal == st.journal + [Etcd.DeleteRequest(ServicePath(a, s), false)]
    ensures o.store.faulty == st.faulty
    ensures o.err.None? <==> ServicePath(a, s) !in st.faulty && ServicePath(a, s) in st.entries
    ensures ServicePath(a, s) in st.faulty ==> o.err == Some(Etcd.Rejected(ServicePath(a, s)))
    ensures ServicePath(a, s) !in st.faulty && ServicePath(a, s) !in st.entries ==> o.err == Some(Etcd.KeyNotFound(ServicePath(a, s)))
    ensures o.err.Some? ==> o.store.entries == st.entries
    ensures o.err.None? ==> o.store.entries == st.entries - {ServicePath(a, s)}
  {
    Etcd.Delete(st, ServicePath(a, s), false)
  }

  /** Refreshing re-registers. */
  function Refresh(a: Adapter, s: Service, st: Etcd.Store): (o: Etcd.Outcome)
    ensures o == Register(a, s, st)
  {
    Register(a, s, st)
  }

  /** Example: `a.b.com` is stored at `/skydns/com/b/a`. */
  lemma DomainPathExample()
    ensures DomainPath("a.b.com") == "/skydns/com/b/a"
  {
    var labels := Strings.Split("a.b.com", '.');
    ExampleLabels();
    ExampleKeyLabels();
    assert Strings.Join(Strings.Reverse(labels), '/') == "com/b/a";
    ExampleKeyText();
  }

  // Literal-text equality, kept apart so the example above stays cheap to verify.
  lemma ExampleKeyText()
    ensures Root + "com/b/a" == "/skydns/com/b/a"
  {
  }

  lemma ExampleKeyLabels()
    ensures Strings.Join(Strings.Reverse(["a", "b", "com"]), '/') == "com/b/a"
  {
    assert Strings.Reverse(["a", "b", "com"]) == ["com", "b", "a"];
    assert Strings.Join(["com", "b", "a"], '/') == "com/b/a";
  }

  lemma ExampleLabels()
    ensures Strings.Split("a.b.com", '.') == ["a", "b", "com"]
  {
    var labels := ["a", "b", "com"];
    assert Strings.Join(labels, '.') == "a.b.com";
    assert forall i :: 0 <= i < |labels| ==> '.' !in labels[i];
    Strings.SplitJoin(labels, '.');
  }

  /** The key of a domain without slashes lists the domain's labels in
      reverse: as many labels as the domain has, and reversing them gives the
      domain's labels back. */
  lemma DomainPathLabels(domain: string)
    requires '/' !in domain
    ensures |KeyLabels(DomainPath(domain))| == |Strings.Split(domain, '.')|
    ensures Strings.Reverse(KeyLabels(DomainPath(domain))) == Strings.Split(domain, '.')
  {
    var labels := Strings.Split(domain, '.');
    var reversed := Strings.Reverse(labels);
    Strings.SplitPiecesWithout(domain, '.', '/');
    assert forall i :: 0 <= i < |reversed| ==> '/' !in reversed[i];
    Strings.SplitJoin(reversed, '/');
    assert DomainPath(domain)[|Root|..] == Strings.Join(reversed, '/');
    Strings.ReverseReverse(labels);
  }

  /** A domain joined from dot-free labels and a zone splits back into those
      labels followed by the zone's labels. */
  lemma DomainJoinLabels(labels: seq<string>, zone: string)
    requires forall i :: 0 <= i < |labels| ==> '.' !in labels[i]
    ensures Strings.Split(DomainJoin(labels + [zone]), '.') == labels + Strings.Split(zone, '.')
  {
    if |labels| > 0 {
      assert Strings.Join([zone], '.') == zone;
      Strings.JoinConcat(labels, [zone], '.');
      Strings.SplitConcat(Strings.Join(labels, '.'), zone, '.');
      Strings.SplitJoin(labels, '.');
    } else {
      assert labels + [zone] == [zone];
    }
  }

  /** The domain labels of the names a service contributes, outermost last. */
  function ServiceLabels(s: Service): seq<string>
  {
    if s.port == 0 then [s.container.hostname, s.host.hostname, s.name]
    else [s.container.hostname, s.host.hostname, "_" + s.origin.exposedPort, "_" + s.origin.portType, s.name]
  }

  /** Host and container names, service name, port and protocol that hold no
      dot or slash, and a zone without slashes. */
  predicate PlainNames(a: Adapter, s: Service)
  {
    && '/' !in a.domain
    && forall x :: x in [s.container.hostname, s.host.hostname, s.name, s.origin.exposedPort, s.origin.portType] ==> '.' !in x && '/' !in x
  }

  /** Read from the zone root down, the key of a service lists the zone's
      labels reversed, then the service name, then (port-level only) the
      protocol and port, then host and container. */
  lemma ServicePathLabels(a: Adapter, s: Service)
    requires PlainNames(a, s)
    ensures Strings.Reverse(KeyLabels(ServicePath(a, s))) == ServiceLabels(s) + Strings.Split(a.domain, '.')
  {
    var labels := ServiceLabels(s);
    assert forall i :: 0 <= i < |labels| ==> '.' !in labels[i] && '/' !in labels[i];
    var domain := DomainJoin(labels + [a.domain]);
    if s.port == 0 {
      assert labels + [a.domain] == [s.container.hostname, s.host.hostname, s.name, a.domain];
      assert domain == ContainerDomain(a, s);
    } else {
      assert labels + [a.domain] == [s.container.hostname, s.host.hostname, "_" + s.origin.exposedPort, "_" + s.origin.portType, s.name, a.domain];
      assert domain == ServiceDomain(a, s);
    }
    DomainJoinLabels(labels, a.domain);
    Strings.SplitPiecesWithout(a.domain, '.', '/');
    assert '/' !in domain by {
      var parts := Strings.Split(domain, '.');
      Strings.JoinSplit(domain, '.');
      assert forall i :: 0 <= i < |parts| ==> '/' !in parts[i];
      JoinWithout(parts, '.', '/');
    }
    DomainPathLabels(domain);
  }

  lemma {:induction false} JoinWithout(parts: seq<string>, sep: char, c: char)
    requires c != sep
    requires forall i :: 0 <= i < |parts| ==> c !in parts[i]
    ensures c !in Strings.Join(parts, sep)
  {
    if |parts| > 1 {
      JoinWithout(parts[1..], sep, c);
    }
  }

  /** A host-level service and the same service on a port never share a
      key: the port-level key is at least four characters longer. */
  lemma LevelsUseDifferentKeys(a: Adapter, s: Service, port: Int64)
    requires s.port == 0 && port != 0
    ensures ServicePath(a, s) != ServicePath(a, s.(port := port))
  {
    var t := s.(port := port);
    var host := [s.container.hostname, s.host.hostname, s.name, a.domain];
    var onPort := [t.container.hostname, t.host.hostname, "_" + t.origin.exposedPort, "_" + t.origin.portType, t.name, a.domain];
    assert [s.container.hostname, s.host.hostname, s.name] + [a.domain] == host;
    assert [t.container.hostname, t.host.hostname, "_" + t.origin.exposedPort, "_" + t.origin.portType, t.name] + [a.domain] == onPort;
    assert ContainerDomain(a, s) == DomainJoin(host) == Strings.Join(host, '.');
    assert ServiceDomain(a, t) == DomainJoin(onPort) == Strings.Join(onPort, '.');
    var outer, inner := [s.container.hostname, s.host.hostname], [s.name, a.domain];
    var extra := ["_" + t.origin.exposedPort, "_" + t.origin.portType];
    assert host == outer + inner;
    assert onPort == outer + extra + inner;
    Strings.TotalLengthConcat(outer, inner);
    Strings.TotalLengthConcat(outer, extra);
    Strings.TotalLengthConcat(outer + extra, inner);
    assert Strings.TotalLength(extra) >= 2;
    Strings.JoinLength(host, '.');
    Strings.JoinLength(onPort, '.');
    DomainPathLength(ContainerDomain(a, s));
    DomainPathLength(ServiceDomain(a, t));
  }

  /** The stored JSON reads back as the record: for a host-level service the
      service address and no port field, for a port-level one the container
      domain and the port. */
  lemma RegisteredRecord(a: Adapter, s: Service, st: Etcd.Store)
    requires ServicePath(a, s) !in st.faulty
    ensures ServicePath(a, s) in Register(a, s, st).store.entries
    ensures Unmarshal(Register(a, s, st).store.entries[ServicePath(a, s)].value) ==
      Some(Record(if s.port == 0 then s.ip else ContainerDomain(a, s), s.port))
    ensures Json.NumberField(Register(a, s, st).store.entries[ServicePath(a, s)].value, "port").None? <==> s.port == 0
  {
    UnmarshalMarshal(ServiceRecord(a, s));
  }

  /** Registering twice leaves the store as registering once. */
  lemma RegisterIdempotent(a: Adapter, s: Service, st: Etcd.Store)
    ensures Register(a, s, Register(a, s, st).store).store.entries == Register(a, s, st).store.entries
    ensures Register(a, s, Register(a, s, st).store).err == Register(a, s, st).err
  {
  }

  /** Deregistering a just-registered service removes exactly the record
      Register wrote, for both host-level and port-level services. */
  lemma RegisterThenDeregister(a: Adapter, s: Service, st: Etcd.Store)
    requires ServicePath(a, s) !in st.faulty
    ensures Deregister(a, s, Register(a, s, st).store).err.None?
    ensures Deregister(a, s, Register(a, s, st).store).store.entries == st.entries - {ServicePath(a, s)}
  {
  }

  /** A second Deregister is not a no-op: the key is gone and the store's
      KeyNotFound error comes back to the caller. */
  lemma DeregisterTwice(a: Adapter, s: Service, st: Etcd.Store)
    requires Deregister(a, s, st).err.None?
    ensures Deregister(a, s, Deregister(a, s, st).store).err == Some(Etcd.KeyNotFound(ServicePath(a, s)))
  {
  }
}
