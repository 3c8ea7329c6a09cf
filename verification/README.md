# Registrator service-registry adapters, modelled in Dafny

Registrator watches containers and publishes each running service to a
service registry. The bridge turns a container into `Service` values: tags,
attributes from `SERVICE_*` metadata lines, and the exposed port. An adapter
then writes those values to one registry. This project models two adapters
that both keep their data in an etcd key-value store:

- **skydns2** keeps one DNS record per service. The record lives under
  `/skydns/`, at the service's domain with its labels reversed.
- **vulcan** keeps reverse-proxy routing objects for each service: a
  backend, a server inside the backend, and a frontend that routes requests
  to the backend. They live under a key prefix (`vulcand` by default).

The store is a pure value, `Etcd.Store`. It holds entries (a JSON value and
a TTL per key) and the set of keys it refuses to write. It also keeps a
journal of every request sent to it, including failed ones, so that "exactly
one Set", "no later writes after an error" and ordering are properties of the
result. A failing request is therefore an input, not chance. Deleting an
absent key fails with `KeyNotFound`, as etcd does. Both adapters pass that
error on to the caller.

Go's library behaviour is written out where the model relies on it:

- `path.Join` and `path.Clean` exactly, using a stack of path elements;
- `strings.Split`, `Join` and `SplitN(…, 2)`;
- ASCII `strings.ToLower`;
- the syntax that `strconv.Atoi` accepts;
- `%d` formatting;
- the `uint64(int)` conversion of TTLs, which wraps negative values.

Go's `int` is the 64-bit `Int64`.

Modules and files:

- `base.dfy`: the Option and Result types and the integer widths.
- `strings.dfy` and `paths.dfy`: the Go library behaviour listed above.
- `json.dfy`: JSON values.
- `etcd.dfy`: the store.
- `bridge_types.dfy`: the bridge's service types.
- `bridge_util.dfy`: tags, metadata and ports.
- `skydns2.dfy`: the DNS adapter.
- `vulcan_api.dfy`: the proxy's record types and their JSON form.
- `vulcan_service.dfy`: how a service's attributes resolve into routing names.
- `vulcan.dfy`: the proxy adapter's store operations.

Behaviour of the code worth knowing before reading the contracts:

- skydns2 writes one forward record per service. It writes no reverse-DNS
  (PTR) record, and it does not check that addresses are IPv4.
- Deregistering a key that is already gone is not success. Both adapters
  return the store's `KeyNotFound` error.
- `Refresh` in vulcan/vulcan.go ends at line 126 without a `return`, so the
  file would not compile as written. The model returns success on that path,
  which is what every other path of the function does.

## Model

| member | source | states |
|---|---|---|
| Base.Uint64Of | vulcan/vulcan.go:62 | The store's TTL is the service TTL converted to `uint64`. The result agrees with the input modulo 2^64 and equals it when the input is not negative. |
| BridgeUtil.MapDefault | bridge/util.go:16-22 | The stored value is returned when the key is present and non-empty. Otherwise the default is returned, so an empty result means the default was empty. |
| BridgeUtil.CombineTags | bridge/util.go:24-32 | No tag contains a comma. There are at least as many tags as non-empty sources. There are no tags exactly when every source is empty. |
| BridgeUtil.CombineTagsAppend | bridge/util.go:24-32 | The tags of concatenated source lists are the concatenation of their tags. |
| BridgeUtil.CombineTagsJoin | bridge/util.go:24-32 | Comma-joining the tags gives the comma-join of the non-empty sources. |
| BridgeUtil.CombineTagsIsSplitOfJoin | bridge/util.go:24-32 | Reference definition: the tags are the comma-split of the comma-joined non-empty sources, or no tags when there are none. |
| BridgeUtil.CombineTagsLength | bridge/util.go:24-32 | The number of tags is the sum, over the non-empty sources, of one plus each source's comma count. |
| BridgeUtil.CombineTagsExamples | bridge/util.go:24-32 | `"a,b","","c"` gives `a,b,c`. `"a,,b"` keeps its empty middle tag. No sources give no tags. |
| BridgeUtil.ServiceLine | bridge/util.go:37-39 | A `SERVICE_<key>=<value>` line is read with the lower-cased key and everything after the first `=` as the value. |
| BridgeUtil.NotServiceLine | bridge/util.go:37-38 | A line with no `=`, or whose name lacks the `SERVICE_` prefix, contributes nothing. |
| BridgeUtil.AtoiIgnoresCase | bridge/util.go:39-41 | Lower-casing the key cannot change whether a segment parses as an integer. |
| BridgeUtil.PortScopedLine | bridge/util.go:40-46 | `SERVICE_<p>_<attr>=v` with an integer `p` sets the lower-cased `attr` on port `p` and is skipped on every other port. |
| BridgeUtil.GlobalLine | bridge/util.go:40-48 | A key with no integer segment before its first `_` sets the whole lower-cased key on every port. |
| BridgeUtil.BareIntegerKeyIsGlobal | bridge/util.go:40-48 | A key made only of digits, such as `SERVICE_80=x`, has no second segment. It is therefore global, stored under the digits themselves, and not scoped to port 80. |
| BridgeUtil.NameLine | bridge/util.go:37-48 | `SERVICE_NAME=foo` sets `name` to `foo` on every port. |
| BridgeUtil.PortNameLine | bridge/util.go:40-46 | `SERVICE_80_NAME=web` sets `name` on port 80 only. |
| BridgeUtil.ScopedAttribute | bridge/util.go:40-48 | The value is always the line's value. A key without `_` sets itself. A key that sets anything other than itself is `<port>_<attr>` for this port, with an integer port. A key is dropped only when its first segment is an integer naming another port. |
| BridgeUtil.MetaAttribute | bridge/util.go:37-49 | Only a line starting with `SERVICE_` that has an `=` contributes. Its value is all the text after the first `=`, and its attribute name has no upper-case letters. |
| BridgeUtil.ServiceMetaData | bridge/util.go:34-53 | An attribute is present exactly when some line sets it for the port, and its value is the value some such line gives it. |
| BridgeUtil.AssignKeys | bridge/util.go:34-53 | Applying bindings in order defines a key exactly when some binding sets it. |
| BridgeUtil.AssignLastWins | bridge/util.go:34-53 | An assigned key carries the value of a binding that sets it, and no later binding sets that key. |
| BridgeUtil.ServiceMetaDataKeys | bridge/util.go:34-53 | An attribute is present exactly when some metadata line sets it for the port. |
| BridgeUtil.ServiceMetaDataLastWins | bridge/util.go:34-53 | A present attribute has the value of a line that sets it, and no later line sets it again: last writer wins. |
| BridgeUtil.AssignPair | bridge/util.go:34-53 | Two bindings applied in order: the second overwrites the first when it sets something. |
| BridgeUtil.ServiceMetaDataOnScopedPort | bridge/util.go:34-53 | `SERVICE_NAME=foo` then `SERVICE_80_NAME=web` gives `name=web` on port 80. |
| BridgeUtil.ServiceMetaDataOnOtherPort | bridge/util.go:34-53 | The same lines give `name=foo` on port 81. |
| BridgeUtil.ServicePortOf | bridge/util.go:69-81 | Exposed port and protocol are copied. Host address and port come from the first binding, or are empty when the port is not published. |
| BridgeUtil.ServicePortFirstBinding | bridge/util.go:75-78 | Bindings after the first one never affect the result. |
| Etcd.Machines | skydns2/skydns2.go:25-28 | The client gets one `http://<host>` endpoint, or none when the URI has no host. |
| Etcd.Set | skydns2/skydns2.go:58 | A store write is journalled. It fails with `Rejected` for a refused key and changes nothing then. On success it stores exactly that key. |
| Etcd.Delete | skydns2/skydns2.go:66 | A store delete is journalled. It fails for a refused key or with `KeyNotFound` for an absent one. On success it removes exactly that key. |
| Skydns2.Marshal | skydns2/skydns2.go:13-16 | The JSON record always has `host`. It has `port` only when the port is not zero (`omitempty`). |
| Skydns2.UnmarshalMarshal | skydns2/skydns2.go:13-16 | Reading the stored JSON back gives the record, even with `port` omitted. |
| Skydns2.New | skydns2/skydns2.go:24-35 | A path shorter than two characters is the fatal "domain required" error. Otherwise the domain is the path without its first character, and the endpoints come from the host. |
| Skydns2.DomainJoin | skydns2/skydns2.go:101-103 | Labels without dots split back out of the joined domain. |
| Skydns2.ContainerDomain | skydns2/skydns2.go:77-79 | With dot-free names, the domain's labels are container, host and service name, followed by the zone's labels. |
| Skydns2.ServiceDomain | skydns2/skydns2.go:81-83 | With dot-free names, the domain's labels are container, host, `_<port>`, `_<protocol>` and service name, followed by the zone's labels. |
| Skydns2.DomainPath | skydns2/skydns2.go:105-111 | Every key lies under `/skydns/`. |
| Skydns2.ReverseLabels | skydns2/skydns2.go:107-109 | The in-place swap loop reverses the labels. |
| Skydns2.DomainPathLabels | skydns2/skydns2.go:105-111 | For a domain without `/`, the key lists the domain's labels in reverse order, one key segment per label. |
| Skydns2.DomainPathExample | skydns2/skydns2.go:105-111 | `a.b.com` is stored at `/skydns/com/b/a`. |
| Skydns2.DomainPathLength | skydns2/skydns2.go:105-111 | The key is exactly as long as `/skydns/` plus the domain, whatever the domain holds. Reversing the labels and writing `/` for `.` adds or drops no character. |
| Skydns2.DomainJoinLabels | skydns2/skydns2.go:101-103 | Dot-free labels joined with a zone split back into those labels followed by the zone's labels. |
| Skydns2.ServiceHost | skydns2/skydns2.go:85-91 | A host-level service (port 0) resolves to its IP. A port-level service resolves to its container domain. |
| Skydns2.ServicePath | skydns2/skydns2.go:93-99 | A service's key lies under `/skydns/`. |
| Skydns2.ServicePathLabels | skydns2/skydns2.go:77-83 | Read from the root down, a key lists the zone labels and then the service's names. For a port-level service these are service name, `_proto`, `_port`, host and container. For a host-level service they are service name, host and container. |
| Skydns2.LevelsUseDifferentKeys | skydns2/skydns2.go:93-99 | For any names, a host-level and a port-level registration of the same service never share a key. |
| Skydns2.Register | skydns2/skydns2.go:51-63 | Register sends one Set: the marshalled record under the service's key, with the service TTL converted to `uint64`. On error it fails with that key and changes nothing. |
| Skydns2.Deregister | skydns2/skydns2.go:65-71 | Deregister sends one non-recursive Delete of the key that Register writes. A refused key gives `Rejected`, an absent key gives `KeyNotFound`, and either failure leaves the entries unchanged. Otherwise it removes that key only. |
| Skydns2.Refresh | skydns2/skydns2.go:73-75 | Refresh is Register. |
| Skydns2.RegisteredRecord | skydns2/skydns2.go:51-63 | After a successful Register, the stored JSON reads back as the record. The `port` field is absent exactly for host-level services. |
| Skydns2.RegisterIdempotent | skydns2/skydns2.go:51-63 | Registering twice leaves the entries, and the error, of registering once. |
| Skydns2.RegisterThenDeregister | skydns2/skydns2.go:51-71 | Register followed by Deregister succeeds and leaves the original entries without the service's key. |
| Skydns2.DeregisterTwice | skydns2/skydns2.go:65-71 | A second Deregister fails with `KeyNotFound`. |
| VulcanApi.JsonRoundTrips | vulcan/api.go:11-25 | Frontend, Backend and BackendServer records read back from their JSON form (`Type`, `BackendId`, `Route`, `URL`). |
| VulcanService.ServiceAttrsOf | vulcan/service.go:21-54 | Route, backend, frontend and server id resolve by key presence, in this precedence. Route: `vulcan_route`, then `Host("<vulcan_host>")`. Backend: `vulcan_backend`, then `vulcan`, then the service name if routed. Frontend: `vulcan_frontend`, then the backend if routed. Server: `vulcan_server`, then the service's own ID if `vulcan` is present. Types are `http`. The server URL is `http://<ip>:<port>`, with the port printed as `%d` prints it: canonical decimal text that parses back to the port. |
| Strings.FormatInt | vulcan/service.go:51 | `%d` text: a minus sign exactly for negative values, then digits with no leading zero, except for `0` itself. |
| Strings.AtoiFormatInt | vulcan/service.go:51 | The printed port parses back to the port. |
| Strings.FormatIntUnique | vulcan/service.go:51 | `%d` has one spelling per value: any canonical decimal text that parses as `n` is the text printed for `n`. |
| VulcanService.PresenceBlocksFallback | vulcan/service.go:25-49 | A present but empty `vulcan_route`, `vulcan_frontend` or `vulcan_server` blocks the fallbacks of its link. |
| VulcanService.DerivedFrontendFollowsBackend | vulcan/service.go:39-43 | Without `vulcan_frontend`, a routed service's frontend exists exactly when its backend does, and the frontend points at that backend. |
| VulcanService.HostOnlyService | vulcan/service.go:21-86 | Only `vulcan_host` set: the route matches the host, the backend and frontend are named after the service at `backends/<name>/backend` and `frontends/<name>/frontend`, and there is no server record. |
| VulcanService.LegacyService | vulcan/service.go:21-74 | Only `vulcan` set: its value names the backend, the service's own ID names the server at `backends/<b>/servers/<id>`, and there is no frontend. |
| VulcanService.ServerEntry | vulcan/service.go:56-64 | The path is empty exactly when there is no server id. Otherwise it is `path.Join("backends", backend, "servers", id)` and the record carries the server URL. |
| VulcanService.BackendEntry | vulcan/service.go:66-74 | The path is empty exactly when there is no backend. Otherwise it is `path.Join("backends", backend, "backend")` and the record has the backend type. |
| VulcanService.FrontendEntry | vulcan/service.go:76-86 | The path is empty exactly when there is no frontend. Otherwise it is `path.Join("frontends", frontend, "frontend")` and the record carries the type, the backend id and the route. |
| VulcanService.ServerPath | vulcan/service.go:61 | With plain names, the server path is `backends/<backend>/servers/<server>`. The backend segment is dropped when the backend is empty. |
| VulcanService.BackendPath | vulcan/service.go:71 | With a plain name, the backend path is `backends/<backend>/backend`. |
| VulcanService.FrontendPath | vulcan/service.go:81 | With a plain name, the frontend path is `frontends/<frontend>/frontend`. |
| Vulcan.New | vulcan/vulcan.go:21-38 | The prefix is `vulcand` unless the URI path has at least two characters, in which case it is that path. The endpoints come from the host. |
| Vulcan.SetJson | vulcan/vulcan.go:55-69 | One Set is sent, under the prefix joined with the relative path, with the TTL converted to `uint64`. It fails with `Rejected` exactly when that key is refused, and then leaves the entries unchanged. On success the record is stored under that key with that TTL, and no other entry changes. |
| Vulcan.Del | vulcan/vulcan.go:71-77 | One non-recursive Delete is sent, under the prefix joined with the relative path. It fails with `Rejected` for a refused key, or with `KeyNotFound` for an absent one, and then leaves the entries unchanged. On success exactly that key is removed. |
| Vulcan.KeyUnderPlainPrefix | vulcan/vulcan.go:23-31 | Under a one-name prefix such as the default `vulcand`, a key is the prefix, `/`, and the relative path. |
| Vulcan.KeyUnderRootedPrefix | vulcan/vulcan.go:29-31 | Under a prefix `/<name>` taken from the URI path, a key is `/<name>/` followed by the relative path. |
| Vulcan.Deregister | vulcan/vulcan.go:105-115 | With no server id there is no request at all. Otherwise one non-recursive Delete of the server key is sent. A refused server key gives `Rejected`, an absent one gives `KeyNotFound`, and either failure leaves the entries unchanged. Every other key, backend and frontend included, is unchanged. |
| Vulcan.Refresh | vulcan/vulcan.go:117-126 | With no server id there is no request at all. Otherwise the server record alone is written, with the service TTL. The only possible error is `Rejected` for the server key, and then the entries are unchanged. Every other key is unchanged. |
| Vulcan.RefreshIsPlannedServerWrite | vulcan/vulcan.go:89-93 | Refresh sends exactly the server write that Register's plan contains. |
| Vulcan.Register | vulcan/vulcan.go:79-103 | The refused-key set is unchanged. The old journal is kept, and at most three requests are added. Any error is `Rejected` for a key the store refuses. |
| Vulcan.PlanShape | vulcan/vulcan.go:79-103 | Register's plan has one write per record the service has, in the order backend, server, frontend. The backend and frontend TTL is 0; the server TTL is the service's. |
| Vulcan.PlanIndex | vulcan/vulcan.go:79-103 | Every record the service has is written somewhere in the plan. |
| Vulcan.RunSets | vulcan/vulcan.go:84-98 | Writes are sent in order and stop at the first refused key. The error names that key. The journal shows the writes up to and including it. The store holds exactly the writes before it. |
| Vulcan.RegisterRunsPlan | vulcan/vulcan.go:79-103 | Register is its plan run write by write, stopping at the first failure. |
| Vulcan.RunSetsConcat | vulcan/vulcan.go:84-98 | Running two groups of writes runs the second group only if the first succeeds. |
| Vulcan.ApplyTwice | vulcan/vulcan.go:62 | Because Set overwrites, applying the same writes twice equals applying them once. |
| Vulcan.RegisterIdempotent | vulcan/vulcan.go:79-103 | Registering twice leaves the same entries, and the same error, as registering once. |
| Vulcan.KeysDistinct | vulcan/vulcan.go:62 | With plain names, a service's backend, server and frontend keys are pairwise different. |
| Vulcan.RegisterThenDeregister | vulcan/vulcan.go:79-115 | On a healthy store, Register then Deregister succeeds. The server entry is gone. The backend and frontend entries stay, with their records and TTL 0. |

## Left out

- The etcd client, HTTP, and `Ping` (skydns2/skydns2.go:42-49, vulcan/vulcan.go:46-53) are I/O. The store is a value, and which keys it refuses is part of that value.
- Expiry: there is no clock. Entries keep their TTL but never expire, so `Skydns2.RegisterThenDeregister`, `Skydns2.DeregisterTwice` and `Vulcan.RegisterThenDeregister` describe calls that follow each other before any TTL elapses.
- Logging, and the process exit in skydns2's `New`, are left out. The exit is a `Failure` result.
- Adapter registration (`init`, `bridge.Register`) and factory dispatch are plumbing.
- `retry` with exponential backoff (bridge/util.go:12-14) is time-based.
- `serviceContainer` (bridge/util.go:55-67) reads container-runtime structures, and path.Base of image names is not modelled. Container metadata enters the model as `ServiceContainer.meta`.
- The `dockerapi.Port` accessors `Port()` and `Proto()` come from the container runtime's library. `ServicePortOf` receives their results as parameters.
- JSON is a value, not text. Marshalling cannot fail for these record types, and byte-level formatting is not modelled.
- Strings.ToLower: only ASCII letters are lowered. Non-ASCII case mapping is not modelled.
- Vulcan.Register: its own contract states only what is kept and the form of an error. The exact requests and entries are stated by `Vulcan.RegisterRunsPlan` together with `Vulcan.RunSets` and `Vulcan.PlanShape`.
- Strings.Atoi: it models the accepted syntax (an optional sign, then digits). It does not model the 64-bit range error: a segment whose value lies outside [-2^63, 2^63-1] counts as an integer here but not in Go.
- Vulcan.KeysDistinct, Vulcan.RegisterThenDeregister: they assume plain names, with no `/` and not `.` or `..`. Names that `path.Clean` rewrites can make two records share a key, and these lemmas do not cover that.
