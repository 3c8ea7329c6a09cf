/** The distributed key-value store both adapters write to, as a pure state.
    Keys map to a JSON value and a TTL in seconds (0: never expires). Which
    keys the store refuses to write is part of the state (`faulty`), so a
    failing request is an input rather than chance; `journal` lists every
    request sent, in order, whether or not it succeeded. */
module Etcd {
  import opened Base
  import Json

  datatype Entry = Entry(value: Json.Value, ttl: Uint64)

  datatype Request =
    | SetRequest(key: string, value: Json.Value, ttl: Uint64)
    | DeleteRequest(key: string, recursive: bool)

  datatype Error =
    | Rejected(key: string)      // the store is unreachable or refuses the request
    | KeyNotFound(key: string)   // a delete of a key the store does not hold

  datatype Store = Store(entries: map<string, Entry>, faulty: set<string>, journal: seq<Request>)

  /** The store after a request and the error the request returned, if any. */
  datatype Outcome = Outcome(store: Store, err: Option<Error>)

  /** The client endpoints the adapters build from a URI host: one
      `http://<host>` endpoint, or none (the client's default) when the host
      is empty. */
  function Machines(host: string): (urls: seq<string>)
    ensures host == "" <==> urls == []
    ensures urls != [] ==> urls == ["http://" + host]
  {
    if host != "" then ["http://" + host] else []
  }

  /** `client.Set(key, value, ttl)`: an overwrite of one key. */
  function Set(st: Store, key: string, value: Json.Value, ttl: Uint64): (o: Outcome)
    ensures o.store.journal == st.journal + [SetRequest(key, value, ttl)]
    ensures o.store.faulty == st.faulty
    ensures o.err.None? <==> key !in st.faulty
    ensures o.err.Some? ==> o.err.value == Rejected(key) && o.store.entries == st.entries
    ensures o.err.None? ==> key in o.store.entries && o.store.entries[key] == Entry(value, ttl)
    ensures forall k :: k != key ==> (k in o.store.entries <==> k in st.entries)
    ensures forall k :: k != key && k in st.entries ==> o.store.entries[k] == st.entries[k]
  {
    var journal := st.journal + [SetRequest(key, value, ttl)];
    if key in st.faulty then Outcome(st.(journal := journal), Some(Rejected(key)))
    else Outcome(Store(st.entries[key := Entry(value, ttl)], st.faulty, journal), None)
  }

  /** `client.Delete(key, recursive)`: removal of one key, an error when the
      key is absent. */
  function Delete(st: Store, key: string, recursive: bool): (o: Outcome)
    ensures o.store.journal == st.journal + [DeleteRequest(key, recursive)]
    ensures o.store.faulty == st.faulty
    ensures o.err.None? <==> key !in st.faulty && key in st.entries
    ensures o.err.Some? ==> o.store.entries == st.entries
    ensures key in st.faulty ==> o.err == Some(Rejected(key))
    ensures key !in st.faulty && key !in st.entries ==> o.err == Some(KeyNotFound(key))
    ensures o.err.None? ==> o.store.entries.Keys == st.entries.Keys - {key}
    ensures forall k :: k != key && k in st.entries ==> k in o.store.entries && o.store.entries[k] == st.entries[k]
  {
    var journal := st.journal + [DeleteRequest(key, recursive)];
    if key in st.faulty then Outcome(st.(journal := journal), Some(Rejected(key)))
    else if key !in st.entries then Outcome(st.(journal := journal), Some(KeyNotFound(key)))
    else Outcome(Store(st.entries - {key}, st.faulty, journal), None)
  }
}
