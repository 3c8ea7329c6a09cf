/** The three objects of the reverse proxy's routing model, as the adapter
    stores them, and their JSON form (Go's field names, all fields present). */
module VulcanApi {
  import opened Base
  import Json

  const FrontendType: string := "http"
  const BackendType: string := "http"

  /** A routing rule sending requests that match `route` to backend `backendId`. */
  datatype Frontend = Frontend(kind: string, backendId: string, route: string)

  /** A named pool of servers. */
  datatype Backend = Backend(kind: string)

  /** One instance's endpoint inside a backend. */
  datatype BackendServer = BackendServer(url: string)

  function FrontendJson(f: Frontend): Json.Value
  {
    Json.Obj([Json.Field("Type", Json.Str(f.kind)), Json.Field("BackendId", Json.Str(f.backendId)), Json.Field("Route", Json.Str(f.route))])
  }

  function BackendJson(b: Backend): Json.Value
  {
    Json.Obj([Json.Field("Type", Json.Str(b.kind))])
  }

  function BackendServerJson(s: BackendServer): Json.Value
  {
    Json.Obj([Json.Field("URL", Json.Str(s.url))])
  }

  /** A string field as decoding reads it: absent is the empty string, a
      field of another kind is an error. */
  function TextOf(v: Json.Value, name: string): Option<string>
    requires v.Obj?
  {
    match Json.Lookup(v.fields, name)
    case None => Some("")
    case Some(Str(s)) => Some(s)
    case Some(_) => None
  }

  function FrontendOf(v: Json.Value): Option<Frontend>
  {
    if !v.Obj? then None
    else
      var kind, backendId, route := TextOf(v, "Type"), TextOf(v, "BackendId"), TextOf(v, "Route");
      if kind.Some? && backendId.Some? && route.Some? then Some(Frontend(kind.value, backendId.value, route.value)) else None
  }

  function BackendOf(v: Json.Value): Option<Backend>
  {
    if !v.Obj? then None
    else
      var kind := TextOf(v, "Type");
      if kind.Some? then Some(Backend(kind.value)) else None
  }

  function BackendServerOf(v: Json.Value): Option<BackendServer>
  {
    if !v.Obj? then None
    else
      var url := TextOf(v, "URL");
      if url.Some? then Some(BackendServer(url.value)) else None
  }

  /** Each stored object reads back as the object written. */
  lemma JsonRoundTrips(f: Frontend, b: Backend, s: BackendServer)
    ensures FrontendOf(FrontendJson(f)) == Some(f)
    ensures BackendOf(BackendJson(b)) == Some(b)
    ensures BackendServerOf(BackendServerJson(s)) == Some(s)
  {
    var v := FrontendJson(f);
    assert Json.Lookup(v.fields, "Type") == Some(Json.Str(f.kind));
    assert Json.Lookup(v.fields, "BackendId") == Some(Json.Str(f.backendId)) by {
      assert v.fields[1..] == [Json.Field("BackendId", Json.Str(f.backendId)), Json.Field("Route", Json.Str(f.route))];
    }
    assert Json.Lookup(v.fields, "Route") == Some(Json.Str(f.route)) by {
      assert v.fields[1..][1..] == [Json.Field("Route", Json.Str(f.route))];
      assert Json.Lookup(v.fields[1..], "Route") == Json.Lookup(v.fields[1..][1..], "Route");
    }
  }
}
