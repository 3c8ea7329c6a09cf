/** The JSON documents the adapters store, as values rather than text: what
    `encoding/json` produces for the record structs, field order kept. */
module Json {
  import opened Base

  datatype Value = Str(text: string) | Num(number: int) | Obj(fields: seq<Field>)

  datatype Field = Field(name: string, value: Value)

  /** The value of the first field called `name`, if any. */
  function Lookup(fields: seq<Field>, name: string): (r: Option<Value>)
    ensures r.None? <==> forall i :: 0 <= i < |fields| ==> fields[i].name != name
    ensures r.Some? ==> exists i :: 0 <= i < |fields| && fields[i] == Field(name, r.value)
  {
    if |fields| == 0 then None
    else if fields[0].name == name then Some(fields[0].value)
    else Lookup(fields[1..], name)
  }

  /** The text of string field `name` of an object. */
  function StringField(v: Value, name: string): Option<string>
  {
    if v.Obj? then
      match Lookup(v.fields, name)
      case Some(Str(s)) => Some(s)
      case _ => None
    else None
  }

  /** The number in field `name` of an object. */
  function NumberField(v: Value, name: string): Option<int>
  {
    if v.Obj? then
      match Lookup(v.fields, name)
      case Some(Num(n)) => Some(n)
      case _ => None
    else None
  }
}
