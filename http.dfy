/** What the program receives from the network, as plain values: a reply is
    either a transport failure (connection error, timeout: the call raised)
    or a status code, a body, the response headers and the body's JSON
    decoding (`None` when decoding raises). */
module Http {
  import opened Text

  datatype Option<T> = None | Some(value: T)

  /** A decoded JSON value, as Python's `json` module produces it. */
  datatype Json =
    | Null
    | Bool(b: bool)
    | Num(n: real)
    | Str(s: string)
    | Arr(items: seq<Json>)
    | Obj(fields: map<string, Json>)

  /** Python truthiness of a decoded JSON value (`if value:`). */
  predicate Truthy(j: Json) {
    match j
    case Null => false
    case Bool(b) => b
    case Num(n) => n != 0.0
    case Str(s) => s != ""
    case Arr(items) => items != []
    case Obj(fields) => fields != map[]
  }

  datatype Header = Header(name: string, value: string)

  datatype Reply =
    | Unreachable
    | Response(status: int, body: string, headers: seq<Header>, json: Option<Json>)

  /** A 200 response: the only status any of the sources accepts. */
  predicate Ok(reply: Reply) {
    reply.Response? && reply.status == 200
  }

  /** Header names compare case-insensitively (ASCII). */
  predicate SameName(a: string, b: string) {
    Lower(a) == Lower(b)
  }

  /** `headers.get(name)`: the value of the first header called `name`,
      ignoring case, or `None` when there is none. */
  function HeaderGet(headers: seq<Header>, name: string): (r: Option<string>)
    ensures r.None? <==> forall i :: 0 <= i < |headers| ==> !SameName(headers[i].name, name)
    ensures r.Some? ==>
              exists i :: (&& 0 <= i < |headers|
                           && SameName(headers[i].name, name)
                           && headers[i].value == r.value
                           && forall j :: 0 <= j < i ==> !SameName(headers[j].name, name))
    decreases |headers|
  {
    if headers == [] then None
    else if SameName(headers[0].name, name) then Some(headers[0].value)
    else
      var r := HeaderGet(headers[1..], name);
      assert forall i :: 0 < i < |headers| ==> headers[i] == headers[1..][i - 1];
      r
  }

  /** `headers.get(name, "")`. */
  function HeaderOr(headers: seq<Header>, name: string): string {
    match HeaderGet(headers, name)
    case Some(v) => v
    case None => ""
  }
}
