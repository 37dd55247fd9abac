/** The connection record and the device's REST API as the bot sees it:
    requests built from the session, answers decoded to JSON or a failure. */
module Device {
  import opened Wrappers
  import opened Text

  /** The in-memory connection record (`mikrotikConfig`). `url` always holds
      a string; user name and password may be `undefined` after a `/connect`
      with too few arguments. */
  datatype Session = Session(
    connected: bool,
    baseUrl: string,
    username: Option<string>,
    password: Option<string>)

  /** The record as the process starts: disconnected, all fields empty. */
  const Initial: Session := Session(false, "", Some(""), Some(""))

  datatype Method = Get | Patch

  /** One HTTPS call: method, absolute URL, the Basic-auth credentials taken
      from the session, and the `disabled` value of the JSON body (PATCH only). */
  datatype Request = Request(
    verb: Method,
    url: string,
    username: Option<string>,
    password: Option<string>,
    disabled: Option<string>)

  /** A device record: RouterOS returns every field as a string. */
  type Record = map<string, string>

  /** A decoded response body: one record, or an array of records. */
  datatype Json = Object(fields: Record) | Array(items: seq<Record>)

  /** The device as an oracle: `Some` is a decoded 2xx body, `None` is any
      transport error, non-2xx status or decode failure (the helper's `null`). */
  type Oracle = Request -> Option<Json>

  /** The request `mikrotikRequest(endpoint, method, data)` sends: the URL is
      the stored base address followed by the endpoint, the credentials are
      the stored ones. */
  function RequestFor(s: Session, endpoint: string, verb: Method, disabled: Option<string>): (q: Request)
    ensures StartsWith(q.url, s.baseUrl)
    ensures q.url[|s.baseUrl|..] == endpoint
    ensures q.username == s.username && q.password == s.password
    ensures q.verb == verb && q.disabled == disabled
  {
    Request(verb, s.baseUrl + endpoint, s.username, s.password, disabled)
  }

  /** A record field as a template literal shows it: missing is "undefined". */
  function Show(r: Record, key: string): (t: string)
    ensures key in r ==> t == r[key]
    ensures key !in r ==> t == "undefined"
  {
    if key in r then r[key] else "undefined"
  }

  /** A record field compared with `===` against a string literal. */
  predicate FieldIs(r: Record, key: string, value: string) {
    key in r && r[key] == value
  }

  /** `payload.length` in a template literal: the element count of an array;
      on a plain object, its own `length` field or "undefined". */
  function LengthText(j: Json): (t: string)
    ensures j.Array? ==> IsCanonicalDecimal(t) && DecimalValue(t) == |j.items|
  {
    match j
    case Array(xs) => NatToDecimal(|xs|)
    case Object(f) => Show(f, "length")
  }
}
