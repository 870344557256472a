/** What the three API routes share: the parsed request body, the JSON
    response with its status code, and the two availability checks every
    handler makes before touching its table. */
module Http {
  import opened Wrappers

  /** The outcome of `await request.json()`: unparsable text (which
      throws), the JSON `null`, or an object whose fields are read. */
  datatype RequestBody<B> = Malformed | Null | Object(fields: B)

  /** A response body: the returned JSON value, or `{ error: message }`. */
  datatype Body<T> = Json(value: T) | Failure(error: string)

  datatype Response<T> = Response(status: nat, body: Body<T>) {
    /** `response.ok` as the client sees it. */
    predicate Ok() {
      200 <= status <= 299
    }
  }

  /** Whether the store's URL and key are set, and whether the probe
      `select("id").limit(1)` on the route's table succeeded. */
  datatype Env = Env(configured: bool, tableExists: bool)

  const NotConfigured := "Database not configured. Please set up Supabase integration."
  const NoTable := "Database table not found. Please run the database setup scripts first."

  /** The 503 message a handler answers with before any write, if any: an
      unconfigured store is reported first, then a missing table. */
  function Unavailable(env: Env): (msg: Option<string>)
    ensures msg.None? <==> env.configured && env.tableExists
    ensures !env.configured ==> msg == Some(NotConfigured)
    ensures env.configured && !env.tableExists ==> msg == Some(NoTable)
  {
    if !env.configured then Some(NotConfigured)
    else if !env.tableExists then Some(NoTable)
    else None
  }

  /** `NextResponse.json(value, { status })`. */
  function Reply<T>(status: nat, value: T): Response<T> {
    Response(status, Json(value))
  }

  /** `NextResponse.json({ error: message }, { status })`. */
  function Fail<T>(status: nat, message: string): Response<T> {
    Response(status, Failure(message))
  }

  /** JavaScript's `s || fallback` on an optional string: an absent or
      empty string is replaced. */
  function OrElse(s: Option<string>, fallback: string): (r: string)
    ensures s.Some? && s.value != "" ==> r == s.value
    ensures s.None? || s.value == "" ==> r == fallback
  {
    if s.Some? && s.value != "" then s.value else fallback
  }
}
