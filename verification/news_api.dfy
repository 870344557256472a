/** The news route: `GET` lists every post, newest first, and falls back to
    an empty list on any failure; `POST` inserts a post built from the
    body's title, content and author. */
module NewsApi {
  import opened Wrappers
  import opened Http
  import opened Store

  /** A row of the news table; copied body fields are optional. */
  datatype NewsPost = NewsPost(
    title: Option<string>,
    content: Option<string>,
    adminName: Option<string>,
    createdAt: string,
    updatedAt: string)

  /** The create request's fields the handler reads. */
  datatype NewsBody = NewsBody(title: Option<string>, content: Option<string>, adminName: Option<string>)

  const CreateFailed := "Failed to create news"

  /** The listing key: `created_at`. */
  function CreatedAt(r: Row<NewsPost>): Option<string> {
    Some(r.fields.createdAt)
  }

  /** `GET`: an empty list, with status 200, whenever the store is
      unconfigured, the table is missing or the query fails; otherwise
      every post, most recently created first. */
  function Get(env: Env, queryFails: bool, t: Table<NewsPost>): (res: Response<seq<Row<NewsPost>>>)
    requires t.Valid()
    ensures res.status == 200 && res.body.Json?
    ensures !env.configured || !env.tableExists || queryFails ==> res.body.value == []
    ensures env.configured && env.tableExists && !queryFails ==>
              multiset(res.body.value) == multiset(Rows(t)) && Descending(res.body.value, CreatedAt)
  {
    if !env.configured || !env.tableExists || queryFails then Reply(200, [])
    else Reply(200, SortDesc(Rows(t), CreatedAt))
  }

  /** The inserted record: exactly the body's title, content and author,
      unchecked (the server does not ask whether an administrator is
      logged in), with both timestamps `now`. */
  function NewPost(b: NewsBody, now: string): (p: NewsPost)
    ensures p.title == b.title && p.content == b.content && p.adminName == b.adminName
    ensures p.createdAt == now && p.updatedAt == now
  {
    NewsPost(b.title, b.content, b.adminName, now, now)
  }

  /** `POST`, with the same order of checks as the item route: a body that
      does not parse, then availability (503), then a `null` body, then
      the insert's error (500 with the store's message); success is 201
      with the inserted row. */
  function Post(env: Env, body: RequestBody<NewsBody>, insertError: Option<string>, now: string,
                t: Table<NewsPost>): (res: (Response<Row<NewsPost>>, Table<NewsPost>))
    requires t.Valid()
    ensures res.1.Valid()
    ensures res.0.status == 201 <==>
              body.Object? && Unavailable(env).None? && insertError.None?
    ensures res.0.status != 201 ==> res.1 == t
    ensures body.Malformed? ==> res.0 == Fail(500, CreateFailed)
    ensures !body.Malformed? && Unavailable(env).Some? ==> res.0 == Fail(503, Unavailable(env).value)
    ensures body.Null? && Unavailable(env).None? ==> res.0 == Fail(500, CreateFailed)
    ensures body.Object? && Unavailable(env).None? && insertError.Some? ==>
              res.0 == Fail(500, CreateFailed + ": " + insertError.value)
    ensures res.0.status == 201 ==>
              res.0.body.Json? && res.0.body.value.id !in t.rows
              && res.1.rows == t.rows[res.0.body.value.id := NewPost(body.fields, now)]
              && res.0.body.value.fields == NewPost(body.fields, now)
  {
    if body.Malformed? then (Fail(500, CreateFailed), t)
    else if Unavailable(env).Some? then (Fail(503, Unavailable(env).value), t)
    else if body.Null? then (Fail(500, CreateFailed), t)
    else if insertError.Some? then (Fail(500, CreateFailed + ": " + insertError.value), t)
    else
      var (t', row) := Insert(t, NewPost(body.fields, now));
      (Reply(201, row), t')
  }
}
