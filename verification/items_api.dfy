/** The lost-and-found collection route: `GET` lists every item, newest
    found date first, and falls back to an empty list on any failure;
    `POST` shapes a new item from the request body and inserts it. */
module ItemsApi {
  import opened Wrappers
  import opened Http
  import opened Store

  datatype Status = Available | Claimed

  /** A row of the items table. Text columns the request copies without
      checking are optional: `None` is SQL `NULL` (an absent JSON field). */
  datatype Item = Item(
    objectName: Option<string>,
    description: Option<string>,
    fullDescription: Option<string>,
    imageUrl: string,
    studentNumber: Option<string>,
    studentNickname: Option<string>,
    foundDate: Option<string>,
    locationFound: Option<string>,
    status: Status,
    claimedBy: Option<string>,
    claimedDate: Option<string>,
    claimNotes: Option<string>,
    createdAt: string,
    updatedAt: string)

  /** The fields of a create request the handler looks at, plus two it
      ignores: a client-chosen status and an item type. */
  datatype ItemBody = ItemBody(
    objectName: Option<string>,
    description: Option<string>,
    fullDescription: Option<string>,
    imageUrl: Option<string>,
    studentNumber: Option<string>,
    studentNickname: Option<string>,
    foundDate: Option<string>,
    locationFound: Option<string>,
    status: Option<string>,
    itemType: Option<string>)

  const Placeholder := "/placeholder.svg?height=300&width=300"
  const CreateFailed := "Failed to create item"

  /** The listing key: `found_date`. */
  function FoundDate(r: Row<Item>): Option<string> {
    r.fields.foundDate
  }

  /** `GET`: an empty list, with status 200, whenever the store is
      unconfigured, the table is missing or the query fails; otherwise
      every row ordered by found date, latest first. */
  function Get(env: Env, queryFails: bool, t: Table<Item>): (res: Response<seq<Row<Item>>>)
    requires t.Valid()
    ensures res.status == 200 && res.body.Json?
    ensures !env.configured || !env.tableExists || queryFails ==> res.body.value == []
    ensures env.configured && env.tableExists && !queryFails ==>
              multiset(res.body.value) == multiset(Rows(t)) && Descending(res.body.value, FoundDate)
  {
    if !env.configured || !env.tableExists || queryFails then Reply(200, [])
    else Reply(200, SortDesc(Rows(t), FoundDate))
  }

  /** The record the handler inserts: the body's fields copied unchecked,
      the placeholder image when none is given, status `available`
      whatever the body says, no claim yet, and both timestamps `now`. */
  function NewItem(b: ItemBody, now: string): (it: Item)
    ensures it.objectName == b.objectName && it.description == b.description
    ensures it.fullDescription == b.fullDescription
    ensures it.studentNumber == b.studentNumber && it.studentNickname == b.studentNickname
    ensures it.foundDate == b.foundDate && it.locationFound == b.locationFound
    ensures it.status == Available
    ensures it.imageUrl == OrElse(b.imageUrl, Placeholder)
    ensures it.claimedBy.None? && it.claimedDate.None? && it.claimNotes.None?
    ensures it.createdAt == now && it.updatedAt == now
  {
    Item(b.objectName, b.description, b.fullDescription, OrElse(b.imageUrl, Placeholder),
         b.studentNumber, b.studentNickname, b.foundDate, b.locationFound,
         Available, None, None, None, now, now)
  }

  /** `POST`. A body that does not parse fails with 500 before anything
      else; the availability checks answer 503; a `null` body fails with
      500 when its fields are read; an insert error answers 500 with the
      store's message; otherwise the new row is returned with 201. */
  function Post(env: Env, body: RequestBody<ItemBody>, insertError: Option<string>, now: string,
                t: Table<Item>): (res: (Response<Row<Item>>, Table<Item>))
    requires t.Valid()
    ensures res.1.Valid()
    ensures res.0.status == 201 <==>
              body.Object? && Unavailable(env).None? && insertError.None?
    ensures res.0.status != 201 ==> res.1 == t
    ensures body.Malformed? ==> res.0 == Fail(500, CreateFailed)
    ensures !body.Malformed? && Unavailable(env).Some? ==> res.0 == Fail(503, Unavailable(env).value)
    ensures body.Null? && Unavailable(env).None? ==> res.0 == Fail(500, CreateFailed)
    ensures body.Object? && Unavailable(env).None? && insertError.Some? ==>
              res.0 == Fail(500, CreateFailed + ": " + insertError.value)
    ensures res.0.status == 201 ==>
              res.0.body.Json? && res.0.body.value.id !in t.rows
              && res.1.rows == t.rows[res.0.body.value.id := NewItem(body.fields, now)]
              && res.0.body.value.fields == NewItem(body.fields, now)
  {
    if body.Malformed? then (Fail(500, CreateFailed), t)
    else if Unavailable(env).Some? then (Fail(503, Unavailable(env).value), t)
    else if body.Null? then (Fail(500, CreateFailed), t)
    else if insertError.Some? then (Fail(500, CreateFailed + ": " + insertError.value), t)
    else
      var (t', row) := Insert(t, NewItem(body.fields, now));
      (Reply(201, row), t')
  }
}
