/** The claim route: a conditional update that moves one item from
    `available` to `claimed`, and the mapping of its outcome to a status
    code. */
module ClaimApi {
  import opened Wrappers
  import opened Http
  import opened Store
  import opened ItemsApi

  /** The destructured request `{ itemId, claimedBy, notes }`. */
  datatype ClaimBody = ClaimBody(itemId: int, claimedBy: Option<string>, notes: Option<string>)

  const ClaimFailed := "Failed to claim item"
  const NotClaimable := "Item not found or already claimed"

  /** The row the update matches: the given id, still available. */
  predicate Claimable(t: Table<Item>, id: int) {
    id >= 0 && id in t.rows && t.rows[id].status == Available
  }

  /** The update applied to a matched row. A `claimedBy` that is absent
      from the request is left out of the update and keeps its column;
      empty notes are stored as `NULL`. */
  function ClaimedItem(it: Item, b: ClaimBody, now: string): (c: Item)
    ensures c.status == Claimed && c.claimedDate == Some(now) && c.updatedAt == now
    ensures c.claimedBy == (if b.claimedBy.Some? then b.claimedBy else it.claimedBy)
    ensures c.claimNotes.Some? <==> b.notes.Some? && b.notes.value != ""
    ensures c.claimNotes.Some? ==> c.claimNotes == b.notes
    ensures c.(status := it.status, claimedBy := it.claimedBy, claimedDate := it.claimedDate,
               claimNotes := it.claimNotes, updatedAt := it.updatedAt) == it
  {
    it.(status := Claimed,
        claimedBy := if b.claimedBy.Some? then b.claimedBy else it.claimedBy,
        claimedDate := Some(now),
        claimNotes := if b.notes.Some? && b.notes.value != "" then b.notes else None,
        updatedAt := now)
  }

  /** `POST`. A body that cannot be destructured fails with 500 first; the
      availability checks answer 503; an update error answers 500 with the
      store's message; no available row with the id answers 404; otherwise
      that row is claimed and returned with 200. Only the claimed row
      changes, and only on success. */
  function Post(env: Env, body: RequestBody<ClaimBody>, updateError: Option<string>, now: string,
                t: Table<Item>): (res: (Response<Row<Item>>, Table<Item>))
    requires t.Valid()
    ensures res.1.Valid()
    ensures !body.Object? ==> res == (Fail(500, ClaimFailed), t)
    ensures body.Object? && Unavailable(env).Some? ==> res == (Fail(503, Unavailable(env).value), t)
    ensures body.Object? && Unavailable(env).None? && updateError.Some? ==>
              res == (Fail(500, ClaimFailed + ": " + updateError.value), t)
    ensures res.0.status == 200 <==>
              body.Object? && Unavailable(env).None? && updateError.None? && Claimable(t, body.fields.itemId)
    ensures res.0.status == 404 <==>
              body.Object? && Unavailable(env).None? && updateError.None? && !Claimable(t, body.fields.itemId)
    ensures res.0.status == 404 ==> res == (Fail(404, NotClaimable), t)
    ensures res.0.status == 200 ==>
              var id := body.fields.itemId as nat;
              res.1.rows == t.rows[id := ClaimedItem(t.rows[id], body.fields, now)]
              && res.1.nextId == t.nextId
              && res.0.body == Json(Row(id, res.1.rows[id]))
  {
    if !body.Object? then (Fail(500, ClaimFailed), t)
    else if Unavailable(env).Some? then (Fail(503, Unavailable(env).value), t)
    else if updateError.Some? then (Fail(500, ClaimFailed + ": " + updateError.value), t)
    else
      var b := body.fields;
      if Claimable(t, b.itemId) then
        var id := b.itemId as nat;
        var c := ClaimedItem(t.rows[id], b, now);
        (Reply(200, Row(id, c)), Table(t.rows[id := c], t.nextId))
      else (Fail(404, NotClaimable), t)
  }

  /** Claiming is one-way: after a successful claim the same request, or
      any other claim of that item, finds nothing to update. */
  lemma SecondClaimFails(env: Env, b: ClaimBody, b2: ClaimBody, now: string, now2: string, t: Table<Item>)
    requires t.Valid()
    requires Post(env, Object(b), None, now, t).0.status == 200
    requires b2.itemId == b.itemId
    ensures Post(env, Object(b2), None, now2, Post(env, Object(b), None, now, t).1).0
         == Fail(404, NotClaimable)
  {
    var t1 := Post(env, Object(b), None, now, t).1;
    assert t1.rows[b.itemId as nat].status == Claimed;
  }

  /** No claim ever makes an item available again: every row claimed
      before a request is still claimed after it. */
  lemma ClaimedStaysClaimed(env: Env, body: RequestBody<ClaimBody>, err: Option<string>, now: string,
                            t: Table<Item>, id: nat)
    requires t.Valid()
    requires id in t.rows && t.rows[id].status == Claimed
    ensures id in Post(env, body, err, now, t).1.rows
    ensures Post(env, body, err, now, t).1.rows[id].status == Claimed
  {
  }

  /** Every row other than the claimed one, and every row on a failed
      request, is left exactly as it was. */
  lemma OthersUnchanged(env: Env, body: RequestBody<ClaimBody>, err: Option<string>, now: string,
                        t: Table<Item>, id: nat)
    requires t.Valid()
    requires id in t.rows
    requires !(body.Object? && body.fields.itemId == id && Post(env, body, err, now, t).0.status == 200)
    ensures id in Post(env, body, err, now, t).1.rows
    ensures Post(env, body, err, now, t).1.rows[id] == t.rows[id]
  {
  }
}
