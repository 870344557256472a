/** End-to-end paths from a dialog through the page's handler to a route:
    what a user who fills in a form ends up seeing and storing. The page
    handlers send the dialog's payload as the JSON body and turn a non-OK
    response into a thrown error carrying the response's message. */
module Flows {
  import opened Wrappers
  import opened JsString
  import opened Http
  import opened Store
  import ItemsApi
  import ClaimApi
  import NewsApi
  import AddItemForm
  import AddNewsForm
  import ClaimForm

  /** The JSON body `JSON.stringify(itemData)` sends for an item payload. */
  function ItemRequest(p: AddItemForm.Payload): ItemsApi.ItemBody {
    ItemsApi.ItemBody(Some(p.objectName), Some(p.description), Some(p.fullDescription),
                      Some(p.imageUrl), Some(p.studentNumber), Some(p.studentNickname),
                      Some(p.foundDate), Some(p.locationFound), None, None)
  }

  /** The JSON body for a news payload with the session's name added. */
  function NewsRequest(p: AddNewsForm.Payload, adminName: string): NewsApi.NewsBody {
    NewsApi.NewsBody(Some(p.title), Some(p.content), Some(adminName))
  }

  /** The page's claim handler: an OK response resolves `true`; any other
      throws with the response's error text, or the default for an empty
      one. */
  function ClaimHandler<T>(resp: Response<T>): (o: ClaimForm.Outcome)
    ensures resp.Ok() <==> o.Claimed?
    ensures !resp.Ok() && resp.body.Failure? && resp.body.error != "" ==> o == ClaimForm.Threw(resp.body.error)
    ensures !resp.Ok() && (resp.body.Json? || resp.body.error == "") ==> o == ClaimForm.Threw(ClaimApi.ClaimFailed)
  {
    if resp.Ok() then ClaimForm.Claimed
    else if resp.body.Failure? then ClaimForm.Threw(OrElse(Some(resp.body.error), ClaimApi.ClaimFailed))
    else ClaimForm.Threw(ClaimApi.ClaimFailed)
  }

  /** A valid item form, posted to an available store that accepts the
      insert, creates an available item whose text fields and location are
      the non-empty trimmed inputs and whose image is the placeholder. */
  lemma ValidFormCreatesItem(d: AddItemForm.FormData, env: Env, now: string, t: Table<ItemsApi.Item>)
    requires AddItemForm.IsValid(d) && t.Valid()
    requires env.configured && env.tableExists
    ensures var res := ItemsApi.Post(env, Object(ItemRequest(AddItemForm.BuildPayload(d))), None, now, t);
      var it := res.0.body.value.fields;
      res.0.status == 201 && res.0.body.Json?
      && it.status == ItemsApi.Available
      && it.imageUrl == ItemsApi.Placeholder
      && it.objectName == Some(Trim(d.objectName)) && it.objectName.value != ""
      && it.locationFound.Some? && it.locationFound.value != ""
      && it.claimedBy.None?
  {
    AddItemForm.ValidPayloadFilled(d);
  }

  /** A valid news form posted by the logged-in administrator stores the
      trimmed title and content under the administrator's name. */
  lemma ValidFormCreatesPost(d: AddNewsForm.FormData, adminName: string, env: Env, now: string,
                             t: Table<NewsApi.NewsPost>)
    requires AddNewsForm.IsValid(d) && t.Valid()
    requires env.configured && env.tableExists
    ensures var res := NewsApi.Post(env, Object(NewsRequest(AddNewsForm.BuildPayload(d), adminName)), None, now, t);
      var p := res.0.body.value.fields;
      res.0.status == 201 && res.0.body.Json?
      && p.title == Some(Trim(d.title)) && p.title.value != ""
      && p.content == Some(Trim(d.content)) && p.content.value != ""
      && p.adminName == Some(adminName)
  {
  }

  /** Submitting the claim dialog for an item someone else has already
      claimed sends the claim, leaves the table as it was, keeps the
      dialog's inputs, and shows the route's 404 message. */
  lemma ClaimOfClaimedItemShowsMessage(dlg: ClaimForm.Dialog, id: nat, env: Env, now: string,
                                       t: Table<ItemsApi.Item>)
    requires t.Valid() && env.configured && env.tableExists
    requires id in t.rows && t.rows[id].status == ItemsApi.Claimed
    requires !IsBlank(dlg.claimedBy)
    ensures var body := ClaimApi.ClaimBody(id, Some(dlg.claimedBy), Some(dlg.notes));
      var res := ClaimApi.Post(env, Object(body), None, now, t);
      var after := ClaimForm.Submit(dlg, id, ClaimHandler(res.0));
      res.1 == t
      && after.1 == Some(ClaimForm.ClaimCall(id, dlg.claimedBy, dlg.notes))
      && after.0.claimedBy == dlg.claimedBy && after.0.notes == dlg.notes
      && after.0.error == ClaimApi.NotClaimable
  {
  }

  /** Submitting the claim dialog for an available item claims it under
      the typed name, with the notes kept when non-empty, and clears the
      dialog. */
  lemma ClaimOfAvailableItemSucceeds(dlg: ClaimForm.Dialog, id: nat, env: Env, now: string,
                                     t: Table<ItemsApi.Item>)
    requires t.Valid() && env.configured && env.tableExists
    requires id in t.rows && t.rows[id].status == ItemsApi.Available
    requires !IsBlank(dlg.claimedBy)
    ensures var body := ClaimApi.ClaimBody(id, Some(dlg.claimedBy), Some(dlg.notes));
      var res := ClaimApi.Post(env, Object(body), None, now, t);
      var after := ClaimForm.Submit(dlg, id, ClaimHandler(res.0));
      res.0.status == 200
      && res.1.rows[id].status == ItemsApi.Claimed
      && res.1.rows[id].claimedBy == Some(dlg.claimedBy)
      && (res.1.rows[id].claimNotes.Some? <==> dlg.notes != "")
      && after.0.claimedBy == "" && after.0.notes == "" && after.0.error == ""
  {
  }
}
