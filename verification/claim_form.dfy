/** The claim dialog: the guard on submit, the arguments forwarded to
    `onClaim`, the rule that disables the submit button, and close. */
module ClaimForm {
  import opened Wrappers
  import opened JsString

  /** The dialog's state: the two inputs, the loading flag and the error
      shown above them. */
  datatype Dialog = Dialog(claimedBy: string, notes: string, loading: bool, error: string)

  /** The arguments of `onClaim(item.id, claimedBy, notes)`. */
  datatype ClaimCall = ClaimCall(itemId: int, claimedBy: string, notes: string)

  datatype Outcome = Claimed | Declined | Threw(message: string)

  const ClaimFailed := "Failed to claim item"

  /** `disabled={loading || !claimedBy.trim()}`. */
  predicate SubmitDisabled(d: Dialog) {
    d.loading || IsBlank(d.claimedBy)
  }

  /** `handleSubmit`. A blank name makes it a no-op: no call and no state
      change. Otherwise `onClaim` gets the item's id and both inputs as
      typed; success clears the inputs, a `false` result keeps them with
      the error cleared, and a throw keeps them and shows the message or
      the default text. Loading is off again afterwards. */
  function Submit(d: Dialog, itemId: int, outcome: Outcome): (res: (Dialog, Option<ClaimCall>))
    ensures IsBlank(d.claimedBy) <==> res.1.None?
    ensures res.1.None? ==> res.0 == d
    ensures res.1.Some? ==> res.1.value == ClaimCall(itemId, d.claimedBy, d.notes)
    ensures res.1.Some? ==> !res.0.loading
    ensures res.1.Some? && outcome.Claimed? ==> res.0.claimedBy == "" && res.0.notes == "" && res.0.error == ""
    ensures res.1.Some? && !outcome.Claimed? ==> res.0.claimedBy == d.claimedBy && res.0.notes == d.notes
    ensures res.1.Some? && outcome.Declined? ==> res.0.error == ""
    ensures res.1.Some? && outcome.Threw? ==>
              res.0.error == (if outcome.message != "" then outcome.message else ClaimFailed)
  {
    if IsBlank(d.claimedBy) then (d, None)
    else
      var call := ClaimCall(itemId, d.claimedBy, d.notes);
      match outcome
      case Claimed => (Dialog("", "", false, ""), Some(call))
      case Declined => (Dialog(d.claimedBy, d.notes, false, ""), Some(call))
      case Threw(m) => (Dialog(d.claimedBy, d.notes, false, if m != "" then m else ClaimFailed), Some(call))
  }

  /** An enabled button always leads to a call; a button disabled for a
      blank name never does. */
  lemma EnabledSubmitCalls(d: Dialog, itemId: int, outcome: Outcome)
    ensures !SubmitDisabled(d) ==> Submit(d, itemId, outcome).1.Some?
    ensures !d.loading && SubmitDisabled(d) ==> Submit(d, itemId, outcome).1.None?
  {
  }

  /** `handleClose`: both inputs and the error empty. */
  function Close(d: Dialog): (r: Dialog)
    ensures r.claimedBy == "" && r.notes == "" && r.error == ""
    ensures r.loading == d.loading
  {
    Dialog("", "", d.loading, "")
  }
}
