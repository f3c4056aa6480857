/** `handle_status?` (address_to_location.rb:85-105) and the decision the
    driver loop takes on a response status (address_to_location.rb:124-126). */
module StatusClassifier {
  import opened Wrappers

  const Ok: string := "OK"
  const ZeroResults: string := "ZERO_RESULTS"
  const OverQueryLimit: string := "OVER_QUERY_LIMIT"
  const RequestDenied: string := "REQUEST_DENIED"
  const InvalidRequest: string := "INVALID_REQUEST"
  const UnknownError: string := "UNKNOWN_ERROR"

  /** `handle_status?`: whether the batch goes on after a response that is
      not `OK`. The status is the `status` member of the reply, `None` when
      the member is absent. Each named status only logs a message, except
      `OVER_QUERY_LIMIT`, the daily quota, which stops the batch; a status
      the `case` does not name falls through with the initial `true`. */
  function HandleStatus(status: Option<string>): (shouldContinue: bool)
    ensures !shouldContinue <==> status == Some(OverQueryLimit)
  {
    match status
    case None => true
    case Some(s) =>
      if s == ZeroResults then true
      else if s == OverQueryLimit then false
      else if s == RequestDenied then true
      else if s == InvalidRequest then true
      else if s == UnknownError then true
      else true
  }

  /** What the driver does with one response. */
  datatype Decision =
    | Proceed  // status `OK`: read the first result and write a row
    | Skip     // `next`: nothing written, go on with the next record
    | Halt     // `break`: nothing written, the batch ends

  /** `unless status == 'OK'` followed by `handle_status? ? next : break`. */
  function Classify(status: Option<string>): (decision: Decision)
  {
    if status == Some(Ok) then Proceed
    else if HandleStatus(status) then Skip
    else Halt
  }

  /** Exactly `OK` proceeds, exactly `OVER_QUERY_LIMIT` halts, and every
      other status, absent or unknown ones included, skips the record. */
  lemma ClassifySpec(status: Option<string>)
    ensures Classify(status) == Proceed <==> status == Some(Ok)
    ensures Classify(status) == Halt <==> status == Some(OverQueryLimit)
    ensures Classify(status) == Skip <==> status != Some(Ok) && status != Some(OverQueryLimit)
  {
    assert Ok != OverQueryLimit;
  }

  /** The error statuses the service documents, a missing status and any
      unrecognised one all let the batch go on. */
  lemma NamedStatusesContinue(s: string)
    requires s != OverQueryLimit
    ensures HandleStatus(None)
    ensures HandleStatus(Some(ZeroResults)) && HandleStatus(Some(RequestDenied))
    ensures HandleStatus(Some(InvalidRequest)) && HandleStatus(Some(UnknownError))
    ensures HandleStatus(Some(s))
  {
    assert ZeroResults != OverQueryLimit && RequestDenied != OverQueryLimit;
    assert InvalidRequest != OverQueryLimit && UnknownError != OverQueryLimit;
  }
}
