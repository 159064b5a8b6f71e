/** The table both surfaces share, seen as an abstract map from item id to
    item, and the two ways a call into it can fail. */
module Store {
  import Json

  /** One record: the generated id and the caller's payload, stored verbatim. */
  datatype Item = Item(id: string, data: Json.Value)

  /** The table's contents, keyed by the `id` attribute. */
  type Table = map<string, Item>

  /** Every record sits under its own id: what the key schema guarantees
      for records written as `{"id": i, "data": ...}`. */
  predicate Keyed(t: Table) {
    forall k :: k in t ==> t[k].id == k
  }

  /** How a store call can fail. `ClientError` is the error the store client
      reports (`botocore.exceptions.ClientError`); `OtherException` is any
      other exception raised on the way, caught by the generic handler. */
  datatype Fault = ClientError | OtherException

  /** The caller-facing text for a failure: the operation's own message for a
      store error, a generic one for anything else, so that no internal detail
      reaches the caller. */
  function FaultText(f: Fault, storeMessage: string): (text: string)
    ensures f.ClientError? ==> text == storeMessage
    ensures f.OtherException? ==> text == GenericFailure
  {
    match f
    case ClientError => storeMessage
    case OtherException => GenericFailure
  }

  const GenericFailure := "Internal server error"

  /** The not-found text both surfaces use; it names the requested key. */
  function MissingItemText(key: string): (text: string)
    ensures |text| == |key| + 25 && text[14..14 + |key|] == key
    ensures text[..14] == "Item with id '" && text[14 + |key|..] == "' not found"
  {
    "Item with id '" + key + "' not found"
  }
}
