/** Properties that span both surfaces: records written by the HTTP put and
    removed by the event-triggered delete, over the same table. */
module Scenarios {
  import Json
  import opened Options
  import opened Store
  import Api
  import DeleteHandler

  /** After a successful delete, a get of that key finds nothing and names
      the key; every other key reads as before. */
  lemma DeleteThenGet(e: DeleteHandler.Event, t: Table, other: string)
    requires DeleteHandler.ExtractKey(e).KeyFound? && DeleteHandler.ExtractKey(e).key in t
    requires other != DeleteHandler.ExtractKey(e).key
    ensures var after := DeleteHandler.DeleteItem(e, t, None, None).table;
      && Api.GetItem(after, DeleteHandler.ExtractKey(e).key, None)
         == Api.Response(404, Api.Error(MissingItemText(DeleteHandler.ExtractKey(e).key)))
      && Api.GetItem(after, other, None) == Api.GetItem(t, other, None)
  {
  }

  /** The full life of one record: put a truthy payload under `id`, delete it
      by an event naming `id`, then get it and delete it again. The delete
      succeeds once; afterwards both surfaces answer 404 naming `id`. */
  lemma PutDeleteGetLifecycle(t: Table, data: Json.Value, id: string)
    requires Json.Truthy(data) && id != ""
    ensures var created := Api.PutItem(t, Some(data), id, None).table;
      var e := DeleteHandler.Event(Some(map["key" := id]), DeleteHandler.Absent, DeleteHandler.Absent);
      var deleted := DeleteHandler.DeleteItem(e, created, None, None);
      && deleted.response == DeleteHandler.ItemDeleted(id)
      && Api.GetItem(deleted.table, id, None) == Api.Response(404, Api.Error(MissingItemText(id)))
      && DeleteHandler.DeleteItem(e, deleted.table, None, None).response == DeleteHandler.ItemNotFound(id)
  {
    var e := DeleteHandler.Event(Some(map["key" := id]), DeleteHandler.Absent, DeleteHandler.Absent);
    assert DeleteHandler.ParamKey(e) == id;
  }

  /** For a key that is not stored, the HTTP get and the delete handler
      report the same not-found text. */
  lemma SameNotFoundText(e: DeleteHandler.Event, t: Table)
    requires DeleteHandler.ExtractKey(e).KeyFound? && DeleteHandler.ExtractKey(e).key !in t
    ensures DeleteHandler.DeleteItem(e, t, None, None).response.body.detail
      == Api.GetItem(t, DeleteHandler.ExtractKey(e).key, None).body.error
  {
  }
}
