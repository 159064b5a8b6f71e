/** The HTTP service: health, list, put and get over the shared table, and
    the not-found and internal-error fallbacks. Each handler is a pure
    function of the request, the table and the outcome of its store call. */
module Api {
  import Json
  import opened Options
  import opened Store
  import Scan

  /** The JSON payload of a response, one shape per kind of answer. Failure
      payloads are `{"error": ...}`. */
  datatype Body =
    | HealthStatus(status: string, service: string)
    | ItemList(items: seq<Item>)
    | Created(id: string)
    | Record(item: Item)
    | Error(error: string)

  datatype Response = Response(status: int, body: Body)

  /** A response together with the table as the handler leaves it. */
  datatype Served = Served(response: Response, table: Table)

  const ListFailed := "Failed to retrieve items from database"
  const PutFailed := "Failed to create item in database"
  const GetFailed := "Failed to retrieve item from database"
  const NoData := "No data provided"

  /** `GET /health`: a fixed liveness payload. */
  function HealthCheck(): (r: Response)
    ensures r.status == 200 && r.body.HealthStatus?
  {
    Response(200, HealthStatus("healthy", "picus-api"))
  }

  /** The scan loop of `list_items`: `collected` holds the items of the
      answers already read, `answers` the store's remaining answers. A page
      with a continuation key sends the loop round again; a failed call
      abandons what was collected. The result is everything collected
      followed by all remaining pages in order, or the failure that ends the
      chain. */
  function Drain(collected: seq<Item>, answers: Scan.Answers): (r: Response)
    ensures Scan.FaultOf(answers).None? ==>
      r == Response(200, ItemList(collected + Scan.Concat(Scan.Pages(answers))))
    ensures Scan.FaultOf(answers).Some? ==>
      r == Response(500, Error(FaultText(Scan.FaultOf(answers).value, ListFailed)))
    decreases answers
  {
    match answers
    case Failed(f) => Response(500, Error(FaultText(f, ListFailed)))
    case Last(items) =>
      assert Scan.Pages(answers) == [items];
      assert [items][1..] == [];
      assert Scan.Concat([items]) == items + Scan.Concat([]) == items;
      Response(200, ItemList(collected + items))
    case More(items, _, next) =>
      assert Scan.Pages(answers)[1..] == Scan.Pages(next);
      assert Scan.Concat(Scan.Pages(answers)) == items + Scan.Concat(Scan.Pages(next));
      assert collected + items + Scan.Concat(Scan.Pages(next))
          == collected + (items + Scan.Concat(Scan.Pages(next)));
      Drain(collected + items, next)
  }

  /** `GET /picus/list`: every page the scan delivers, concatenated in
      order; any failed scan call gives 500 and no items. */
  function ListItems(answers: Scan.Answers): (r: Response)
    ensures Scan.FaultOf(answers).None? <==> r.status == 200
    ensures r.status == 200 ==> r.body == ItemList(Scan.Concat(Scan.Pages(answers)))
    ensures r.status != 200 ==>
      r == Response(500, Error(FaultText(Scan.FaultOf(answers).value, ListFailed)))
  {
    assert Scan.FaultOf(answers).None? ==>
      [] + Scan.Concat(Scan.Pages(answers)) == Scan.Concat(Scan.Pages(answers));
    Drain([], answers)
  }

  /** `if not data`: an absent body and every falsy JSON value are refused. */
  predicate Provided(body: Option<Json.Value>)
    ensures Provided(body) <==>
      body.Some? && body.value !in {Json.Null, Json.Bool(false), Json.Num(0.0), Json.Str(""),
                                    Json.Array([]), Json.Object(map[])}
  {
    if body.Some? then Json.FalsyValues(body.value); Json.Truthy(body.value) else false
  }

  /** `POST /picus/put` with request body `body` and freshly generated id
      `newId`; `fault` is the outcome of the `put_item` call. The id is not
      checked for uniqueness: a write under an existing id replaces it. */
  function PutItem(t: Table, body: Option<Json.Value>, newId: string, fault: Option<Fault>): (s: Served)
    ensures s.response.status == 400 <==> !Provided(body)
    ensures !Provided(body) ==> s == Served(Response(400, Error(NoData)), t)
    ensures Provided(body) && fault.None? ==>
      && s.response == Response(201, Created(newId))
      && newId in s.table && s.table[newId] == Item(newId, body.value)
      && (forall k :: k != newId ==> (k in s.table <==> k in t))
      && (forall k :: k != newId && k in t ==> s.table[k] == t[k])
    ensures Provided(body) && fault.Some? ==>
      s == Served(Response(500, Error(FaultText(fault.value, PutFailed))), t)
    ensures Keyed(t) ==> Keyed(s.table)
  {
    if !Provided(body) then Served(Response(400, Error(NoData)), t)
    else if fault.Some? then Served(Response(500, Error(FaultText(fault.value, PutFailed))), t)
    else Served(Response(201, Created(newId)), t[newId := Item(newId, body.value)])
  }

  /** `GET /picus/get/<key>`; `fault` is the outcome of the `get_item`
      call. The stored record is always truthy (it holds its `id`), so
      `if not item` means "no record". */
  function GetItem(t: Table, key: string, fault: Option<Fault>): (r: Response)
    ensures r.status == 200 <==> fault.None? && key in t
    ensures r.status == 404 <==> fault.None? && key !in t
    ensures r.status == 200 ==> r.body == Record(t[key])
    ensures r.status == 404 ==> r.body == Error(MissingItemText(key))
    ensures fault.Some? ==> r == Response(500, Error(FaultText(fault.value, GetFailed)))
  {
    if fault.Some? then Response(500, Error(FaultText(fault.value, GetFailed)))
    else if key !in t then Response(404, Error(MissingItemText(key)))
    else Response(200, Record(t[key]))
  }

  /** The 404 fallback for any unmatched route. */
  function NotFound(): (r: Response)
    ensures r.status == 404 && r.body.Error?
  {
    Response(404, Error("Not found"))
  }

  /** The 500 fallback for an uncaught failure: a generic message only. */
  function InternalError(): (r: Response)
    ensures r.status == 500 && r.body.Error?
  {
    Response(500, Error(GenericFailure))
  }

  /** A request once routed: the route and what the handler receives. */
  datatype Route =
    | HealthRoute
    | ListRoute
    | PutRoute(body: Option<Json.Value>, newId: string)
    | GetRoute(key: string)
    | Unmatched

  /** What the table does for one request: its contents, its answers to a
      scan, and the outcome of a single get or put call. */
  datatype Backend = Backend(table: Table, answers: Scan.Answers, fault: Option<Fault>)

  /** The service as a whole: dispatch to the handler for the route. Only a
      put can change the table; every response is one of the five statuses
      the service uses, and exactly the failures carry an `error` field. */
  function Serve(route: Route, b: Backend): (s: Served)
    ensures !route.PutRoute? ==> s.table == b.table
    ensures s.response.status in {200, 201, 400, 404, 500}
    ensures s.response.body.Error? <==> s.response.status >= 400
    ensures Keyed(b.table) ==> Keyed(s.table)
  {
    match route
    case HealthRoute => Served(HealthCheck(), b.table)
    case ListRoute => Served(ListItems(b.answers), b.table)
    case PutRoute(body, newId) => PutItem(b.table, body, newId, b.fault)
    case GetRoute(key) => Served(GetItem(b.table, key, b.fault), b.table)
    case Unmatched => Served(NotFound(), b.table)
  }

  /** Health never fails: whatever the table holds or does, the answer is
      200 `{"status": "healthy", "service": "picus-api"}`. */
  lemma HealthNeverFails(b: Backend)
    ensures Serve(HealthRoute, b) == Served(Response(200, HealthStatus("healthy", "picus-api")), b.table)
  {
  }

  /** Any unmatched route gives the fixed 404 payload `{"error": "Not found"}`. */
  lemma UnmatchedIsNotFound(b: Backend)
    ensures Serve(Unmatched, b) == Served(Response(404, Error("Not found")), b.table)
  {
  }

  /** Round trip: a put of a truthy body followed by a get of the id it
      returned yields that id and exactly that body. */
  lemma PutThenGet(t: Table, data: Json.Value, newId: string)
    requires Json.Truthy(data)
    ensures PutItem(t, Some(data), newId, None).response == Response(201, Created(newId))
    ensures GetItem(PutItem(t, Some(data), newId, None).table, newId, None)
      == Response(200, Record(Item(newId, data)))
  {
  }

  /** A falsy body is refused before any store call: the outcome is the
      same whatever the store would have done. */
  lemma FalsyBodyNeverWrites(t: Table, body: Option<Json.Value>, newId: string, f: Option<Fault>)
    requires !Provided(body)
    ensures PutItem(t, body, newId, f) == PutItem(t, body, newId, None)
    ensures PutItem(t, body, newId, f).table == t
  {
  }

  /** Put does not check for an existing id: a second put under the same id
      replaces the first record and the table does not grow. */
  lemma PutOverwrites(t: Table, data: Json.Value, newId: string)
    requires Json.Truthy(data) && newId in t
    ensures PutItem(t, Some(data), newId, None).table[newId].data == data
    ensures |PutItem(t, Some(data), newId, None).table| == |t|
  {
    assert PutItem(t, Some(data), newId, None).table.Keys == t.Keys;
  }

  /** When the store's pages partition the table, list returns every stored
      record exactly once and nothing else, however many pages it takes. */
  lemma ListReturnsEachRecordOnce(t: Table, answers: Scan.Answers)
    requires Scan.FaultOf(answers).None?
    requires Scan.Partitions(Scan.Pages(answers), t.Values)
    ensures ListItems(answers).status == 200
    ensures Scan.Distinct(ListItems(answers).body.items)
    ensures forall x :: x in ListItems(answers).body.items <==> x in t.Values
  {
    Scan.ConcatOfPartition(Scan.Pages(answers), t.Values);
  }

  /** A store that needs three continuation rounds: the four pages come back
      concatenated, in the order the store delivered them. */
  lemma ListFollowsThreeContinuations(p1: seq<Item>, p2: seq<Item>, p3: seq<Item>, p4: seq<Item>,
                                      k1: string, k2: string, k3: string)
    ensures ListItems(Scan.More(p1, k1, Scan.More(p2, k2, Scan.More(p3, k3, Scan.Last(p4)))))
      == Response(200, ItemList(p1 + p2 + p3 + p4))
  {
    var a := Scan.More(p1, k1, Scan.More(p2, k2, Scan.More(p3, k3, Scan.Last(p4))));
    assert Scan.FaultOf(Scan.More(p3, k3, Scan.Last(p4))).None?;
    assert Scan.FaultOf(Scan.More(p2, k2, Scan.More(p3, k3, Scan.Last(p4)))).None?;
    assert Scan.FaultOf(a).None?;
    assert Scan.Pages(Scan.Last(p4)) == [p4];
    assert Scan.Pages(Scan.More(p3, k3, Scan.Last(p4))) == [p3] + [p4];
    assert Scan.Pages(Scan.More(p2, k2, Scan.More(p3, k3, Scan.Last(p4)))) == [p2] + ([p3] + [p4]);
    assert Scan.Pages(a) == [p1] + ([p2] + ([p3] + [p4]));
    assert [p1] + ([p2] + ([p3] + [p4])) == [p1, p2, p3, p4];
    assert Scan.Concat([p4]) == p4 by {
      assert [p4][1..] == [];
    }
    assert Scan.Concat([p3, p4]) == p3 + p4 by {
      assert [p3, p4][1..] == [p4];
    }
    assert Scan.Concat([p2, p3, p4]) == p2 + p3 + p4 by {
      assert [p2, p3, p4][1..] == [p3, p4];
    }
    assert Scan.Concat([p1, p2, p3, p4]) == p1 + p2 + p3 + p4 by {
      assert [p1, p2, p3, p4][1..] == [p2, p3, p4];
    }
  }
}
