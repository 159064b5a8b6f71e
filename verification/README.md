# Picus CRUD facade — request-decision model

This project models the request-handling logic of a small CRUD service over a
managed key-value table. Two surfaces share the table:

- an HTTP service (`app/main.py`) with `health`, `list`, `put` and `get`, and
  fallback handlers for unmatched routes and uncaught errors;
- an event-triggered delete handler (`lambda/handler.py`) that extracts an item
  key from the event, checks that the record exists, deletes it, and answers
  with a fixed response envelope.

The table is an abstract `map<string, Item>` (`Store.Table`); an `Item` is
`{id, data}` with `data` an arbitrary JSON value (`Json.Value`). Every store
call is replaced by its outcome, passed in as a parameter: `None` for success,
or a `Store.Fault` — `ClientError` (the store client's own error, mapped to the
operation's message) or `OtherException` (any other exception, mapped to
"Internal server error"). A full-table scan is the chain of answers the store
gives to successive scan calls (`Scan.Answers`: a last page, a page with a
`LastEvaluatedKey` followed by the next answer, or a failed call). The
generated item id of `put` is an input.

Modules, one per concern:

| file | module | models |
|---|---|---|
| options.dfy | `Options` | `None` / value |
| json.dfy | `Json` | request payloads and Python truthiness (`if not data`) |
| pystr.dfy | `PyStr` | Python `str.strip`, `str.split`, `str.join` on one character |
| store.dfy | `Store` | items, the table, store faults, shared error texts |
| scan.dfy | `Scan` | paginated scan answers, page concatenation |
| api.dfy | `Api` | `app/main.py` handlers and their dispatch |
| delete_handler.dfy | `DeleteHandler` | `lambda/handler.py` key extraction, decision and envelopes |
| scenarios.dfy | `Scenarios` | properties spanning both surfaces |

Points where the behaviour is easy to misread, modelled as the code behaves:

- `put` refuses every falsy JSON body (`{}`, `[]`, `0`, `""`, `false`, `null`),
  not only a missing one.
- `put` does not check that the generated id is new; a write under an existing
  id replaces the record (`Api.PutOverwrites`).
- Key extraction never checks that the first path segment is `picus`.

## Model

| member | source | states |
|---|---|---|
| Json.FalsyValues | app/main.py:78 | a body is refused by `if not data` exactly when it is `null`, `false`, zero, `""`, `[]` or `{}` — any nonempty container passes, whatever it holds |
| PyStr.LStrip | lambda/handler.py:53 | leading-slash removal returns a suffix of the input that does not start with the character, and everything removed is that character |
| PyStr.RStrip | lambda/handler.py:53 | trailing-slash removal returns a prefix that does not end with the character, and everything removed is that character |
| PyStr.Strip | lambda/handler.py:53 | `strip("/")` leaves text that neither starts nor ends with a slash |
| PyStr.StripDecomposes | lambda/handler.py:53 | the input is a run of slashes, then the stripped text, then another run of slashes (all leading and trailing slashes go, not just one) |
| PyStr.StripOfPadded | lambda/handler.py:53 | conversely, padding slash-free-ended text with slash runs and stripping gives it back, so the stripped text is unique |
| PyStr.FirstIndex | lambda/handler.py:53 | the position found is the first occurrence of the separator, or the end when there is none |
| PyStr.Split | lambda/handler.py:53 | `split("/")` yields at least one piece, no piece holds a slash, and joining the pieces with slashes rebuilds the input (empty pieces kept) |
| PyStr.SplitJoin | lambda/handler.py:53 | `split` inverts `join` for separator-free pieces, so the pieces are determined by the input |
| PyStr.SplitHasSeveral | lambda/handler.py:54 | there are two or more pieces exactly when the separator occurs |
| PyStr.SplitAtFirst | lambda/handler.py:53 | the text before the first separator is the first piece; the rest splits on its own |
| PyStr.SplitSecond | lambda/handler.py:55 | in `a/k...` with slash-free `a` and `k`, the second piece is `k` |
| PyStr.StripAround | lambda/handler.py:53 | stripping keeps an inner text intact and removes only the outer slash runs |
| Store.MissingItemText | app/main.py:116 | the not-found text has a fixed frame and carries the requested key verbatim at a fixed position |
| Store.FaultText | app/main.py:58-63 | a store `ClientError` is answered with the operation's own failure text and any other exception with "Internal server error"; the same split is made by put (app/main.py:91-96), get (app/main.py:122-127) and delete (lambda/handler.py:111-135) |
| Scan.ConcatAppend | app/main.py:50-52 | concatenating page lists distributes over appending them, so extending page by page gives the whole concatenation |
| Scan.ConcatSize | app/main.py:52 | the concatenation holds exactly as many items as all pages together |
| Scan.ConcatPlaces | app/main.py:52 | order is kept: item `j` of page `i` sits right after the items of all earlier pages |
| Scan.ConcatMembers | app/main.py:52 | an item is listed exactly when some page holds it |
| Scan.DistinctAppend | app/main.py:52 | extending a duplicate-free list by a disjoint duplicate-free page keeps it duplicate-free |
| Scan.ConcatOfPartition | app/main.py:46-56 | when the pages partition the stored items, the concatenation lists every stored item exactly once and nothing else |
| Api.HealthCheck | app/main.py:26-34 | health answers 200 with a status payload |
| Api.HealthNeverFails | app/main.py:26-34 | whatever the table holds or does, health answers 200 `{"status": "healthy", "service": "picus-api"}` and changes nothing |
| Api.Drain | app/main.py:46-63 | the scan loop returns the items already collected followed by every remaining page in order, following continuation keys until a page has none; a failed scan call discards everything and gives 500 with the list failure text |
| Api.ListItems | app/main.py:45-63 | list is 200 exactly when no scan call fails, and then returns the concatenation of all pages; otherwise 500 with "Failed to retrieve items from database" (store error) or "Internal server error" |
| Api.ListFollowsThreeContinuations | app/main.py:46-56 | with three continuation rounds, the four pages come back concatenated in delivery order |
| Api.ListReturnsEachRecordOnce | app/main.py:46-56 | if the store's pages partition the table, list returns every stored record exactly once, however many pages it takes |
| Api.PutItem | app/main.py:74-96 | a falsy body gives 400 "No data provided" and no write; otherwise a successful store call gives 201 `{id}` and the table gains `{id, data}` under the id with every other key unchanged; a failed call gives 500 and leaves the table unchanged; the table stays keyed by id |
| Api.Provided | app/main.py:78 | a body counts as provided exactly when it is present and not one of the Python-falsy JSON values `null`, `false`, `0`, `""`, `[]`, `{}` |
| Api.FalsyBodyNeverWrites | app/main.py:76-79 | a falsy body is refused before the store is called: the outcome does not depend on the store at all and the table is unchanged |
| Api.PutOverwrites | app/main.py:82-85 | put does not check for an existing id: the new payload replaces the old record and the table does not grow |
| Api.PutThenGet | app/main.py:76-120 | round trip: put of a truthy body returns its id, and a get of that id returns 200 with exactly that id and body |
| Api.GetItem | app/main.py:110-127 | get answers 200 with the stored record exactly when the call succeeds and the key is stored, 404 naming the key exactly when the call succeeds and the key is absent, and 500 with the get failure text when the call fails |
| Api.NotFound | app/main.py:130-133 | the unmatched-route fallback answers 404 with an `error` payload |
| Api.UnmatchedIsNotFound | app/main.py:130-133 | any unmatched route answers 404 `{"error": "Not found"}` and changes nothing |
| Api.InternalError | app/main.py:136-140 | the uncaught-error fallback answers 500 with an `error` payload |
| Api.Serve | app/main.py:26-140 | across all routes only put changes the table, every status is one of 200, 201, 400, 404, 500, exactly the 4xx/5xx answers carry an `error` field, and the table stays keyed by id |
| DeleteHandler.SecondSegment | lambda/handler.py:53-55 | a second segment exists exactly when a slash remains after stripping the outer slashes, and it never contains a slash |
| DeleteHandler.ParamKey | lambda/handler.py:45-46 | the candidate from `pathParameters` is its `key` entry when the mapping is present and holds one, and empty (so it counts as missing) otherwise |
| DeleteHandler.ProbeField | lambda/handler.py:49-55 | reading `path` crashes exactly when it is `null`, yields a candidate exactly when it is text with a slash left after stripping, and the candidate holds no slash |
| DeleteHandler.FromRawPath | lambda/handler.py:58-62 | a key taken from `rawPath` as the last resort is nonempty and holds no slash |
| DeleteHandler.ExtractKey | lambda/handler.py:43-62 | a found key is never empty, a key not taken from `pathParameters` holds no slash, and a nonempty `pathParameters.key` is always the key |
| DeleteHandler.ExtractKeyIsFirstUsable | lambda/handler.py:43-62 | the chain of `if not key` tests equals trying `pathParameters`, `path`, `rawPath` in order and taking the first that crashes or yields a nonempty key |
| DeleteHandler.ParamKeyWins | lambda/handler.py:46-58 | a nonempty `pathParameters.key` is used whatever `path` and `rawPath` contain, even values that would crash |
| DeleteHandler.RawPathOnlyAsLastResort | lambda/handler.py:58-62 | `rawPath` has no effect once `pathParameters` or `path` has produced a key or `path` has crashed |
| DeleteHandler.EmptyCandidateFallsThrough | lambda/handler.py:50-64 | an empty candidate (empty `pathParameters.key` or empty second segment) counts as missing: the outcome is as if that source were absent |
| DeleteHandler.FallsThroughToRawPath | lambda/handler.py:50-62 | a path whose second segment is empty leaves the decision to `rawPath` |
| DeleteHandler.SecondSegmentOfKeyedPath | lambda/handler.py:53-55 | for `/{a}/{k}` optionally followed by `/...`, with any number of leading slashes, the extracted segment is `k` whatever the first segment `a` is |
| DeleteHandler.SecondSegmentOfEmpty | lambda/handler.py:53-55 | a doubled slash after the first segment gives an empty second segment |
| DeleteHandler.OneSegment | lambda/handler.py:53-54 | a single segment between slash runs (such as `/picus/`) gives no second segment |
| DeleteHandler.SecondSegmentExists | lambda/handler.py:53-54 | a second segment exists exactly when a slash remains after stripping the outer slashes |
| DeleteHandler.StatusLines | lambda/handler.py:68-115 | each status line is the decimal code followed by its reason phrase from section 15 of RFC 9110 |
| DeleteHandler.EnvelopesWellFormed | lambda/handler.py:66-135 | each hand-written envelope has a description matching its code, the JSON content type, and a `message` body exactly on success |
| DeleteHandler.ResponsesWellFormed | lambda/handler.py:41-135 | every response of the delete handler, on every path, is a well-formed envelope |
| DeleteHandler.DeleteItem | lambda/handler.py:41-122 | no key gives 400 "Missing item key in path" without reading or changing the table (whatever the store would do); a crash during extraction gives the generic 500; a failed existence check or delete gives 500 and no change; an absent key gives 404 naming it and no change; a present key is removed with every other key unchanged and 200 naming it; only a 200 changes the table; the table stays keyed by id |
| DeleteHandler.DeleteTwice | lambda/handler.py:80-109 | deleting the same key twice succeeds once and then answers 404 naming the key |
| DeleteHandler.ParamKeyBeatsPathExample | lambda/handler.py:46-47 | `pathParameters.key = "A"` with `path = "/picus/B"` extracts `A` |
| DeleteHandler.PathOnlyExample | lambda/handler.py:50-55 | `path = "/picus/B"` alone extracts `B` |
| DeleteHandler.NoSourceExample | lambda/handler.py:64-75 | an event with no key source gives the 400 envelope and leaves the table unchanged |
| DeleteHandler.TrailingSlashExample | lambda/handler.py:53-54 | `/picus/` has one segment, so there is no key |
| DeleteHandler.EmptySegmentExample | lambda/handler.py:53-55 | `/picus//x` has an empty second segment |
| DeleteHandler.SecondSegmentExample | lambda/handler.py:53-55 | `/picus/y` has second segment `y` |
| DeleteHandler.EmptySegmentFallsThroughExample | lambda/handler.py:50-62 | `/picus//x` yields no key alone, and `rawPath = "/picus/y"` then supplies `y` |
| DeleteHandler.EmptyParamAndNullPathExample | lambda/handler.py:46-62 | an empty `pathParameters.key` falls through to `rawPath`; a `null` path reached during extraction ends in the generic failure |
| Scenarios.DeleteThenGet | lambda/handler.py:80-109 | after a successful delete, the HTTP get answers 404 naming the key, and every other key reads as before |
| Scenarios.PutDeleteGetLifecycle | lambda/handler.py:80-109 | put, delete by an event naming the id, get, delete again: the first delete succeeds, then both surfaces answer 404 naming the id |
| Scenarios.SameNotFoundText | lambda/handler.py:91 | for a key that is not stored, the delete handler and the HTTP get use the same not-found text |

## Left out

- Store client construction, table name and region configuration, logging and
  `app.run`: configuration and I/O; the table is the abstract map above.
- The store's own semantics (consistency, scan order, key validation): each store
  call is replaced by its outcome, given as a parameter. A scan's pages are an
  input; `Api.ListReturnsEachRecordOnce` assumes they partition the table, which
  is what a consistent full scan provides.
- `response.get("Items", [])`: an answer without `Items` is modelled as an empty page.
- Flask routing, request parsing and method checks (including the 405 for a
  POST to `/health`): `Api.Serve` starts from an already matched route, and the
  put body is the JSON document `request.get_json()` parsed; `None` stands for a
  JSON `null` body. With an absent body, a non-JSON content type or malformed
  JSON, `request.get_json()` raises (Flask 2.1 and later); the exception is
  caught by the generic handler at app/main.py:94-96 and the answer is 500
  "Internal server error". That case is the `OtherException` fault, not derived
  from the request.
- Api.PutThenGet: the round trip holds for the abstract JSON value. The store
  hands numbers back as `Decimal`, which `jsonify` writes as strings, so a
  number put in comes back as text on the wire; that conversion is not modelled.
- `jsonify` and `json.dumps`: response bodies are abstract values, not JSON text;
  no escaping of the key inside messages is modelled.
- `uuid.uuid4()`: the new id is a parameter; its uniqueness is not claimed,
  because the code never checks it.
- JSON numbers are modelled as reals. The store client refuses Python floats in
  a payload; that exception reaches the generic handler and is covered by the
  `OtherException` fault parameter, not derived from the payload.
- The Lambda `context` argument is never used by the handler and is not modelled.
- Event shapes other than a mapping with optional `pathParameters` (a string map
  or `null`), `path` and `rawPath` (absent, `null` or text) are not modelled; a
  `null` path field is modelled because `.strip` on it raises and reaches the
  generic 500 branch.
- The race between the existence check and the delete under concurrent
  invocations: each invocation is one pure function of the table it sees.
- Api.HealthCheck: its own contract states only the status and payload kind;
  the exact payload is stated by `Api.HealthNeverFails`.
- Api.NotFound: its own contract states only the status and payload kind; the
  exact payload is stated by `Api.UnmatchedIsNotFound`.
- Api.InternalError: its contract states the status and payload kind, not the
  exact generic text.
