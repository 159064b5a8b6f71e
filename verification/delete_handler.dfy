/** The event-triggered delete: extract the item key from the event, check
    that the record exists, delete it, and answer with a fixed response
    envelope. */
module DeleteHandler {
  import opened Options
  import opened Store
  import PyStr

  /** A path-carrying field of the event: not there, JSON `null`, or text. */
  datatype PathField = Absent | Null | Text(s: string)

  /** The parts of the event the handler reads. `pathParameters` is `None`
      when the field is missing or `null`. */
  datatype Event = Event(pathParameters: Option<map<string, string>>, path: PathField, rawPath: PathField)

  /** Where key extraction ends: a usable (nonempty) key, no key at all, or
      a `null` path field whose `.strip` raised before a key was found. */
  datatype Extraction = KeyFound(key: string) | NoKey | PathNotText

  /** The key from `pathParameters`, consulted only when that mapping is
      present and nonempty; the empty string stands for "no key", because
      the handler treats `None` and `""` alike. */
  function ParamKey(e: Event): (k: string)
    ensures e.pathParameters.Some? && "key" in e.pathParameters.value ==>
      k == e.pathParameters.value["key"]
    ensures e.pathParameters.None? || "key" !in e.pathParameters.value ==> k == ""
  {
    match e.pathParameters
    case Some(m) => if |m| > 0 && "key" in m then m["key"] else ""
    case None => ""
  }

  /** `parts[1]` of `path.strip("/").split("/")`, when there are at least
      two parts. The first part is never inspected. */
  function SecondSegment(path: string): (r: Option<string>)
    ensures r.Some? <==> '/' in PyStr.Strip(path, '/')
    ensures r.Some? ==> '/' !in r.value
  {
    var parts := PyStr.Split(PyStr.Strip(path, '/'), '/');
    PyStr.SplitHasSeveral(PyStr.Strip(path, '/'), '/');
    if |parts| >= 2 then Some(parts[1]) else None
  }

  /** What one extraction step reads from a field: nothing, a crash, or a
      candidate segment (possibly empty). */
  datatype Probe = Skip | Crash | Candidate(s: string)

  function ProbeField(f: PathField): (p: Probe)
    ensures p.Crash? <==> f.Null?
    ensures p.Candidate? <==> f.Text? && '/' in PyStr.Strip(f.s, '/')
    ensures p.Candidate? ==> '/' !in p.s
  {
    match f
    case Absent => Skip
    case Null => Crash
    case Text(p) =>
      match SecondSegment(p)
      case Some(k) => Candidate(k)
      case None => Skip
  }

  /** Key extraction as the handler performs it: `pathParameters.key`,
      otherwise the second segment of `path`, otherwise that of `rawPath`.
      An empty candidate counts as missing and falls through. A key taken
      from a path never contains a slash. */
  function ExtractKey(e: Event): (r: Extraction)
    ensures r.KeyFound? ==> r.key != ""
    ensures r.KeyFound? && r.key != ParamKey(e) ==> '/' !in r.key
    ensures ParamKey(e) != "" ==> r == KeyFound(ParamKey(e))
  {
    var k := ParamKey(e);
    if k != "" then KeyFound(k)
    else
      match ProbeField(e.path)
      case Crash => PathNotText
      case Candidate(s) => if s != "" then KeyFound(s) else FromRawPath(e.rawPath)
      case Skip => FromRawPath(e.rawPath)
  }

  /** The last step: `rawPath`, consulted only when no key was found yet. */
  function FromRawPath(rawPath: PathField): (r: Extraction)
    ensures r.KeyFound? ==> r.key != "" && '/' !in r.key
  {
    match ProbeField(rawPath)
    case Crash => PathNotText
    case Candidate(s) => if s != "" then KeyFound(s) else NoKey
    case Skip => NoKey
  }

  /** Extraction as an ordered list of strategies tried in turn: the first
      strategy that crashes or yields a nonempty key decides. */
  function FirstUsable(probes: seq<Probe>): Extraction
  {
    if |probes| == 0 then NoKey
    else match probes[0]
      case Crash => PathNotText
      case Candidate(s) => if s != "" then KeyFound(s) else FirstUsable(probes[1..])
      case Skip => FirstUsable(probes[1..])
  }

  function Strategies(e: Event): seq<Probe>
  {
    [Candidate(ParamKey(e)), ProbeField(e.path), ProbeField(e.rawPath)]
  }

  /** The handler's chain of `if not key` tests is exactly "first usable
      strategy in the order pathParameters, path, rawPath". */
  lemma ExtractKeyIsFirstUsable(e: Event)
    ensures ExtractKey(e) == FirstUsable(Strategies(e))
  {
    var ps := Strategies(e);
    var raw := [ProbeField(e.rawPath)];
    assert ps[1..] == [ProbeField(e.path)] + raw;
    assert ([ProbeField(e.path)] + raw)[1..] == raw;
    assert raw[1..] == [];
    assert FirstUsable(raw) == FromRawPath(e.rawPath);
  }

  /** A nonempty `pathParameters.key` wins whatever `path` and `rawPath`
      hold, even when they would crash. */
  lemma ParamKeyWins(e: Event, path: PathField, rawPath: PathField)
    requires ParamKey(e) != ""
    ensures ExtractKey(e.(path := path, rawPath := rawPath)) == KeyFound(ParamKey(e))
  {
  }

  /** `rawPath` is consulted only when neither `pathParameters` nor `path`
      gave a key: otherwise changing it changes nothing. */
  lemma RawPathOnlyAsLastResort(e: Event, rawPath: PathField)
    requires ParamKey(e) != "" || ProbeField(e.path).Crash?
          || (ProbeField(e.path).Candidate? && ProbeField(e.path).s != "")
    ensures ExtractKey(e.(rawPath := rawPath)) == ExtractKey(e)
  {
  }

  /** An empty candidate from `pathParameters` or `path` is treated as no
      candidate at all: the outcome is as if that source were absent. */
  lemma EmptyCandidateFallsThrough(e: Event)
    requires ParamKey(e) == ""
    ensures ProbeField(e.path) == Candidate("") ==>
      ExtractKey(e) == ExtractKey(e.(path := Absent))
    ensures ExtractKey(e.(pathParameters := None)) == ExtractKey(e)
  {
  }

  /** A path whose second segment is empty leaves the decision to
      `rawPath`. */
  lemma FallsThroughToRawPath(p: string, rawPath: PathField)
    requires SecondSegment(p) == Some("")
    ensures ExtractKey(Event(None, Text(p), rawPath)) == ExtractKey(Event(None, Absent, rawPath))
  {
  }

  /** The second segment of a path of the form `/{a}/{k}...`: any run of
      leading slashes, a nonempty first segment (never compared with
      anything), then the key up to the next slash. */
  lemma SecondSegmentOfKeyedPath(lead: string, a: string, k: string, rest: string)
    requires PyStr.AllOf(lead, '/')
    requires a != [] && '/' !in a
    requires k != [] && '/' !in k
    requires rest == [] || rest[0] == '/'
    ensures SecondSegment(lead + a + "/" + k + rest) == Some(k)
  {
    var m := a + "/" + k;
    assert m[0] == a[0] && a[0] in a;
    assert m[|m| - 1] == k[|k| - 1] && k[|k| - 1] in k;
    assert lead + a + "/" + k + rest == lead + m + rest;
    PyStr.StripAround(lead, m, rest, '/');
    var r := PyStr.RStrip(rest, '/');
    assert r == [] || r[0] == '/';
    assert m + r == a + ['/'] + k + r;
    PyStr.SplitSecond(a, k, r, '/');
  }

  /** A doubled slash after the first segment gives an empty second
      segment. */
  lemma SecondSegmentOfEmpty(lead: string, a: string, rest: string)
    requires PyStr.AllOf(lead, '/')
    requires a != [] && '/' !in a
    requires rest != [] && rest[0] == '/' && rest[|rest| - 1] != '/'
    ensures SecondSegment(lead + a + "/" + "" + rest) == Some("")
  {
    var m := a + "/" + rest;
    assert m[0] == a[0] && a[0] in a;
    assert lead + a + "/" + "" + rest == lead + m + "";
    PyStr.StripOfPadded(lead, m, "", '/');
    assert m == a + ['/'] + "" + rest;
    PyStr.SplitSecond(a, "", rest, '/');
  }

  /** A single segment between runs of slashes has no second segment. */
  lemma OneSegment(lead: string, a: string, trail: string)
    requires PyStr.AllOf(lead, '/') && PyStr.AllOf(trail, '/')
    requires '/' !in a
    ensures SecondSegment(lead + a + trail) == None
  {
    assert a == [] || (a[0] != '/' && a[|a| - 1] != '/') by {
      if a != [] {
        assert a[0] in a && a[|a| - 1] in a;
      }
    }
    PyStr.StripOfPadded(lead, a, trail, '/');
    PyStr.SplitNoSeparator(a, '/');
  }

  /** A path has a second segment exactly when a slash is left inside it
      after stripping the outer slashes; so `/picus/` has none. */
  lemma SecondSegmentExists(path: string)
    ensures SecondSegment(path).Some? <==> '/' in PyStr.Strip(path, '/')
  {
    PyStr.SplitHasSeveral(PyStr.Strip(path, '/'), '/');
  }

  /** The body of a response envelope: `{"message": ...}` on success,
      `{"detail": ...}` on failure. */
  datatype Body = Message(message: string) | Detail(detail: string)

  /** The envelope the runtime turns into an HTTP response. */
  datatype Envelope = Envelope(statusCode: int, statusDescription: string,
                               headers: map<string, string>, body: Body)

  /** A record of what one invocation answers and how it leaves the table. */
  datatype Handled = Handled(response: Envelope, table: Table)

  const JsonHeaders: map<string, string> := map["Content-Type" := "application/json"]

  const DeleteFailed := "Failed to delete item from database"

  function MissingKey(): Envelope
  {
    Envelope(400, "400 Bad Request", JsonHeaders, Detail("Missing item key in path"))
  }

  function ItemNotFound(key: string): Envelope
  {
    Envelope(404, "404 Not Found", JsonHeaders, Detail(MissingItemText(key)))
  }

  function ItemDeleted(key: string): Envelope
  {
    Envelope(200, "200 OK", JsonHeaders, Message("Item '" + key + "' deleted successfully"))
  }

  function DeleteError(f: Fault): Envelope
  {
    Envelope(500, "500 Internal Server Error", JsonHeaders, Detail(FaultText(f, DeleteFailed)))
  }

  /** Reason phrases of the status codes the handler uses, as section 15 of
      RFC 9110 names them. */
  function ReasonPhrase(code: int): string
  {
    match code
    case 200 => "OK"
    case 400 => "Bad Request"
    case 404 => "Not Found"
    case 500 => "Internal Server Error"
    case _ => ""
  }

  /** A three-digit status code written out in decimal. */
  function CodeText(code: int): string
    requires 100 <= code <= 999
  {
    [Digit(code / 100), Digit(code / 10 % 10), Digit(code % 10)]
  }

  function Digit(d: int): char
    requires 0 <= d <= 9
  {
    (48 + d) as char
  }

  /** The status line text: the code followed by its reason phrase. */
  function StatusLine(code: int): string
    requires 100 <= code <= 999
  {
    CodeText(code) + " " + ReasonPhrase(code)
  }

  /** Each envelope the handler writes out by hand is well formed: its
      description matches its code, and only the success body is a
      `message`. */
  lemma EnvelopesWellFormed(key: string, f: Fault)
    ensures WellFormed(MissingKey())
    ensures WellFormed(ItemNotFound(key))
    ensures WellFormed(ItemDeleted(key))
    ensures WellFormed(DeleteError(f))
  {
    StatusLines();
  }

  /** The four status lines, spelled out. */
  lemma StatusLines()
    ensures StatusLine(200) == "200 OK"
    ensures StatusLine(400) == "400 Bad Request"
    ensures StatusLine(404) == "404 Not Found"
    ensures StatusLine(500) == "500 Internal Server Error"
  {
    assert CodeText(200) == "200";
    assert CodeText(400) == "400";
    assert CodeText(404) == "404";
    assert CodeText(500) == "500";
  }

  /** A well-formed envelope: a code the handler uses, a description that is
      the code followed by its reason phrase, the JSON content type, and a
      `message` body exactly on success. */
  predicate WellFormed(env: Envelope) {
    && env.statusCode in {200, 400, 404, 500}
    && env.statusDescription == StatusLine(env.statusCode)
    && env.headers == JsonHeaders
    && (env.body.Message? <==> env.statusCode == 200)
  }

  /** `delete_item`. `getFault` and `deleteFault` are the outcomes of the
      existence check and of the delete call. Without a key the table is
      neither read nor changed; an unknown key gives 404; an existing key is
      removed and nothing else changes; any failure gives 500 and leaves the
      table as it was. */
  function DeleteItem(e: Event, t: Table, getFault: Option<Fault>, deleteFault: Option<Fault>): (r: Handled)
    ensures ExtractKey(e).NoKey? ==> r == Handled(MissingKey(), t)
    ensures ExtractKey(e).PathNotText? ==> r == Handled(DeleteError(OtherException), t)
    ensures ExtractKey(e).KeyFound? && getFault.Some? ==>
      r == Handled(DeleteError(getFault.value), t)
    ensures ExtractKey(e).KeyFound? && getFault.None? && ExtractKey(e).key !in t ==>
      r == Handled(ItemNotFound(ExtractKey(e).key), t)
    ensures ExtractKey(e).KeyFound? && getFault.None? && ExtractKey(e).key in t && deleteFault.Some? ==>
      r == Handled(DeleteError(deleteFault.value), t)
    ensures ExtractKey(e).KeyFound? && getFault.None? && ExtractKey(e).key in t && deleteFault.None? ==>
      && r.response == ItemDeleted(ExtractKey(e).key)
      && ExtractKey(e).key !in r.table
      && (forall j :: j != ExtractKey(e).key ==> (j in r.table <==> j in t))
      && (forall j :: j in r.table ==> r.table[j] == t[j])
    ensures r.table != t ==> r.response.statusCode == 200
    ensures Keyed(t) ==> Keyed(r.table)
  {
    match ExtractKey(e)
    case PathNotText => Handled(DeleteError(OtherException), t)
    case NoKey => Handled(MissingKey(), t)
    case KeyFound(key) =>
      if getFault.Some? then Handled(DeleteError(getFault.value), t)
      else if key !in t then Handled(ItemNotFound(key), t)
      else if deleteFault.Some? then Handled(DeleteError(deleteFault.value), t)
      else Handled(ItemDeleted(key), t - {key})
  }

  /** Every response of the handler is a well-formed envelope. */
  lemma ResponsesWellFormed(e: Event, t: Table, getFault: Option<Fault>, deleteFault: Option<Fault>)
    ensures WellFormed(DeleteItem(e, t, getFault, deleteFault).response)
  {
    var key := if ExtractKey(e).KeyFound? then ExtractKey(e).key else "";
    var f := if getFault.Some? then getFault.value else if deleteFault.Some? then deleteFault.value else OtherException;
    EnvelopesWellFormed(key, f);
  }

  /** Deleting the same key twice: the first call succeeds, the second finds
      nothing and answers 404 naming the key. */
  lemma DeleteTwice(e: Event, t: Table)
    requires ExtractKey(e).KeyFound? && ExtractKey(e).key in t
    ensures DeleteItem(e, t, None, None).response.statusCode == 200
    ensures DeleteItem(e, DeleteItem(e, t, None, None).table, None, None).response
      == ItemNotFound(ExtractKey(e).key)
  {
  }

  /** `pathParameters.key` beats `path`. */
  lemma ParamKeyBeatsPathExample()
    ensures ExtractKey(Event(Some(map["key" := "A"]), Text("/picus/B"), Absent)) == KeyFound("A")
  {
  }

  /** `path` alone gives its second segment. */
  lemma PathOnlyExample()
    ensures ExtractKey(Event(None, Text("/picus/B"), Absent)) == KeyFound("B")
  {
    assert "/picus/B" == "/" + "picus" + "/" + "B" + "";
    SecondSegmentOfKeyedPath("/", "picus", "B", "");
  }

  /** With no source of a key the answer is 400, whatever the table holds. */
  lemma NoSourceExample(t: Table)
    ensures ExtractKey(Event(None, Absent, Absent)) == NoKey
    ensures DeleteItem(Event(None, Absent, Absent), t, None, None) == Handled(MissingKey(), t)
  {
  }

  /** `/picus/` has only one segment, so there is no key. */
  lemma TrailingSlashExample()
    ensures ExtractKey(Event(None, Text("/picus/"), Absent)) == NoKey
  {
    assert "/picus/" == "/" + "picus" + "/";
    OneSegment("/", "picus", "/");
  }

  /** `/picus//x` has an empty second segment. */
  lemma EmptySegmentExample()
    ensures SecondSegment("/picus//x") == Some("")
  {
    assert "/picus//x" == "/" + "picus" + "/" + "" + "/x";
    SecondSegmentOfEmpty("/", "picus", "/x");
  }

  /** The empty segment counts as missing and hands over to `rawPath`;
      without one there is no key. */
  lemma EmptySegmentFallsThroughExample()
    ensures ExtractKey(Event(None, Text("/picus//x"), Absent)) == NoKey
    ensures ExtractKey(Event(None, Text("/picus//x"), Text("/picus/y"))) == KeyFound("y")
  {
    EmptySegmentExample();
    SecondSegmentExample();
    FallsThroughToRawPath("/picus//x", Absent);
    FallsThroughToRawPath("/picus//x", Text("/picus/y"));
  }

  lemma SecondSegmentExample()
    ensures SecondSegment("/picus/y") == Some("y")
  {
    assert "/picus/y" == "/" + "picus" + "/" + "y" + "";
    SecondSegmentOfKeyedPath("/", "picus", "y", "");
  }

  /** An empty `pathParameters.key` falls through as well; a `null` path
      reached during extraction raises and ends in the generic 500. */
  lemma EmptyParamAndNullPathExample()
    ensures ExtractKey(Event(Some(map["key" := ""]), Absent, Text("/picus/y"))) == KeyFound("y")
    ensures ExtractKey(Event(Some(map[]), Null, Text("/picus/y"))) == PathNotText
  {
    SecondSegmentExample();
  }
}
