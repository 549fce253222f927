/** The HTTP layer: validation of the query request, the default result
    count, the shaping of results into the response, and the health check.
    The body arrives decoded (`JNull` when there is no JSON body); the index
    directory's state and the retrieval are given. */
module Api {
  import opened Values
  import opened PyStr
  import opened Vectorizer

  const MissingQueryMessage: string := "Missing required parameter: query"
  const DefaultNumResults: int := 5

  /** The Python exceptions the endpoint catches and answers with status 500. */
  datatype Raised = TypeError | ValueError

  // ===========================================================================
  // Validation

  /** The outcome of `if not data or 'query' not in data` and of `data['query']`. */
  datatype BodyCheck = Rejected | Accepted(fields: map<string, Json>) | CheckRaised(e: Raised)

  /** Python's `in` and indexing on whatever JSON value the body holds: on a
      list, `'query' in data` compares elements; on a string it looks for a
      substring; in either case `data['query']` then raises `TypeError`; on a
      number or `true`, `in` itself raises `TypeError`. */
  function CheckBody(data: Json): BodyCheck
  {
    if !Truthy(data) then Rejected
    else
      match data
      case JObject(fields) => if "query" in fields then Accepted(fields) else Rejected
      case JArray(items) => if JStr("query") in items then CheckRaised(TypeError) else Rejected
      case JStr(s) => if Occurs(s, "query") then CheckRaised(TypeError) else Rejected
      case _ => CheckRaised(TypeError)
  }

  /** The bodies the endpoint answers with 400: no body or an empty one, or a
      body in which Python's `in` finds no `query`. */
  predicate MissingQuery(data: Json)
  {
    || data == JNull
    || data == JBool(false)
    || data == JInt(0)
    || data == JFloat(0.0)
    || (data.JObject? && "query" !in data.fields)
    || (data.JArray? && JStr("query") !in data.items)
    || (data.JStr? && !Occurs(data.s, "query"))
  }

  // ===========================================================================
  // The requested count

  /** `int(x)` of a float: truncation toward zero. */
  function TruncateReal(f: real): (n: int)
    ensures 0.0 <= f ==> n as real <= f < n as real + 1.0
    ensures f < 0.0 ==> n as real - 1.0 < f <= n as real
  {
    if f >= 0.0 then f.Floor else -((-f).Floor)
  }

  datatype IntResult = IntValue(n: int) | IntRaised(e: Raised)

  /** `int(x)` of a decoded JSON value. */
  function PyInt(v: Json): IntResult
  {
    match v
    case JInt(i) => IntValue(i)
    case JBool(b) => IntValue(if b then 1 else 0)
    case JFloat(f) => IntValue(TruncateReal(f))
    case JStr(s) =>
      (match ParseInt(s)
       case Some(i) => IntValue(i)
       case None => IntRaised(ValueError))
    case _ => IntRaised(TypeError)
  }

  /** `int(data.get('num_results', 5))` */
  function RequestedCount(fields: map<string, Json>): IntResult
  {
    PyInt(Get(fields, "num_results", JInt(DefaultNumResults)))
  }

  /** Absent, the count is five; given as a number, or as the digits `str()`
      prints for a number, it is that number. */
  lemma RequestedCountAccepted(fields: map<string, Json>, n: int)
    ensures "num_results" !in fields ==> RequestedCount(fields) == IntValue(5)
    ensures "num_results" in fields && fields["num_results"] == JInt(n) ==> RequestedCount(fields) == IntValue(n)
    ensures "num_results" in fields && fields["num_results"] == JStr(IntToString(n)) && Printable(n) ==>
              RequestedCount(fields) == IntValue(n)
  {
    if Printable(n) {
      PyIntOfPrinted(n);
    }
  }

  lemma PyIntOfPrinted(n: int)
    requires Printable(n)
    ensures PyInt(JStr(IntToString(n))) == IntValue(n)
  {
    var s := IntToString(n);
    ParseIntOfIntToString(n);
    assert ParseInt(s) == Some(n);
  }

  /** A count string raises `ValueError` exactly when `int()` rejects it, and
      `null`, a list or an object raises `TypeError`; a number or a boolean is
      always accepted. The string "five" is one that is rejected. */
  lemma RequestedCountRaises(fields: map<string, Json>)
    ensures "num_results" in fields && fields["num_results"].JStr? ==>
              (RequestedCount(fields) == IntRaised(ValueError) <==> ParseInt(fields["num_results"].s).None?)
    ensures "num_results" in fields && fields["num_results"].JStr? ==>
              (RequestedCount(fields).IntValue? <==> ParseInt(fields["num_results"].s).Some?)
    ensures "num_results" in fields && (fields["num_results"].JNull? || fields["num_results"].JArray? || fields["num_results"].JObject?) ==>
              RequestedCount(fields) == IntRaised(TypeError)
    ensures "num_results" in fields && (fields["num_results"].JInt? || fields["num_results"].JBool? || fields["num_results"].JFloat?) ==>
              RequestedCount(fields).IntValue?
    ensures "num_results" in fields && fields["num_results"] == JStr("five") ==>
              RequestedCount(fields) == IntRaised(ValueError)
  {
    if "num_results" in fields && fields["num_results"] == JStr("five") {
      FiveRejected();
    }
  }

  lemma FiveRejected()
    ensures ParseInt("five").None?
  {
    var five := "five";
    assert TrimStart(five) == five by {
      assert !IsSpace(five[0]);
    }
    assert TrimEnd(five) == five by {
      assert !IsSpace(five[|five| - 1]);
    }
    assert !IsDigit(five[0]);
  }

  // ===========================================================================
  // Querying and formatting

  /** `VectorDBAPI.query_vector_db`: the results, or `[]` when the query raises. */
  method QueryVectorDb(queryText: Json, numResults: int, retrieve: (Json, int) -> Retrieval)
    returns (results: seq<ResultDict>)
    ensures results == VectorDbResults(retrieve(queryText, numResults))
  {
    var output := QueryIndex(queryText, numResults, retrieve);
    if output.Err? {
      return [];
    }
    return output.value;
  }

  /** What `query_vector_db` returns for a retrieval. */
  function VectorDbResults(r: Retrieval): seq<ResultDict>
  {
    match r
    case Retrieved(rs) => ExtractAll(rs)
    case RetrievalRaised(_) => []
  }

  /** A failed query cannot be told apart from one that found nothing. */
  lemma FailureLooksEmpty(error: string)
    ensures VectorDbResults(RetrievalRaised(error)) == VectorDbResults(Retrieved([]))
  {
  }

  /** One entry of the response's `results`. */
  datatype FormattedResult = FormattedResult(score: Score, content: string, source: Json, metadata: Metadata)

  /** The entry for one result: score, content and metadata as they are, and
      `source` from the metadata, or "Unknown" when it has none. */
  function FormatResult(d: ResultDict): (f: FormattedResult)
    ensures f.score == d.score && f.content == d.content && f.metadata == d.metadata
    ensures "source" in d.metadata ==> f.source == d.metadata["source"]
    ensures "source" !in d.metadata ==> f.source == JStr("Unknown")
  {
    FormattedResult(d.score, d.content, Get(d.metadata, "source", JStr("Unknown")), d.metadata)
  }

  function FormatAll(results: seq<ResultDict>): (fs: seq<FormattedResult>)
    ensures |fs| == |results|
  {
    seq(|results|, i requires 0 <= i < |results| => FormatResult(results[i]))
  }

  /** The loop building `formatted_results`: one entry per result, in order. */
  method FormatResults(results: seq<ResultDict>) returns (formatted: seq<FormattedResult>)
    ensures formatted == FormatAll(results)
  {
    formatted := [];
    for i := 0 to |results|
      invariant formatted == FormatAll(results[..i])
    {
      var result := results[i];
      formatted := formatted + [FormattedResult(result.score, result.content,
                                                Get(result.metadata, "source", JStr("Unknown")),
                                                result.metadata)];
    }
    assert results[..|results|] == results;
  }

  // ===========================================================================
  // The query endpoint

  datatype Response =
    | Ok200(query: Json, numResults: int, results: seq<FormattedResult>)
    | BadRequest400(error: string)
    | ServerError500(raised: Raised)

  /** The response `query_endpoint` gives to a body. */
  function EndpointResponse(data: Json, retrieve: (Json, int) -> Retrieval): Response
  {
    match CheckBody(data)
    case Rejected => BadRequest400(MissingQueryMessage)
    case CheckRaised(e) => ServerError500(e)
    case Accepted(fields) =>
      match RequestedCount(fields)
      case IntRaised(e) => ServerError500(e)
      case IntValue(n) =>
        var formatted := FormatAll(VectorDbResults(retrieve(fields["query"], n)));
        Ok200(fields["query"], |formatted|, formatted)
  }

  /** `query_endpoint` (POST /api/query). */
  method QueryEndpoint(data: Json, retrieve: (Json, int) -> Retrieval) returns (resp: Response)
    ensures resp == EndpointResponse(data, retrieve)
  {
    var check := CheckBody(data);
    if check.Rejected? {
      return BadRequest400(MissingQueryMessage);
    } else if check.CheckRaised? {
      return ServerError500(check.e);
    }
    var queryText := check.fields["query"];
    var count := RequestedCount(check.fields);
    if count.IntRaised? {
      return ServerError500(count.e);
    }
    var results := QueryVectorDb(queryText, count.n, retrieve);
    var formatted := FormatResults(results);
    return Ok200(queryText, |formatted|, formatted);
  }

  /** Status 400, with its fixed message, exactly for a missing or empty body
      and for a body without `query`. */
  lemma BadRequestIffMissingQuery(data: Json, retrieve: (Json, int) -> Retrieval)
    ensures EndpointResponse(data, retrieve).BadRequest400? <==> MissingQuery(data)
    ensures EndpointResponse(data, retrieve).BadRequest400? ==>
              EndpointResponse(data, retrieve).error == MissingQueryMessage
  {
  }

  /** Status 200 exactly for an object with `query` whose count `int()`
      accepts; the response echoes the query, reports the number of results
      actually returned, and lists them formatted in the order retrieved. */
  lemma SuccessfulResponse(data: Json, retrieve: (Json, int) -> Retrieval)
    ensures EndpointResponse(data, retrieve).Ok200? <==>
              data.JObject? && "query" in data.fields && RequestedCount(data.fields).IntValue?
    ensures EndpointResponse(data, retrieve).Ok200? ==>
              var resp := EndpointResponse(data, retrieve);
              var rs := VectorDbResults(retrieve(data.fields["query"], RequestedCount(data.fields).n));
              && resp.query == data.fields["query"]
              && resp.numResults == |resp.results| == |rs|
              && forall i :: 0 <= i < |rs| ==> resp.results[i] == FormatResult(rs[i])
  {
    if data.JObject? && "query" in data.fields {
      assert Truthy(data) by {
        assert data.fields != map[];
      }
    }
  }

  /** Without `num_results` five results are asked for. */
  lemma DefaultCountRequested(q: Json, retrieve: (Json, int) -> Retrieval)
    ensures EndpointResponse(JObject(map["query" := q]), retrieve)
         == Ok200(q, |VectorDbResults(retrieve(q, 5))|, FormatAll(VectorDbResults(retrieve(q, 5))))
  {
    var data := JObject(map["query" := q]);
    assert Truthy(data) by {
      assert "query" in data.fields;
    }
    assert CheckBody(data) == Accepted(map["query" := q]);
  }

  /** A query that raises is answered like one that found nothing: 200 with
      no results. */
  lemma FailedQueryAnsweredEmpty(q: Json, n: int, error: string, retrieve: (Json, int) -> Retrieval)
    requires retrieve(q, n) == RetrievalRaised(error)
    ensures EndpointResponse(JObject(map["query" := q, "num_results" := JInt(n)]), retrieve) == Ok200(q, 0, [])
  {
    var fields := map["query" := q, "num_results" := JInt(n)];
    assert Truthy(JObject(fields)) by {
      assert "query" in fields;
    }
    assert RequestedCount(fields) == IntValue(n);
  }

  // ===========================================================================
  // The health check

  /** The index directory: missing, listed, or present but not listable
      (not a directory, no permission). */
  datatype IndexDir = Missing | Listed(entries: seq<string>) | ListingRaised(error: string)

  datatype Health = Healthy(indexAvailable: bool) | Unhealthy500(error: string)

  /** `health_check` (GET /api/health). */
  function HealthCheck(dir: IndexDir): (h: Health)
    ensures h.Unhealthy500? <==> dir.ListingRaised?
    ensures h.Healthy? ==> (h.indexAvailable <==> dir.Listed? && dir.entries != [])
  {
    match dir
    case Missing => Healthy(false)
    case Listed(entries) => Healthy(entries != [])
    case ListingRaised(error) => Unhealthy500(error)
  }
}
