/**
 * Records the public node keeps in its database and the decision whether a
 * dataset is served from the local file store or from the archive node that
 * holds it, together with the remote request and the relay of its reply.
 */
module Federation {
  import opened Wrappers
  import opened LocationIds

  datatype Server = Server(domain: Option<string>)

  /** A dataset definition; `internal` and `server` are nullable columns. */
  datatype Definition = Definition(name: string, internal: Option<bool>, server: Option<Server>)

  /** A registered dataset (one uploaded file). */
  datatype Dataset = Dataset(
    id: string, definitionId: string, startDate: string, endDate: string,
    resolution: Option<string>, k: int, dataPoints: int)

  /** Where a request about a definition's data goes. */
  datatype Route =
    | Local               // the internal flag is null or false
    | NoServer            // internal, but no server row: dereferencing it throws
    | NoDomain            // internal, server without a domain
    | Remote(domain: string)

  /** The corrected routing: a null flag is served locally, as the null check in the guard intends. */
  function RouteFor(d: Definition): (r: Route)
    ensures r == Local <==> d.internal != Some(true)
    ensures r.Remote? <==> d.internal == Some(true) && d.server.Some? && d.server.value.domain.Some?
    ensures r.Remote? ==> r.domain == d.server.value.domain.value
  {
    if d.internal != Some(true) then Local
    else if d.server.None? then NoServer
    else match d.server.value.domain
      case None => NoDomain
      case Some(domain) => Remote(domain)
  }

  /**
   * The download endpoint as written: before reading the local file it logs
   * the internal flag through toString, which throws when the flag is null.
   * None stands for that exception.
   */
  function DownloadRouteAsWritten(d: Definition): (r: Option<Route>)
    ensures r.None? <==> d.internal.None?
  {
    if d.internal.None? then None else Some(RouteFor(d))
  }

  const DetectionPath: string := "/internal/mobility/visitorDetection"
  const DownloadPath: string := "/internal/mobility/download"

  /** The archive node's visitor-detection request: endpoint and query parameters. */
  datatype DetectionRequest = DetectionRequest(url: string, definitionId: string, datasetId: string, locationIds: string)

  function DetectionRequestFor(domain: string, definitionId: string, datasetId: string, query: seq<int>): (q: DetectionRequest)
    ensures |q.url| == |domain| + |DetectionPath| && q.url[..|domain|] == domain && q.url[|domain|..] == DetectionPath
  {
    DetectionRequest(domain + DetectionPath, definitionId, datasetId, ArraysToString(query))
  }

  /** The archive node's download request. */
  datatype DownloadRequest = DownloadRequest(url: string, definitionId: string, datasetId: string)

  function DownloadRequestFor(domain: string, definitionId: string, datasetId: string): (q: DownloadRequest)
    ensures |q.url| == |domain| + |DownloadPath| && q.url[..|domain|] == domain && q.url[|domain|..] == DownloadPath
  {
    DownloadRequest(domain + DownloadPath, definitionId, datasetId)
  }

  // ---------------------------------------------------------------------------
  // The archive's reply

  /** The JSON values an archive reply can hold. */
  datatype Json = JInt(n: int) | JObject(fields: map<string, Json>)

  /** JsonNode.asInt(): a number node's value; any other node reads as the default 0. */
  function AsInt(node: Json): (r: int)
    ensures node.JObject? ==> r == 0
  {
    match node
    case JInt(n) => n
    case JObject(_) => 0
  }

  /** What the remote call produced: a body, an empty body, or an exception (non-2xx status, I/O). */
  datatype Reply = Body(json: Json) | EmptyBody | Failed

  /** The reply the archive's visitor-detection endpoint sends: {"count": n}, or a failure status. */
  function ArchiveReply(count: Option<int>): (r: Reply)
    ensures count.Some? <==> r.Body?
  {
    match count
    case Some(n) => Body(JObject(map["count" := JInt(n)]))
    case None => Failed
  }

  /** The relay as written: asInt() on the whole reply object. */
  function RelayCountAsWritten(reply: Reply): (r: Option<int>)
    ensures r.Some? <==> reply.Body?
  {
    match reply
    case Body(node) => Some(AsInt(node))
    case _ => None
  }

  /** The corrected relay: the "count" field of the reply object; anything else is a server error. */
  function RelayCount(reply: Reply): (r: Option<int>)
    ensures r.Some? <==> (reply.Body? && reply.json.JObject? && "count" in reply.json.fields &&
                          reply.json.fields["count"].JInt?)
    ensures r.Some? ==> r.value == reply.json.fields["count"].n
  {
    match reply
    case Body(JObject(fields)) =>
      if "count" in fields && fields["count"].JInt? then Some(fields["count"].n) else None
    case _ => None
  }

  // ---------------------------------------------------------------------------
  // Properties

  /** The relay as written turns every count the archive reports into 0. */
  lemma RelayAsWrittenLosesCount(n: int)
    ensures RelayCountAsWritten(ArchiveReply(Some(n))) == Some(0)
    ensures RelayCount(ArchiveReply(Some(n))) == Some(n)
  {
  }

  /** The corrected relay passes on exactly what the archive counted, and a failure as a failure. */
  lemma RelayRoundTrip(count: Option<int>)
    ensures RelayCount(ArchiveReply(count)) == count
  {
  }

  /** As written, a null internal flag makes a download fail, where the corrected routing serves the local file. */
  lemma NullFlagDownload(d: Definition)
    requires d.internal.None?
    ensures DownloadRouteAsWritten(d) == None
    ensures RouteFor(d) == Local
  {
  }

  /** Apart from a null flag, the download as written routes like the corrected routing. */
  lemma DownloadRouteAgrees(d: Definition)
    requires d.internal.Some?
    ensures DownloadRouteAsWritten(d) == Some(RouteFor(d))
  {
  }
}
