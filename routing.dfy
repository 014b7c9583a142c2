/**
 * The routing-oracle client of `IsochroneService`: the service configuration,
 * the isochrone request sent to OpenTripPlanner, the classification of its
 * response and the neighbourhood fallback used when the origin has no route.
 */
module Routing {
  import opened Results
  import opened Geo

  /** The settings an `IsochroneService` is constructed with. */
  datatype Config = Config(
    times: map<string, string>,
    refDate: string,
    walkReluctance: int,
    maxWalkDistance: int,
    minTransferTime: int,
    mode: string,
    h3Resolution: nat,
    otpPort: int)

  /** The time-of-day profiles used when the constructor is given none. */
  const DefaultTimes: map<string, string> :=
    map["morning" := "08:00am", "afternoon" := "2:00pm", "evening" := "8:00pm"]

  /** The resolution the fallback neighbourhood is always built at, whatever the configured one. */
  const FallbackResolution: nat := 9

  /** The exact body of the oracle's HTTP 500 answer when the origin is not on the routing graph. */
  const NoRouteMessage: string :=
    "org.opentripplanner.routing.error.VertexNotFoundException: vertices not found: [from] vertices not found: [from]"

  /** The ways resolving an isochrone can fail; each is an exception in the source. */
  datatype IsoError =
    | InvalidTime          // time label not a configured profile
    | NoConnection         // service built without a database connection
    | UnknownCity          // the cache lookup returned no row at all
    | OracleFailure(status: int, body: string)  // neither a 200 nor the no-route 500
    | UnreadableResponse   // a 200 whose body holds no first feature
    | EmptyFallback        // the neighbourhood produced no polygon

  /** The router URL `http://localhost:{port}/otp/routers/{city}/isochrone`. */
  datatype Endpoint = Endpoint(port: int, router: string)

  /** The query parameters of the isochrone request. */
  datatype Request = Request(
    fromPlace: Coord,
    mode: string,
    date: string,
    time: string,
    maxWalkDistance: int,
    walkReluctance: int,
    minTransferTime: int,
    cutoffSec: int)

  datatype Response = Response(status: int, text: string)

  /** How the service reads an oracle response. */
  datatype ResponseKind = Reachable | NoRoute | Failed

  /** The geopandas step: the geometry of the first feature of a GeoJSON body, if it has one. */
  type FeatureReader = string -> Option<MultiPolygon>

  /** The network call to the routing oracle. */
  type Oracle = (Endpoint, Request) -> Response

  /**
   * The request for an isochrone of `minutes` from `origin` at the `time`
   * profile: rejected unless `time` is a configured profile; otherwise it
   * departs at that profile's clock time and is cut off after `minutes * 60`
   * seconds, every other parameter coming from the configuration.
   */
  function BuildRequest(config: Config, origin: Coord, time: string, minutes: int): (r: Result<Request, IsoError>)
    ensures r.Ok? <==> time in config.times
    ensures r.Err? ==> r.error == InvalidTime
    ensures r.Ok? ==> r.value.time == config.times[time] && r.value.cutoffSec == minutes * 60
    ensures r.Ok? ==> r.value.fromPlace == origin && r.value.mode == config.mode && r.value.date == config.refDate
    ensures r.Ok? ==> r.value.maxWalkDistance == config.maxWalkDistance
                      && r.value.walkReluctance == config.walkReluctance
                      && r.value.minTransferTime == config.minTransferTime
  {
    if time !in config.times then Err(InvalidTime)
    else Ok(Request(origin, config.mode, config.refDate, config.times[time],
                    config.maxWalkDistance, config.walkReluctance, config.minTransferTime, minutes * 60))
  }

  /** A 200 is a reachable area; a 500 is "no route" only when its body is exactly `NoRouteMessage`. */
  function Classify(resp: Response): (kind: ResponseKind)
    ensures kind == Reachable <==> resp.status == 200
    ensures kind == NoRoute <==> resp.status == 500 && resp.text == NoRouteMessage
    ensures kind == Failed <==> resp.status != 200 && (resp.status != 500 || resp.text != NoRouteMessage)
  {
    if resp.status == 200 then Reachable
    else if resp.status == 500 && resp.text == NoRouteMessage then NoRoute
    else Failed
  }

  /**
   * The stand-in isochrone when no route leaves the origin: the outline of
   * the origin cell and its ring-1 neighbours at resolution 9, kept as a
   * multi-polygon with one part that has only the exterior ring of the
   * first component.
   */
  function Fallback(index: CellIndex, origin: Coord): (r: Result<MultiPolygon, IsoError>)
    ensures var parts := index.cellsToPolygons(index.kRing(index.geoToCell(origin, FallbackResolution), 1));
            && (r.Ok? <==> |parts| > 0 && |parts[0]| > 0)
            && (r.Ok? ==> r.value == [Polygon([parts[0][0]])])
            && (r.Err? ==> r.error == EmptyFallback)
  {
    var cell := index.geoToCell(origin, FallbackResolution);
    var parts := index.cellsToPolygons(index.kRing(cell, 1));
    if |parts| == 0 || |parts[0]| == 0 then Err(EmptyFallback)
    else Ok([Polygon([parts[0][0]])])
  }

  /**
   * `compute_isochrone`: validates the profile, asks the oracle and reads
   * its answer. The isochrone is the first feature of a 200 answer, the
   * fallback neighbourhood for the no-route 500, and there is none for any
   * other answer.
   */
  function ComputeIsochrone(config: Config, index: CellIndex, read: FeatureReader, oracle: Oracle,
                            origin: Coord, city: string := "atlanta", time: string := "morning", minutes: int := 30)
    : (r: Result<MultiPolygon, IsoError>)
    ensures time !in config.times ==> r == Err(InvalidTime)
    ensures time in config.times ==>
      var resp := oracle(Endpoint(config.otpPort, city), BuildRequest(config, origin, time, minutes).value);
      && (resp.status == 200 ==> r == (if read(resp.text).Some? then Ok(read(resp.text).value) else Err(UnreadableResponse)))
      && (resp.status == 500 && resp.text == NoRouteMessage ==> r == Fallback(index, origin))
      && (Classify(resp) == Failed ==> r == Err(OracleFailure(resp.status, resp.text)))
  {
    match BuildRequest(config, origin, time, minutes)
    case Err(e) => Err(e)
    case Ok(request) =>
      var resp := oracle(Endpoint(config.otpPort, city), request);
      match Classify(resp)
      case Reachable =>
        (match read(resp.text)
         case Some(shape) => Ok(shape)
         case None => Err(UnreadableResponse))
      case NoRoute => Fallback(index, origin)
      case Failed => Err(OracleFailure(resp.status, resp.text))
  }
}
