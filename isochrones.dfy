/**
 * `IsochroneService.get_isochrone`: the cache in front of the routing
 * oracle. A lookup hit returns the stored catchment untouched; a miss
 * computes the isochrone, stores it under a fresh id with its member cells,
 * and rolls up its statistics.
 */
module Isochrones {
  import opened Results
  import opened Geo
  import opened Stats
  import opened Routing
  import opened Store

  /** What `get_isochrone` returns: the geometry, the origin cell it was asked for, and the catchment id. */
  datatype Isochrone = Isochrone(geometry: MultiPolygon, originH3: Cell, catchmentId: CatchmentId)

  function LowerChar(c: char): char {
    if 'A' <= c <= 'Z' then (c as int + 32) as char else c
  }

  /** `str.lower()` on ASCII letters: the router name is the city's name in lower case. */
  function Lower(s: string): (r: string)
    ensures |r| == |s|
    ensures forall i :: 0 <= i < |s| ==> r[i] == LowerChar(s[i])
  {
    if s == [] then [] else [LowerChar(s[0])] + Lower(s[1..])
  }

  class IsochroneService {
    const config: Config
    /** The database connection; a service built without one can only compute isochrones. */
    const conn: Database?
    const index: CellIndex
    const read: FeatureReader

    /** `__init__`: an absent time map means the three default profiles. */
    constructor (index: CellIndex, read: FeatureReader,
                 times: Option<map<string, string>> := None,
                 referenceDate: string := "02-24-2022",
                 walkReluctance: int := 5,
                 maxWalkDistance: int := 1500,
                 minTransferTime: int := 120,
                 mode: string := "WALK,TRANSIT",
                 h3Resolution: nat := 9,
                 otpPort: int := 8801,
                 conn: Database? := null)
      ensures times.None? ==> config.times == DefaultTimes
      ensures times.Some? ==> config.times == times.value
      ensures config.refDate == referenceDate && config.walkReluctance == walkReluctance
      ensures config.maxWalkDistance == maxWalkDistance && config.minTransferTime == minTransferTime
      ensures config.mode == mode && config.h3Resolution == h3Resolution && config.otpPort == otpPort
      ensures this.conn == conn && this.index == index && this.read == read
    {
      var profiles := if times.None? then DefaultTimes else times.value;
      config := Config(profiles, referenceDate, walkReluctance, maxWalkDistance, minTransferTime,
                       mode, h3Resolution, otpPort);
      this.conn := conn;
      this.index := index;
      this.read := read;
    }

    /** The isochrone a cache miss stores for `h3Id` in city `cityId`. */
    function Computed(oracle: Oracle, cityId: int, h3Id: Cell, time: string, minutes: int): Result<MultiPolygon, IsoError>
      reads conn
      requires conn != null && cityId in conn.cityNames
    {
      ComputeIsochrone(config, index, read, oracle, index.cellToGeo(h3Id), Lower(conn.cityNames[cityId]), time, minutes)
    }

    /**
     * The write half of a cache miss: inserts the catchment row, one
     * membership row per covered cell, and the statistics, in that order.
     */
    method StoreCatchment(shape: MultiPolygon, h3Id: Cell, time: string, minutes: int) returns (id: CatchmentId)
      requires conn != null && conn.Valid()
      requires conn.Find(CacheKey(h3Id, time, minutes)).None?
      modifies conn
      ensures conn.Valid()
      ensures id == old(conn.nextId) && conn.nextId == id + 1
      ensures conn.catchments == old(conn.catchments)[id := Catchment(time, minutes, shape, h3Id)]
      ensures conn.MembersOf(id) == CoveredCells(index, shape, config.h3Resolution)
      ensures |conn.catchmentH3Map| == |old(conn.catchmentH3Map)| + |CoveredCells(index, shape, config.h3Resolution)|
      ensures conn.catchmentH3Map[..|old(conn.catchmentH3Map)|] == old(conn.catchmentH3Map)
      ensures forall i :: |old(conn.catchmentH3Map)| <= i < |conn.catchmentH3Map| ==> conn.catchmentH3Map[i].catchmentId == id
      ensures conn.catchmentStats
              == old(conn.catchmentStats) + StatRows(id, conn.demographics, CoveredCells(index, shape, config.h3Resolution))
      ensures conn.step1Stats
              == old(conn.step1Stats) + Step1Rows(id, time, conn.demographics, CoveredCells(index, shape, config.h3Resolution))
      ensures conn.Find(CacheKey(h3Id, time, minutes)) == Some(id)
      ensures old(conn.Consistent(index, config.h3Resolution)) ==> conn.Consistent(index, config.h3Resolution)
    {
      var key := CacheKey(h3Id, time, minutes);
      ghost var before := conn.catchmentH3Map;
      var c := Catchment(time, minutes, shape, h3Id);
      id := conn.InsertCatchment(c);
      var cells := CoveredCells(index, shape, config.h3Resolution);
      conn.InsertMembership(id, cells);
      ghost var added := conn.catchmentH3Map[|before|..];
      assert conn.catchmentH3Map == before + added;
      MembersConcat(before, added, id);
      assert StatsFor(conn.catchmentStats, id) == {} by {
        assert forall r :: r in old(conn.catchmentStats) ==> r.catchmentId < id;
      }
      assert Step1For(conn.step1Stats, id) == {} by {
        assert forall r :: r in old(conn.step1Stats) ==> r.catchmentId < id;
      }
      conn.UpdateStats(id);
      assert conn.Find(key).Some? by {
        assert id in conn.catchments && CacheKeyOf(conn.catchments[id]) == key;
      }
      if old(conn.Consistent(index, config.h3Resolution)) {
        NewCatchmentConsistent(index, config.h3Resolution, conn.demographics, old(conn.catchments), before,
                               old(conn.catchmentStats), old(conn.step1Stats), id, c, added);
      }
    }

    /**
     * `get_isochrone`. The time label is checked first, then the
     * connection. A hit changes nothing; a miss that resolves adds one
     * catchment, its covered cells and its statistics, and nothing else; a
     * miss whose isochrone fails changes nothing.
     */
    method GetIsochrone(oracle: Oracle, cityId: int, h3Id: Cell, time: string := "morning", minutes: int := 30)
      returns (r: Result<Isochrone, IsoError>)
      requires conn != null ==> conn.Valid()
      modifies conn
      ensures conn != null ==> conn.Valid()
      ensures time !in config.times ==> r == Err(InvalidTime) && (conn != null ==> unchanged(conn))
      ensures time in config.times && conn == null ==> r == Err(NoConnection)
      ensures time in config.times && conn != null && cityId !in conn.cityNames ==> r == Err(UnknownCity) && unchanged(conn)
      // cache hit
      ensures time in config.times && conn != null && cityId in conn.cityNames &&
              old(conn.Find(CacheKey(h3Id, time, minutes))).Some? ==>
                var id := old(conn.Find(CacheKey(h3Id, time, minutes))).value;
                r == Ok(Isochrone(old(conn.catchments[id].geometry), h3Id, id)) && unchanged(conn)
      // cache miss
      ensures time in config.times && conn != null && cityId in conn.cityNames &&
              old(conn.Find(CacheKey(h3Id, time, minutes))).None? ==>
                var computed := old(Computed(oracle, cityId, h3Id, time, minutes));
                && (computed.Err? ==> r == Err(computed.error) && unchanged(conn))
                && (computed.Ok? ==>
                      var id := old(conn.nextId);
                      var cells := CoveredCells(index, computed.value, config.h3Resolution);
                      && r == Ok(Isochrone(computed.value, h3Id, id))
                      && conn.nextId == id + 1
                      && conn.catchments == old(conn.catchments)[id := Catchment(time, minutes, computed.value, h3Id)]
                      && conn.MembersOf(id) == cells
                      && |conn.catchmentH3Map| == |old(conn.catchmentH3Map)| + |cells|
                      && conn.catchmentH3Map[..|old(conn.catchmentH3Map)|] == old(conn.catchmentH3Map)
                      && (forall i :: |old(conn.catchmentH3Map)| <= i < |conn.catchmentH3Map| ==>
                            conn.catchmentH3Map[i].catchmentId == id)
                      && conn.catchmentStats == old(conn.catchmentStats) + StatRows(id, conn.demographics, cells)
                      && conn.step1Stats == old(conn.step1Stats) + Step1Rows(id, time, conn.demographics, cells))
      // a resolved catchment is afterwards stored under its key with the returned geometry
      ensures r.Ok? ==> conn != null && conn.Find(CacheKey(h3Id, time, minutes)) == Some(r.value.catchmentId)
                        && conn.catchments[r.value.catchmentId].geometry == r.value.geometry
      ensures conn != null && old(conn.Consistent(index, config.h3Resolution)) ==> conn.Consistent(index, config.h3Resolution)
    {
      if time !in config.times {
        return Err(InvalidTime);
      }
      if conn == null {
        return Err(NoConnection);
      }
      if cityId !in conn.cityNames {
        return Err(UnknownCity);
      }
      var found := conn.Find(CacheKey(h3Id, time, minutes));
      if found.Some? {
        var id := found.value;
        return Ok(Isochrone(conn.catchments[id].geometry, h3Id, id));
      }
      var computed := Computed(oracle, cityId, h3Id, time, minutes);
      if computed.Err? {
        return Err(computed.error);
      }
      var id := StoreCatchment(computed.value, h3Id, time, minutes);
      r := Ok(Isochrone(computed.value, h3Id, id));
    }
  }

  /**
   * Resolving the same key twice: once the first call has stored or found a
   * catchment, the second call returns the same catchment id and geometry,
   * whatever the routing engine would answer the second time.
   */
  method ResolveTwice(service: IsochroneService, oracle: Oracle, oracle': Oracle,
                      cityId: int, h3Id: Cell, time: string, minutes: int)
    returns (first: Result<Isochrone, IsoError>, second: Result<Isochrone, IsoError>)
    requires service.conn != null && service.conn.Valid()
    modifies service.conn
    ensures first.Ok? ==> second == first
  {
    first := service.GetIsochrone(oracle, cityId, h3Id, time, minutes);
    second := service.GetIsochrone(oracle', cityId, h3Id, time, minutes);
  }
}
