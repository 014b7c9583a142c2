# Isochrone catchment cache — a Dafny model

This project models the core of a backend that computes and caches
travel-time catchments ("isochrones") around H3 cells of a city and rolls up
population statistics over the cells a catchment covers.

- `IsochroneService` (`src/isochrones.py`) validates the time-of-day profile.
  It builds the OpenTripPlanner isochrone request and reads the response: a
  200 is a reachable area, and the exact "vertices not found" 500 falls back
  to the origin cell's ring-1 neighbourhood. Anything else yields no
  isochrone.
- `get_isochrone` answers from the `catchments` table on a hit. On a miss it
  inserts one catchment row and one `catchmenth3map` row per covered cell.
  Then it runs `update_stats`, which writes `catchment_stats` (population per
  category and group over the member cells) and `step1_stats` (ratio
  `10000 / sum`, or 0 when the sum is 0).
- The API layer (`src/api/api.py`) has four pieces of in-memory logic. The
  constructor checks the connection parameters. `get_city_demographics`
  groups rows per H3 cell. In total mode its query already sums each cell's
  population into one row. `get_catchment_details` totals population.
  `get_city_data` chooses which sub-queries to run.

Modules:

| file | module | what |
|---|---|---|
| `results.dfy` | `Results` | `Option`, `Result` |
| `seqs.dfy` | `Seqs` | `Distinct`, `Init`, `Last` |
| `sums.dfy` | `Sums` | order-free sums of map values; `sum(d.values())` |
| `geo.dfy` | `Geo` | opaque `Cell`/`Coord`, polygons, the h3/shapely/geopandas calls as a `CellIndex` of function values, the union of `polyfill` over polygon parts |
| `routing.dfy` | `Routing` | service configuration, request building, response classification, fallback, `compute_isochrone` |
| `stats.dfy` | `Stats` | the two `update_stats` SQL statements as functions |
| `store.dfy` | `Store` | the tables as a `Database` object with insert methods; cache lookup; consistency of the tables |
| `isochrones.dfy` | `Isochrones` | the `IsochroneService` class and `get_isochrone` |
| `api.dfy` | `Api` | the API-layer logic |

Inputs that come from outside the core are parameters. The OTP HTTP call is
an `Oracle` function from (endpoint, request) to (status, body). GeoJSON
parsing is a `FeatureReader`. The h3 calls are fields of `Geo.CellIndex`.
The rows each API endpoint fetches are sequences passed in.

Behaviours of the code and how the model renders them:

- The fallback keeps only the exterior ring of the first component of the
  neighbourhood outline, not the whole neighbourhood.
- Statistics are appended with `INSERT` and not overwritten. They are only
  ever written for a freshly created catchment id.
- The code does no atomic insert-or-fetch and performs no uniqueness check.
  With the model's idealised lookup (see `Store.Database.Find` under
  "Left out"), calls made one after another keep at most one catchment per
  key (`Store.TablesConsistent`, preserved by `GetIsochrone`). This holds for
  the model's lookup only. The code's own lookup can miss a stored catchment
  and insert a duplicate.
- A non-200 response other than the no-route body raises an unbound-variable
  error in the code. Here it is the error outcome `OracleFailure`.
- Both `compute_isochrone` and `get_isochrone` assert that the time label is
  a configured profile. This check comes first in each, before the
  connection check.

## Model

| member | source | states |
|---|---|---|
| `Isochrones.IsochroneService.constructor` | src/isochrones.py:11-36 | with no time map the profiles are morning→"08:00am", afternoon→"2:00pm", evening→"8:00pm"; every other setting is stored as given |
| `Routing.BuildRequest` | src/isochrones.py:42-59 | the request exists iff the label is a profile (otherwise `InvalidTime`); its `time` is the profile's clock string, `cutoffSec` is `minutes*60`, the other parameters are the configured ones |
| `Routing.Classify` | src/isochrones.py:61-67 | reachable iff status 200; no-route iff status 500 with a body exactly equal to the VertexNotFound message; failed otherwise (each direction of each iff) |
| `Routing.Fallback` | src/isochrones.py:67-72 | the result is one polygon whose only ring is the exterior ring of the first component of the outline of `k_ring(geo_to_h3(origin, 9), 1)`; resolution 9 whatever is configured; an error when the outline is empty |
| `Routing.ComputeIsochrone` | src/isochrones.py:39-74 | an unknown profile fails before the oracle is consulted; a 200 gives the first feature's geometry; only a 500 whose body is exactly the no-route message gives the fallback; any other response, including any other 500, gives `OracleFailure` |
| `Geo.CoveredCells` | src/isochrones.py:122-123 | a cell is covered iff `polyfill` of some polygon part contains it: the set union over all parts, order-free and without duplicates |
| `Isochrones.Lower` | src/isochrones.py:103 | the router name has the city name's length with each ASCII capital lower-cased |
| `Store.FindBelow` | src/isochrones.py:84-97 | returns a catchment stored under the key (the newest such), or none exactly when no catchment has that key |
| `Store.Database.Find` | src/isochrones.py:84-97 | the catchment found has the (origin, time, minutes) key; none is found exactly when no stored catchment has it |
| `Store.Database.constructor` | src/isochrones.py:108-132 | a fresh database has empty catchment tables, which are consistent at every index and resolution: the base case of the invariant `GetIsochrone` preserves |
| `Store.Database.InsertCatchment` | src/isochrones.py:108-119 | one new `catchments` row under the next serial id, which is returned; other tables unchanged |
| `Store.Database.InsertMembership` | src/isochrones.py:126-130 | appends exactly one row per cell of the set, all for the new catchment, so its members are that set; earlier rows and other tables unchanged; no row is ever stored twice |
| `Store.Database.UpdateStats` | src/isochrones.py:136-201 | for a catchment with no statistics yet, adds exactly the group-total rows of its members to `catchment_stats` and its ratio rows to `step1_stats`; nothing else changes |
| `Store.JoinMatchesMembers` | src/isochrones.py:147-159 | with no repeated membership rows, the SQL join sum equals the sum over the catchment's member cells as a set |
| `Store.NewCatchmentConsistent` | src/isochrones.py:101-132 | storing a new catchment under an unused key, with its covered cells and statistics, keeps the tables consistent: keys unique, members = covered cells of the geometry, stats = those of the members |
| `Isochrones.IsochroneService.StoreCatchment` | src/isochrones.py:108-132 | the miss path's writes: exactly one catchment (time, minutes, geometry, h3 id) under the returned id, its members = union of `polyfill` over the parts, its stats rows; afterwards the key is found at that id |
| `Isochrones.IsochroneService.GetIsochrone` | src/isochrones.py:77-134 | bad label, then no connection, fail first with no change; a hit returns the stored geometry and id, echoes the h3 id and changes nothing; a miss with a failing isochrone changes nothing; a miss that resolves adds exactly one catchment, its covered cells once each and its stats; table consistency is preserved |
| `Isochrones.ResolveTwice` | src/isochrones.py:96-99 | a second resolution of a key that the first resolved returns the same id and geometry |
| `Stats.Ratio` | src/isochrones.py:167-171 | 0 when the sum is 0, else the integer quotient q with q*sum <= 10000 < (q+1)*sum |
| `Stats.CategorySumOfGroups` | src/isochrones.py:155-183 | summing the `catchment_stats` rows of a category gives the category's population over the member cells |
| `Stats.ZeroPopulationRows` | src/isochrones.py:155-198 | a category with zero population still gets its stats rows (population 0) and a ratio-0 row for every member cell |
| `Sums.SumValues` | src/api/api.py:246 | returns the sum of the map's values, independent of order |
| `Api.FirstMissing` | src/api/api.py:47-51 | none iff every key is present; otherwise the first key, in checking order, that is missing |
| `Api.NewBackendApi` | src/api/api.py:46-53 | construction succeeds iff `dbname`, `user`, `password`, `host` and `port` are all present, and stores the parameters and port; otherwise the error is the first missing key in the order `dbname`, `user`, `password`, `host`, `port` |
| `Api.GroupDemographics` | src/api/api.py:186-213 | the response equals `Grouped(rows, detailed != 0)`: one entry per cell in order of first appearance, detailed entries with last-value-per-group data and summed total, total-mode entries with no data and the first row's population |
| `Api.AddRow` | src/api/api.py:197-211 | one loop iteration: afterwards the cell order and every entry are those of `Grouped` over the rows seen so far plus this row |
| `Api.CellOrderCells` | src/api/api.py:197-204 | the entries are for every cell of the rows, no other, and none twice |
| `Api.CellOrderIsFirstAppearance` | src/api/api.py:197-213 | cells appear in the order of their first rows |
| `Api.EntryStep` | src/api/api.py:197-211 | a row changes only its own cell's entry; a new cell starts from total 0 and empty data in detailed mode and from the row's population in total mode; in detailed mode the row overwrites its group's value and adds to the total |
| `Api.TotalModeKeepsFirstRow` | src/api/api.py:200-207 | in total mode a later row for a cell already present changes nothing |
| `Api.GroupValuesKeys` | src/api/api.py:202-210 | in detailed mode a cell's data holds a group iff some row of that cell has that group: no other keys |
| `Api.GroupValuesLastRow` | src/api/api.py:207-210 | in detailed mode a group's value is the population of its last row for that cell |
| `Api.FirstIndex` | src/api/api.py:197-200 | the index of a cell's first row |
| `Api.CatchmentPopulation` | src/api/api.py:245-246 | the details hold exactly the rows' group names, each with the population of its last row; the total is the sum of the details' values |
| `Api.PopulationDetailsLastRow` | src/api/api.py:245 | a group's value in the details is the population of the last row of that group |
| `Api.PopulationDetailsKeys` | src/api/api.py:245 | the details hold exactly the group names of the rows |
| `Api.DistinctGroupsTotal` | src/api/api.py:245-246 | with no repeated group name, the total is the sum of every row's population |
| `Api.CityDataQueries` | src/api/api.py:289-312 | demographics (detailed) is queried iff `demographic_category` changed, POIs iff `poi_category` changed, stats iff anything changed; nothing else, none twice |

## Left out

- HTTP and serialisation are not modelled: FastAPI routing, the pydantic/orjson models, `PydanticJSONResponse` and `asyncio.gather`. The plain SQL endpoints (`cities`, `poi_categories`, `times_of_day`, `demographic_categories`, `configuration`, `get_pois_in_city`) only reshape the rows they fetch. For example, `cities` builds dicts, and `get_pois_in_city` moves latitude and longitude into `coords`. They are left out too.
- `get_city_accessibility_statistics` is left out: it returns a constant.
- The network call to OpenTripPlanner, GeoJSON parsing and the h3 and shapely functions are uninterpreted function parameters. Their own behaviour, failures and timeouts are not modelled.
- The first feature's geometry is taken to be a multi-polygon. A plain `Polygon` has no `.geoms`, and that failure is not modelled.
- `Store.Database.Find` idealises the cache lookup SQL (a LEFT JOIN over the city's cells plus `fetchone`). That SQL depends on row order. It can return a NULL-catchment row even when a matching catchment exists, which gives a spurious miss and a duplicate insert. The model returns the stored catchment with the key whenever one exists. `fetchone` returns `None` in three cases, and the code then crashes on `result[1]`:
  - the city id has no row;
  - the city has no `cityh3map` cells;
  - every cell of the city already has some catchment and none of them has the key.

  The model gives `UnknownCity` only in the first case. In the other two it computes and stores a catchment.
- Concurrency is not modelled. The code performs no uniqueness check and no race handling, so concurrent misses on the same key are out of scope.
- Floating point is not modelled. Coordinates are opaque. Populations are natural numbers, and the float `total` fields are taken as naturals.
- `Stats.Ratio` assumes the population column is an integer type. The column type is not visible in the source, so `10000 / sum` is integer division.
- `Isochrones.Lower` handles ASCII letters only. Python's `str.lower` is Unicode-aware.
- Inserting an empty membership list (an isochrone that covers no cell) is modelled as inserting no rows. What SQLAlchemy does with an empty parameter list is not modelled.
- Database failures are not modelled. Nor is the transaction behaviour of the three separate writes of a miss; they are modelled as all succeeding.
- `get_catchment_details` is modelled only for its population aggregation. Its call `get_isochrone(poi_id=...)` does not match the parameter name `h3_id`, and that call is not modelled.
- The `print` when no connection is given is not modelled.
- `src/data_processing/census.py`, `src/data_processing/pois/isochrones_runner.py` and `src/api/serve.py` are not part of this model. They are I/O drivers; the batch driver passes an `otp_host` argument that the constructor does not accept.
- `Api.NewBackendApi`: the error carries the missing key's name, not the full assertion message.
- `Store.Database.UpdateStats`: the tables are sets, and the contract covers only a catchment with no statistics yet. A second run for the same id would append duplicate rows in SQL; that is not modelled. The code only ever calls it for a freshly inserted id.
