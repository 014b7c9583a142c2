/**
 * The in-memory logic of `backendApi`: the connection-parameter check of the
 * constructor, the grouping of demographic rows per H3 cell, the population
 * totals of a catchment, and the choice of sub-queries for `/city_data`.
 * The database rows each endpoint fetches are inputs.
 */
module Api {
  import opened Results
  import opened Geo
  import opened Sums
  import opened Seqs

  // ---------------------------------------------------------------------
  // Construction

  datatype BackendApi = BackendApi(dbParams: map<string, string>, otpPort: int)

  /** The connection parameters the constructor insists on, in the order it checks them. */
  const RequiredParams: seq<string> := ["dbname", "user", "password", "host", "port"]

  /** The first of `keys` missing from `params`, if any. */
  function FirstMissing(keys: seq<string>, params: map<string, string>): (r: Option<string>)
    ensures r.None? <==> forall k :: k in keys ==> k in params
    ensures r.Some? ==> exists i :: 0 <= i < |keys| && keys[i] == r.value && r.value !in params
                                    && forall j :: 0 <= j < i ==> keys[j] in params
  {
    if keys == [] then None
    else if keys[0] !in params then Some(keys[0])
    else
      var rest := FirstMissing(keys[1..], params);
      assert forall k :: k in keys ==> k == keys[0] || k in keys[1..];
      if rest.Some? then
        assert exists i :: 0 < i < |keys| && keys[i] == rest.value && rest.value !in params
                           && forall j :: 0 <= j < i ==> keys[j] in params by {
          var i :| 0 <= i < |keys[1..]| && keys[1..][i] == rest.value && rest.value !in params
                   && forall j :: 0 <= j < i ==> keys[1..][j] in params;
          assert forall j :: 0 < j < i + 1 ==> keys[j] == keys[1..][j - 1];
        }
        rest
      else rest
  }

  /**
   * `backendApi.__init__`: fails, naming the first missing parameter, unless
   * the parameters hold `dbname`, `user`, `password`, `host` and `port`.
   */
  function NewBackendApi(dbParams: map<string, string>, otpPort: int := 8062): (r: Result<BackendApi, string>)
    ensures r.Ok? <==> forall k :: k in RequiredParams ==> k in dbParams
    ensures r.Ok? ==> r.value.dbParams == dbParams && r.value.otpPort == otpPort
    ensures r.Err? ==> r.error in RequiredParams && r.error !in dbParams
    ensures r.Err? ==> exists i :: 0 <= i < |RequiredParams| && RequiredParams[i] == r.error
                                  && forall j :: 0 <= j < i ==> RequiredParams[j] in dbParams
  {
    match FirstMissing(RequiredParams, dbParams)
    case Some(k) => Err(k)
    case None => Ok(BackendApi(dbParams, otpPort))
  }

  // ---------------------------------------------------------------------
  // get_city_demographics

  /** A row of `api_get_demographics_for_city`: a group's population in a cell. */
  datatype DemographicsRow = DemographicsRow(h3id: Cell, groupName: string, population: nat)

  /** One `H3Grid` of the response: `data` is a dictionary in detailed mode and absent otherwise. */
  datatype H3Grid = H3Grid(h3id: Cell, data: Option<map<string, nat>>, total: nat)

  /** Some row of `rows` is in cell `id`. */
  predicate HasCell(rows: seq<DemographicsRow>, id: Cell) {
    exists i :: 0 <= i < |rows| && rows[i].h3id == id
  }

  /** The cells of `rows`, each once, in the order they first appear. */
  function CellOrder(rows: seq<DemographicsRow>): seq<Cell> {
    if rows == [] then []
    else
      var order := CellOrder(Init(rows));
      if Last(rows).h3id in order then order else order + [Last(rows).h3id]
  }

  /** The sum of the populations of the rows of cell `id`. */
  function CellTotal(rows: seq<DemographicsRow>, id: Cell): nat {
    if rows == [] then 0
    else CellTotal(Init(rows), id) + (if Last(rows).h3id == id then Last(rows).population else 0)
  }

  /** Each group of cell `id` with the population of its last row. */
  function GroupValues(rows: seq<DemographicsRow>, id: Cell): map<string, nat> {
    if rows == [] then map[]
    else
      var m := GroupValues(Init(rows), id);
      if Last(rows).h3id == id then m[Last(rows).groupName := Last(rows).population] else m
  }

  /** The population of the first row of cell `id`. */
  function FirstPopulation(rows: seq<DemographicsRow>, id: Cell): nat {
    if rows == [] then 0
    else if rows[0].h3id == id then rows[0].population
    else FirstPopulation(rows[1..], id)
  }

  /** The index of the first row of cell `id`. */
  function FirstIndex(rows: seq<DemographicsRow>, id: Cell): (i: nat)
    requires HasCell(rows, id)
    ensures i < |rows| && rows[i].h3id == id && forall j :: 0 <= j < i ==> rows[j].h3id != id
  {
    if rows[0].h3id == id then 0
    else
      assert HasCell(rows[1..], id) by {
        var k :| 0 <= k < |rows| && rows[k].h3id == id;
        assert rows[1..][k - 1] == rows[k];
      }
      1 + FirstIndex(rows[1..], id)
  }

  /** The entry the endpoint builds for cell `id`. */
  function Entry(rows: seq<DemographicsRow>, id: Cell, detailed: bool): H3Grid {
    if detailed then H3Grid(id, Some(GroupValues(rows, id)), CellTotal(rows, id))
    else H3Grid(id, None, FirstPopulation(rows, id))
  }

  /** The response: one entry per cell, in the order the cells first appear. */
  function Grouped(rows: seq<DemographicsRow>, detailed: bool): seq<H3Grid> {
    var order := CellOrder(rows);
    seq(|order|, i requires 0 <= i < |order| => Entry(rows, order[i], detailed))
  }

  /** The cell order lists every cell of the rows, no other, and none twice. */
  lemma {:induction false} CellOrderCells(rows: seq<DemographicsRow>)
    ensures Distinct(CellOrder(rows))
    ensures forall id :: id in CellOrder(rows) <==> HasCell(rows, id)
  {
    if rows != [] {
      var s := Init(rows);
      CellOrderCells(s);
      forall id | HasCell(rows, id) ensures id == Last(rows).h3id || HasCell(s, id) {
        var i :| 0 <= i < |rows| && rows[i].h3id == id;
        if i < |rows| - 1 { assert s[i] == rows[i]; }
      }
      forall id | HasCell(s, id) ensures HasCell(rows, id) {
        var i :| 0 <= i < |s| && s[i].h3id == id;
        assert rows[i] == s[i];
      }
      assert HasCell(rows, Last(rows).h3id) by { assert rows[|rows| - 1].h3id == Last(rows).h3id; }
    }
  }

  /** The cells come in the order of their first rows. */
  lemma {:induction false} CellOrderIsFirstAppearance(rows: seq<DemographicsRow>, p: nat, q: nat)
    requires p < q < |CellOrder(rows)|
    ensures HasCell(rows, CellOrder(rows)[p]) && HasCell(rows, CellOrder(rows)[q])
    ensures FirstIndex(rows, CellOrder(rows)[p]) < FirstIndex(rows, CellOrder(rows)[q])
  {
    var order := CellOrder(rows);
    CellOrderCells(rows);
    assert order[p] in order && order[q] in order;
    var s, r := Init(rows), Last(rows);
    var before := CellOrder(s);
    CellOrderCells(s);
    assert rows == s + [r];
    assert p < |before|;
    assert order[p] == before[p] && before[p] in before;
    FirstIndexExtend(s, r, order[p]);
    if q < |before| {
      assert order[q] == before[q] && before[q] in before;
      CellOrderIsFirstAppearance(s, p, q);
      FirstIndexExtend(s, r, order[q]);
    } else {
      // order[q] is the last row's cell, whose first row is the last row
      assert order[q] == r.h3id && r.h3id !in before;
      assert forall j :: 0 <= j < |s| ==> rows[j] == s[j];
    }
  }

  /** Appending a row does not move the first row of a cell already present. */
  lemma FirstIndexExtend(s: seq<DemographicsRow>, r: DemographicsRow, id: Cell)
    requires HasCell(s, id)
    ensures HasCell(s + [r], id)
    ensures FirstIndex(s + [r], id) == FirstIndex(s, id)
  {
    var k :| 0 <= k < |s| && s[k].h3id == id;
    assert (s + [r])[k] == s[k];
    var i := FirstIndex(s, id);
    assert (s + [r])[i].h3id == id;
    assert forall j :: 0 <= j < i ==> (s + [r])[j].h3id != id;
  }

  /** The first row of a cell already present stays its first row when rows are appended. */
  lemma {:induction false} FirstPopulationExtend(s: seq<DemographicsRow>, r: DemographicsRow, id: Cell)
    ensures HasCell(s, id) ==> FirstPopulation(s + [r], id) == FirstPopulation(s, id)
    ensures !HasCell(s, id) && r.h3id == id ==> FirstPopulation(s + [r], id) == r.population
  {
    if s != [] {
      assert (s + [r])[1..] == s[1..] + [r];
      FirstPopulationExtend(s[1..], r, id);
      if s[0].h3id != id {
        assert HasCell(s, id) <==> HasCell(s[1..], id) by {
          if HasCell(s, id) {
            var k :| 0 <= k < |s| && s[k].h3id == id;
            assert s[1..][k - 1] == s[k];
          }
          if HasCell(s[1..], id) {
            var k :| 0 <= k < |s[1..]| && s[1..][k].h3id == id;
            assert s[k + 1] == s[1..][k];
          }
        }
      } else {
        assert s[0].h3id == id;
      }
    }
  }

  /** A cell with no rows has no groups and a zero total. */
  lemma {:induction false} AbsentCell(rows: seq<DemographicsRow>, id: Cell)
    requires !HasCell(rows, id)
    ensures GroupValues(rows, id) == map[] && CellTotal(rows, id) == 0
  {
    if rows != [] {
      assert !HasCell(Init(rows), id) by {
        assert forall i :: 0 <= i < |Init(rows)| ==> Init(rows)[i] == rows[i];
      }
      assert Last(rows) == rows[|rows| - 1];
      AbsentCell(Init(rows), id);
    }
  }

  /** How one more row changes the entries: only its own cell's entry, as the loop of `GroupDemographics` does. */
  lemma EntryStep(s: seq<DemographicsRow>, r: DemographicsRow, detailed: bool)
    ensures forall other :: other != r.h3id ==> Entry(s + [r], other, detailed) == Entry(s, other, detailed)
    ensures !HasCell(s, r.h3id) ==>
              Entry(s + [r], r.h3id, detailed)
              == if detailed then H3Grid(r.h3id, Some(map[r.groupName := r.population]), r.population)
                 else H3Grid(r.h3id, None, r.population)
    ensures HasCell(s, r.h3id) ==>
              var e := Entry(s, r.h3id, detailed);
              Entry(s + [r], r.h3id, detailed)
              == if detailed then e.(data := Some(e.data.value[r.groupName := r.population]), total := e.total + r.population)
                 else e
  {
    assert Init(s + [r]) == s && Last(s + [r]) == r;
    forall other | other != r.h3id
      ensures FirstPopulation(s + [r], other) == FirstPopulation(s, other)
    {
      FirstPopulationExtend(s, r, other);
      if !HasCell(s, other) {
        FirstPopulationAbsent(s + [r], other);
        FirstPopulationAbsent(s, other);
      }
    }
    FirstPopulationExtend(s, r, r.h3id);
    if !HasCell(s, r.h3id) {
      AbsentCell(s, r.h3id);
    }
  }

  /** A cell with no rows has first population 0. */
  lemma {:induction false} FirstPopulationAbsent(rows: seq<DemographicsRow>, id: Cell)
    requires !HasCell(rows, id)
    ensures FirstPopulation(rows, id) == 0
  {
    if rows != [] {
      assert rows[0].h3id != id;
      assert !HasCell(rows[1..], id) by {
        assert forall i :: 0 <= i < |rows[1..]| ==> rows[1..][i] == rows[i + 1];
      }
      FirstPopulationAbsent(rows[1..], id);
    }
  }

  /** In total mode a further row for a cell already present changes nothing. */
  lemma TotalModeKeepsFirstRow(rows: seq<DemographicsRow>, r: DemographicsRow)
    requires HasCell(rows, r.h3id)
    ensures Grouped(rows + [r], false) == Grouped(rows, false)
  {
    var rows' := rows + [r];
    assert Init(rows') == rows && Last(rows') == r;
    CellOrderCells(rows);
    assert CellOrder(rows') == CellOrder(rows);
    var order := CellOrder(rows);
    forall i | 0 <= i < |order|
      ensures FirstPopulation(rows', order[i]) == FirstPopulation(rows, order[i])
    {
      assert order[i] in order;
      FirstPopulationExtend(rows, r, order[i]);
    }
  }

  /** Some row of `rows` is of cell `id` and group `g`. */
  predicate HasCellGroup(rows: seq<DemographicsRow>, id: Cell, g: string) {
    exists i :: 0 <= i < |rows| && rows[i].h3id == id && rows[i].groupName == g
  }

  /** In detailed mode a cell's data holds exactly the groups of its rows, and no other. */
  lemma {:induction false} GroupValuesKeys(rows: seq<DemographicsRow>, id: Cell, g: string)
    ensures g in GroupValues(rows, id) <==> HasCellGroup(rows, id, g)
  {
    if rows != [] {
      var s := Init(rows);
      GroupValuesKeys(s, id, g);
      if HasCellGroup(rows, id, g) && !(Last(rows).h3id == id && Last(rows).groupName == g) {
        var i :| 0 <= i < |rows| && rows[i].h3id == id && rows[i].groupName == g;
        assert s[i] == rows[i];
      }
      if HasCellGroup(s, id, g) {
        var i :| 0 <= i < |s| && s[i].h3id == id && s[i].groupName == g;
        assert rows[i] == s[i];
      }
    }
  }

  /** In detailed mode a group's value is the population of its last row for the cell. */
  lemma {:induction false} GroupValuesLastRow(rows: seq<DemographicsRow>, i: nat)
    requires i < |rows|
    requires forall j :: i < j < |rows| ==> rows[j].h3id != rows[i].h3id || rows[j].groupName != rows[i].groupName
    ensures rows[i].groupName in GroupValues(rows, rows[i].h3id)
    ensures GroupValues(rows, rows[i].h3id)[rows[i].groupName] == rows[i].population
  {
    if i < |rows| - 1 {
      assert Init(rows)[i] == rows[i];
      GroupValuesLastRow(Init(rows), i);
    }
  }

  /**
   * One iteration of the `get_city_demographics` loop: the row's cell gets an
   * entry if it has none yet, and in detailed mode the row's group value is
   * overwritten and its population added to the cell's total.
   */
  method AddRow(response: map<Cell, H3Grid>, order: seq<Cell>, done: seq<DemographicsRow>,
                row: DemographicsRow, detailed: bool)
    returns (response': map<Cell, H3Grid>, order': seq<Cell>)
    requires order == CellOrder(done)
    requires forall id :: id in response <==> id in order
    requires forall id :: id in response ==> response[id] == Entry(done, id, detailed)
    ensures order' == CellOrder(done + [row])
    ensures forall id :: id in response' <==> id in order'
    ensures forall id :: id in response' ==> response'[id] == Entry(done + [row], id, detailed)
  {
    var id := row.h3id;
    assert Init(done + [row]) == done && Last(done + [row]) == row;
    CellOrderCells(done);
    EntryStep(done, row, detailed);
    var entry := if id in response then response[id]
                 else H3Grid(id, if detailed then Some(map[]) else None, if detailed then 0 else row.population);
    if detailed {
      entry := entry.(data := Some(entry.data.value[row.groupName := row.population]),
                      total := entry.total + row.population);
    }
    response' := response[id := entry];
    order' := if id in response then order else order + [id];
  }

  /**
   * `get_city_demographics`: one pass over the rows. The rows come from a
   * different query in each mode: in detailed mode one row per cell and
   * group; in total mode one row per cell, its summed population under the
   * group name 'total'. A cell's entry is
   * created at its first row; in detailed mode every row then overwrites its
   * group's value and adds to the cell's total; in total mode the first row's
   * population is the total and later rows are ignored.
   */
  method GroupDemographics(rows: seq<DemographicsRow>, detailed: int) returns (grid: seq<H3Grid>)
    ensures grid == Grouped(rows, detailed != 0)
  {
    var isDetailed := detailed != 0;
    var response: map<Cell, H3Grid> := map[];
    var order: seq<Cell> := [];
    var n := 0;
    while n < |rows|
      invariant 0 <= n <= |rows|
      invariant order == CellOrder(rows[..n])
      invariant forall id :: id in response <==> id in order
      invariant forall id :: id in response ==> response[id] == Entry(rows[..n], id, isDetailed)
    {
      assert rows[..n + 1] == rows[..n] + [rows[n]];
      response, order := AddRow(response, order, rows[..n], rows[n], isDetailed);
      n := n + 1;
    }
    assert rows[..n] == rows;
    grid := seq(|order|, i requires 0 <= i < |order| => response[order[i]]);
  }

  // ---------------------------------------------------------------------
  // get_catchment_details

  /** A row of `api_get_demographics_for_catchment`. */
  datatype GroupPopulationRow = GroupPopulationRow(groupName: string, population: nat)

  /** `{row['groupname']: row['population'] for row in data}`: a later row of a group replaces an earlier one. */
  function PopulationDetails(rows: seq<GroupPopulationRow>): map<string, nat> {
    if rows == [] then map[] else PopulationDetails(Init(rows))[Last(rows).groupName := Last(rows).population]
  }

  function SeqPopulation(rows: seq<GroupPopulationRow>): nat {
    if rows == [] then 0 else SeqPopulation(Init(rows)) + Last(rows).population
  }

  /** The catchment's per-group populations and `population_total = sum(population_details.values())`. */
  method CatchmentPopulation(rows: seq<GroupPopulationRow>) returns (details: map<string, nat>, total: nat)
    ensures details == PopulationDetails(rows)
    ensures forall g :: g in details <==> HasGroup(rows, g)
    ensures forall i :: 0 <= i < |rows| && LastOfGroup(rows, i) ==>
              rows[i].groupName in details && details[rows[i].groupName] == rows[i].population
    ensures total == SumOver(details.Keys, details)
  {
    details := PopulationDetails(rows);
    PopulationDetailsKeys(rows);
    forall i | 0 <= i < |rows| && LastOfGroup(rows, i)
      ensures rows[i].groupName in details && details[rows[i].groupName] == rows[i].population
    {
      PopulationDetailsLastRow(rows, i);
    }
    total := SumValues(details);
  }

  /** Row `i` is the last row of its group. */
  predicate LastOfGroup(rows: seq<GroupPopulationRow>, i: int)
    requires 0 <= i < |rows|
  {
    forall j :: i < j < |rows| ==> rows[j].groupName != rows[i].groupName
  }

  /** A group's value in the details is the population of its last row. */
  lemma {:induction false} PopulationDetailsLastRow(rows: seq<GroupPopulationRow>, i: int)
    requires 0 <= i < |rows| && LastOfGroup(rows, i)
    ensures rows[i].groupName in PopulationDetails(rows)
    ensures PopulationDetails(rows)[rows[i].groupName] == rows[i].population
  {
    if i < |rows| - 1 {
      assert Init(rows)[i] == rows[i];
      assert LastOfGroup(Init(rows), i);
      PopulationDetailsLastRow(Init(rows), i);
    }
  }

  /** Some row of `rows` is of group `g`. */
  predicate HasGroup(rows: seq<GroupPopulationRow>, g: string) {
    exists i :: 0 <= i < |rows| && rows[i].groupName == g
  }

  /** The details hold exactly the group names of the rows. */
  lemma {:induction false} PopulationDetailsKeys(rows: seq<GroupPopulationRow>)
    ensures forall g :: g in PopulationDetails(rows) <==> HasGroup(rows, g)
  {
    if rows != [] {
      var s := Init(rows);
      PopulationDetailsKeys(s);
      forall g | HasGroup(rows, g) ensures g == Last(rows).groupName || HasGroup(s, g) {
        var i :| 0 <= i < |rows| && rows[i].groupName == g;
        if i < |rows| - 1 { assert s[i] == rows[i]; }
      }
      forall g | HasGroup(s, g) ensures HasGroup(rows, g) {
        var i :| 0 <= i < |s| && s[i].groupName == g;
        assert rows[i] == s[i];
      }
      assert HasGroup(rows, Last(rows).groupName) by { assert rows[|rows| - 1].groupName == Last(rows).groupName; }
    }
  }

  /** When no group name repeats, the total is the sum of every row's population. */
  lemma {:induction false} DistinctGroupsTotal(rows: seq<GroupPopulationRow>)
    requires forall i, j :: 0 <= i < j < |rows| ==> rows[i].groupName != rows[j].groupName
    ensures SumOver(PopulationDetails(rows).Keys, PopulationDetails(rows)) == SeqPopulation(rows)
  {
    if rows != [] {
      var s, r := Init(rows), Last(rows);
      var m := PopulationDetails(s);
      DistinctGroupsTotal(s);
      PopulationDetailsKeys(s);
      assert !HasGroup(s, r.groupName) by {
        assert forall i :: 0 <= i < |s| ==> s[i] == rows[i] && rows[i].groupName != rows[|rows| - 1].groupName;
      }
      var m' := m[r.groupName := r.population];
      assert m'.Keys == m.Keys + {r.groupName};
      SumOverInsert(m.Keys, m', r.groupName);
      SumOverAgree(m.Keys, m', m);
    }
  }

  // ---------------------------------------------------------------------
  // get_city_data

  /** The fields an update pack can mark as changed. */
  datatype DataField = PoiCategory | DemographicCategory | PoiList | TimeOfDay

  datatype ConfigSet = ConfigSet(poiCategory: string, demographicCategory: string, timeOfDay: string)

  /** A sub-query of `/city_data`, with the arguments it is called with. */
  datatype Query =
    | DemographicsQuery(cityId: int, category: string, detailed: bool)
    | PoisQuery(cityId: int, category: string)
    | StatsQuery(cityId: int, demographicsCategory: string, timeOfDay: string, poiCategory: string)

  /** The sub-queries `get_city_data` runs, in the order it adds them. */
  function CityDataQueries(cityId: int, changed: seq<DataField>, config: ConfigSet): (qs: seq<Query>)
    ensures DemographicsQuery(cityId, config.demographicCategory, true) in qs <==> DemographicCategory in changed
    ensures PoisQuery(cityId, config.poiCategory) in qs <==> PoiCategory in changed
    ensures StatsQuery(cityId, config.demographicCategory, config.timeOfDay, config.poiCategory) in qs <==> |changed| > 0
    ensures forall q :: q in qs ==> q in [DemographicsQuery(cityId, config.demographicCategory, true),
                                          PoisQuery(cityId, config.poiCategory),
                                          StatsQuery(cityId, config.demographicCategory, config.timeOfDay, config.poiCategory)]
    ensures Distinct(qs)
  {
    (if DemographicCategory in changed then [DemographicsQuery(cityId, config.demographicCategory, true)] else [])
    + (if PoiCategory in changed then [PoisQuery(cityId, config.poiCategory)] else [])
    + (if |changed| > 0 then [StatsQuery(cityId, config.demographicCategory, config.timeOfDay, config.poiCategory)] else [])
  }
}
