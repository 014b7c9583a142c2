/**
 * The PostgreSQL tables the isochrone service reads and writes, as one
 * object whose fields are the tables. `cities` and `h3demographics` are
 * read-only here; `catchments`, `catchmenth3map`, `catchment_stats` and
 * `step1_stats` only ever grow.
 */
module Store {
  import opened Results
  import opened Geo
  import opened Stats
  import opened Seqs

  /** A row of `catchments` without its serial primary key. */
  datatype Catchment = Catchment(timeOfDay: string, timeDistance: int, geometry: MultiPolygon, originH3: Cell)

  /** A row of `catchmenth3map`: catchment `catchmentId` covers cell `h3id`. */
  datatype MemberRow = MemberRow(catchmentId: CatchmentId, h3id: Cell)

  /** What the cache is looked up by: origin cell, time-of-day label and minutes. */
  datatype CacheKey = CacheKey(origin: Cell, timeOfDay: string, minutes: int)

  function CacheKeyOf(c: Catchment): CacheKey {
    CacheKey(c.originH3, c.timeOfDay, c.timeDistance)
  }

  /** The catchment among ids `0 .. n-1` stored under `key`, the newest first, if any. */
  function FindBelow(catchments: map<CatchmentId, Catchment>, key: CacheKey, n: nat): (r: Option<CatchmentId>)
    ensures r.Some? ==> r.value < n && r.value in catchments && CacheKeyOf(catchments[r.value]) == key
    ensures r.Some? ==> forall id :: r.value < id < n && id in catchments ==> CacheKeyOf(catchments[id]) != key
    ensures r.None? <==> forall id :: id < n && id in catchments ==> CacheKeyOf(catchments[id]) != key
  {
    if n == 0 then None
    else if n - 1 in catchments && CacheKeyOf(catchments[n - 1]) == key then Some(n - 1)
    else FindBelow(catchments, key, n - 1)
  }

  /** The cells a list of membership rows gives catchment `id`. */
  function Members(rows: seq<MemberRow>, id: CatchmentId): set<Cell> {
    set r | r in rows && r.catchmentId == id :: r.h3id
  }

  /** Appending a row for a cell the catchment does not have yet keeps the rows distinct and adds that cell. */
  lemma AppendMember(rows: seq<MemberRow>, id: CatchmentId, h: Cell)
    requires Distinct(rows) && h !in Members(rows, id)
    ensures Distinct(rows + [MemberRow(id, h)])
    ensures Members(rows + [MemberRow(id, h)], id) == Members(rows, id) + {h}
  {
  }

  /** Rows of a new catchment appended to rows of other catchments: still distinct, and the new catchment's cells are theirs. */
  lemma AppendNewCatchment(rows: seq<MemberRow>, added: seq<MemberRow>, id: CatchmentId)
    requires Distinct(rows) && Distinct(added)
    requires forall i :: 0 <= i < |rows| ==> rows[i].catchmentId != id
    requires forall i :: 0 <= i < |added| ==> added[i].catchmentId == id
    ensures Distinct(rows + added)
    ensures Members(rows + added, id) == Members(added, id)
    ensures forall other :: other != id ==> Members(rows + added, other) == Members(rows, other)
  {
  }

  /** How many times `row` occurs in `rows`. */
  function Occurrences(rows: seq<MemberRow>, row: MemberRow): nat {
    if rows == [] then 0 else Occurrences(rows[..|rows| - 1], row) + (if rows[|rows| - 1] == row then 1 else 0)
  }

  /** A table without repeated rows holds each row at most once. */
  lemma {:induction false} DistinctOccurrences(rows: seq<MemberRow>, row: MemberRow)
    requires Distinct(rows)
    ensures Occurrences(rows, row) == if row in rows then 1 else 0
  {
    if rows != [] {
      var s := rows[..|rows| - 1];
      assert rows == s + [rows[|rows| - 1]];
      assert Distinct(s);
      DistinctOccurrences(s, row);
      assert forall i :: 0 <= i < |s| ==> s[i] != rows[|rows| - 1];
    }
  }

  /**
   * The first `update_stats` statement as written: SUM(population) over the
   * join of the demographic rows of group `k` with the membership rows of
   * catchment `id`, a demographic row counting once per matching membership row.
   */
  function JoinPopulation(demo: seq<DemoRow>, rows: seq<MemberRow>, id: CatchmentId, k: GroupKey): nat {
    if demo == [] then 0
    else
      var d := demo[|demo| - 1];
      JoinPopulation(demo[..|demo| - 1], rows, id, k)
        + (if Stats.KeyOf(d) == k then d.population * Occurrences(rows, MemberRow(id, d.h3id)) else 0)
  }

  /**
   * Because no membership row is stored twice, summing over the join is
   * summing over the catchment's member cells as a set.
   */
  lemma {:induction false} JoinMatchesMembers(demo: seq<DemoRow>, rows: seq<MemberRow>, id: CatchmentId, k: GroupKey)
    requires Distinct(rows)
    ensures JoinPopulation(demo, rows, id, k) == GroupPopulation(demo, Members(rows, id), k)
  {
    if demo != [] {
      var d := demo[|demo| - 1];
      JoinMatchesMembers(demo[..|demo| - 1], rows, id, k);
      DistinctOccurrences(rows, MemberRow(id, d.h3id));
      assert MemberRow(id, d.h3id) in rows <==> d.h3id in Members(rows, id);
    }
  }

  /** The rows of a statistics table that belong to catchment `id`. */
  function StatsFor(stats: set<StatRow>, id: CatchmentId): set<StatRow> {
    set r | r in stats && r.catchmentId == id
  }

  function Step1For(step1: set<Step1Row>, id: CatchmentId): set<Step1Row> {
    set r | r in step1 && r.catchmentId == id
  }

  /** At most one catchment per cache key: the invariant the cache relies on. */
  ghost predicate KeysUnique(catchments: map<CatchmentId, Catchment>) {
    forall i, j :: i in catchments && j in catchments && CacheKeyOf(catchments[i]) == CacheKeyOf(catchments[j]) ==> i == j
  }

  /**
   * What the stored rows mean: at most one catchment per key, each
   * catchment's member cells are the cells its geometry covers, and its
   * statistics rows are those its members' demographics give.
   */
  ghost predicate TablesConsistent(index: CellIndex, res: nat, demo: seq<DemoRow>,
                                   catchments: map<CatchmentId, Catchment>, rows: seq<MemberRow>,
                                   stats: set<StatRow>, step1: set<Step1Row>)
  {
    && KeysUnique(catchments)
    && (forall id :: id in catchments ==> Members(rows, id) == CoveredCells(index, catchments[id].geometry, res))
    && (forall id :: id in catchments ==> StatsFor(stats, id) == StatRows(id, demo, Members(rows, id)))
    && (forall id :: id in catchments ==>
          Step1For(step1, id) == Step1Rows(id, catchments[id].timeOfDay, demo, Members(rows, id)))
  }

  /** Rows added for catchment `id` leave every other catchment's cells alone and add to `id`'s. */
  lemma MembersConcat(rows: seq<MemberRow>, added: seq<MemberRow>, id: CatchmentId)
    requires forall i :: 0 <= i < |added| ==> added[i].catchmentId == id
    ensures Members(rows + added, id) == Members(rows, id) + Members(added, id)
    ensures forall other :: other != id ==> Members(rows + added, other) == Members(rows, other)
  {
  }

  /**
   * Storing a catchment under a new id and a key not yet used, with the rows
   * `get_isochrone` writes for it, keeps the tables consistent.
   */
  lemma NewCatchmentConsistent(index: CellIndex, res: nat, demo: seq<DemoRow>,
                               catchments: map<CatchmentId, Catchment>, rows: seq<MemberRow>,
                               stats: set<StatRow>, step1: set<Step1Row>,
                               id: CatchmentId, c: Catchment, added: seq<MemberRow>)
    requires TablesConsistent(index, res, demo, catchments, rows, stats, step1)
    requires id !in catchments
    requires forall k :: k in catchments ==> CacheKeyOf(catchments[k]) != CacheKeyOf(c)
    requires forall i :: 0 <= i < |rows| ==> rows[i].catchmentId in catchments
    requires forall r :: r in stats ==> r.catchmentId in catchments
    requires forall r :: r in step1 ==> r.catchmentId in catchments
    requires forall i :: 0 <= i < |added| ==> added[i].catchmentId == id
    requires Members(added, id) == CoveredCells(index, c.geometry, res)
    ensures var cells := Members(rows + added, id);
            TablesConsistent(index, res, demo, catchments[id := c], rows + added,
                             stats + StatRows(id, demo, cells), step1 + Step1Rows(id, c.timeOfDay, demo, cells))
  {
    var cs := catchments[id := c];
    var rows' := rows + added;
    var cells := Members(rows', id);
    var stats' := stats + StatRows(id, demo, cells);
    var step1' := step1 + Step1Rows(id, c.timeOfDay, demo, cells);
    MembersConcat(rows, added, id);
    assert Members(rows, id) == {} by {
      forall r | r in rows ensures r.catchmentId != id {
        var i :| 0 <= i < |rows| && rows[i] == r;
      }
    }
    forall k | k in cs
      ensures StatsFor(stats', k) == StatRows(k, demo, Members(rows', k))
      ensures Step1For(step1', k) == Step1Rows(k, cs[k].timeOfDay, demo, Members(rows', k))
    {
      if k == id {
        assert StatsFor(stats, id) == {};
        assert Step1For(step1, id) == {};
      } else {
        assert StatsFor(StatRows(id, demo, cells), k) == {};
        assert Step1For(Step1Rows(id, c.timeOfDay, demo, cells), k) == {};
      }
    }
  }

  class Database {
    /** `cities`: a city id and its display name. */
    const cityNames: map<int, string>
    /** `h3demographics`. */
    const demographics: seq<DemoRow>

    /** `catchments`, keyed by the serial `catchmentid`. */
    var catchments: map<CatchmentId, Catchment>
    /** `catchmenth3map`, in insertion order. */
    var catchmentH3Map: seq<MemberRow>
    /** `catchment_stats`. */
    var catchmentStats: set<StatRow>
    /** `step1_stats`. */
    var step1Stats: set<Step1Row>
    /** The value the `catchmentid` sequence hands out next. */
    var nextId: CatchmentId

    /** Every row refers to a stored catchment, ids come from the sequence, and no membership row is stored twice. */
    ghost predicate Valid()
      reads this
    {
      && (forall id :: id in catchments ==> id < nextId)
      && (forall i :: 0 <= i < |catchmentH3Map| ==> catchmentH3Map[i].catchmentId in catchments)
      && Distinct(catchmentH3Map)
      && (forall r :: r in catchmentStats ==> r.catchmentId in catchments)
      && (forall r :: r in step1Stats ==> r.catchmentId in catchments)
    }

    /** A database with the given read-only tables and empty catchment tables. */
    constructor (cityNames: map<int, string>, demographics: seq<DemoRow>)
      ensures Valid()
      ensures this.cityNames == cityNames && this.demographics == demographics
      ensures catchments == map[] && catchmentH3Map == [] && catchmentStats == {} && step1Stats == {} && nextId == 0
      ensures forall index, res :: Consistent(index, res)
    {
      this.cityNames := cityNames;
      this.demographics := demographics;
      catchments := map[];
      catchmentH3Map := [];
      catchmentStats := {};
      step1Stats := {};
      nextId := 0;
    }

    /** The cells `catchmenth3map` lists for catchment `id`. */
    function MembersOf(id: CatchmentId): set<Cell>
      reads this
    {
      Members(catchmentH3Map, id)
    }

    /** The stored catchment with this key, if any. */
    function Find(key: CacheKey): (r: Option<CatchmentId>)
      reads this
      requires Valid()
      ensures r.Some? ==> r.value in catchments && CacheKeyOf(catchments[r.value]) == key
      ensures r.None? <==> forall id :: id in catchments ==> CacheKeyOf(catchments[id]) != key
    {
      FindBelow(catchments, key, nextId)
    }

    /** The stored tables mean what `TablesConsistent` says, at resolution `res`. */
    ghost predicate Consistent(index: CellIndex, res: nat)
      reads this
    {
      TablesConsistent(index, res, demographics, catchments, catchmentH3Map, catchmentStats, step1Stats)
    }

    /** `INSERT INTO catchments`: a new row under the next serial id, which is returned. */
    method InsertCatchment(c: Catchment) returns (id: CatchmentId)
      requires Valid()
      modifies this
      ensures Valid()
      ensures id == old(nextId) && nextId == id + 1
      ensures catchments == old(catchments)[id := c]
      ensures catchmentH3Map == old(catchmentH3Map)
      ensures catchmentStats == old(catchmentStats) && step1Stats == old(step1Stats)
    {
      id := nextId;
      catchments := catchments[id := c];
      nextId := nextId + 1;
    }

    /**
     * `INSERT INTO catchmenth3map`, one row per cell of a set: catchment `id`,
     * which has no members yet, gets exactly the cells of `cells`, each once.
     */
    method InsertMembership(id: CatchmentId, cells: set<Cell>)
      requires Valid() && id in catchments
      requires forall i :: 0 <= i < |catchmentH3Map| ==> catchmentH3Map[i].catchmentId != id
      modifies this
      ensures Valid()
      ensures |catchmentH3Map| == |old(catchmentH3Map)| + |cells|
      ensures catchmentH3Map[..|old(catchmentH3Map)|] == old(catchmentH3Map)
      ensures forall i :: |old(catchmentH3Map)| <= i < |catchmentH3Map| ==> catchmentH3Map[i].catchmentId == id
      ensures MembersOf(id) == cells
      ensures catchments == old(catchments) && nextId == old(nextId)
      ensures catchmentStats == old(catchmentStats) && step1Stats == old(step1Stats)
    {
      var added: seq<MemberRow> := [];
      var rest, done := cells, {};
      while rest != {}
        modifies {}
        invariant done !! rest && done + rest == cells
        invariant Distinct(added) && |added| == |done| && Members(added, id) == done
        invariant forall i :: 0 <= i < |added| ==> added[i].catchmentId == id
        decreases rest
      {
        var h :| h in rest;
        AppendMember(added, id, h);
        added := added + [MemberRow(id, h)];
        rest, done := rest - {h}, done + {h};
      }
      AppendNewCatchment(catchmentH3Map, added, id);
      catchmentH3Map := catchmentH3Map + added;
    }

    /**
     * `update_stats(id)`: inserts the group totals of the catchment's member
     * cells into `catchment_stats`, then one ratio row per member cell and
     * category into `step1_stats`. The tables are sets, so the contract is
     * for a catchment that has no statistics yet, the only kind it is run on.
     */
    method UpdateStats(id: CatchmentId)
      requires Valid() && id in catchments
      requires StatsFor(catchmentStats, id) == {} && Step1For(step1Stats, id) == {}
      modifies this
      ensures Valid()
      ensures catchments == old(catchments) && catchmentH3Map == old(catchmentH3Map) && nextId == old(nextId)
      ensures catchmentStats == old(catchmentStats) + StatRows(id, demographics, MembersOf(id))
      ensures step1Stats == old(step1Stats) + Step1Rows(id, catchments[id].timeOfDay, demographics, MembersOf(id))
    {
      var cells := MembersOf(id);
      catchmentStats := catchmentStats + StatRows(id, demographics, cells);
      step1Stats := step1Stats + Step1Rows(id, catchments[id].timeOfDay, demographics, cells);
    }
  }
}
