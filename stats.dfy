/**
 * The statistics rollup `update_stats`: per-group population sums over the
 * member cells of a catchment (`catchment_stats`), and the per-category
 * accessibility ratio written for every member cell (`step1_stats`). Both
 * SQL statements are stated here as functions of the demographic rows and
 * the catchment's member cells.
 */
module Stats {
  import opened Geo
  import opened Sums

  type CatchmentId = nat

  /** A row of `h3demographics`: one group's population in one cell. */
  datatype DemoRow = DemoRow(categoryType: string, h3id: Cell, groupName: string, population: nat)

  /** The grouping key of `catchment_stats`. */
  datatype GroupKey = GroupKey(categoryType: string, groupName: string)

  /** A row of `catchment_stats`. */
  datatype StatRow = StatRow(catchmentId: CatchmentId, categoryType: string, groupName: string, population: nat)

  /** A row of `step1_stats`. */
  datatype Step1Row = Step1Row(h3id: Cell, timeOfDay: string, categoryType: string, catchmentId: CatchmentId, ratio: nat)

  /** The numerator of the accessibility ratio. */
  const RatioScale: nat := 10000

  function KeyOf(r: DemoRow): GroupKey {
    GroupKey(r.categoryType, r.groupName)
  }

  /** SUM(population) over the demographic rows of group `k` that lie in a member cell. */
  function GroupPopulation(demo: seq<DemoRow>, cells: set<Cell>, k: GroupKey): nat
  {
    if demo == [] then 0
    else
      var r := demo[|demo| - 1];
      GroupPopulation(demo[..|demo| - 1], cells, k) + (if r.h3id in cells && KeyOf(r) == k then r.population else 0)
  }

  /** SUM(population) over the demographic rows of category `cat` that lie in a member cell. */
  function CategoryPopulation(demo: seq<DemoRow>, cells: set<Cell>, cat: string): nat
  {
    if demo == [] then 0
    else
      var r := demo[|demo| - 1];
      CategoryPopulation(demo[..|demo| - 1], cells, cat) + (if r.h3id in cells && r.categoryType == cat then r.population else 0)
  }

  /** The (categorytype, groupname) groups present among the member cells' rows. */
  function GroupKeys(demo: seq<DemoRow>, cells: set<Cell>): set<GroupKey> {
    set r | r in demo && r.h3id in cells :: KeyOf(r)
  }

  /** The categories present among the member cells' rows. */
  function Categories(demo: seq<DemoRow>, cells: set<Cell>): set<string> {
    set r | r in demo && r.h3id in cells :: r.categoryType
  }

  /** The first statement's GROUP BY: one total per group present among the member cells. */
  function GroupTotals(demo: seq<DemoRow>, cells: set<Cell>): map<GroupKey, nat> {
    map k | k in GroupKeys(demo, cells) :: GroupPopulation(demo, cells, k)
  }

  /** The groups of category `cat` in a table of group totals. */
  function CategoryKeys(totals: map<GroupKey, nat>, cat: string): set<GroupKey> {
    set k | k in totals.Keys && k.categoryType == cat
  }

  /** The `catchment_stats` rows inserted for catchment `id`. */
  function StatRows(id: CatchmentId, demo: seq<DemoRow>, cells: set<Cell>): set<StatRow> {
    set k | k in GroupKeys(demo, cells) :: StatRow(id, k.categoryType, k.groupName, GroupPopulation(demo, cells, k))
  }

  /** `CASE WHEN sum = 0 THEN 0 ELSE 10000 / sum END` on integers. */
  function Ratio(total: nat): (r: nat)
    ensures total == 0 ==> r == 0
    ensures total > 0 ==> r * total <= RatioScale < (r + 1) * total
  {
    if total == 0 then 0 else RatioScale / total
  }

  /**
   * The `step1_stats` rows inserted for catchment `id`: one per member cell
   * and category present, carrying the category's ratio.
   */
  function Step1Rows(id: CatchmentId, timeOfDay: string, demo: seq<DemoRow>, cells: set<Cell>): set<Step1Row> {
    set h, cat | h in cells && cat in Categories(demo, cells) ::
      Step1Row(h, timeOfDay, cat, id, Ratio(CategoryPopulation(demo, cells, cat)))
  }

  /** A group absent from the member cells' rows sums to zero. */
  lemma {:induction false} GroupPopulationAbsent(demo: seq<DemoRow>, cells: set<Cell>, k: GroupKey)
    requires k !in GroupKeys(demo, cells)
    ensures GroupPopulation(demo, cells, k) == 0
  {
    if demo != [] {
      var s := demo[..|demo| - 1];
      assert forall r :: r in s ==> r in demo;
      GroupPopulationAbsent(s, cells, k);
    }
  }

  /** Appending a row adds its group to the groups present, when it lies in a member cell. */
  lemma GroupKeysSnoc(s: seq<DemoRow>, r: DemoRow, cells: set<Cell>)
    ensures GroupKeys(s + [r], cells) == GroupKeys(s, cells) + (if r.h3id in cells then {KeyOf(r)} else {})
  {
  }

  /** Appending a row raises its own group's total, when it lies in a member cell, and no other. */
  lemma TotalsSnoc(s: seq<DemoRow>, r: DemoRow, cells: set<Cell>, k: GroupKey)
    ensures GroupPopulation(s + [r], cells, k)
         == GroupPopulation(s, cells, k) + (if r.h3id in cells && KeyOf(r) == k then r.population else 0)
  {
  }

  /**
   * The SQL for `step1_stats` sums the `catchment_stats` rows of a category;
   * that sum is the category's population over the member cells, so the
   * ratio can be taken from the demographic rows directly.
   */
  lemma {:induction false} CategorySumOfGroups(demo: seq<DemoRow>, cells: set<Cell>, cat: string)
    ensures SumOver(CategoryKeys(GroupTotals(demo, cells), cat), GroupTotals(demo, cells))
         == CategoryPopulation(demo, cells, cat)
  {
    if demo == [] {
      assert CategoryKeys(GroupTotals(demo, cells), cat) == {};
    } else {
      var s := demo[..|demo| - 1];
      var r := demo[|demo| - 1];
      assert demo == s + [r];
      CategorySumOfGroups(s, cells, cat);
      CategorySumStep(s, r, cells, cat);
    }
  }

  /** The inductive step of `CategorySumOfGroups`: appending one demographic row. */
  lemma CategorySumStep(s: seq<DemoRow>, r: DemoRow, cells: set<Cell>, cat: string)
    ensures var T := GroupTotals(s + [r], cells);
            var T' := GroupTotals(s, cells);
            SumOver(CategoryKeys(T, cat), T)
              == SumOver(CategoryKeys(T', cat), T') + (if r.h3id in cells && r.categoryType == cat then r.population else 0)
  {
    var T := GroupTotals(s + [r], cells);
    var T' := GroupTotals(s, cells);
    GroupKeysSnoc(s, r, cells);
    forall k | k in T'.Keys
      ensures k in T && T[k] == T'[k] + (if r.h3id in cells && KeyOf(r) == k then r.population else 0)
    {
      TotalsSnoc(s, r, cells, k);
    }
    if r.h3id in cells && r.categoryType == cat {
      TotalsSnoc(s, r, cells, KeyOf(r));
      if KeyOf(r) !in T' {
        GroupPopulationAbsent(s, cells, KeyOf(r));
      }
      SumStepRaise(T, T', KeyOf(r), r.population, cat);
    } else {
      SumStepSame(T, T', KeyOf(r), cat);
    }
  }

  /** Summing the groups of `cat` when the new key and its value lie outside that category. */
  lemma SumStepSame(T: map<GroupKey, nat>, T': map<GroupKey, nat>, kr: GroupKey, cat: string)
    requires T.Keys == T'.Keys || (T.Keys == T'.Keys + {kr} && kr.categoryType != cat)
    requires forall k :: k in T' && k.categoryType == cat ==> T[k] == T'[k]
    ensures SumOver(CategoryKeys(T, cat), T) == SumOver(CategoryKeys(T', cat), T')
  {
    assert CategoryKeys(T, cat) == CategoryKeys(T', cat);
    SumOverAgree(CategoryKeys(T, cat), T, T');
  }

  /** Summing the groups of `cat` when the new row of that category raises group `kr` by `d`. */
  lemma SumStepRaise(T: map<GroupKey, nat>, T': map<GroupKey, nat>, kr: GroupKey, d: nat, cat: string)
    requires kr.categoryType == cat && T.Keys == T'.Keys + {kr}
    requires forall k :: k in T' && k != kr ==> T[k] == T'[k]
    requires T[kr] == (if kr in T' then T'[kr] else 0) + d
    ensures SumOver(CategoryKeys(T, cat), T) == SumOver(CategoryKeys(T', cat), T') + d
  {
    var K := CategoryKeys(T, cat);
    var K' := CategoryKeys(T', cat);
    if kr in T' {
      assert K == K';
      SumOverRaise(K', T', kr, d);
      SumOverAgree(K, T, T'[kr := T'[kr] + d]);
    } else {
      assert K == K' + {kr};
      SumOverInsert(K', T, kr);
      SumOverAgree(K', T, T');
    }
  }

  /**
   * A catchment whose member cells hold no population of a category still
   * gets its rows: each group of that category with population 0, and each
   * member cell a ratio of 0.
   */
  lemma ZeroPopulationRows(id: CatchmentId, timeOfDay: string, demo: seq<DemoRow>, cells: set<Cell>, cat: string)
    requires cat in Categories(demo, cells) && CategoryPopulation(demo, cells, cat) == 0
    ensures forall h :: h in cells ==> Step1Row(h, timeOfDay, cat, id, 0) in Step1Rows(id, timeOfDay, demo, cells)
    ensures forall k :: k in GroupKeys(demo, cells) && k.categoryType == cat ==>
              StatRow(id, cat, k.groupName, 0) in StatRows(id, demo, cells)
  {
    var T := GroupTotals(demo, cells);
    forall k | k in GroupKeys(demo, cells) && k.categoryType == cat
      ensures GroupPopulation(demo, cells, k) == 0
    {
      CategorySumOfGroups(demo, cells, cat);
      assert k in CategoryKeys(T, cat);
      SumOverRemove(CategoryKeys(T, cat), T, k);
    }
  }
}
