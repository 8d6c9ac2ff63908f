/**
 * `process_data_and_export` (backup.py:118-162): the report is reduced to
 * its cells (total time, healer count, stat rows, highest secondary stat,
 * healing rows, gem entries) and zipped by index into the rows of one CSV
 * file per player. The file itself is not modelled: the method returns its
 * path, header and rows.
 */
module Export {
  import opened Wrappers
  import opened Report
  import opened Duration
  import opened Roster
  import opened Stats
  import opened Healing
  import opened Gems

  /** The exceptions the export can raise before any file is written. */
  datatype ExportError =
    | DurationOverflow(ms: int)   // timedelta's OverflowError
    | BadStat(error: StatError)

  /** The CSV header, in `fieldnames` order (backup.py:137-141). */
  const FieldNames: seq<string> := [
    "total_time", "healers_count", "stats", "stats_total",
    "highest_secondary", "ability_name", "healing_done_total",
    "gem_name", "gem_count"]

  /** One body row, its fields in `FieldNames` order; None is an empty cell. */
  datatype Row = Row(
    totalTime: Option<string>,
    healersCount: Option<nat>,
    stats: Option<string>,
    statsTotal: Option<int>,
    highestSecondary: Option<string>,
    abilityName: Option<string>,
    healingDoneTotal: Option<int>,
    gemName: Option<string>,
    gemCount: Option<nat>)

  /** What would be written: the file path, the header and the body rows. */
  datatype CsvFile = CsvFile(path: string, header: seq<string>, rows: seq<Row>)

  /** `f"csv-output/{name}_modified.csv"` */
  function OutputPath(name: string): string {
    "csv-output/" + name + "_modified.csv"
  }

  function Max(a: nat, b: nat): nat {
    if a >= b then a else b
  }

  /**
   * The rows are the stat and healing lists zipped by index, as many as the
   * longer of the two (the gem list does not count towards this, so gem
   * entries beyond that length are lost); a list contributes empty cells
   * past its end; the three single values appear in row 0 only.
   */
  ghost predicate RowsAligned(rows: seq<Row>, totalTime: string, healersCount: nat, statRows: seq<StatRow>,
                              highest: string, healingRows: seq<HealingRow>, gems: seq<GemInfo>)
  {
    && |rows| == Max(|statRows|, |healingRows|)
    && (forall i :: 0 <= i < |rows| ==>
          && rows[i].totalTime == (if i == 0 then Some(totalTime) else None)
          && rows[i].healersCount == (if i == 0 then Some(healersCount) else None)
          && rows[i].highestSecondary == (if i == 0 then Some(highest) else None))
    && (forall i :: 0 <= i < |rows| ==>
          && rows[i].stats == (if i < |statRows| then Some(statRows[i].infoKey) else None)
          && rows[i].statsTotal == (if i < |statRows| then Some(statRows[i].infoValue) else None))
    && (forall i :: 0 <= i < |rows| ==>
          && rows[i].abilityName == (if i < |healingRows| then Some(healingRows[i].ability) else None)
          && rows[i].healingDoneTotal == (if i < |healingRows| then Some(healingRows[i].healingAmount) else None))
    && (forall i :: 0 <= i < |rows| ==>
          && rows[i].gemName == (if i < |gems| then Some(gems[i].gemName) else None)
          && rows[i].gemCount == (if i < |gems| then Some(gems[i].gemCount) else None))
  }

  /** The `for i in range(max_rows)` loop (backup.py:146-159). */
  method BuildRows(totalTime: string, healersCount: nat, statRows: seq<StatRow>, highest: string,
                   healingRows: seq<HealingRow>, gems: seq<GemInfo>) returns (rows: seq<Row>)
    ensures RowsAligned(rows, totalTime, healersCount, statRows, highest, healingRows, gems)
  {
    var maxRows := Max(|statRows|, |healingRows|);
    rows := [];
    for i := 0 to maxRows
      invariant |rows| == i
      invariant forall k :: 0 <= k < i ==> rows[k] == Row(
                  if k == 0 then Some(totalTime) else None,
                  if k == 0 then Some(healersCount) else None,
                  if k < |statRows| then Some(statRows[k].infoKey) else None,
                  if k < |statRows| then Some(statRows[k].infoValue) else None,
                  if k == 0 then Some(highest) else None,
                  if k < |healingRows| then Some(healingRows[k].ability) else None,
                  if k < |healingRows| then Some(healingRows[k].healingAmount) else None,
                  if k < |gems| then Some(gems[k].gemName) else None,
                  if k < |gems| then Some(gems[k].gemCount) else None)
    {
      var rowData := Row(
        totalTime := if i == 0 then Some(totalTime) else None,
        healersCount := if i == 0 then Some(healersCount) else None,
        stats := if i < |statRows| then Some(statRows[i].infoKey) else None,
        statsTotal := if i < |statRows| then Some(statRows[i].infoValue) else None,
        highestSecondary := if i == 0 then Some(highest) else None,
        gemName := if i < |gems| then Some(gems[i].gemName) else None,
        gemCount := if i < |gems| then Some(gems[i].gemCount) else None,
        abilityName := if i < |healingRows| then Some(healingRows[i].ability) else None,
        healingDoneTotal := if i < |healingRows| then Some(healingRows[i].healingAmount) else None);
      rows := rows + [rowData];
    }
  }

  /**
   * Two stat rows, five gem entries and no healing rows give two body
   * rows: the gem entries from the third on reach no row.
   */
  lemma GemsDoNotExtendTheRows(rows: seq<Row>, totalTime: string, healersCount: nat, statRows: seq<StatRow>,
                               highest: string, gems: seq<GemInfo>)
    requires |statRows| == 2 && |gems| == 5
    requires RowsAligned(rows, totalTime, healersCount, statRows, highest, [], gems)
    ensures |rows| == 2
    ensures forall i :: 0 <= i < |rows| ==> rows[i].gemName == Some(gems[i].gemName)
  {
  }

  /** Without stat rows and healing rows no body row is written, whatever the gems. */
  lemma NoBodyRowsWithoutStatsOrHealing(rows: seq<Row>, totalTime: string, healersCount: nat, highest: string,
                                        gems: seq<GemInfo>)
    requires RowsAligned(rows, totalTime, healersCount, [], highest, [], gems)
    ensures rows == []
  {
  }

  /** The conditions under which the export raises nothing. */
  ghost predicate Exportable(data: PlayerReport) {
    var stats := StatsOf(CombatantInfoOf(data));
    && TotalTime(TotalTimeOf(data)).Some?
    && (forall k :: 0 <= k < |stats| ==> Flattened(stats[k].1).Some?)
    && HighestSecondaryStat(stats).Success?
  }

  /**
   * `process_data_and_export`: the first exception in evaluation order
   * (total time, then the stat rows, then the highest secondary stat), or
   * the file with its rows aligned from the report.
   */
  method ProcessDataAndExport(name: string, data: PlayerReport) returns (r: Result<CsvFile, ExportError>)
    ensures r.Success? <==> Exportable(data)
    ensures TotalTime(TotalTimeOf(data)).None? ==> r == Failure(DurationOverflow(TotalTimeOf(data)))
    ensures var stats := StatsOf(CombatantInfoOf(data));
            TotalTime(TotalTimeOf(data)).Some? && !(forall k :: 0 <= k < |stats| ==> Flattened(stats[k].1).Some?) ==>
              exists k :: 0 <= k < |stats| && Flattened(stats[k].1).None?
                && r == Failure(BadStat(StatNotInteger(stats[k].0)))
                && forall j :: 0 <= j < k ==> Flattened(stats[j].1).Some?
    ensures var stats := StatsOf(CombatantInfoOf(data));
            TotalTime(TotalTimeOf(data)).Some? && (forall k :: 0 <= k < |stats| ==> Flattened(stats[k].1).Some?)
              && HighestSecondaryStat(stats).Failure? ==>
              r == Failure(BadStat(HighestSecondaryStat(stats).error))
    ensures r.Success? ==>
              var info := CombatantInfoOf(data);
              && r.value.path == OutputPath(name)
              && r.value.header == FieldNames
              && RowsAligned(r.value.rows, TotalTime(TotalTimeOf(data)).value, HealersCount(CompositionOf(data)),
                             StatRowsOf(StatsOf(info)), HighestSecondaryStat(StatsOf(info)).value,
                             HealingRowsOf(HealingDoneOf(data)), GemInfoOf(GearOf(info)))
  {
    var totalTime := TotalTime(TotalTimeOf(data));
    if totalTime.None? {
      return Failure(DurationOverflow(TotalTimeOf(data)));
    }
    var healersCount := HealersCount(CompositionOf(data));
    var modifiedHealingData := ModifyHealingDoneData(HealingDoneOf(data));
    var info := CombatantInfoOf(data);
    var modifiedCombatantInfoData := ModifyCombatantInfoData(info);
    if modifiedCombatantInfoData.Failure? {
      return Failure(BadStat(modifiedCombatantInfoData.error));
    }
    var highestSecondary := HighestSecondaryStat(StatsOf(info));
    if highestSecondary.Failure? {
      return Failure(BadStat(highestSecondary.error));
    }
    var gemInfoList := ProcessGems(GearOf(info));
    var rows := BuildRows(totalTime.value, healersCount, modifiedCombatantInfoData.value, highestSecondary.value,
                          modifiedHealingData, gemInfoList);
    return Success(CsvFile(OutputPath(name), FieldNames, rows));
  }
}
