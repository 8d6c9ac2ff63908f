/**
 * The stat block of the export: `modify_combatant_info_data`
 * (backup.py:76-85) flattens `combatantInfo.stats` into key/value rows, and
 * `get_highest_secondary_stat` (backup.py:87-94) picks the secondary stat
 * with the largest `min`.
 */
module Stats {
  import opened Wrappers
  import opened Report

  /** The exceptions the stat code can raise on a well-formed JSON payload. */
  datatype StatError =
    | StatNotInteger(key: string)      // int() of an object without "min" (TypeError)
    | StatNotSubscriptable(stat: string) // `value['min']` on a bare number (TypeError)
    | StatMinMissing(stat: string)     // `value['min']` on an object without "min" (KeyError)

  /** One flattened row: `{'info_key': key, 'info_value': value}`. */
  datatype StatRow = StatRow(infoKey: string, infoValue: int)

  /**
   * The value a stat contributes to its row: the object's "min" when it is an
   * object holding one, otherwise the value itself, then passed to `int()`;
   * None where `int()` refuses (an object without "min").
   */
  function Flattened(v: StatValue): Option<int> {
    match v
    case Number(n) => Some(n)
    case Object(fields) => Get(fields, "min")
  }

  /** The stat rows `modify_combatant_info_data` produces when every stat can be made an integer: key and flattened value, in key order. */
  ghost function StatRowsOf(stats: seq<(string, StatValue)>): seq<StatRow>
    requires forall k :: 0 <= k < |stats| ==> Flattened(stats[k].1).Some?
  {
    seq(|stats|, k requires 0 <= k < |stats| => StatRow(stats[k].0, Flattened(stats[k].1).value))
  }

  /**
   * `modify_combatant_info_data`: one row per stat in key order, or the
   * TypeError of the first stat whose value cannot be made an integer.
   */
  method ModifyCombatantInfoData(info: CombatantInfo) returns (r: Result<seq<StatRow>, StatError>)
    ensures r.Success? <==> forall k :: 0 <= k < |StatsOf(info)| ==> Flattened(StatsOf(info)[k].1).Some?
    ensures r.Success? ==> r.value == StatRowsOf(StatsOf(info))
    ensures r.Failure? ==>
              exists k :: 0 <= k < |StatsOf(info)| && Flattened(StatsOf(info)[k].1).None?
                && r.error == StatNotInteger(StatsOf(info)[k].0)
                && forall j :: 0 <= j < k ==> Flattened(StatsOf(info)[j].1).Some?
  {
    var statsData := info.stats.GetOr([]);
    var rows: seq<StatRow> := [];
    for i := 0 to |statsData|
      invariant |rows| == i
      invariant forall k :: 0 <= k < i ==> Flattened(statsData[k].1).Some?
      invariant forall k :: 0 <= k < i ==> rows[k] == StatRow(statsData[k].0, Flattened(statsData[k].1).value)
    {
      var (statKey, statValue) := statsData[i];
      var valueToAdd := Flattened(statValue);
      if valueToAdd.None? {
        assert statsData == StatsOf(info) && Flattened(statsData[i].1).None?;
        return Failure(StatNotInteger(statKey));
      }
      rows := rows + [StatRow(statKey, valueToAdd.value)];
    }
    return Success(rows);
  }

  /** The candidates, in the order `max` visits them. */
  const SecondaryStats: seq<string> := ["Mastery", "Haste", "Crit", "Versatility"]

  /** The ranking key `stats_data.get(stat, {'min': 0})['min']`, or the exception it raises. */
  function RankingValue(stats: seq<(string, StatValue)>, stat: string): Result<int, StatError> {
    var found: Option<StatValue> := Get(stats, stat);
    match found
    case None => Success(0)
    case Some(Number(_)) => Failure(StatNotSubscriptable(stat))
    case Some(Object(fields)) =>
      match Get(fields, "min")
      case None => Failure(StatMinMissing(stat))
      case Some(m) => Success(m)
  }

  /** The ranking keys of `candidates` in order, or the exception of the first one that raises. */
  function RankingValues(stats: seq<(string, StatValue)>, candidates: seq<string>): (r: Result<seq<int>, StatError>)
    ensures r.Success? <==> forall k :: 0 <= k < |candidates| ==> RankingValue(stats, candidates[k]).Success?
    ensures r.Success? ==> |r.value| == |candidates|
    ensures r.Success? ==> forall k :: 0 <= k < |candidates| ==> r.value[k] == RankingValue(stats, candidates[k]).value
    ensures r.Failure? ==>
              exists k :: 0 <= k < |candidates| && RankingValue(stats, candidates[k]) == Failure(r.error)
                && forall j :: 0 <= j < k ==> RankingValue(stats, candidates[j]).Success?
  {
    if candidates == [] then Success([])
    else
      var head := RankingValue(stats, candidates[0]);
      if head.Failure? then Failure(head.error)
      else
        var tail := RankingValues(stats, candidates[1..]);
        assert forall k :: 1 <= k < |candidates| ==> candidates[k] == candidates[1..][k - 1];
        if tail.Failure? then
          ghost var k :| 0 <= k < |candidates[1..]| && RankingValue(stats, candidates[1..][k]) == Failure(tail.error)
                       && forall j :: 0 <= j < k ==> RankingValue(stats, candidates[1..][j]).Success?;
          assert RankingValue(stats, candidates[k + 1]) == Failure(tail.error);
          Failure(tail.error)
        else Success([head.value] + tail.value)
  }

  /**
   * The index `max` returns: the first position holding the largest value,
   * since `max` replaces its running best only on a strictly larger key.
   */
  function FirstMaxIndex(xs: seq<int>): (k: nat)
    requires |xs| > 0
    ensures k < |xs|
    ensures forall j :: 0 <= j < |xs| ==> xs[j] <= xs[k]
    ensures forall j :: 0 <= j < k ==> xs[j] < xs[k]
  {
    if |xs| == 1 then 0
    else
      var k := 1 + FirstMaxIndex(xs[1..]);
      assert forall j :: 1 <= j < |xs| ==> xs[j] == xs[1..][j - 1];
      if xs[0] >= xs[k] then 0 else k
  }

  /**
   * `get_highest_secondary_stat`: the candidate whose `min` is largest, the
   * earliest one on a tie, with absent stats counting as 0.
   */
  function HighestSecondaryStat(stats: seq<(string, StatValue)>): (r: Result<string, StatError>)
    ensures r.Success? <==> forall k :: 0 <= k < |SecondaryStats| ==> RankingValue(stats, SecondaryStats[k]).Success?
    ensures r.Success? ==>
              exists k :: 0 <= k < |SecondaryStats| && r.value == SecondaryStats[k]
                && (forall j :: 0 <= j < |SecondaryStats| ==>
                      RankingValue(stats, SecondaryStats[j]).value <= RankingValue(stats, SecondaryStats[k]).value)
                && (forall j :: 0 <= j < k ==>
                      RankingValue(stats, SecondaryStats[j]).value < RankingValue(stats, SecondaryStats[k]).value)
    ensures r.Failure? ==>
              exists k :: 0 <= k < |SecondaryStats| && RankingValue(stats, SecondaryStats[k]) == Failure(r.error)
                && forall j :: 0 <= j < k ==> RankingValue(stats, SecondaryStats[j]).Success?
  {
    var values :- RankingValues(stats, SecondaryStats);
    Success(SecondaryStats[FirstMaxIndex(values)])
  }

  /** With no stat block at all every candidate ranks 0, and the first one wins. */
  lemma NoStatsGivesMastery()
    ensures HighestSecondaryStat([]) == Success("Mastery")
  {
    var values := RankingValues([], SecondaryStats);
    assert values.Success? && values.value == [0, 0, 0, 0];
  }

  /**
   * A candidate that ties with an earlier one is never the answer: the
   * earlier candidate wins.
   */
  lemma TieGoesToEarlierCandidate(stats: seq<(string, StatValue)>, i: nat, j: nat)
    requires HighestSecondaryStat(stats).Success?
    requires i < j < |SecondaryStats|
    requires RankingValue(stats, SecondaryStats[i]).value == RankingValue(stats, SecondaryStats[j]).value
    ensures HighestSecondaryStat(stats).value != SecondaryStats[j]
  {
    CandidatesDistinct();
  }

  lemma CandidatesDistinct()
    ensures forall a, b :: 0 <= a < b < |SecondaryStats| ==> SecondaryStats[a] != SecondaryStats[b]
  {
    assert forall a, b :: 0 <= a < b < |SecondaryStats| ==> |SecondaryStats[a]| != |SecondaryStats[b]|;
  }
}
