/** `modify_healing_done_data` (backup.py:68-73): one row per healing entry. */
module Healing {
  import opened Report

  /** One flattened row: `{'ability': name, 'healing_amount': total}`. */
  datatype HealingRow = HealingRow(ability: string, healingAmount: int)

  /** The rows `modify_healing_done_data` produces: each entry's name and total, in input order. */
  ghost function HealingRowsOf(entries: seq<HealingEntry>): seq<HealingRow> {
    seq(|entries|, k requires 0 <= k < |entries| => HealingRow(entries[k].name, entries[k].total))
  }

  /** The loop builds exactly `HealingRowsOf(healingData)`. */
  method ModifyHealingDoneData(healingData: seq<HealingEntry>) returns (rows: seq<HealingRow>)
    ensures rows == HealingRowsOf(healingData)
  {
    rows := [];
    for i := 0 to |healingData|
      invariant |rows| == i
      invariant forall k :: 0 <= k < i ==> rows[k] == HealingRow(healingData[k].name, healingData[k].total)
    {
      var entry := healingData[i];
      rows := rows + [HealingRow(entry.name, entry.total)];
    }
  }
}
