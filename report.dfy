/**
 * The player report payload that `process_data_and_export` receives
 * (backup.py:118-130), as typed records. A JSON object becomes a sequence of
 * key/value pairs in document order; a key that may be missing becomes an
 * Option, and the accessors below supply the defaults the code passes to
 * `dict.get`.
 */
module Report {
  import opened Wrappers

  /** Python's `d.get(key)` on a JSON object: the value of the first pair with that key. */
  function Get<V>(d: seq<(string, V)>, key: string): (r: Option<V>)
    ensures r.Some? <==> exists i :: 0 <= i < |d| && d[i].0 == key
    ensures r.Some? ==> exists i :: 0 <= i < |d| && d[i] == (key, r.value) && forall j :: 0 <= j < i ==> d[j].0 != key
  {
    if d == [] then None
    else if d[0].0 == key then Some(d[0].1)
    else
      var r := Get(d[1..], key);
      assert forall i :: 1 <= i < |d| ==> d[i] == d[1..][i - 1];
      if r.Some? then
        assert exists i :: 1 <= i < |d| && d[i] == (key, r.value) && forall j :: 0 <= j < i ==> d[j].0 != key;
        r
      else r
  }

  /** One spec of a roster entry; `role` is None when the key is absent. */
  datatype Spec = Spec(role: Option<string>)

  /** One entry of `composition`; `specs` is None when the key is absent. */
  datatype Player = Player(name: string, specs: Option<seq<Spec>>)

  /** One entry of `healingDone`. */
  datatype HealingEntry = HealingEntry(name: string, total: int)

  /** A stat value: a bare number, or an object such as {"min": x, "max": y}. */
  datatype StatValue = Number(n: int) | Object(fields: seq<(string, int)>)

  /** One gem socketed in a gear item. */
  datatype Gem = Gem(id: int)

  /** One gear item; `gems` is None when the item has no "gems" key. */
  datatype GearItem = GearItem(gems: Option<seq<Gem>>)

  datatype CombatantInfo = CombatantInfo(stats: Option<seq<(string, StatValue)>>, gear: Option<seq<GearItem>>)

  datatype PlayerReport = PlayerReport(
    totalTime: Option<int>,
    composition: Option<seq<Player>>,
    healingDone: Option<seq<HealingEntry>>,
    combatantInfo: Option<CombatantInfo>)

  /** `data.get('totalTime', 0)` */
  function TotalTimeOf(d: PlayerReport): int {
    d.totalTime.GetOr(0)
  }

  /** `data.get('composition', [])` */
  function CompositionOf(d: PlayerReport): seq<Player> {
    d.composition.GetOr([])
  }

  /** `data.get('healingDone', [])` */
  function HealingDoneOf(d: PlayerReport): seq<HealingEntry> {
    d.healingDone.GetOr([])
  }

  /** `data.get('combatantInfo', {})` */
  function CombatantInfoOf(d: PlayerReport): CombatantInfo {
    d.combatantInfo.GetOr(CombatantInfo(None, None))
  }

  /** `combatant_info.get('stats', {})` */
  function StatsOf(info: CombatantInfo): seq<(string, StatValue)> {
    info.stats.GetOr([])
  }

  /** `combatant_info.get('gear', [])` */
  function GearOf(info: CombatantInfo): seq<GearItem> {
    info.gear.GetOr([])
  }
}
