/**
 * Gem tallying (backup.py:96-115): `process_gems` counts gem ids over all
 * gear items in first-seen order and names each id through the
 * `GEM_ID_TO_NAME` table; `id_to_name` looks an id up with a different
 * fallback name.
 */
module Gems {
  import opened Wrappers
  import opened Text
  import opened Report

  /** `GEM_ID_TO_NAME` (backup.py:240-266). */
  const GemIdToName: map<int, string> := map[
    192973 := "Forceful Nozdorite",
    192919 := "Crafty Alexstraszite",
    192955 := "Quick Ysemerald",
    192961 := "Keen Neltharite",
    192935 := "Energized Malygite",
    192976 := "Puissant Nozdorite",
    192938 := "Zen Malygite",
    192967 := "Fractured Neltharite",
    192922 := "Sensei's Alexstraszite",
    192948 := "Keen Ysemerald",
    192970 := "Jagged Nozdorite",
    192945 := "Crafty Ysemerald",
    192928 := "Deadly Alexstraszite",
    192932 := "Radiant Malygite",
    192958 := "Sensei's Neltharite",
    192979 := "Steady Nozdorite",
    192964 := "Zen Neltharite",
    192942 := "Stormy Malygite",
    192952 := "Energized Ysemerald",
    192925 := "Radiant Alexstraszite",
    192985 := "Fierce Illimited Diamond",
    192988 := "Skillful Illimited Diamond",
    192982 := "Inscribed Illimited Diamond",
    192991 := "Resplendent Illimited Diamond"
  ]

  /** The name `process_gems` gives an id: `GEM_ID_TO_NAME.get(id, f"Unknown Gem ID {id}")`. */
  function GemName(id: int): string {
    if id in GemIdToName then GemIdToName[id] else "Unknown Gem ID " + IntToDecimal(id)
  }

  /** `id_to_name`: `GEM_ID_TO_NAME.get(id, "Unknown Gem")`. */
  function IdToName(id: int): string {
    if id in GemIdToName then GemIdToName[id] else "Unknown Gem"
  }

  /** One output entry: `{'gem_name': name, 'gem_count': count}`. */
  datatype GemInfo = GemInfo(gemName: string, gemCount: nat)

  /** The ids of `gems`, in order. */
  function Ids(gems: seq<Gem>): (ids: seq<int>)
    ensures |ids| == |gems| && forall k :: 0 <= k < |gems| ==> ids[k] == gems[k].id
  {
    seq(|gems|, k requires 0 <= k < |gems| => gems[k].id)
  }

  /** The ids of an item's gems in order; none when the item has no "gems" key. */
  function ItemGemIds(item: GearItem): seq<int> {
    match item.gems
    case None => []
    case Some(gems) => Ids(gems)
  }

  /** Every gem id the scan visits, item after item. */
  function GemIds(gear: seq<GearItem>): seq<int> {
    if gear == [] then [] else GemIds(gear[..|gear| - 1]) + ItemGemIds(gear[|gear| - 1])
  }

  /** The number of gems over the items that have a "gems" key. */
  function GemsInItems(gear: seq<GearItem>): nat {
    if gear == [] then 0
    else GemsInItems(gear[..|gear| - 1]) + (match gear[|gear| - 1].gems case None => 0 case Some(g) => |g|)
  }

  /** The distinct elements of `s` in the order of their first occurrence. */
  function FirstSeen(s: seq<int>): seq<int> {
    if s == [] then []
    else
      var prefix := FirstSeen(s[..|s| - 1]);
      if s[|s| - 1] in s[..|s| - 1] then prefix else prefix + [s[|s| - 1]]
  }

  /**
   * The dict `gem_count` after scanning `seen`: `order` is its insertion
   * order (the first-seen ids) and `counts` maps each id scanned to its
   * number of occurrences.
   */
  ghost predicate Tallied(seen: seq<int>, order: seq<int>, counts: map<int, nat>) {
    && order == FirstSeen(seen)
    && (forall id :: id in counts <==> multiset(seen)[id] > 0)
    && (forall id :: id in counts ==> counts[id] == multiset(seen)[id])
  }

  /** One step of the inner loop: `gem_count[gem_id] = gem_count.get(gem_id, 0) + 1`. */
  lemma TallyStep(seen: seq<int>, order: seq<int>, counts: map<int, nat>, x: int)
    requires Tallied(seen, order, counts)
    ensures Tallied(seen + [x], if x in counts then order else order + [x],
                    counts[x := (if x in counts then counts[x] else 0) + 1])
  {
    assert (x in counts) == (x in seen) by {
      assert (x in multiset(seen)) == (x in seen);
    }
    FirstSeenStep(seen, x);
    CountStep(seen, counts, x);
  }

  /** Scanning one more id appends it to the first-seen ids exactly when it is new. */
  lemma FirstSeenStep(seen: seq<int>, x: int)
    ensures FirstSeen(seen + [x]) == if x in seen then FirstSeen(seen) else FirstSeen(seen) + [x]
  {
    var s := seen + [x];
    assert s[..|s| - 1] == seen && s[|s| - 1] == x;
  }

  /** The count map, after one more id, still holds the occurrence counts. */
  lemma CountStep(seen: seq<int>, counts: map<int, nat>, x: int)
    requires forall id :: id in counts <==> multiset(seen)[id] > 0
    requires forall id :: id in counts ==> counts[id] == multiset(seen)[id]
    ensures var counts' := counts[x := (if x in counts then counts[x] else 0) + 1];
            && (forall id :: id in counts' <==> multiset(seen + [x])[id] > 0)
            && (forall id :: id in counts' ==> counts'[id] == multiset(seen + [x])[id])
  {
    var m := multiset(seen + [x]);
    assert m == multiset(seen) + multiset{x};
    var counts' := counts[x := (if x in counts then counts[x] else 0) + 1];
    forall id ensures id in counts' <==> m[id] > 0 {
      if id != x {
        assert m[id] == multiset(seen)[id];
      }
    }
    forall id | id in counts' ensures counts'[id] == m[id] {
      if id != x {
        assert m[id] == multiset(seen)[id];
      }
    }
  }

  /** Every id in the insertion order has its count in the map. */
  lemma TalliedOrder(seen: seq<int>, order: seq<int>, counts: map<int, nat>)
    requires Tallied(seen, order, counts)
    ensures forall k :: 0 <= k < |order| ==> order[k] in counts && counts[order[k]] == multiset(seen)[order[k]]
  {
    forall k | 0 <= k < |order| ensures order[k] in counts && counts[order[k]] == multiset(seen)[order[k]] {
      FirstSeenMembers(seen);
      var x := FirstSeen(seen)[k];
      assert x in FirstSeen(seen);
      assert x in multiset(seen);
    }
  }

  lemma GemIdsStep(gear: seq<GearItem>, i: nat)
    requires i < |gear|
    ensures GemIds(gear[..i + 1]) == GemIds(gear[..i]) + ItemGemIds(gear[i])
  {
    assert gear[..i + 1][..i] == gear[..i];
  }

  /**
   * The inner loop of `process_gems` (backup.py:103-106) over the gems of one
   * item: `gem_count[gem_id] = gem_count.get(gem_id, 0) + 1` for each gem.
   */
  method CountItemGems(gems: seq<Gem>, order: seq<int>, gemCount: map<int, nat>, ghost seen: seq<int>)
    returns (order': seq<int>, gemCount': map<int, nat>)
    requires Tallied(seen, order, gemCount)
    ensures Tallied(seen + Ids(gems), order', gemCount')
  {
    ghost var itemIds := Ids(gems);
    order', gemCount' := order, gemCount;
    ghost var scanned := seen;
    for j := 0 to |gems|
      invariant scanned == seen + itemIds[..j]
      invariant Tallied(scanned, order', gemCount')
    {
      var gemId := gems[j].id;
      ScanStep(seen, itemIds, j);
      TallyStep(scanned, order', gemCount', gemId);
      if gemId !in gemCount' {
        order' := order' + [gemId];
      }
      gemCount' := gemCount'[gemId := (if gemId in gemCount' then gemCount'[gemId] else 0) + 1];
      scanned := scanned + [gemId];
    }
    assert itemIds[..|gems|] == itemIds;
  }

  /** Scanning one more id of `ids` appends that id. */
  lemma ScanStep(seen: seq<int>, ids: seq<int>, j: nat)
    requires j < |ids|
    ensures seen + ids[..j + 1] == (seen + ids[..j]) + [ids[j]]
  {
    assert ids[..j + 1] == ids[..j] + [ids[j]];
  }

  /** The entries `process_gems` produces: the first-seen ids, each with its name and occurrence count. */
  ghost function GemInfoOf(gear: seq<GearItem>): seq<GemInfo> {
    var ids := GemIds(gear);
    var distinct := FirstSeen(ids);
    seq(|distinct|, k requires 0 <= k < |distinct| => GemInfo(GemName(distinct[k]), multiset(ids)[distinct[k]]))
  }

  /**
   * `process_gems`. The dict `gem_count` is modelled as the map from ids to
   * counts together with its insertion order, as Python's dict keeps it.
   */
  method ProcessGems(gearData: seq<GearItem>) returns (gemInfo: seq<GemInfo>)
    ensures gemInfo == GemInfoOf(gearData)
  {
    var gemCount: map<int, nat> := map[];
    var order: seq<int> := [];
    for i := 0 to |gearData|
      invariant Tallied(GemIds(gearData[..i]), order, gemCount)
    {
      var item := gearData[i];
      GemIdsStep(gearData, i);
      if item.gems.Some? {
        order, gemCount := CountItemGems(item.gems.value, order, gemCount, GemIds(gearData[..i]));
      } else {
        assert GemIds(gearData[..i + 1]) == GemIds(gearData[..i]);
      }
    }
    assert gearData[..|gearData|] == gearData;
    TalliedOrder(GemIds(gearData), order, gemCount);
    gemInfo := seq(|order|, k requires 0 <= k < |order| => GemInfo(GemName(order[k]), gemCount[order[k]]));
    InfoFromTally(gearData, order, gemCount, gemInfo);
  }

  /** Naming and counting the keys of a finished tally gives `GemInfoOf`. */
  lemma InfoFromTally(gear: seq<GearItem>, order: seq<int>, counts: map<int, nat>, gemInfo: seq<GemInfo>)
    requires Tallied(GemIds(gear), order, counts)
    requires |gemInfo| == |order|
    requires forall k :: 0 <= k < |order| ==> order[k] in counts && gemInfo[k] == GemInfo(GemName(order[k]), counts[order[k]])
    ensures gemInfo == GemInfoOf(gear)
  {
    TalliedOrder(GemIds(gear), order, counts);
  }

  /** An id appears among the first-seen ids exactly when it occurs at all. */
  lemma {:induction false} FirstSeenMembers(s: seq<int>)
    ensures forall x :: x in FirstSeen(s) <==> x in s
  {
    if s != [] {
      var p := s[..|s| - 1];
      FirstSeenMembers(p);
      assert s == p + [s[|s| - 1]];
    }
  }

  /** No id is listed twice. */
  lemma {:induction false} FirstSeenDistinct(s: seq<int>)
    ensures forall i, j :: 0 <= i < j < |FirstSeen(s)| ==> FirstSeen(s)[i] != FirstSeen(s)[j]
  {
    if s != [] {
      var p := s[..|s| - 1];
      FirstSeenDistinct(p);
      FirstSeenMembers(p);
    }
  }

  /** The position of the first occurrence of `x` in `s`. */
  function FirstIndex(s: seq<int>, x: int): (k: nat)
    requires x in s
    ensures k < |s| && s[k] == x && forall j :: 0 <= j < k ==> s[j] != x
  {
    if s[0] == x then 0 else 1 + FirstIndex(s[1..], x)
  }

  lemma {:induction false} FirstIndexAppend(s: seq<int>, y: int, x: int)
    requires x in s
    ensures FirstIndex(s + [y], x) == FirstIndex(s, x)
  {
    if s[0] != x {
      assert (s + [y])[1..] == s[1..] + [y];
      FirstIndexAppend(s[1..], y, x);
    }
  }

  /** The ids are listed in the order of their first occurrence in the scan. */
  lemma {:induction false} FirstSeenOrder(s: seq<int>)
    ensures forall x :: x in FirstSeen(s) ==> x in s
    ensures forall i, j :: 0 <= i < j < |FirstSeen(s)| ==>
              FirstIndex(s, FirstSeen(s)[i]) < FirstIndex(s, FirstSeen(s)[j])
  {
    FirstSeenMembers(s);
    if s != [] {
      var p, x := s[..|s| - 1], s[|s| - 1];
      assert s == p + [x];
      FirstSeenOrder(p);
      FirstSeenMembers(p);
      var fp := FirstSeen(p);
      forall i | 0 <= i < |fp| ensures FirstIndex(s, fp[i]) == FirstIndex(p, fp[i]) < |p| {
        FirstIndexAppend(p, x, fp[i]);
      }
      var fs := FirstSeen(s);
      if x in p {
        assert fs == fp;
      } else {
        assert fs == fp + [x];
        FirstIndexNew(p, x);
        forall i, j | 0 <= i < j < |fs| ensures FirstIndex(s, fs[i]) < FirstIndex(s, fs[j]) {
          if j < |fp| {
            assert fs[i] == fp[i] && fs[j] == fp[j];
          } else {
            assert fs[i] == fp[i] && fs[j] == x;
          }
        }
      }
    }
  }

  /** An id new to the scan first occurs where it is appended. */
  lemma FirstIndexNew(p: seq<int>, x: int)
    requires x !in p
    ensures FirstIndex(p + [x], x) == |p|
  {
  }

  /** The total of the counts `m[k]` over the keys `keys`. */
  function SumCounts(keys: seq<int>, m: multiset<int>): nat {
    if keys == [] then 0 else SumCounts(keys[..|keys| - 1], m) + m[keys[|keys| - 1]]
  }

  lemma {:induction false} SumCountsAdd(keys: seq<int>, m: multiset<int>, x: int)
    requires forall i, j :: 0 <= i < j < |keys| ==> keys[i] != keys[j]
    ensures SumCounts(keys, m + multiset{x}) == SumCounts(keys, m) + (if x in keys then 1 else 0)
  {
    if keys != [] {
      var p := keys[..|keys| - 1];
      SumCountsAdd(p, m, x);
      assert keys == p + [keys[|keys| - 1]];
    }
  }

  /** Every count is at least one, and the counts add up to the number of gems scanned. */
  lemma {:induction false} CountsSumToTotal(s: seq<int>)
    ensures forall k :: 0 <= k < |FirstSeen(s)| ==> multiset(s)[FirstSeen(s)[k]] >= 1
    ensures SumCounts(FirstSeen(s), multiset(s)) == |s|
  {
    FirstSeenMembers(s);
    if s != [] {
      var p := s[..|s| - 1];
      var x := s[|s| - 1];
      assert s == p + [x];
      assert multiset(s) == multiset(p) + multiset{x};
      CountsSumToTotal(p);
      FirstSeenDistinct(p);
      FirstSeenMembers(p);
      SumCountsAdd(FirstSeen(p), multiset(p), x);
      if x !in p {
        assert FirstSeen(s) == FirstSeen(p) + [x];
        assert FirstSeen(s)[..|FirstSeen(s)| - 1] == FirstSeen(p);
        assert multiset(p)[x] == 0;
      }
    }
  }

  /** The scan visits exactly the gems of the items that have a "gems" key. */
  lemma {:induction false} GemIdsCount(gear: seq<GearItem>)
    ensures |GemIds(gear)| == GemsInItems(gear)
  {
    if gear != [] {
      GemIdsCount(gear[..|gear| - 1]);
    }
  }

  /** For the gems of `gear`: the counts are positive and add up to the gems in items with a "gems" key. */
  lemma GemCountsTotal(gear: seq<GearItem>)
    ensures forall k :: 0 <= k < |FirstSeen(GemIds(gear))| ==> multiset(GemIds(gear))[FirstSeen(GemIds(gear))[k]] >= 1
    ensures SumCounts(FirstSeen(GemIds(gear)), multiset(GemIds(gear))) == GemsInItems(gear)
  {
    CountsSumToTotal(GemIds(gear));
    GemIdsCount(gear);
  }

  /**
   * An id missing from the table is named "Unknown Gem ID <id>" by
   * `process_gems` but "Unknown Gem" by `id_to_name`; ids in the table get
   * the same name from both.
   */
  lemma NameFallbacks(id: int)
    ensures id in GemIdToName ==> GemName(id) == IdToName(id) == GemIdToName[id]
    ensures id !in GemIdToName ==> GemName(id) == "Unknown Gem ID " + IntToDecimal(id)
    ensures id !in GemIdToName ==> IdToName(id) == "Unknown Gem" && GemName(id) != IdToName(id)
  {
    if id !in GemIdToName {
      assert GemName(id)[|"Unknown Gem"|] == ' ';
    }
  }

  /** Two different unknown ids never share a name in the `process_gems` output. */
  lemma UnknownNamesDistinct(a: int, b: int)
    requires a !in GemIdToName && b !in GemIdToName && a != b
    ensures GemName(a) != GemName(b)
  {
    if GemName(a) == GemName(b) {
      var prefix := "Unknown Gem ID ";
      assert GemName(a)[|prefix|..] == IntToDecimal(a);
      assert GemName(b)[|prefix|..] == IntToDecimal(b);
      IntToDecimalInjective(a, b);
    }
  }

  /** The id 999999 is not in the table, so it prints as "Unknown Gem ID 999999". */
  lemma UnknownIdExample()
    ensures GemName(999999) == "Unknown Gem ID 999999"
  {
    assert 999999 !in GemIdToName;
    assert NatToDecimal(9) == "9";
    assert NatToDecimal(99) == "99";
    assert NatToDecimal(999) == "999";
    assert NatToDecimal(9999) == "9999";
    assert NatToDecimal(99999) == "99999";
    assert NatToDecimal(999999) == "999999";
  }
}
