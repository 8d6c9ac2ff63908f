/**
 * The `healers_count` cell of the export (backup.py:124): the number of
 * roster entries whose FIRST spec's role, lower-cased, contains "healer".
 */
module Roster {
  import opened Wrappers
  import opened Text
  import opened Report

  /** `player.get('specs')` is truthy: present and non-empty. */
  predicate HasSpecs(p: Player) {
    p.specs.Some? && |p.specs.value| > 0
  }

  /** `'healer' in player['specs'][0].get('role', '').lower()`, guarded by a truthy `specs`. */
  predicate IsHealer(p: Player) {
    HasSpecs(p) && Contains(Lower(p.specs.value[0].role.GetOr("")), "healer")
  }

  /** `sum(1 for player in composition if ...)`; it never exceeds the roster size. */
  function HealersCount(composition: seq<Player>): (count: nat)
    ensures count <= |composition|
  {
    if composition == [] then 0
    else (if IsHealer(composition[0]) then 1 else 0) + HealersCount(composition[1..])
  }

  /** The count over a concatenation is the sum of the counts. */
  lemma {:induction false} HealersCountAppend(a: seq<Player>, b: seq<Player>)
    ensures HealersCount(a + b) == HealersCount(a) + HealersCount(b)
  {
    if a == [] {
      assert a + b == b;
    } else {
      assert (a + b)[1..] == a[1..] + b;
      HealersCountAppend(a[1..], b);
    }
  }

  /** The count equals the roster size exactly when every entry is a healer. */
  lemma {:induction false} HealersCountAll(composition: seq<Player>)
    ensures HealersCount(composition) == |composition| <==> forall i :: 0 <= i < |composition| ==> IsHealer(composition[i])
  {
    if composition != [] {
      HealersCountAll(composition[1..]);
      if !IsHealer(composition[0]) {
        assert HealersCount(composition) < |composition|;
      }
      assert forall i :: 1 <= i < |composition| ==> composition[i] == composition[1..][i - 1];
    }
  }

  /** The count is zero exactly when no entry is a healer. */
  lemma {:induction false} HealersCountNone(composition: seq<Player>)
    ensures HealersCount(composition) == 0 <==> forall i :: 0 <= i < |composition| ==> !IsHealer(composition[i])
  {
    if composition != [] {
      HealersCountNone(composition[1..]);
      assert forall i :: 1 <= i < |composition| ==> composition[i] == composition[1..][i - 1];
    }
  }

  /** The entry reduced to its first spec (or left without specs when it has none). */
  function FirstSpecOnly(p: Player): Player {
    if HasSpecs(p) then p.(specs := Some([p.specs.value[0]])) else p
  }

  /** Only the first spec of each entry is consulted: dropping the others changes nothing. */
  lemma {:induction false} LaterSpecsIgnored(composition: seq<Player>)
    ensures HealersCount(composition) == HealersCount(seq(|composition|, i requires 0 <= i < |composition| => FirstSpecOnly(composition[i])))
  {
    var reduced := seq(|composition|, i requires 0 <= i < |composition| => FirstSpecOnly(composition[i]));
    if composition != [] {
      assert reduced[1..] == seq(|composition[1..]|, i requires 0 <= i < |composition[1..]| => FirstSpecOnly(composition[1..][i]));
      LaterSpecsIgnored(composition[1..]);
      assert IsHealer(reduced[0]) == IsHealer(composition[0]);
    }
  }

  /** The role of the first spec, `''` when it has none. */
  function FirstRole(p: Player): string
    requires HasSpecs(p)
  {
    p.specs.value[0].role.GetOr("")
  }

  /** The entry with its first role replaced by `role`, later specs kept. */
  function WithFirstRole(p: Player, role: string): Player
    requires HasSpecs(p)
  {
    p.(specs := Some([Spec(Some(role))] + p.specs.value[1..]))
  }

  /**
   * The rules of the role test, for every entry: no specs is no healer;
   * only the first spec is read; the role's letter case does not matter, so
   * entries whose first roles agree once lower-cased agree, and lower-casing
   * the role of an entry changes nothing.
   */
  lemma RoleRules(p: Player, q: Player)
    ensures !HasSpecs(p) ==> !IsHealer(p)
    ensures HasSpecs(p) ==> (IsHealer(FirstSpecOnly(p)) <==> IsHealer(p))
    ensures HasSpecs(p) && HasSpecs(q) && Lower(FirstRole(p)) == Lower(FirstRole(q)) ==> (IsHealer(p) <==> IsHealer(q))
    ensures HasSpecs(p) ==> (IsHealer(WithFirstRole(p, Lower(FirstRole(p)))) <==> IsHealer(p))
  {
    if HasSpecs(p) {
      var p' := WithFirstRole(p, Lower(FirstRole(p)));
      assert FirstRole(p') == Lower(FirstRole(p));
      LowerIdempotent(FirstRole(p));
    }
  }

  /** Examples of the rules: "Healer" and "HEALER" both count; a later healer spec or an empty spec list does not. */
  lemma CaseInsensitiveRole()
    ensures IsHealer(Player("p", Some([Spec(Some("Healer"))])))
    ensures IsHealer(Player("p", Some([Spec(Some("HEALER")), Spec(Some("dps"))])))
    ensures !IsHealer(Player("p", Some([Spec(Some("dps")), Spec(Some("healer"))])))
    ensures !IsHealer(Player("p", Some([])))
  {
    assert Lower("Healer") == "healer";
    assert Lower("HEALER") == "healer";
    ShorterNotContains(Lower("dps"), "healer");
  }
}
