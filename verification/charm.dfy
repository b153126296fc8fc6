/**
 * The charm catalog entry, the selection-size constants and the
 * ability-name lookup table (include/common/charm.h).
 *
 * The generated ability table (ability names and caps, and therefore
 * ABILITY_COUNT) is not part of this model: it is a parameter, an
 * `AbilityTable`, and ABILITY_COUNT is the length of its name list.
 */
module Charms {

  /** Largest number of charms in one selection. */
  const CHARM_COUNT_MAX: nat := 7

  /** Charm ids are 32-bit unsigned; the all-ones id marks an unused slot. */
  const MISSING_ID: nat := 0xFFFF_FFFF

  /**
   * One catalog entry. Its name and colour only matter for reporting and
   * are left out; `raw` holds one value per ability of the table.
   */
  datatype Charm = Charm(power: nat, hasUpgrade: bool, raw: seq<real>)

  /** The generated ability table: one name and one cap per ability. */
  datatype AbilityTable = AbilityTable(names: seq<string>, caps: seq<real>)

  /** The table has a cap per name and no cap is zero (every cap is a divisor). */
  predicate ValidTable(t: AbilityTable) {
    && |t.caps| == |t.names|
    && forall a :: 0 <= a < |t.caps| ==> t.caps[a] != 0.0
  }

  /** A charm carries exactly one raw value per ability of the table. */
  predicate CharmFits(t: AbilityTable, c: Charm) {
    |c.raw| == |t.names|
  }

  /**
   * NAME_TO_ID: every ability name is mapped to its index; when a name
   * occurs twice the later index wins, because the construction loop
   * overwrites; there are no other keys.
   */
  function NameToId(names: seq<string>): (m: map<string, nat>)
    ensures m.Keys == set i | 0 <= i < |names| :: names[i]
    ensures forall name :: name in m ==> m[name] < |names| && names[m[name]] == name
    ensures forall name, i :: name in m && 0 <= i < |names| && names[i] == name ==> i <= m[name]
    decreases |names|
  {
    if names == [] then map[]
    else
      var prefix := names[..|names| - 1];
      var m := NameToId(prefix);
      assert forall i :: 0 <= i < |prefix| ==> prefix[i] == names[i];
      m[names[|names| - 1] := |names| - 1]
  }

  /** Two different known names never share an ability index. */
  lemma {:induction false} NameToIdInjective(names: seq<string>, n1: string, n2: string)
    requires n1 in NameToId(names) && n2 in NameToId(names) && n1 != n2
    ensures NameToId(names)[n1] != NameToId(names)[n2]
  {
    var m := NameToId(names);
    assert names[m[n1]] == n1 && names[m[n2]] == n2;
  }
}
