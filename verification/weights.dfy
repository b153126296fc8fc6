/**
 * The user configuration of include/cli/cli.h (and of the older
 * src/cli.h): a power budget and a map from ability names to weights, and
 * `config::to_weights`, which lays the map out as one weight per ability
 * of the table.
 *
 * The map is an `unordered_map`, whose iteration order is unspecified; the
 * order is a parameter here, and the result is proved not to depend on it.
 */
module Weights {
  import opened Charms

  /** A `config`: the power budget (`max_cp`, a uint8) and the ability-name weights. */
  datatype Config = Config(maxCp: nat, abilityWeights: map<string, int>)

  /**
   * A default-constructed `config` of include/cli/cli.h: budget
   * CHARM_POWER_MAX and no weights. CHARM_POWER_MAX comes from the
   * generated charm header, which is not part of this model, so it is a
   * parameter.
   */
  function DefaultConfig(powerMax: nat): (c: Config)
    requires powerMax < 0x100
    ensures c.maxCp == powerMax && |c.abilityWeights| == 0
  {
    Config(powerMax, map[])
  }

  /** `order` visits every name of `entries` exactly once, as the map's iteration does. */
  predicate VisitOrder(entries: map<string, int>, order: seq<string>) {
    && (forall n :: n in entries ==> n in order)
    && (forall k :: 0 <= k < |order| ==> order[k] in entries)
    && (forall i, j :: 0 <= i < j < |order| ==> order[i] != order[j])
  }

  /** The all-zero `charm_weights{}`, one entry per ability. */
  function ZeroWeights(count: nat): (w: seq<int>)
    ensures |w| == count && forall i :: 0 <= i < count ==> w[i] == 0
  {
    seq(count, i => 0)
  }

  /**
   * The body of the `to_weights` loop over the names of `order`, in that
   * order: a name known to NAME_TO_ID writes its weight at its index; any
   * other name is skipped.
   */
  function Assign(names: seq<string>, entries: map<string, int>, order: seq<string>, w: seq<int>): (r: seq<int>)
    requires |w| == |names| && forall k :: 0 <= k < |order| ==> order[k] in entries
    ensures |r| == |names|
    decreases |order|
  {
    if order == [] then w
    else
      var n := order[0];
      var m := NameToId(names);
      var w' := if n in m then w[m[n] := entries[n]] else w;
      Assign(names, entries, order[1..], w')
  }

  /** `config::to_weights`, for a given iteration order of the map. */
  function ToWeights(names: seq<string>, c: Config, order: seq<string>): (r: seq<int>)
    requires VisitOrder(c.abilityWeights, order)
    ensures |r| == |names|
  {
    Assign(names, c.abilityWeights, order, ZeroWeights(|names|))
  }

  /** Ability index i belongs to its own name: NAME_TO_ID maps `names[i]` back to i. */
  predicate Owns(names: seq<string>, i: nat)
    requires i < |names|
  {
    NameToId(names)[names[i]] == i
  }

  /**
   * Reference definition of the projection: index i holds the weight of
   * the name NAME_TO_ID maps to i, when the map has an entry for it, and 0
   * otherwise.
   */
  function Projected(names: seq<string>, entries: map<string, int>): (r: seq<int>)
    ensures |r| == |names|
  {
    seq(|names|, i requires 0 <= i < |names| =>
      if Owns(names, i) && names[i] in entries then entries[names[i]] else 0)
  }

  /**
   * Applying the loop body over distinct names leaves an index owned by
   * one of them holding that name's weight, and every other index as it
   * was.
   */
  lemma {:induction false} AssignEffect(names: seq<string>, entries: map<string, int>, order: seq<string>, w: seq<int>)
    requires |w| == |names| && forall k :: 0 <= k < |order| ==> order[k] in entries
    requires forall a, b :: 0 <= a < b < |order| ==> order[a] != order[b]
    ensures forall i :: 0 <= i < |names| ==>
      Assign(names, entries, order, w)[i] == if Owns(names, i) && names[i] in order then entries[names[i]] else w[i]
    decreases |order|
  {
    if order != [] {
      var n := order[0];
      var m := NameToId(names);
      var w' := if n in m then w[m[n] := entries[n]] else w;
      var rest := order[1..];
      AssignEffect(names, entries, rest, w');
      forall i | 0 <= i < |names|
        ensures Assign(names, entries, order, w)[i] == if Owns(names, i) && names[i] in order then entries[names[i]] else w[i]
      {
        assert names[i] in order <==> names[i] == n || names[i] in rest;
        assert n !in rest by {
          forall k | 0 <= k < |rest|
            ensures rest[k] != n
          {
            assert rest[k] == order[k + 1];
          }
        }
        assert names[i] in m;
      }
    }
  }

  /**
   * `to_weights` equals the reference projection whatever order the map
   * is visited in: every index starts at 0 and only the owning name's
   * entry writes it.
   */
  lemma ToWeightsProjects(names: seq<string>, c: Config, order: seq<string>)
    requires VisitOrder(c.abilityWeights, order)
    ensures ToWeights(names, c, order) == Projected(names, c.abilityWeights)
  {
    AssignEffect(names, c.abilityWeights, order, ZeroWeights(|names|));
  }

  /** The result does not depend on the map's iteration order. */
  lemma ToWeightsAnyOrder(names: seq<string>, c: Config, order1: seq<string>, order2: seq<string>)
    requires VisitOrder(c.abilityWeights, order1) && VisitOrder(c.abilityWeights, order2)
    ensures ToWeights(names, c, order1) == ToWeights(names, c, order2)
  {
    ToWeightsProjects(names, c, order1);
    ToWeightsProjects(names, c, order2);
  }

  /** Each known name's weight lands at its NAME_TO_ID index. */
  lemma ToWeightsKnown(names: seq<string>, c: Config, order: seq<string>, n: string)
    requires VisitOrder(c.abilityWeights, order)
    requires n in c.abilityWeights && n in NameToId(names)
    ensures ToWeights(names, c, order)[NameToId(names)[n]] == c.abilityWeights[n]
  {
    ToWeightsProjects(names, c, order);
  }

  /** An index no entry of the map names holds 0. */
  lemma ToWeightsUnnamed(names: seq<string>, c: Config, order: seq<string>, i: nat)
    requires VisitOrder(c.abilityWeights, order) && i < |names|
    requires forall n :: n in c.abilityWeights && n in NameToId(names) ==> NameToId(names)[n] != i
    ensures ToWeights(names, c, order)[i] == 0
  {
    ToWeightsProjects(names, c, order);
    assert names[i] in NameToId(names);
  }

  /**
   * Names NAME_TO_ID does not know are ignored: the result is the same as
   * for the map restricted to known names.
   */
  lemma ToWeightsKnownOnly(names: seq<string>, c: Config, order: seq<string>, known: seq<string>)
    requires VisitOrder(c.abilityWeights, order)
    requires VisitOrder(KnownEntries(names, c.abilityWeights), known)
    ensures ToWeights(names, c, order) == ToWeights(names, Config(c.maxCp, KnownEntries(names, c.abilityWeights)), known)
  {
    ToWeightsProjects(names, c, order);
    ToWeightsProjects(names, Config(c.maxCp, KnownEntries(names, c.abilityWeights)), known);
    var p1 := Projected(names, c.abilityWeights);
    var p2 := Projected(names, KnownEntries(names, c.abilityWeights));
    forall i | 0 <= i < |names|
      ensures p1[i] == p2[i]
    {
      assert names[i] in NameToId(names);
    }
  }

  /** The entries of the map whose names NAME_TO_ID knows. */
  function KnownEntries(names: seq<string>, entries: map<string, int>): (r: map<string, int>)
    ensures forall n :: n in r <==> n in entries && n in NameToId(names)
    ensures forall n :: n in r ==> r[n] == entries[n]
  {
    map n | n in entries && n in NameToId(names) :: entries[n]
  }

  /** A default configuration yields all-zero weights. */
  lemma DefaultWeightsZero(names: seq<string>, powerMax: nat)
    requires powerMax < 0x100
    ensures ToWeights(names, DefaultConfig(powerMax), []) == ZeroWeights(|names|)
  {
  }
}
