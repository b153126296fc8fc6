/**
 * The in-memory store of the bot's `UserData` (bot/data.ts): per-user
 * named weight configurations, each user's latest evaluation job, the
 * admin set, and the `dirty` flag the auto-save loop reads. Reading and
 * writing the save file are not part of this model.
 *
 * A JavaScript `Map` iterates in insertion order; a user's configurations
 * are therefore an ordered map, so that `fetchConfigs` lists names in the
 * order they were first created.
 */
module UserStore {

  datatype Option<T> = None | Some(value: T)

  /** A `UserWeightConfig`: ability name to weight, as text. */
  datatype WeightConfig = WeightConfig(weights: map<string, string>)

  /** A `UserEvalJob`. The power budget `cp` is a JavaScript number, kept here as an integer. */
  datatype EvalJob = EvalJob(owner: string, name: string, charmDataUrl: string, cp: int)

  /** One user's `Map<string, UserWeightConfig>`: the names in insertion order, and the value of each. */
  datatype NameMap = NameMap(order: seq<string>, configs: map<string, WeightConfig>)

  /** No name occurs twice. */
  predicate Distinct(order: seq<string>) {
    forall i, j :: 0 <= i < j < |order| ==> order[i] != order[j]
  }

  /** The order lists every key exactly once. */
  predicate NameMapOk(m: NameMap) {
    && (forall n :: n in m.configs ==> n in m.order)
    && (forall k :: 0 <= k < |m.order| ==> m.order[k] in m.configs)
    && Distinct(m.order)
  }

  /** The store's fields. */
  datatype UserData = UserData(
    userConfigs: map<string, NameMap>,
    lastJob: map<string, EvalJob>,
    admins: set<string>,
    dirty: bool)

  /** Every user's map is well formed. */
  predicate Inv(d: UserData) {
    forall u :: u in d.userConfigs ==> NameMapOk(d.userConfigs[u])
  }

  /** A fresh store: nothing held, nothing to save. */
  function Fresh(): (d: UserData)
    ensures Inv(d) && !d.dirty
  {
    UserData(map[], map[], {}, false)
  }

  // ---------------------------------------------------------------------
  // The ordered name map
  // ---------------------------------------------------------------------

  /** `Map.set`: a new name goes to the back of the order; an existing one keeps its place. */
  function MapSet(m: NameMap, n: string, c: WeightConfig): (r: NameMap)
    requires NameMapOk(m)
    ensures NameMapOk(r)
    ensures r.configs == m.configs[n := c]
    ensures n in m.configs ==> r.order == m.order
    ensures n !in m.configs ==> r.order == m.order + [n]
  {
    if n in m.configs then NameMap(m.order, m.configs[n := c])
    else NameMap(m.order + [n], m.configs[n := c])
  }

  /** The order with one name taken out. */
  function Without(order: seq<string>, n: string): (r: seq<string>)
    ensures forall x :: x in r <==> x in order && x != n
    ensures Distinct(order) ==> Distinct(r)
    ensures n !in order ==> r == order
    decreases |order|
  {
    if order == [] then []
    else
      var rest := Without(order[1..], n);
      assert forall x :: x in order <==> x == order[0] || x in order[1..];
      HeadFresh(order);
      if order[0] == n then rest else [order[0]] + rest
  }

  /** In a sequence without repeats, the head is not in the tail, and the tail has no repeats either. */
  lemma HeadFresh(order: seq<string>)
    requires order != []
    ensures Distinct(order) ==> order[0] !in order[1..] && Distinct(order[1..])
  {
    if Distinct(order) {
      forall k | 0 <= k < |order| - 1
        ensures order[1..][k] != order[0]
      {
        assert order[1..][k] == order[k + 1];
      }
    }
  }

  /** Taking out a name that occurs once, at position i, closes the gap and keeps every other name in its order. */
  lemma {:induction false} WithoutAt(order: seq<string>, n: string, i: nat)
    requires i < |order| && order[i] == n && n !in order[..i] && n !in order[i + 1..]
    ensures Without(order, n) == order[..i] + order[i + 1..]
    decreases i
  {
    if i == 0 {
      assert order[1..] == order[i + 1..];
      assert order[..i] + order[i + 1..] == order[1..];
    } else {
      var tail := order[1..];
      assert order[..i] == [order[0]] + tail[..i - 1];
      assert tail[i..] == order[i + 1..];
      WithoutAt(tail, n, i - 1);
    }
  }

  /** In an order without repeats, the name at position i occurs nowhere else. */
  lemma DistinctAt(order: seq<string>, i: nat)
    requires Distinct(order) && i < |order|
    ensures order[i] !in order[..i] && order[i] !in order[i + 1..]
  {
    forall k | 0 <= k < i
      ensures order[..i][k] != order[i]
    {
      assert order[..i][k] == order[k];
    }
    var after := order[i + 1..];
    forall k | 0 <= k < |after|
      ensures after[k] != order[i]
    {
      assert after[k] == order[i + 1 + k];
    }
  }

  /** In an order without repeats, taking out a name removes its one position and nothing else. */
  lemma WithoutDistinct(order: seq<string>, n: string)
    requires Distinct(order)
    ensures forall i :: 0 <= i < |order| && order[i] == n ==> Without(order, n) == order[..i] + order[i + 1..]
  {
    forall i | 0 <= i < |order| && order[i] == n
      ensures Without(order, n) == order[..i] + order[i + 1..]
    {
      DistinctAt(order, i);
      WithoutAt(order, n, i);
    }
  }

  /** `Map.delete`: true, and the name gone, when it was there; false and no change otherwise. */
  function MapDelete(m: NameMap, n: string): (r: (NameMap, bool))
    requires NameMapOk(m)
    ensures NameMapOk(r.0)
    ensures r.1 <==> n in m.configs
    ensures r.0.configs == m.configs - {n}
    ensures forall x :: x in r.0.order <==> x in m.order && x != n
    ensures forall i :: 0 <= i < |m.order| && m.order[i] == n ==> r.0.order == m.order[..i] + m.order[i + 1..]
    ensures n !in m.configs ==> r.0 == m
  {
    if n in m.configs then
      var order := Without(m.order, n);
      WithoutDistinct(m.order, n);
      assert forall k :: 0 <= k < |order| ==> order[k] in order;
      (NameMap(order, m.configs - {n}), true)
    else (m, false)
  }

  // ---------------------------------------------------------------------
  // UserData operations
  // ---------------------------------------------------------------------

  /** `fetchConfig`: the user's config of that name, if both exist. */
  function FetchConfig(d: UserData, user: string, name: string): Option<WeightConfig> {
    if user in d.userConfigs && name in d.userConfigs[user].configs then Some(d.userConfigs[user].configs[name])
    else None
  }

  /** `fetchConfigs`: the user's config names in creation order; none for an unknown user. */
  function FetchConfigs(d: UserData, user: string): (r: seq<string>)
    requires Inv(d)
    ensures forall n :: n in r <==> FetchConfig(d, user, n).Some?
    ensures forall i, j :: 0 <= i < j < |r| ==> r[i] != r[j]
  {
    if user in d.userConfigs then d.userConfigs[user].order else []
  }

  /**
   * `createConfig0`: false, and nothing changes, when the user already has
   * a config of that name; otherwise the user's map is made if missing,
   * the config is added, and the answer is true. `dirty` is not touched.
   */
  function CreateConfig0(d: UserData, user: string, name: string, c: WeightConfig): (r: (UserData, bool))
    requires Inv(d)
    ensures Inv(r.0)
    ensures r.1 <==> FetchConfig(d, user, name).None?
    ensures !r.1 ==> r.0 == d
    ensures r.1 ==> FetchConfig(r.0, user, name) == Some(c)
    ensures r.1 ==> FetchConfigs(r.0, user) == FetchConfigs(d, user) + [name]
    ensures forall u, n :: (u, n) != (user, name) ==> FetchConfig(r.0, u, n) == FetchConfig(d, u, n)
    ensures r.0.lastJob == d.lastJob && r.0.admins == d.admins && r.0.dirty == d.dirty
  {
    var m := if user in d.userConfigs then d.userConfigs[user] else NameMap([], map[]);
    if name in m.configs then (d, false)
    else (d.(userConfigs := d.userConfigs[user := MapSet(m, name, c)]), true)
  }

  /** `createConfig`: marks the store dirty, whether or not the config is created, then `createConfig0`. */
  function CreateConfig(d: UserData, user: string, name: string, c: WeightConfig): (r: (UserData, bool))
    requires Inv(d)
    ensures Inv(r.0) && r.0.dirty
    ensures r.1 <==> FetchConfig(d, user, name).None?
    ensures r.1 ==> FetchConfig(r.0, user, name) == Some(c)
    ensures forall u, n :: (u, n) != (user, name) ==> FetchConfig(r.0, u, n) == FetchConfig(d, u, n)
    ensures !r.1 ==> FetchConfig(r.0, user, name) == FetchConfig(d, user, name)
  {
    CreateConfig0(d.(dirty := true), user, name, c)
  }

  /**
   * `deleteConfig`: marks the store dirty; true, and the config gone, when
   * the user had a config of that name; false otherwise. The user's map
   * stays even when it becomes empty.
   */
  function DeleteConfig(d: UserData, user: string, name: string): (r: (UserData, bool))
    requires Inv(d)
    ensures Inv(r.0) && r.0.dirty
    ensures r.1 <==> FetchConfig(d, user, name).Some?
    ensures FetchConfig(r.0, user, name) == None
    ensures forall u, n :: (u, n) != (user, name) ==> FetchConfig(r.0, u, n) == FetchConfig(d, u, n)
    ensures r.0.userConfigs.Keys == d.userConfigs.Keys
    ensures forall i :: 0 <= i < |FetchConfigs(d, user)| && FetchConfigs(d, user)[i] == name ==>
      FetchConfigs(r.0, user) == FetchConfigs(d, user)[..i] + FetchConfigs(d, user)[i + 1..]
    ensures !r.1 ==> FetchConfigs(r.0, user) == FetchConfigs(d, user)
    ensures forall u :: u != user ==> FetchConfigs(r.0, u) == FetchConfigs(d, u)
    ensures r.0.lastJob == d.lastJob && r.0.admins == d.admins
  {
    var d1 := d.(dirty := true);
    if user in d1.userConfigs then
      var (m, res) := MapDelete(d1.userConfigs[user], name);
      (d1.(userConfigs := d1.userConfigs[user := m]), res)
    else (d1, false)
  }

  /**
   * `setConfig`: marks the store dirty; writes the config, adding the name
   * if new, only when the user already has a map; for an unknown user the
   * configs do not change.
   */
  function SetConfig(d: UserData, user: string, name: string, c: WeightConfig): (r: UserData)
    requires Inv(d)
    ensures Inv(r) && r.dirty
    ensures user in d.userConfigs ==> FetchConfig(r, user, name) == Some(c)
    ensures user !in d.userConfigs ==> r.userConfigs == d.userConfigs
    ensures forall u, n :: (u, n) != (user, name) ==> FetchConfig(r, u, n) == FetchConfig(d, u, n)
    ensures FetchConfig(d, user, name).Some? ==> FetchConfigs(r, user) == FetchConfigs(d, user)
    ensures user in d.userConfigs && FetchConfig(d, user, name).None? ==>
      FetchConfigs(r, user) == FetchConfigs(d, user) + [name]
    ensures forall u :: u != user ==> FetchConfigs(r, u) == FetchConfigs(d, u)
    ensures r.lastJob == d.lastJob && r.admins == d.admins
  {
    var d1 := d.(dirty := true);
    if user in d1.userConfigs then d1.(userConfigs := d1.userConfigs[user := MapSet(d1.userConfigs[user], name, c)])
    else d1
  }

  /** `setLatestJob`: records the user's latest job. `dirty` is not touched. */
  function SetLatestJob(d: UserData, user: string, job: EvalJob): (r: UserData)
    requires Inv(d)
    ensures Inv(r)
    ensures forall u :: u != user ==> GetLatestJob(r, u) == GetLatestJob(d, u)
    ensures r.userConfigs == d.userConfigs && r.admins == d.admins && r.dirty == d.dirty
  {
    d.(lastJob := d.lastJob[user := job])
  }

  /** `getLatestJob`: the user's latest job, if any. */
  function GetLatestJob(d: UserData, user: string): Option<EvalJob> {
    if user in d.lastJob then Some(d.lastJob[user]) else None
  }

  /** `isAdmin`: membership in the admin set. */
  function IsAdmin(d: UserData, user: string): bool {
    user in d.admins
  }

  // ---------------------------------------------------------------------
  // Properties across operations
  // ---------------------------------------------------------------------

  /** The job just recorded for a user is the one returned for that user. */
  lemma LatestJobRoundTrip(d: UserData, user: string, job: EvalJob)
    requires Inv(d)
    ensures GetLatestJob(SetLatestJob(d, user, job), user) == Some(job)
  {
  }

  /** A config just created is found under its name, and creating it again fails without a change. */
  lemma CreateThenFetch(d: UserData, user: string, name: string, c: WeightConfig, c2: WeightConfig)
    requires Inv(d) && FetchConfig(d, user, name).None?
    ensures var (d1, ok) := CreateConfig(d, user, name, c);
      && ok && FetchConfig(d1, user, name) == Some(c)
      && CreateConfig(d1, user, name, c2) == (d1, false)
  {
  }

  /** Deleting a config just created leaves every fetch as before. */
  lemma CreateThenDelete(d: UserData, user: string, name: string, c: WeightConfig)
    requires Inv(d) && FetchConfig(d, user, name).None?
    ensures var d2 := DeleteConfig(CreateConfig(d, user, name, c).0, user, name);
      && d2.1
      && (forall u, n :: FetchConfig(d2.0, u, n) == FetchConfig(d, u, n))
      && (user in d.userConfigs ==> FetchConfigs(d2.0, user) == FetchConfigs(d, user))
  {
    if user in d.userConfigs {
      CreateThenDeleteNames(d, user, name, c);
    }
  }

  /** For a user who already has a map, deleting a config just created gives back the user's list of names. */
  lemma CreateThenDeleteNames(d: UserData, user: string, name: string, c: WeightConfig)
    requires Inv(d) && FetchConfig(d, user, name).None? && user in d.userConfigs
    ensures var d1 := CreateConfig(d, user, name, c).0;
      FetchConfigs(DeleteConfig(d1, user, name).0, user) == FetchConfigs(d, user)
  {
    var d1 := CreateConfig(d, user, name, c).0;
    var before := FetchConfigs(d, user);
    var mid := FetchConfigs(d1, user);
    assert mid == before + [name];
    LastCut(before, name);
  }

  /** Cutting the last position out of `s + [x]` gives back `s`. */
  lemma LastCut(s: seq<string>, x: string)
    ensures (s + [x])[|s|] == x
    ensures (s + [x])[..|s|] + (s + [x])[|s| + 1..] == s
  {
    assert (s + [x])[..|s|] == s;
    assert (s + [x])[|s| + 1..] == [];
  }

  /**
   * A user's map survives the deletion of its last config: `setConfig`
   * then still writes for that user, which it would not for a user who
   * never had a config.
   */
  lemma SetAfterDelete(d: UserData, user: string, name: string, c: WeightConfig, c2: WeightConfig)
    requires Inv(d) && user !in d.userConfigs
    ensures var d1 := DeleteConfig(CreateConfig(d, user, name, c).0, user, name).0;
      && FetchConfigs(d1, user) == []
      && FetchConfig(SetConfig(d1, user, name, c2), user, name) == Some(c2)
      && FetchConfig(SetConfig(d, user, name, c2), user, name) == None
  {
    var d1 := DeleteConfig(CreateConfig(d, user, name, c).0, user, name).0;
    assert user in d1.userConfigs;
    var names := FetchConfigs(d1, user);
    assert forall n :: n !in names by {
      forall n
        ensures n !in names
      {
        assert FetchConfig(d1, user, n) == FetchConfig(d, user, n) || n == name;
      }
    }
    EmptyOrHead(names);
  }

  /** A sequence is empty or holds its first element. */
  lemma EmptyOrHead(s: seq<string>)
    ensures s == [] || s[0] in s
  {
  }

  /** No operation of the in-memory store changes who is an admin. */
  lemma AdminsStable(d: UserData, user: string, name: string, c: WeightConfig, job: EvalJob, who: string)
    requires Inv(d)
    ensures IsAdmin(CreateConfig(d, user, name, c).0, who) == IsAdmin(d, who)
    ensures IsAdmin(DeleteConfig(d, user, name).0, who) == IsAdmin(d, who)
    ensures IsAdmin(SetConfig(d, user, name, c), who) == IsAdmin(d, who)
    ensures IsAdmin(SetLatestJob(d, user, job), who) == IsAdmin(d, who)
  {
  }
}
