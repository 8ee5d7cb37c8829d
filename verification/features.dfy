/** Feature-flag rules of `SystemManager.isFeatureEnabled`: finding a flag by name,
    `evaluateFeatureConditions` and the percentage rollout. */
module Features {
  import opened Wrappers
  import opened Records

  /** `config.features.find(f => f.name === name)`, as the position of the first match. */
  function FeatureIndex(features: seq<FeatureFlag>, name: string): (r: Option<nat>)
    ensures r.None? ==> forall i :: 0 <= i < |features| ==> features[i].name != name
    ensures r.Some? ==> r.value < |features| && features[r.value].name == name
    ensures r.Some? ==> forall i :: 0 <= i < r.value ==> features[i].name != name
  {
    if features == [] then None
    else if features[0].name == name then Some(0)
    else match FeatureIndex(features[1..], name)
      case None => None
      case Some(k) => Some(k + 1)
  }

  const MetadataPrefix: string := "metadata."

  predicate StartsWith(s: string, prefix: string)
  {
    |prefix| <= |s| && s[..|prefix|] == prefix
  }

  /** The text before the first '.', or all of `s` when it holds none:
      `s.split('.')[0]`. */
  function FirstSegment(s: string): (r: string)
    ensures '.' !in r
    ensures |r| <= |s| && r == s[..|r|]
    ensures |r| < |s| ==> s[|r|] == '.'
  {
    if s == [] || s[0] == '.' then []
    else [s[0]] + FirstSegment(s[1..])
  }

  /** `key.split('.')[1]` for a key that starts with "metadata.". */
  function MetadataKey(key: string): (r: string)
    requires StartsWith(key, MetadataPrefix)
    ensures '.' !in r
    ensures |MetadataPrefix| + |r| <= |key| && key[..|MetadataPrefix| + |r|] == MetadataPrefix + r
    ensures |MetadataPrefix| + |r| < |key| ==> key[|MetadataPrefix| + |r|] == '.'
  {
    var tail := key[|MetadataPrefix|..];
    assert key == MetadataPrefix + tail;
    var r := FirstSegment(tail);
    assert key[..|MetadataPrefix| + |r|] == MetadataPrefix + tail[..|r|];
    r
  }

  /** The user properties whose value can be `===` to a string. */
  const StringFields: set<string> := {"id", "name", "email", "role"}

  /** `(user as any)[key]` where it can equal a string: the four string fields. Dates,
      arrays, objects, methods and absent properties are never `===` to a string. */
  function UserField(u: UserData, key: string): (r: Option<string>)
    ensures r.Some? <==> key in StringFields
    ensures key == "id" ==> r == Some(u.id)
    ensures key == "name" ==> r == Some(u.name)
    ensures key == "email" ==> r == Some(u.email)
    ensures key == "role" ==> r == Some(u.role)
  {
    if key == "id" then Some(u.id)
    else if key == "name" then Some(u.name)
    else if key == "email" then Some(u.email)
    else if key == "role" then Some(u.role)
    else None
  }

  /** One entry of `evaluateFeatureConditions`. */
  predicate ConditionHolds(u: UserData, key: string, value: string)
  {
    if StartsWith(key, MetadataPrefix) then
      var k := MetadataKey(key);
      k in u.metadata && u.metadata[k] == value
    else
      UserField(u, key) == Some(value)
  }

  /** `evaluateFeatureConditions`: every entry holds. */
  predicate FeatureConditionsHold(conditions: Conditions, u: UserData)
  {
    forall key :: key in conditions ==> ConditionHolds(u, key, conditions[key])
  }

  /** A condition on any other user property (a date, the permissions, the metadata
      object itself, an absent property) never holds. */
  lemma OtherFieldNeverHolds(u: UserData, key: string, value: string)
    requires !StartsWith(key, MetadataPrefix) && key !in StringFields
    ensures !ConditionHolds(u, key, value)
  {
  }

  /** A condition on one of the four string fields compares that field. */
  lemma NamedFieldCondition(u: UserData, value: string)
    ensures ConditionHolds(u, "id", value) <==> u.id == value
    ensures ConditionHolds(u, "name", value) <==> u.name == value
    ensures ConditionHolds(u, "email", value) <==> u.email == value
    ensures ConditionHolds(u, "role", value) <==> u.role == value
  {
  }

  /** No conditions at all hold for every user. */
  lemma NoConditionsHold(u: UserData)
    ensures FeatureConditionsHold(map[], u)
  {
  }

  /** Conditions hold together exactly when each part holds: dropping an entry can only
      admit more users. */
  lemma FeatureConditionsSplit(c1: Conditions, c2: Conditions, u: UserData)
    requires c1.Keys !! c2.Keys
    ensures FeatureConditionsHold(c1 + c2, u) <==> FeatureConditionsHold(c1, u) && FeatureConditionsHold(c2, u)
  {
    if FeatureConditionsHold(c1, u) && FeatureConditionsHold(c2, u) {
      forall key | key in c1 + c2 ensures ConditionHolds(u, key, (c1 + c2)[key]) {
        if key in c2 {
          assert (c1 + c2)[key] == c2[key];
        } else {
          assert (c1 + c2)[key] == c1[key];
        }
      }
    }
    if FeatureConditionsHold(c1 + c2, u) {
      forall key | key in c1 ensures ConditionHolds(u, key, c1[key]) {
        assert key !in c2;
        assert (c1 + c2)[key] == c1[key];
      }
      forall key | key in c2 ensures ConditionHolds(u, key, c2[key]) {
        assert (c1 + c2)[key] == c2[key];
      }
    }
  }

  /** A "metadata.k" condition compares the metadata entry k. */
  lemma MetadataCondition(u: UserData, k: string, value: string)
    requires '.' !in k
    ensures ConditionHolds(u, MetadataPrefix + k, value) <==> k in u.metadata && u.metadata[k] == value
  {
    var key := MetadataPrefix + k;
    assert key[..|MetadataPrefix|] == MetadataPrefix;
    assert key[|MetadataPrefix|..] == k;
    assert MetadataKey(key) == k;
  }

  /** A deeper path "metadata.k.rest" still compares only the metadata entry k. */
  lemma NestedMetadataCondition(u: UserData, k: string, rest: string, value: string)
    requires '.' !in k
    ensures ConditionHolds(u, MetadataPrefix + k + "." + rest, value)
        <==> k in u.metadata && u.metadata[k] == value
  {
    var key := MetadataPrefix + k + "." + rest;
    assert key[..|MetadataPrefix|] == MetadataPrefix;
    var tail := key[|MetadataPrefix|..];
    assert tail == k + "." + rest;
    var seg := FirstSegment(tail);
    assert tail[..|k|] == k && tail[|k|] == '.';
    assert seg == k;
  }

  /** `Math.random() * 100 < rolloutPercentage`, with the draw in [0, 1) as input. */
  predicate InRollout(draw: real, rolloutPercentage: int)
  {
    draw * 100.0 < rolloutPercentage as real
  }

  /** A rollout of 100% admits every draw; one of 0% or less admits none. */
  lemma RolloutBounds(draw: real, rolloutPercentage: int)
    requires 0.0 <= draw < 1.0
    ensures rolloutPercentage >= 100 ==> InRollout(draw, rolloutPercentage)
    ensures rolloutPercentage <= 0 ==> !InRollout(draw, rolloutPercentage)
  {
  }

  /** A larger percentage admits every draw a smaller one admits. */
  lemma RolloutMonotone(draw: real, lower: int, higher: int)
    requires lower <= higher && InRollout(draw, lower)
    ensures InRollout(draw, higher)
  {
  }
}
