/** Permission matching of `SystemManager.validatePermissions`: every required
    permission must be granted by some held one with the same resource and action,
    whose conditions cover the required conditions. */
module Permissions {
  import opened Wrappers
  import opened Records

  /** `validatePermissionConditions`: no required conditions always match; required
      conditions against none held never match; otherwise every required key must be
      held with an equal value. */
  function ConditionsSatisfied(held: Option<Conditions>, required: Option<Conditions>): (r: bool)
    ensures required.None? ==> r
    ensures required.Some? && held.None? ==> !r
    ensures required.Some? && held.Some? ==> (r <==> required.value.Items <= held.value.Items)
  {
    match required
    case None => true
    case Some(req) =>
      match held
      case None => false
      case Some(h) =>
        var b := forall k :: k in req ==> k in h && h[k] == req[k];
        assert b ==> req.Items <= h.Items by {
          if b {
            forall item | item in req.Items ensures item in h.Items {
              assert item.0 in req && req[item.0] == item.1;
            }
          }
        }
        assert req.Items <= h.Items ==> b by {
          if req.Items <= h.Items {
            forall k | k in req ensures k in h && h[k] == req[k] {
              assert (k, req[k]) in req.Items;
            }
          }
        }
        b
  }

  /** One held permission grants one required permission. */
  predicate Grants(p: Permission, required: Permission)
  {
    p.resource == required.resource && p.action == required.action
    && ConditionsSatisfied(p.conditions, required.conditions)
  }

  /** `user.permissions.some(...)`, scanned left to right. */
  function SomeGrants(held: seq<Permission>, required: Permission): (r: bool)
    ensures r <==> exists j :: 0 <= j < |held| && Grants(held[j], required)
  {
    if held == [] then false
    else Grants(held[0], required) || SomeGrants(held[1..], required)
  }

  /** `requiredPermissions.every(...)`, scanned left to right. */
  function AllGranted(held: seq<Permission>, required: seq<Permission>): (r: bool)
    ensures r <==> forall i :: 0 <= i < |required| ==> SomeGrants(held, required[i])
  {
    if required == [] then true
    else SomeGrants(held, required[0]) && AllGranted(held, required[1..])
  }

  /** Held conditions grant themselves. */
  lemma ConditionsReflexive(c: Option<Conditions>)
    ensures ConditionsSatisfied(c, c)
  {
  }

  /** Condition matching is transitive. */
  lemma ConditionsTransitive(a: Option<Conditions>, b: Option<Conditions>, c: Option<Conditions>)
    requires ConditionsSatisfied(a, b) && ConditionsSatisfied(b, c)
    ensures ConditionsSatisfied(a, c)
  {
  }

  /** A permission list grants every permission it holds. */
  lemma HeldPermissionsGranted(held: seq<Permission>)
    ensures AllGranted(held, held)
  {
    forall i | 0 <= i < |held| ensures SomeGrants(held, held[i]) {
      ConditionsReflexive(held[i].conditions);
      assert Grants(held[i], held[i]);
    }
  }

  /** Holding more permissions never withdraws a grant. */
  lemma MoreHeldStillGranted(held: seq<Permission>, extra: seq<Permission>, required: seq<Permission>)
    requires AllGranted(held, required)
    ensures AllGranted(held + extra, required) && AllGranted(extra + held, required)
  {
    forall i | 0 <= i < |required|
      ensures SomeGrants(held + extra, required[i]) && SomeGrants(extra + held, required[i])
    {
      var j :| 0 <= j < |held| && Grants(held[j], required[i]);
      assert (held + extra)[j] == held[j];
      assert (extra + held)[|extra| + j] == held[j];
    }
  }

  /** Requirements can be checked piece by piece. */
  lemma GrantedSplit(held: seq<Permission>, r1: seq<Permission>, r2: seq<Permission>)
    ensures AllGranted(held, r1 + r2) <==> AllGranted(held, r1) && AllGranted(held, r2)
  {
    if AllGranted(held, r1) && AllGranted(held, r2) {
      forall i | 0 <= i < |r1 + r2| ensures SomeGrants(held, (r1 + r2)[i]) {
        if i >= |r1| {
          assert (r1 + r2)[i] == r2[i - |r1|];
        }
      }
    }
    if AllGranted(held, r1 + r2) {
      forall i | 0 <= i < |r2| ensures SomeGrants(held, r2[i]) {
        assert (r1 + r2)[|r1| + i] == r2[i];
      }
      forall i | 0 <= i < |r1| ensures SomeGrants(held, r1[i]) {
        assert (r1 + r2)[i] == r1[i];
      }
    }
  }

  /** If `a` grants all of `b` and `b` grants all of `c`, then `a` grants all of `c`. */
  lemma GrantedTransitive(a: seq<Permission>, b: seq<Permission>, c: seq<Permission>)
    requires AllGranted(a, b) && AllGranted(b, c)
    ensures AllGranted(a, c)
  {
    forall i | 0 <= i < |c| ensures SomeGrants(a, c[i]) {
      var j :| 0 <= j < |b| && Grants(b[j], c[i]);
      var k :| 0 <= k < |a| && Grants(a[k], b[j]);
      ConditionsTransitive(a[k].conditions, b[j].conditions, c[i].conditions);
      assert Grants(a[k], c[i]);
    }
  }
}
