/** `SystemManager` of src/big-commit-.ts: the singleton registry of users, active
    connections, per-user request timestamps and the system configuration. Ids, the
    current time and the rollout draw are parameters of the operations that need them. */
module System {
  import opened Wrappers
  import opened Records
  import Seqs
  import Users
  import Permissions
  import Features
  import Config

  /** The rate limiter's sliding window, in milliseconds. */
  const RateWindow: int := 60000

  /** A request made at `t` still counts at time `now`. */
  predicate InWindow(now: int, t: int)
  {
    now - t < RateWindow
  }

  /** `userRequests.filter(timestamp => now - timestamp < 60000)`. */
  function RecentRequests(timestamps: seq<int>, now: int): (r: seq<int>)
    ensures |r| <= |timestamps|
    ensures forall i :: 0 <= i < |r| ==> InWindow(now, r[i]) && r[i] in timestamps
    ensures forall i :: 0 <= i < |timestamps| ==> (timestamps[i] in r <==> InWindow(now, timestamps[i]))
    ensures forall t :: multiset(r)[t] == if InWindow(now, t) then multiset(timestamps)[t] else 0
  {
    Seqs.FilterMultiset(t => InWindow(now, t), timestamps);
    Seqs.Filter(t => InWindow(now, t), timestamps)
  }

  /** The pruned list holds one entry per stored request made within the window before
      `now`, a repeated timestamp once per repetition: this is the count the rate limit
      compares. */
  lemma RecentRequestsCount(timestamps: seq<int>, now: int)
    ensures |RecentRequests(timestamps, now)| == Seqs.Count(t => InWindow(now, t), timestamps)
  {
    Seqs.FilterLength(t => InWindow(now, t), timestamps);
  }

  /** Pruning twice at the same time is pruning once. */
  lemma RecentRequestsIdempotent(timestamps: seq<int>, now: int)
    ensures RecentRequests(RecentRequests(timestamps, now), now) == RecentRequests(timestamps, now)
  {
    Seqs.FilterIdempotent(t => InWindow(now, t), timestamps);
  }

  /** Pruning at an earlier time and then at a later one is pruning at the later one:
      a request that left the window never comes back. */
  lemma RecentRequestsLater(timestamps: seq<int>, earlier: int, later: int)
    requires earlier <= later
    ensures RecentRequests(RecentRequests(timestamps, earlier), later) == RecentRequests(timestamps, later)
  {
    Seqs.FilterStronger(t => InWindow(earlier, t), t => InWindow(later, t), timestamps);
  }

  /** A JavaScript `userId` that is present and truthy (not the empty string). */
  predicate Given(userId: Option<string>)
  {
    userId.Some? && userId.value != ""
  }

  /** Under the default configuration "darkMode" is on for every draw and
      "betaFeatures" is off. */
  lemma DefaultFeatureFlags(draw: real)
    requires 0.0 <= draw < 1.0
    ensures var flags := DefaultConfig().features;
      && Features.FeatureIndex(flags, "darkMode") == Some(0)
      && flags[0].enabled && Features.InRollout(draw, flags[0].rolloutPercentage)
      && Features.FeatureIndex(flags, "betaFeatures") == Some(1) && !flags[1].enabled
  {
    Features.RolloutBounds(draw, 100);
  }

  class SystemManager {
    var config: SystemConfig
    var users: map<string, UserData>
    var activeConnections: set<string>
    var rateLimiter: map<string, seq<int>>

    /** Every stored record passed validation. */
    ghost predicate Valid()
      reads this
    {
      forall id :: id in users ==> Users.IsValidUser(users[id])
    }

    /** Neither the user table, the connection set nor any request list is beyond the
        limit the configuration sets for it. */
    ghost predicate WithinLimits()
      reads this
    {
      && |users| <= config.limits.maxUsers
      && |activeConnections| <= config.limits.maxConcurrentConnections
      && forall id :: id in rateLimiter ==> |rateLimiter[id]| <= config.limits.maxRequestsPerMinute
    }

    /** The private constructor behind `getInstance`, with the default configuration. */
    constructor ()
      ensures config == DefaultConfig()
      ensures users == map[] && activeConnections == {} && rateLimiter == map[]
      ensures Valid() && WithinLimits()
    {
      config := DefaultConfig();
      users := map[];
      activeConnections := {};
      rateLimiter := map[];
    }

    /** `validateUserLimit`. */
    function UserLimitCheck(): (r: Option<AppError>)
      reads this
      ensures r.None? <==> |users| < config.limits.maxUsers
      ensures r.Some? ==> r.value == UserLimitReached
    {
      if |users| >= config.limits.maxUsers then Some(UserLimitReached) else None
    }

    /** `validateConnectionLimit`. */
    function ConnectionLimitCheck(): (r: Option<AppError>)
      reads this
      ensures r.None? <==> |activeConnections| < config.limits.maxConcurrentConnections
      ensures r.Some? ==> r.value == ConnectionLimitReached
    {
      if |activeConnections| >= config.limits.maxConcurrentConnections then Some(ConnectionLimitReached)
      else None
    }

    /** `createUser`, with the generated id and the current time given. A full table or
        a record that fails validation stores nothing. */
    method CreateUser(data: NewUser, id: string, now: int) returns (r: Outcome<UserData>)
      requires Valid()
      modifies this
      ensures Valid()
      ensures config == old(config) && activeConnections == old(activeConnections)
      ensures rateLimiter == old(rateLimiter)
      ensures old(|users|) >= config.limits.maxUsers ==> r == Err(UserLimitReached) && users == old(users)
      ensures old(|users|) < config.limits.maxUsers ==>
        var u := Users.NewRecord(data, id, now);
        match Users.ValidateUserData(u)
        case Some(e) => r == Err(e) && users == old(users)
        case None => r == Ok(u) && users == old(users)[id := u]
      ensures r.Ok? ==> r.value.id == id && r.value.createdAt == now && r.value.updatedAt == now
      ensures r.Ok? ==> forall k :: k in old(users) && k != id ==> k in users && users[k] == old(users)[k]
      ensures r.Ok? && id !in old(users) ==> users.Keys == old(users).Keys + {id} && |users| == old(|users|) + 1
      ensures old(WithinLimits()) ==> WithinLimits()
    {
      var limit := UserLimitCheck();
      if limit.Some? {
        return Err(limit.value);
      }
      var u := Users.NewRecord(data, id, now);
      var invalid := Users.ValidateUserData(u);
      if invalid.Some? {
        return Err(invalid.value);
      }
      users := users[id := u];
      r := Ok(u);
    }

    /** `getUser`. */
    method GetUser(id: string) returns (r: Outcome<UserData>)
      ensures id in users ==> r == Ok(users[id])
      ensures id !in users ==> r == Err(UserNotFound(id))
    {
      if id in users {
        r := Ok(users[id]);
      } else {
        r := Err(UserNotFound(id));
      }
    }

    /** `updateUser`: the merged record is validated and stored under the original key,
        whatever `id` it now carries. */
    method UpdateUser(id: string, updates: UserUpdate, now: int) returns (r: Outcome<UserData>)
      requires Valid()
      modifies this
      ensures Valid()
      ensures config == old(config) && activeConnections == old(activeConnections)
      ensures rateLimiter == old(rateLimiter)
      ensures users.Keys == old(users).Keys
      ensures id !in old(users) ==> r == Err(UserNotFound(id)) && users == old(users)
      ensures id in old(users) ==>
        var u := Users.ApplyUserUpdate(old(users)[id], updates, now);
        match Users.ValidateUserData(u)
        case Some(e) => r == Err(e) && users == old(users)
        case None => r == Ok(u) && users == old(users)[id := u]
      ensures forall k :: k in old(users) && k != id ==> users[k] == old(users)[k]
      ensures old(WithinLimits()) ==> WithinLimits()
    {
      var found := GetUser(id);
      if found.Err? {
        return Err(found.error);
      }
      var u := Users.ApplyUserUpdate(found.value, updates, now);
      var invalid := Users.ValidateUserData(u);
      if invalid.Some? {
        return Err(invalid.value);
      }
      users := users[id := u];
      r := Ok(u);
    }

    /** `deleteUser`: removes that key only, or reports an absent id. */
    method DeleteUser(id: string) returns (r: Outcome<()>)
      requires Valid()
      modifies this
      ensures Valid()
      ensures config == old(config) && activeConnections == old(activeConnections)
      ensures rateLimiter == old(rateLimiter)
      ensures id in old(users) ==> r == Ok(()) && users == old(users) - {id}
      ensures id !in old(users) ==> r == Err(UserNotFound(id)) && users == old(users)
      ensures old(WithinLimits()) ==> WithinLimits()
    {
      if id !in users {
        return Err(UserNotFound(id));
      }
      users := users - {id};
      r := Ok(());
    }

    /** `validatePermissions`: whether the user's permissions grant every required one. */
    method ValidatePermissions(userId: string, required: seq<Permission>) returns (r: Outcome<bool>)
      ensures userId !in users ==> r == Err(UserNotFound(userId))
      ensures userId in users ==> r.Ok?
      ensures r.Ok? ==> (r.value <==> forall i :: 0 <= i < |required| ==>
        exists j :: 0 <= j < |users[userId].permissions| &&
          Permissions.Grants(users[userId].permissions[j], required[i]))
    {
      var found := GetUser(userId);
      if found.Err? {
        return Err(found.error);
      }
      r := Ok(Permissions.AllGranted(found.value.permissions, required));
    }

    /** The request timestamps stored for `userId`, `[]` when there are none. */
    function StoredRequests(userId: string): (r: seq<int>)
      reads this
      ensures userId !in rateLimiter ==> r == []
      ensures WithinLimits() && userId in rateLimiter ==> |r| <= config.limits.maxRequestsPerMinute
    {
      if userId in rateLimiter then rateLimiter[userId] else []
    }

    /** `checkRateLimit` at time `now`: admitted while fewer than the limit of requests
        are in the window; only an admitted request rewrites the stored list. */
    method CheckRateLimit(userId: string, now: int) returns (allowed: bool)
      modifies this
      ensures config == old(config) && users == old(users)
      ensures activeConnections == old(activeConnections)
      ensures var recent := RecentRequests(old(StoredRequests(userId)), now);
        && (allowed <==> |recent| < config.limits.maxRequestsPerMinute)
        && (allowed ==> rateLimiter == old(rateLimiter)[userId := recent + [now]])
      ensures !allowed ==> rateLimiter == old(rateLimiter)
      ensures allowed ==> |rateLimiter[userId]| <= config.limits.maxRequestsPerMinute
      ensures allowed ==> forall i :: 0 <= i < |rateLimiter[userId]| ==> InWindow(now, rateLimiter[userId][i])
      ensures old(WithinLimits()) ==> WithinLimits()
    {
      var recent := RecentRequests(StoredRequests(userId), now);
      if |recent| >= config.limits.maxRequestsPerMinute {
        return false;
      }
      rateLimiter := rateLimiter[userId := recent + [now]];
      allowed := true;
    }

    /** `isFeatureEnabled`, with the `Math.random()` draw given. */
    method IsFeatureEnabled(featureName: string, userId: Option<string>, draw: real) returns (r: Outcome<bool>)
      ensures Features.FeatureIndex(config.features, featureName).None? ==> r == Ok(false)
      ensures var idx := Features.FeatureIndex(config.features, featureName);
        idx.Some? ==>
        var f := config.features[idx.value];
        && (!f.enabled ==> r == Ok(false))
        && (f.enabled && Given(userId) && userId.value !in users ==> r == Err(UserNotFound(userId.value)))
        && (f.enabled && Given(userId) && userId.value in users && users[userId.value].role == Admin ==>
              r == Ok(true))
        && (f.enabled && Given(userId) && userId.value in users && users[userId.value].role != Admin
              && f.conditions.Some? ==>
              r == Ok(Features.FeatureConditionsHold(f.conditions.value, users[userId.value])))
        && (f.enabled && (!Given(userId)
              || (userId.value in users && users[userId.value].role != Admin && f.conditions.None?)) ==>
              r == Ok(Features.InRollout(draw, f.rolloutPercentage)))
      ensures r == Ok(true) ==>
        exists i :: 0 <= i < |config.features| && config.features[i].name == featureName
          && config.features[i].enabled
    {
      var idx := Features.FeatureIndex(config.features, featureName);
      if idx.None? {
        return Ok(false);
      }
      var feature := config.features[idx.value];
      if !feature.enabled {
        return Ok(false);
      }
      if Given(userId) {
        var found := GetUser(userId.value);
        if found.Err? {
          return Err(found.error);
        }
        if found.value.role == Admin {
          return Ok(true);
        }
        if feature.conditions.Some? {
          return Ok(Features.FeatureConditionsHold(feature.conditions.value, found.value));
        }
      }
      r := Ok(Features.InRollout(draw, feature.rolloutPercentage));
    }

    /** `createConnection`, with the generated connection id given. */
    method CreateConnection(userId: string, connectionId: string) returns (r: Outcome<string>)
      modifies this
      ensures config == old(config) && users == old(users) && rateLimiter == old(rateLimiter)
      ensures old(|activeConnections|) >= config.limits.maxConcurrentConnections ==>
        r == Err(ConnectionLimitReached) && activeConnections == old(activeConnections)
      ensures old(|activeConnections|) < config.limits.maxConcurrentConnections ==>
        r == Ok(connectionId) && activeConnections == old(activeConnections) + {connectionId}
      ensures r.Ok? ==> |activeConnections| <= config.limits.maxConcurrentConnections
      ensures old(WithinLimits()) ==> WithinLimits()
    {
      var limit := ConnectionLimitCheck();
      if limit.Some? {
        return Err(limit.value);
      }
      activeConnections := activeConnections + {connectionId};
      r := Ok(connectionId);
    }

    /** `closeConnection`: an absent id is no error. */
    method CloseConnection(connectionId: string)
      modifies this
      ensures config == old(config) && users == old(users) && rateLimiter == old(rateLimiter)
      ensures activeConnections == old(activeConnections) - {connectionId}
      ensures |activeConnections| <= old(|activeConnections|)
      ensures old(WithinLimits()) ==> WithinLimits()
    {
      activeConnections := activeConnections - {connectionId};
    }

    /** `updateConfig`: a shallow merge of the given top-level fields. */
    method UpdateConfig(updates: ConfigUpdate)
      requires Valid()
      modifies this
      ensures Valid()
      ensures config == Config.MergeConfig(old(config), updates)
      ensures users == old(users) && activeConnections == old(activeConnections)
      ensures rateLimiter == old(rateLimiter)
      ensures old(WithinLimits()) && updates.limits.None? ==> WithinLimits()
    {
      config := Config.MergeConfig(config, updates);
    }

    /** `getConfig`: the current configuration. The source returns a shallow copy whose
        sections are shared with the live configuration; here it is a value. */
    method GetConfig() returns (c: SystemConfig)
      ensures c == config
    {
      c := config;
    }
  }
}
