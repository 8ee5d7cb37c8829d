# SystemManager, ErrorHandler and string helpers, in Dafny

This project models `src/big-commit-.ts` of the code-review action repository. The file
holds an in-memory registry and three string helpers:

- `SystemManager`, a singleton that owns
  - a user table with a capacity limit, where records are validated on create and update;
  - a set of active connections with a concurrency cap;
  - a per-user sliding-window rate limiter;
  - permission matching and feature-flag gating;
  - a replaceable configuration.
- `ErrorHandler`, an append-only error log.
- `sanitizeInput`, `isValidEmail` and `generateHash`.

The code that changes state in place keeps that form. `SystemManager` and `ErrorHandler`
are classes whose fields are the source's `Map`s, `Set` and arrays, as Dafny `map`, `set`
and `seq` values. `generateHash` is a method with the source's loop. The rest is pure
and is written as functions and lemmas.

Things the model makes explicit:

- Inputs instead of the environment. The generated user or connection id, the current
  time and the `Math.random()` draw are parameters. Dates are integer milliseconds.
- JavaScript strings. `length` and `charCodeAt` count UTF-16 code units, so a Dafny
  string is read through its UTF-16 encoding (`Text.Utf16`). The name-length check and
  the hash use that encoding.
- 32-bit arithmetic. `(hash << 5) - hash + char` followed by `hash & hash` is written
  with ECMAScript's ToInt32 (`Hash.ToInt32`, `Hash.ShiftLeft5`, `Hash.SelfAnd`). It is
  proved equal to the fold h := ToInt32(31·h + unit).
- Thrown errors become `Err` results carrying the error class and the exact message.
  State is unchanged on every error path.

Behaviour of the code as written, kept by the model:

- `createUser` stores under the given id even when that id is already present. A
  collision of generated ids replaces a user and the table does not grow.
- `updateUser` accepts every field of `Partial<UserData>`, `id` and `createdAt`
  included. The merged record is stored under the original key even when its `id`
  field now differs. A given `updatedAt` is always replaced by the current time.
- `checkRateLimit` prunes the stored list only when it admits the request. A rejected
  request leaves the old list, stale entries included.
- `isFeatureEnabled` skips the user branch for an empty-string `userId`, which is falsy in
  JavaScript. A condition key "metadata.a.b" compares only the metadata entry `a`,
  because the key is cut with `split('.')[1]`.

Modules: `Wrappers` (Option, Result), `Seqs` (filter), `Text`, `Hash`, `Records`
(records, errors, default configuration), `Users`, `Permissions`, `Features`, `Config`,
`System` (the class `SystemManager`) and `Errors` (the class `ErrorHandler`).

## Model

| member | source | states |
|---|---|---|
| `Text.CharUnits` | src/big-commit-.ts:399 | `charCodeAt` sees one or two code units per character, each below 0x10000; below U+10000 the one unit is the character's code; from U+10000 a high surrogate (0xD800-0xDBFF) then a low one (0xDC00-0xDFFF) that decode back to the character |
| `Text.Utf16OfBasicPlane` | src/big-commit-.ts:288 | for characters below U+10000 the JavaScript length is the character count and each code unit is the character's code |
| `Text.SanitizeInput` | src/big-commit-.ts:392-394 | the result holds no '<' or '>', is no longer than the input, and every other character occurs in it exactly as often as in the input |
| `Text.SanitizeChar` | src/big-commit-.ts:393 | a single '<' or '>' becomes the empty string; any other character stays |
| `Text.SanitizeDeletes` | src/big-commit-.ts:393 | a bracket anywhere in the input contributes nothing: sanitizing a + bracket + b is sanitizing a followed by sanitizing b |
| `Text.SanitizeAppend` | src/big-commit-.ts:392-394 | sanitizing a concatenation is concatenating the sanitized parts, so kept characters stay in order |
| `Text.SanitizeIdempotent` | src/big-commit-.ts:392-394 | sanitizing twice equals sanitizing once |
| `Text.SanitizeFixesExactly` | src/big-commit-.ts:392-394 | a string is unchanged by sanitizing if and only if it contains no '<' and no '>' |
| `Text.IsValidEmailIffShape` | src/big-commit-.ts:383-386 | the scan accepts an address if and only if it is a non-empty part, '@', a part, '.', a part, where a part has no whitespace (JavaScript's `\s`) and no '@' |
| `Text.ValidEmailBounds` | src/big-commit-.ts:383-386 | an accepted address has at least 5 characters, exactly one '@', not in first position, and no whitespace |
| `Hash.ToInt32` | src/big-commit-.ts:400-401 | the result lies in [-2^31, 2^31) and is congruent to the input modulo 2^32 |
| `Hash.ToInt32OfSum` | src/big-commit-.ts:400-401 | wrapping an operand before a wrapped addition does not change the result |
| `Hash.ShiftLeft5` | src/big-commit-.ts:400 | `hash << 5` is a 32-bit signed value congruent to 32·hash modulo 2^32 |
| `Hash.SelfAnd` | src/big-commit-.ts:401 | `hash & hash` is the 32-bit signed value congruent to its operand modulo 2^32, so a value already in that range is left as it is |
| `Hash.Step` | src/big-commit-.ts:399-401 | one round of the loop body turns h into ToInt32(31·h + unit) |
| `Hash.HashOf` | src/big-commit-.ts:396-404 | the fold of h := ToInt32(31·h + unit) from 0 always yields a 32-bit signed value |
| `Hash.GenerateHash` | src/big-commit-.ts:396-404 | the loop with the shift, subtraction, addition and self-and returns the base-36 rendering of the fold over the input's UTF-16 code units |
| `Hash.EmptyInputHash` | src/big-commit-.ts:397-403 | the empty string hashes to "0" |
| `Hash.NatToBase36` | src/big-commit-.ts:403 | the digits are non-empty, drawn from 0-9a-z, without a leading zero except for 0 itself |
| `Hash.Base36` | src/big-commit-.ts:403 | the rendering is non-empty, starts with '-' exactly for a negative number, and is otherwise made of base-36 digits |
| `Hash.Base36RoundTrip` | src/big-commit-.ts:403 | reading back `toString(36)` of any integer, sign included, gives that integer |
| `Hash.Base36Injective` | src/big-commit-.ts:403 | distinct hash values render as distinct strings |
| `Users.ValidateUserData` | src/big-commit-.ts:283-295 | a record passes if and only if its email contains '@', its name has at least 2 code units and its role is ADMIN, MANAGER, USER or GUEST; failures are validation errors with the messages 'Invalid email format', 'Name too short' and 'Invalid user role', checked in that order |
| `Users.NewRecord` | src/big-commit-.ts:141-146 | the new record carries the caller's name, email, role, permissions and metadata, the generated id, and `createdAt == updatedAt == now` |
| `Users.NewRecordValidity` | src/big-commit-.ts:141-148 | whether a new record passes validation depends only on the caller's data, not on the id or the time |
| `Users.ApplyUserUpdate` | src/big-commit-.ts:163-169 | each of the seven fields the update names (`id` and `createdAt` included) takes the update's value, each field it does not name keeps the old value, and `updatedAt` is always the new time |
| `Users.ApplyUserUpdateIdempotent` | src/big-commit-.ts:165-169 | merging the same update again only moves `updatedAt` |
| `Users.ApplyUserUpdateKeepsValidity` | src/big-commit-.ts:163-172 | an update that leaves email, name and role alone keeps a valid record valid |
| `Permissions.ConditionsSatisfied` | src/big-commit-.ts:195-205 | no required conditions match; required conditions with none held do not; otherwise the match holds if and only if the required entries are a subset of the held entries |
| `Permissions.SomeGrants` | src/big-commit-.ts:186-191 | true if and only if some held permission has the required resource and action and conditions that satisfy the required ones |
| `Permissions.AllGranted` | src/big-commit-.ts:185-192 | true if and only if every required permission is granted by some held one (so an empty requirement list gives true) |
| `Permissions.ConditionsReflexive` | src/big-commit-.ts:195-205 | any condition map, or none, satisfies itself |
| `Permissions.ConditionsTransitive` | src/big-commit-.ts:195-205 | condition matching is transitive |
| `Permissions.HeldPermissionsGranted` | src/big-commit-.ts:183-193 | a user's permission list grants every permission in it |
| `Permissions.MoreHeldStillGranted` | src/big-commit-.ts:183-193 | adding held permissions, before or after, never withdraws a grant |
| `Permissions.GrantedSplit` | src/big-commit-.ts:185-192 | a concatenation of requirements is granted if and only if each part is |
| `Permissions.GrantedTransitive` | src/big-commit-.ts:183-205 | if list a grants all of list b and b grants all of c, then a grants all of c |
| `Features.FeatureIndex` | src/big-commit-.ts:228 | `find` by name gives the first flag with that name, or none when no flag has it |
| `Features.FirstSegment` | src/big-commit-.ts:251 | the segment is a prefix of the text with no '.', ending at the first '.' or at the end |
| `Features.MetadataKey` | src/big-commit-.ts:250-251 | the metadata key is the text after "metadata." up to the next '.' or the end, and holds no '.' |
| `Features.UserField` | src/big-commit-.ts:254 | a user property can equal a string only for `id`, `name`, `email` and `role`, and each of those keys yields its own field's value |
| `Features.NamedFieldCondition` | src/big-commit-.ts:254 | a condition on `id`, `name`, `email` or `role` holds if and only if that field equals the value |
| `Features.OtherFieldNeverHolds` | src/big-commit-.ts:254 | a condition on any other property that is not a metadata key never holds |
| `Features.NoConditionsHold` | src/big-commit-.ts:245-256 | an empty condition map admits every user, as `every` on no entries does |
| `Features.FeatureConditionsSplit` | src/big-commit-.ts:245-256 | conditions with disjoint keys hold together if and only if each part holds |
| `Features.MetadataCondition` | src/big-commit-.ts:249-253 | a "metadata.k" condition holds if and only if the user's metadata maps k to the value |
| `Features.NestedMetadataCondition` | src/big-commit-.ts:250-252 | a "metadata.k.rest" condition also compares only the metadata entry k |
| `Features.RolloutBounds` | src/big-commit-.ts:242 | with a draw in [0, 1), a rollout of 100 or more admits and one of 0 or less rejects |
| `Features.RolloutMonotone` | src/big-commit-.ts:242 | a draw admitted at some percentage is admitted at every larger one |
| `Config.MergeConfig` | src/big-commit-.ts:309-314 | each of the four top-level sections the update names takes the update's value whole, and each one it does not name is kept; an empty update changes nothing |
| `Config.MergeConfigThen` | src/big-commit-.ts:309-314 | two merges in a row equal one merge of the combined update, the later field winning |
| `Config.MergeConfigIdempotent` | src/big-commit-.ts:309-314 | merging the same update twice equals merging it once |
| `Config.SecurityUpdate` | src/big-commit-.ts:309-314 | an update naming only `security` replaces that section and keeps the environment, features and limits |
| `Config.EnableMfa` | src/big-commit-.ts:426-431 | the documented use, the current security section spread with `mfaEnabled: true`, turns MFA on and changes no other setting |
| `System.RecentRequests` | src/big-commit-.ts:212-215 | each timestamp with now − t < 60000 is kept exactly as many times as it is stored, and no other timestamp is kept |
| `System.RecentRequestsCount` | src/big-commit-.ts:212-217 | the length the limit compares is the number of stored entries inside the window, repeated timestamps counted each time |
| `System.RecentRequestsIdempotent` | src/big-commit-.ts:212-215 | pruning twice at the same time equals pruning once |
| `System.RecentRequestsLater` | src/big-commit-.ts:208-215 | pruning at an earlier time and then at a later one equals pruning at the later one |
| `Records.DefaultConfig` | src/big-commit-.ts:99-133 | the default configuration is for development, has positive user, request and connection limits, and two flags with different names and no conditions |
| `System.DefaultFeatureFlags` | src/big-commit-.ts:102-113 | under the default configuration "darkMode" is the first flag, enabled, and admits every draw; "betaFeatures" is the second and disabled |
| `System.SystemManager.StoredRequests` | src/big-commit-.ts:210 | a user with no stored list has none (`|| []`); under the limit invariant a stored list is at most `maxRequestsPerMinute` long |
| `System.SystemManager.constructor` | src/big-commit-.ts:85-133 | the manager starts with the default configuration and an empty user table, connection set and rate limiter, and satisfies both invariants |
| `System.SystemManager.UserLimitCheck` | src/big-commit-.ts:271-275 | passes if and only if the table holds fewer than `maxUsers` users; otherwise the user-limit error |
| `System.SystemManager.ConnectionLimitCheck` | src/big-commit-.ts:277-281 | passes if and only if fewer than `maxConcurrentConnections` connections are active; otherwise the connection-limit error |
| `System.SystemManager.CreateUser` | src/big-commit-.ts:136-153 | a full table or an invalid record gives that error and stores nothing; otherwise the record with the given id and `createdAt == updatedAt == now` is stored under the id, every other user is unchanged, and a fresh id adds exactly one key; all stored records stay valid and the limits stay respected |
| `System.SystemManager.GetUser` | src/big-commit-.ts:155-161 | the stored record, or 'User not found: id' for an absent id |
| `System.SystemManager.UpdateUser` | src/big-commit-.ts:163-174 | an absent id or a merged record that fails validation gives that error and changes nothing; otherwise only the entry under the original key is replaced by the merged record; the key set never changes |
| `System.SystemManager.DeleteUser` | src/big-commit-.ts:176-180 | removes exactly that key, or gives 'User not found' and changes nothing |
| `System.SystemManager.ValidatePermissions` | src/big-commit-.ts:183-193 | an unknown user gives 'User not found'; otherwise true if and only if every required permission has a held permission granting it |
| `System.SystemManager.CheckRateLimit` | src/big-commit-.ts:208-224 | admits if and only if fewer than `maxRequestsPerMinute` timestamps are in the window; then it stores exactly those plus `now`, all in the window and at most the limit; a rejection changes nothing; with the limit fixed no stored list exceeds it |
| `System.SystemManager.IsFeatureEnabled` | src/big-commit-.ts:227-243 | false for an unknown or disabled flag; for an enabled one and a given user: 'User not found' for an unknown id, true for ADMIN, the flag's conditions when it has some; otherwise the rollout draw decides; true only for an existing enabled flag |
| `System.SystemManager.CreateConnection` | src/big-commit-.ts:259-264 | at the cap it gives the connection-limit error and changes nothing; otherwise it adds the id; a success never leaves more connections than the cap |
| `System.SystemManager.CloseConnection` | src/big-commit-.ts:266-268 | removes the id, and an absent id changes nothing |
| `System.SystemManager.UpdateConfig` | src/big-commit-.ts:309-314 | the configuration becomes the shallow merge; users, connections and requests are untouched; limits that are not replaced stay respected |
| `System.SystemManager.GetConfig` | src/big-commit-.ts:316-318 | returns the current configuration (as a value, see Left out) |
| `Errors.ErrorHandler.constructor` | src/big-commit-.ts:340 | the log starts empty |
| `Errors.ErrorHandler.HandleError` | src/big-commit-.ts:342-343 | the error is appended and every earlier entry is kept as it was |
| `Errors.ErrorHandler.GetErrorLog` | src/big-commit-.ts:373-375 | returns the log, oldest entry first |
| `Errors.ErrorHandler.ClearErrorLog` | src/big-commit-.ts:377-379 | the log becomes empty |

## Left out

- `generateUniqueId` (`Math.random`): the id is a parameter of `CreateUser` and `CreateConnection`.
- `notifyUserCreation` (a timer and console output), and the `await` in `createUser`. In the source other calls can run during the 100 ms wait, after the user is stored and before `createUser` returns. Here each operation is atomic, so that interleaving is not modelled.
- Aliasing of records: `getUser`, `createUser` and `updateUser` return the stored object itself, and `getConfig` returns a shallow copy whose `limits`, `security` and `features` are the live ones. A caller can therefore change a stored user (skipping validation) or the live limits through the returned object. Records here are values, so `GetUser`, `CreateUser`, `UpdateUser` and `GetConfig` return copies. The invariants `Valid()` and `WithinLimits()` hold only for callers that change the manager through its operations.
- `getSystemMetrics`: it reads process memory and uptime.
- `formatDate`: `Date.toISOString`.
- The console output of `handleError`, `handleSecurityError`, `handleValidationError` and `handleUnknownError`. Choosing a handler by error class has no other effect, so only the append to the log is modelled.
- `getInstance`: its lazy static is not modelled. The model has a single manager object, built by the constructor.
- `(user as any)[key]` in `evaluateFeatureConditions`: only `id`, `name`, `email` and `role` can equal a string condition value. Every other key is taken never to match. That is true for the Date, array and object fields and for absent properties.
- `Record<string, any>` values are strings here. The `===` comparison on objects (reference equality), numbers or booleans is not modelled.
- An explicit `undefined` inside a `Partial` update, which would set a field to `undefined`, is not modelled. An absent field is `None`.
- Floating point: limits and `rolloutPercentage` are integers. `Math.random() * 100` is computed as exact real arithmetic.
- JavaScript strings holding lone surrogates cannot be written as Dafny strings.
- Values outside the TypeScript types of `action` and `environment`: these are datatypes here.
- The rest of the repository: the review action, the geometry code and the area formulas are not part of this model.
