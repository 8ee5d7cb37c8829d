/** The user-record rules of `SystemManager`: `validateUserData`, the record built by
    `createUser` and the spread merge of `updateUser`. */
module Users {
  import opened Wrappers
  import opened Records
  import Text

  /** `validateUserData`: the first failing check decides the error. */
  function ValidateUserData(u: UserData): (r: Option<AppError>)
    ensures r.None? <==> '@' in u.email && Text.JsLength(u.name) >= 2 && u.role in Roles
    ensures r.Some? ==> r.value.kind == ValidationError
    ensures '@' !in u.email ==> r == Some(InvalidEmail)
    ensures '@' in u.email && Text.JsLength(u.name) < 2 ==> r == Some(NameTooShort)
    ensures '@' in u.email && Text.JsLength(u.name) >= 2 && u.role !in Roles ==> r == Some(InvalidRole)
  {
    if '@' !in u.email then Some(InvalidEmail)
    else if Text.JsLength(u.name) < 2 then Some(NameTooShort)
    else if u.role !in Roles then Some(InvalidRole)
    else None
  }

  /** A record the user table may hold: one that passes validation. */
  predicate IsValidUser(u: UserData)
  {
    ValidateUserData(u).None?
  }

  /** `{ ...userData, id, createdAt: now, updatedAt: now }`. */
  function NewRecord(data: NewUser, id: string, now: int): (r: UserData)
    ensures r.id == id && r.createdAt == now && r.updatedAt == now
    ensures r.name == data.name && r.email == data.email && r.role == data.role
    ensures r.permissions == data.permissions && r.metadata == data.metadata
  {
    UserData(id, data.name, data.email, data.role, data.permissions, data.metadata, now, now)
  }

  /** The update that names no field. */
  const NoUserChange := UserUpdate(None, None, None, None, None, None, None, None)

  /** `{ ...user, ...updates, updatedAt: now }`: every named field replaced, including
      `id` and `createdAt`; a given `updatedAt` is overridden by `now`. */
  function ApplyUserUpdate(u: UserData, updates: UserUpdate, now: int): (r: UserData)
    ensures r.updatedAt == now
    ensures updates == NoUserChange ==> r == u.(updatedAt := now)
    ensures updates.id.Some? ==> r.id == updates.id.value
    ensures updates.id.None? ==> r.id == u.id
    ensures updates.name.Some? ==> r.name == updates.name.value
    ensures updates.name.None? ==> r.name == u.name
    ensures updates.email.Some? ==> r.email == updates.email.value
    ensures updates.email.None? ==> r.email == u.email
    ensures updates.role.Some? ==> r.role == updates.role.value
    ensures updates.role.None? ==> r.role == u.role
    ensures updates.permissions.Some? ==> r.permissions == updates.permissions.value
    ensures updates.permissions.None? ==> r.permissions == u.permissions
    ensures updates.metadata.Some? ==> r.metadata == updates.metadata.value
    ensures updates.metadata.None? ==> r.metadata == u.metadata
    ensures updates.createdAt.Some? ==> r.createdAt == updates.createdAt.value
    ensures updates.createdAt.None? ==> r.createdAt == u.createdAt
  {
    UserData(
      updates.id.GetOr(u.id),
      updates.name.GetOr(u.name),
      updates.email.GetOr(u.email),
      updates.role.GetOr(u.role),
      updates.permissions.GetOr(u.permissions),
      updates.metadata.GetOr(u.metadata),
      updates.createdAt.GetOr(u.createdAt),
      now)
  }

  /** Applying the same update again only moves `updatedAt`. */
  lemma ApplyUserUpdateIdempotent(u: UserData, updates: UserUpdate, t1: int, t2: int)
    ensures ApplyUserUpdate(ApplyUserUpdate(u, updates, t1), updates, t2)
         == ApplyUserUpdate(u, updates, t2)
  {
  }

  /** A valid record stays valid under an update that touches neither its email,
      its name nor its role. */
  lemma ApplyUserUpdateKeepsValidity(u: UserData, updates: UserUpdate, now: int)
    requires IsValidUser(u)
    requires updates.email.None? && updates.name.None? && updates.role.None?
    ensures IsValidUser(ApplyUserUpdate(u, updates, now))
  {
  }

  /** Whether a new record passes validation depends on the caller's data alone, not on
      the generated id or the time. */
  lemma NewRecordValidity(data: NewUser, id1: string, id2: string, t1: int, t2: int)
    ensures ValidateUserData(NewRecord(data, id1, t1)) == ValidateUserData(NewRecord(data, id2, t2))
  {
  }
}
