/** The records of src/big-commit-.ts (users, permissions, feature flags and the
    system configuration), the errors its operations throw, and the default
    configuration. Dates are integer milliseconds; `Record<string, any>` maps hold strings. */
module Records {
  import opened Wrappers

  /** The four operations a permission can name. */
  datatype Action = Create | Read | Update | Delete

  /** A condition map: property name to the value it must have. */
  type Conditions = map<string, string>

  datatype Permission = Permission(resource: string, action: Action, conditions: Option<Conditions>)

  /** A stored user. `role` is a string, checked at run time against the four roles. */
  datatype UserData = UserData(
    id: string,
    name: string,
    email: string,
    role: string,
    permissions: seq<Permission>,
    metadata: map<string, string>,
    createdAt: int,
    updatedAt: int)

  /** What a caller passes to `createUser`: a user without id and dates. */
  datatype NewUser = NewUser(
    name: string,
    email: string,
    role: string,
    permissions: seq<Permission>,
    metadata: map<string, string>)

  /** A `Partial<UserData>`: each present field replaces the stored one. */
  datatype UserUpdate = UserUpdate(
    id: Option<string>,
    name: Option<string>,
    email: Option<string>,
    role: Option<string>,
    permissions: Option<seq<Permission>>,
    metadata: Option<map<string, string>>,
    createdAt: Option<int>,
    updatedAt: Option<int>)

  datatype Environment = Development | Staging | Production

  datatype FeatureFlag = FeatureFlag(
    name: string,
    enabled: bool,
    rolloutPercentage: int,
    conditions: Option<Conditions>)

  datatype SystemLimits = SystemLimits(
    maxUsers: int,
    maxRequestsPerMinute: int,
    maxFileSize: int,
    maxConcurrentConnections: int)

  datatype PasswordPolicy = PasswordPolicy(
    minLength: int,
    requireSpecialChars: bool,
    requireNumbers: bool,
    requireUppercase: bool,
    maxAge: int)

  datatype SecurityConfig = SecurityConfig(
    maxLoginAttempts: int,
    passwordPolicy: PasswordPolicy,
    mfaEnabled: bool,
    sessionTimeout: int)

  datatype SystemConfig = SystemConfig(
    environment: Environment,
    features: seq<FeatureFlag>,
    limits: SystemLimits,
    security: SecurityConfig)

  /** A `Partial<SystemConfig>`: each present field replaces the current one. */
  datatype ConfigUpdate = ConfigUpdate(
    environment: Option<Environment>,
    features: Option<seq<FeatureFlag>>,
    limits: Option<SystemLimits>,
    security: Option<SecurityConfig>)

  /** The three error classes: `ValidationError`, `SecurityError` and plain `Error`. */
  datatype ErrorKind = ValidationError | SecurityError | GenericError

  datatype AppError = AppError(kind: ErrorKind, message: string)

  /** A value, or the error the source throws instead. */
  type Outcome<T> = Result<T, AppError>

  /** The values of the `UserRole` enum. */
  const Roles: seq<string> := ["ADMIN", "MANAGER", "USER", "GUEST"]
  const Admin: string := "ADMIN"

  const UserLimitReached := AppError(ValidationError, "Maximum user limit reached")
  const ConnectionLimitReached := AppError(ValidationError, "Maximum connection limit reached")
  const InvalidEmail := AppError(ValidationError, "Invalid email format")
  const NameTooShort := AppError(ValidationError, "Name too short")
  const InvalidRole := AppError(ValidationError, "Invalid user role")

  /** The plain `Error` thrown for an id the user table does not hold. */
  function UserNotFound(id: string): AppError
  {
    AppError(GenericError, "User not found: " + id)
  }

  /** `loadDefaultConfig`. */
  function DefaultConfig(): (r: SystemConfig)
    ensures r.environment == Development
    ensures r.limits.maxUsers > 0 && r.limits.maxRequestsPerMinute > 0
    ensures r.limits.maxConcurrentConnections > 0
    ensures |r.features| == 2 && r.features[0].name != r.features[1].name
    ensures forall i :: 0 <= i < |r.features| ==> r.features[i].conditions.None?
  {
    SystemConfig(
      Development,
      [FeatureFlag("darkMode", true, 100, None), FeatureFlag("betaFeatures", false, 0, None)],
      SystemLimits(10000, 100, 10485760, 1000),
      SecurityConfig(5, PasswordPolicy(8, true, true, true, 90), true, 3600))
  }
}
