// The values the service works on: rows of the two tables, token claims, configuration,
// and the library functions the code only calls.

module Options {
  datatype Option<+T> = None | Some(value: T)
}

module AuthTypes {
  import opened Options

  /** A clock reading, in microseconds (the precision of timestamptz). */
  type Time = int

  const SECOND: Time := 1_000_000
  const MINUTE: Time := 60 * SECOND
  const HOUR: Time := 60 * MINUTE

  /** How long Login locks an account. */
  const LOCK_DURATION: Time := 30 * MINUTE

  /** failed_attempts is a 32-bit INT column: past this value its UPDATE fails. */
  const INT32_MAX := 0x7FFF_FFFF

  /** Strings are Go strings: a char stands for one byte. */
  type Id = nat

  /** models.UserRole is an open string type; Other is any text outside the SQL enum. */
  datatype UserRole = SuperAdmin | Admin | Manager | Member | Viewer | Other(name: string)

  datatype Permission =
    | Wildcard | UsersRead | UsersWrite | UsersInvite | AuditRead | ProfileRead | ProfileWrite

  function RolePermissions(role: UserRole): seq<Permission> {
    match role
    case SuperAdmin => [Wildcard]
    case Admin => [UsersRead, UsersWrite, UsersInvite, AuditRead]
    case Manager => [UsersRead, UsersInvite]
    case Member => [ProfileRead, ProfileWrite]
    case Viewer => [ProfileRead]
    case Other(_) => []
  }

  /** A row of the users table, without its primary key. */
  datatype User = User(
    email: string,
    name: string,
    passwordHash: string,
    role: UserRole,
    totpSecret: Option<string>,
    totpEnabled: bool,
    failedAttempts: nat,
    lockedUntil: Option<Time>,
    isActive: bool,
    createdAt: Time,
    updatedAt: Time)
  {
    predicate IsLocked(now: Time) {
      lockedUntil.Some? && now < lockedUntil.value
    }

    /** Login's test for asking a second factor: an empty stored secret does not count. */
    predicate AsksForCode() {
      totpEnabled && totpSecret.Some? && totpSecret.value != ""
    }
  }

  /** A row of the password_resets table, without its primary key and its unused token column. */
  datatype PasswordReset = PasswordReset(
    userId: Id,
    otpHash: string,
    expiresAt: Time,
    usedAt: Option<Time>,
    createdAt: Time)
  {
    predicate IsExpired(now: Time) {
      now > expiresAt
    }

    predicate IsConsumed() {
      usedAt.Some?
    }
  }

  type UserTable = map<Id, User>
  type ResetTable = map<Id, PasswordReset>

  /** The database as the services see it. */
  datatype Db = Db(users: UserTable, resets: ResetTable)

  datatype Purpose = PurposeSession | PurposeMfa | PurposeTotpSetup | PurposePasswordReset | PurposeInvite

  /** JWT payload. A missing subject or role is the empty string of the Go struct. */
  datatype Claims = Claims(
    subject: Option<Id>,
    userId: Id,
    email: string,
    role: Option<UserRole>,
    permissions: seq<Permission>,
    purpose: Purpose,
    issuedAt: Time,
    expiresAt: Time)

  /** A compact JWT: what it says and the HMAC over it. */
  datatype Token = Token(claims: Claims, mac: int)

  datatype Config = Config(
    jwtExpiryHours: int,
    mfaExpiryMinutes: int,
    totpSetupExpiryMinutes: int,
    passwordResetOtpMinutes: int,
    passwordResetJwtMinutes: int,
    maxFailedAttempts: int,
    inviteTtlHours: int,
    bootstrapAdminEmail: string,
    bootstrapAdminPassword: string,
    bootstrapAdminName: string)

  /** Library calls, as arbitrary functions: every theorem holds for all of them.
      hashPassword takes the random salt and fails as GenerateFromPassword may. */
  datatype Library = Library(
    trim: string -> string,
    lower: string -> string,
    passwordMatches: (string, string) -> bool,
    hashPassword: (string, int) -> Option<string>,
    totpValid: (string, string, Time) -> bool,
    otpHash: string -> string,
    mac: Claims -> int)
  {
    /** The normal form both repositories' callers and FindByEmail apply. */
    function Normal(email: string): string {
      lower(trim(email))
    }
  }

  datatype Env = Env(cfg: Config, lib: Library)
}
