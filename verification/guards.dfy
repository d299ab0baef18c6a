/**
 * The three checks stacked on every store operation: the database file is
 * configured and exists, the `leaderboard` table exists, and its columns
 * have the exact expected layout. The file system and the SQLite connection
 * are reduced to an abstract environment.
 */
module Guards {
  import opened Wrappers
  import opened Errors

  datatype FileKind = RegularFile | Directory

  /** One row of `PRAGMA table_info`: (cid, name, type, notnull, dflt_value, pk). */
  datatype Column = Column(cid: int, name: string, colType: string, notNull: int, defaultValue: Option<string>, pk: int)

  /**
   * What the checks can observe: the configured file path (`None` when unset),
   * whether a connection object is set, the entries of the file system, whether
   * the `leaderboard` table can be selected from, and the table's column rows.
   */
  datatype Env = Env(
    path: Option<string>,
    connected: bool,
    files: map<string, FileKind>,
    hasLeaderboard: bool,
    layout: seq<Column>)

  /** The only layout the engine accepts. */
  const PRAGMA_LAYOUT: seq<Column> := [
    Column(0, "guild_id", "INT", 1, None, 0),
    Column(1, "member_id", "INT", 1, None, 0),
    Column(2, "member_name", "TEXT", 1, None, 0),
    Column(3, "member_level", "INT", 1, None, 0),
    Column(4, "member_xp", "INT", 1, None, 0),
    Column(5, "member_total_xp", "INT", 1, None, 0)
  ]

  predicate EndsWith(s: string, suffix: string) {
    |s| >= |suffix| && s[|s| - |suffix|..] == suffix
  }

  /** Python truthiness of the path: set and non-empty. */
  predicate PathIsSet(path: Option<string>) {
    path.Some? && path.value != ""
  }

  /** `os.path.exists`: the empty path never exists. */
  predicate PathExists(env: Env)
    requires env.path.Some?
  {
    env.path.value != "" && env.path.value in env.files
  }

  /** The path names an existing regular file whose name ends in ".db". */
  predicate IsDatabaseFile(env: Env) {
    && env.path.Some?
    && PathExists(env)
    && env.files[env.path.value] == RegularFile
    && EndsWith(env.path.value, ".db")
  }

  /** Everything an operation needs before it may touch the table. */
  predicate Ready(env: Env) {
    IsDatabaseFile(env) && env.connected && env.hasLeaderboard && env.layout == PRAGMA_LAYOUT
  }

  /**
   * `db_file_exists`, then `leaderboard_exists`, then
   * `verify_leaderboard_integrity`, in the order the decorators are stacked.
   * The table checks go through the connection, so a file path without a
   * connection object fails there with an `AttributeError`.
   */
  function Guard(env: Env): (r: Outcome<Error>)
    ensures !PathIsSet(env.path) && !env.connected ==> r == Fail(DatabaseFileNotFound(NoDatabaseConfigured))
    ensures env.connected && env.path.None? ==> r == Fail(NotConnected)
    ensures env.path.Some? && (PathIsSet(env.path) || env.connected) && !PathExists(env) ==>
      r == Fail(DatabaseFileNotFound(DatabasePathMissing))
    ensures env.path.Some? && PathExists(env) && !IsDatabaseFile(env) ==>
      r == Fail(DatabaseFileNotFound(NotADatabaseFile))
    ensures IsDatabaseFile(env) && env.connected && !env.hasLeaderboard ==> r == Fail(LeaderboardNotFound)
    ensures IsDatabaseFile(env) && env.connected && env.hasLeaderboard && env.layout != PRAGMA_LAYOUT ==>
      r == Fail(ImproperLeaderboard)
  {
    if !PathIsSet(env.path) && !env.connected then Fail(DatabaseFileNotFound(NoDatabaseConfigured))
    else if env.path.None? then Fail(NotConnected)
    else if !PathExists(env) then Fail(DatabaseFileNotFound(DatabasePathMissing))
    else if !IsDatabaseFile(env) then Fail(DatabaseFileNotFound(NotADatabaseFile))
    else if !env.connected then Fail(Runtime(AttributeError))
    else if !env.hasLeaderboard then Fail(LeaderboardNotFound)
    else if env.layout != PRAGMA_LAYOUT then Fail(ImproperLeaderboard)
    else Pass
  }

  /** The guard lets an operation through exactly when the environment is ready. */
  lemma GuardPassesIffReady(env: Env)
    ensures Guard(env).Pass? <==> Ready(env)
  {
  }

  /** A decorated operation: its own result when the guard passes, the guard's error otherwise. */
  function Guarded<T>(env: Env, result: Result<T, Error>): (r: Result<T, Error>)
    ensures Ready(env) ==> r == result
    ensures !Ready(env) ==> r.Failure? && Guard(env) == Fail(r.error)
  {
    GuardPassesIffReady(env);
    match Guard(env)
    case Pass => result
    case Fail(e) => Failure(e)
  }

  /** A layout differing from the expected one in any column fails, whatever the rest of the environment. */
  lemma WrongColumnRejected(env: Env, i: int)
    requires IsDatabaseFile(env) && env.connected && env.hasLeaderboard
    requires |env.layout| == |PRAGMA_LAYOUT| && 0 <= i < |PRAGMA_LAYOUT| && env.layout[i] != PRAGMA_LAYOUT[i]
    ensures Guard(env) == Fail(ImproperLeaderboard)
  {
  }
}
