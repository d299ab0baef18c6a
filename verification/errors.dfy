/**
 * The exceptions the leveling engine raises, reduced to an enumeration.
 * The library's own exception classes keep their names; the built-in Python
 * exceptions that escape from the engine unhandled are grouped under `Runtime`.
 */
module Errors {

  /** Which check produced a `LevelingError` or a `RoleAwardError`. */
  datatype Reason =
    // add_xp / remove_xp
    | AmountNotPositive
    // set_level / add_record
    | LevelNotInRange
    // get_xp_for_level
    | UnknownLevel
    // _handle_amount_param, in the order the checks run
    | AmountWrongType
    | AmountScalarNotInRange
    | AmountWrongLength
    | AmountItemNotInt
    | AmountItemNotInRange
    | AmountItemsNotUnique
    | AmountItemsDescending
    // Bonus.__init__
    | BonusNoRoles
    | BonusMultiplierTooLarge
    // RoleAward registry checks
    | DuplicateRoleIds
    | LevelRequirementNotPositive
    | DuplicateLevelRequirements
    | DuplicateAwardObjects
    // db_file_exists
    | NoDatabaseConfigured
    | NotADatabaseFile
    | DatabasePathMissing

  /** Built-in exceptions the engine lets escape. */
  datatype RuntimeKind =
    | KeyError          // a level outside the table used as a dictionary key
    | ValueError        // `list.index` of a value the list lacks
    | TypeError         // a call with the wrong number of arguments
    | AttributeError    // an attribute read on an object that lacks it
    | NameMissing       // the plain `Exception` of `_update_record`
    | NotNullViolation  // SQLite rejecting NULL in a NOT NULL column

  datatype Error =
    | LevelingError(reason: Reason)        // DiscordLevelingSystemError
    | RoleAwardError(reason: Reason)
    | ImproperRoleAwardOrder
    | NotConnected
    | DatabaseFileNotFound(reason: Reason)
    | LeaderboardNotFound
    | ImproperLeaderboard
    | FailSafe
    | Runtime(kind: RuntimeKind)
}
