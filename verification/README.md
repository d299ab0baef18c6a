# discordLevelingSystem leveling engine, in Dafny

This project models the leveling engine of the Python library
`discordLevelingSystem` and proves properties of the model. In the library,
members of a Discord guild earn XP for their messages, level up along the MEE6
curve, receive role awards and are ranked. The model abstracts the SQLite
`leaderboard` table as a map from (guild id, member id) to a record. Every
operation is a pure function from that map to a new map and a result or error.

The modules follow the library's files:

| module | file | what it holds |
|---|---|---|
| `Wrappers` | — | `Option`, `Result`, `Outcome` |
| `Errors` | `errors.py` | the library's exceptions, plus the Python runtime errors the code can raise, as one datatype |
| `Levels` | `levels_xp_needed.py` | the 101-entry table, `MAX_XP`, `MAX_LEVEL`, `_next_level_details`, `_find_level`, and the MEE6 curve as an independent reference for the table |
| `Guards` | `decorators.py` | `db_file_exists`, `leaderboard_exists` and `verify_leaderboard_integrity` as one guard over an abstract environment |
| `Store` | `leveling_system.py` | `_update_record`, `add_record`, `set_level`, `add_xp`, `remove_xp`, `reset_member`, `wipe_database`, `reset_everyone`, `is_in_database`, `remove_from_database`, `clean_database`, `next_level`, `next_level_up`, `get_xp_for_level` |
| `Ranking` | `leveling_system.py` | `get_rank_for` over a leaderboard ordered by total XP |
| `RoleAwards` | `role_awards.py` | the class-level registry, the constructor's checks, `__eq__`, `_verify_duplicate_awards`, `_verify_awards_integrity` |
| `Announcement` | `announcement.py` | the five tokens, the default message, `_parse_message` and the `str.replace` it relies on |
| `Award` | `leveling_system.py` | `_determine_no_xp`, `_handle_amount_param`, `Bonus`, the level-up step, `_get_last_award`, the role-award branch of `_handle_level_up`, and `award_xp` |

## How the model follows the code

Each file is modelled as written, including where the files disagree with
each other or with the library's documented design:

- **`award_xp` levels up on the XP earned since the last level-up.** That XP
  is compared with the next level's *cumulative* threshold. The total is not
  capped. As a result, the stored level can trail the level `_find_level`
  gives for the total (`Award.LevelTrailsTotal`). A member at level 100
  keeps gaining total XP past `MAX_XP` (`Award.AwardPassesMaxXp`).
- **Announcements raise.** With announcements on, `_handle_level_up` (line
  1771) calls `_parse_message` with one argument more than `announcement.py`
  takes. This raises a `TypeError` after the new level has been committed.
  Role awards and the `dls_level_up` event are therefore only reached with
  announcements off.
- **A missing role cancels the whole step.** In replace mode, if either role
  no longer exists, the handler returns without granting, revoking or
  dispatching anything. In stack mode, a missing role also ends the handler
  before the event is dispatched.
- **Direct messages can raise.** The eligibility gate builds its list
  eagerly, so `_determine_no_xp` runs even for a direct message. It reads
  `message.author.roles` when no-XP roles are configured, which raises an
  `AttributeError` for a direct message unless its channel is a no-XP
  channel.
- **Ties in the ranking.** `get_rank_for` ranks by
  `ORDER BY member_total_xp DESC`. SQLite may order equal totals either way,
  so the model's leaderboard is any order with that property. The rank is
  bounded by the members strictly ahead and the members at least level, and
  it is exact when no one else has the same total.
- **`Bonus` multipliers.** The bonus amount is not checked to be positive,
  so a multiplier of 0 or less is accepted, as in the code. An additive
  bonus below 0 can therefore give a new member a negative total, and a
  later `add_xp` that leaves the total below 0 raises: `_find_level` has no
  level for it, and the `None` it writes violates the NOT NULL level column.
- **Inputs instead of library calls.** The random draw and the rate
  limiter's verdict are inputs: `roll` and `onCooldown`.

## Model

| member | source | states |
|---|---|---|
| Levels.TableIsMee6Curve | discordLevelingSystem/levels_xp_needed.py:12-117 | The table has exactly the levels 0..100, level 0 needs 0 XP, MAX_XP is 1899250, and every entry is the MEE6 curve's cumulative threshold, where advancing from level k costs 5k²+50k+100 |
| Levels.TableSteps | discordLevelingSystem/levels_xp_needed.py:12-114 | Every pair of neighbouring entries differs by the curve's cost of that step |
| Levels.FollowsCurve | discordLevelingSystem/levels_xp_needed.py:12-114 | Any table that starts at 0 and whose steps follow the curve is the curve, entry by entry |
| Levels.ThresholdsIncrease | discordLevelingSystem/levels_xp_needed.py:12-114 | table[l] < table[l+1] for every level l in 0..99 |
| Levels.ThresholdsOrdered | discordLevelingSystem/levels_xp_needed.py:12-114 | Any higher level needs strictly more XP than a lower one |
| Levels.ThresholdsBounded | discordLevelingSystem/levels_xp_needed.py:12-117 | Every threshold lies between 0 and MAX_XP |
| Levels.NextLevelDetails | discordLevelingSystem/levels_xp_needed.py:131-137 | The next level is min(current+1, 100), with that level's threshold. A current level below -1 is not a key of the table |
| Levels.NextLevelDetailsAdvance | discordLevelingSystem/levels_xp_needed.py:131-137 | Below 100, the next level's threshold is above the current one's. At or above 100, the details are pinned at (100, MAX_XP) |
| Levels.IndexOfThreshold | discordLevelingSystem/levels_xp_needed.py:147-150 | The exact-match loop finds a level whose threshold is the given total |
| Levels.ScanBelow | discordLevelingSystem/levels_xp_needed.py:151-157 | The fallback loop has no answer exactly when the total is negative or above every remaining threshold. Otherwise it gives a level r below 100 with table[r] < total <= table[r+1], or level 0 for a total of 0 |
| Levels.FindLevelIn | discordLevelingSystem/levels_xp_needed.py:139-157 | For any strictly increasing 101-entry table from 0, `_find_level` answers exactly for totals in [0, last entry]. The answer is a level whose band [threshold, next threshold) holds the total |
| Levels.FindLevel | discordLevelingSystem/levels_xp_needed.py:139-157 | `_find_level` answers exactly for totals in [0, MAX_XP], and the answer's band holds the total. Above MAX_XP it has no answer |
| Levels.FindLevelInCharacterised | discordLevelingSystem/levels_xp_needed.py:145-157 | Both directions: a level is found exactly when its band holds the total |
| Levels.FindLevelIsGreatestLevelReached | discordLevelingSystem/levels_xp_needed.py:145-157 | For the real table, a total maps to a level exactly when that is the greatest level whose threshold the total reaches |
| Levels.FindLevelOfThreshold | discordLevelingSystem/levels_xp_needed.py:147-150 | Round trip: the threshold of level L maps back to L, for every L in 0..100 |
| Guards.Guard | discordLevelingSystem/decorators.py:36-106 | Errors in the order the decorators are stacked: no path and no connection gives DatabaseFileNotFound; a connection without a path gives NotConnected; a missing path or non-`.db` file gives DatabaseFileNotFound; a missing table gives LeaderboardNotFound; any other column layout gives ImproperLeaderboard |
| Guards.GuardPassesIffReady | discordLevelingSystem/decorators.py:36-106 | The guard passes exactly when the file is an existing `.db` file, connected, and the table exists with the exact six-column layout |
| Guards.Guarded | discordLevelingSystem/decorators.py:36-106 | A decorated operation returns its own result exactly when the environment is ready, and the guard's error otherwise |
| Guards.WrongColumnRejected | discordLevelingSystem/decorators.py:91-105 | A layout differing from the expected one in any single column is rejected |
| Store.UpdateRecord | discordLevelingSystem/leveling_system.py:425-438 | The upsert succeeds exactly when the name rule holds, the level is not None, and the row exists or a name is given. It then writes level, XP and total, keeps an existing row's name, and leaves every other row alone. A possibly-new row without a name raises |
| Store.AddRecord | discordLevelingSystem/leveling_system.py:564-569 | A level outside 0..100 is rejected. Otherwise the row holds that level, XP 0 and the level's threshold as total, which is consistent with `_find_level`. A new row is named `str(member_name)` and an existing row keeps its name. Other rows are untouched |
| Store.SetLevel | discordLevelingSystem/leveling_system.py:834-837 | As for add_record, for the member's own row: a new row is named `str(member)` and an existing row keeps its name |
| Store.AddXp | discordLevelingSystem/leveling_system.py:756-767 | A non-positive amount raises. There is no change without a row or at a total of MAX_XP or more. A new total still below 0 raises a NOT NULL violation. Otherwise the total strictly grows by the amount, capped at MAX_XP; XP within the level and the name are kept; the level is the one the new total reaches |
| Store.ReducedTotal | discordLevelingSystem/leveling_system.py:803-804 | The total remove_xp writes is never negative, and is either 0 or the old total less the amount |
| Store.RemoveXpAsWritten | discordLevelingSystem/leveling_system.py:795-806 | remove_xp as written: a non-positive amount raises; there is no change without a row or at total 0; a reduced total above MAX_XP that is not a threshold writes a NULL level and fails |
| Store.LevelForTotal | discordLevelingSystem/leveling_system.py:805 | The level for a non-negative total is always a level of the table: `_find_level`'s answer within the table, and 100 above MAX_XP |
| Store.RemoveXp | discordLevelingSystem/leveling_system.py:795-806 | remove_xp corrected: a non-positive amount raises, and otherwise it always succeeds. With a non-zero total, the total drops by the amount floored at 0; XP and name are kept; the level stays within 0..100 and agrees with `_find_level` within the table |
| Store.RemoveXpAgreesWithinTable | discordLevelingSystem/leveling_system.py:795-806 | Wherever the reduced total stays within MAX_XP, the corrected and the as-written remove_xp give the same result |
| Store.RemoveXpPastMaxFails | discordLevelingSystem/leveling_system.py:803-806 | Removing 1 XP from a level-100 member whose total is MAX_XP + 100 fails as written, and succeeds at level 100 when corrected |
| Store.AddThenRemoveXp | discordLevelingSystem/leveling_system.py:756-806 | Adding an amount and removing it again restores the store exactly, for a consistent row whose total stays within 1..MAX_XP |
| Store.ResetMember | discordLevelingSystem/leveling_system.py:1013 | The member's row, if any, gets level, XP and total 0 and keeps its name, which is a consistent record. No row is created and other rows are untouched |
| Store.WipeDatabase | discordLevelingSystem/leveling_system.py:940-945 | Raises FailSafe exactly when not intentional. Otherwise exactly the rows out of scope survive, unchanged |
| Store.WipeDatabaseIdempotent | discordLevelingSystem/leveling_system.py:940-945 | Wiping twice is the same as wiping once |
| Store.ResetEveryone | discordLevelingSystem/leveling_system.py:1052-1057 | Raises FailSafe exactly when not intentional. Otherwise the same rows remain, those in scope are zeroed with their names kept, and the rest are unchanged |
| Store.RemoveFromDatabase | discordLevelingSystem/leveling_system.py:1220-1229 | Reports true exactly when `is_in_database` (Store.IsInDatabase, leveling_system.py:1273-1281: a row for the member in the guild, or in any guild without one) holds. Afterwards the member has no row in scope, and every other row is kept unchanged |
| Store.CleanDatabase | discordLevelingSystem/leveling_system.py:976-991 | Deletes exactly the guild's rows whose member left the roster and keeps the rest unchanged. The count returned is the number deleted, and kept plus deleted is the original size |
| Store.CleanDatabaseSettles | discordLevelingSystem/leveling_system.py:976-991 | After a clean, every row of the guild belongs to a current member, and a second clean removes nothing |
| Store.NextLevel | discordLevelingSystem/leveling_system.py:1377-1382 | None exactly without a row. Otherwise the level after the member's, capped at 100, which is the level `_next_level_details` names |
| Store.NextLevelUp | discordLevelingSystem/leveling_system.py:1342-1349 | None exactly without a row; 0 at level 100; the next threshold less the XP within the level for levels 0..99; a KeyError below level -1 |
| Store.GetXpForLevel | discordLevelingSystem/leveling_system.py:261-264 | Succeeds exactly for levels 0..100 with the cumulative XP the curve gives that level, and raises otherwise |
| Store.GetXpForLevelRoundTrip | discordLevelingSystem/leveling_system.py:261-264 | `_find_level` of the XP a level needs is that level |
| Store.AdministrativeOperationsKeepLevels | discordLevelingSystem/leveling_system.py:564-1057 | Every administrative operation that succeeds keeps every stored level within 0..100 |
| Ranking.Leaderboard | discordLevelingSystem/leveling_system.py:1628-1629 | The guild's members with a row, each listed once, from highest to lowest total |
| Ranking.RankBounds | discordLevelingSystem/leveling_system.py:1631 | A member's index in such a leaderboard is at least the number of members ahead and below the number of members at least level with it |
| Ranking.UniqueTotalRank | discordLevelingSystem/leveling_system.py:1628-1634 | With no other member on the same total, the members at least level are exactly those ahead plus the member |
| Ranking.GetRankFor | discordLevelingSystem/leveling_system.py:1628-1634 | None exactly when the member has no row in the guild. Otherwise a 1-based rank after every member strictly ahead and within those at least level, which is one past those ahead when the total is unique |
| RoleAwards.MaxCountDetectsRepeats | discordLevelingSystem/role_awards.py:74-75 | On a non-empty list, `max(Counter(...).values()) != 1` holds exactly when some value repeats |
| RoleAwards.NonPositive | discordLevelingSystem/role_awards.py:81-82 | The filtered list is non-empty exactly when some level requirement is 0 or below |
| RoleAwards.CheckDuplicateIds | discordLevelingSystem/role_awards.py:72-76 | Passes exactly when the role ids are non-empty and free of repeats. A repeat raises RoleAwardError |
| RoleAwards.CheckLevelRequirements | discordLevelingSystem/role_awards.py:79-87 | Passes exactly when the requirements are non-empty, positive and free of repeats. A non-positive one raises first, then a repeat |
| RoleAwards.NewRoleAward | discordLevelingSystem/role_awards.py:46-54 | The pair is appended to the registry whatever happens. Construction succeeds exactly when the whole registry is valid, and raises for a repeated id, then a non-positive requirement, then a repeated requirement |
| RoleAwards.RegistryPoisoned | discordLevelingSystem/role_awards.py:41-54 | Once the registry is invalid, every later construction fails and the registry stays invalid |
| RoleAwards.FreshAwardAccepted | discordLevelingSystem/role_awards.py:41-54 | A valid registry accepts an award with a fresh role id and a fresh positive level, and stays valid |
| RoleAwards.AwardEquals | discordLevelingSystem/role_awards.py:59-69 | Equal exactly when the other value is an award with the same role id and level requirement. A non-award is never equal |
| RoleAwards.AwardEqualsIsEquivalence | discordLevelingSystem/role_awards.py:59-69 | `__eq__` is reflexive and symmetric between awards |
| RoleAwards.VerifyDuplicateAwards | discordLevelingSystem/role_awards.py:90-96 | Passes exactly when no award object appears twice (the empty list passes), and raises RoleAwardError otherwise |
| RoleAwards.VerifyAwardsIntegrity | discordLevelingSystem/role_awards.py:99-106 | Raises ImproperRoleAwardOrder exactly when some award's requirement is below its predecessor's (below 0 for the first). Equal neighbours and the empty list pass |
| RoleAwards.IntegrityMeansNonDecreasing | discordLevelingSystem/role_awards.py:99-106 | A list passing the check has non-negative, non-decreasing requirements between any two positions |
| Announcement.IntToStringRoundTrip | discordLevelingSystem/announcement.py:100 | `str(n)` of an int reads back as n, with a minus sign exactly for negative n |
| Announcement.ReplaceLength | discordLevelingSystem/announcement.py:100 | `replace` changes the length by the number of occurrences times the difference in length between new and old |
| Announcement.ReplaceAbsent | discordLevelingSystem/announcement.py:100 | A string without the old text is returned unchanged |
| Announcement.ReplaceChangesIff | discordLevelingSystem/announcement.py:100 | `replace` changes the string exactly when the old text occurs and the new text differs from it |
| Announcement.NewAnnouncement | discordLevelingSystem/announcement.py:77-84 | A new announcement keeps its message and channel, with all five placeholders unset |
| Announcement.TokensAreDistinctBracketedNames | discordLevelingSystem/announcement.py:71-75 | The five tokens are distinct and each is `[$` + name + `]` |
| Announcement.ParseMessage | discordLevelingSystem/announcement.py:91-101 | A message containing none of the five tokens is returned unchanged |
| Announcement.TemplateRendering | discordLevelingSystem/announcement.py:91-101 | A message written as literal text and tokens renders with every occurrence of every token replaced by its value's `str` and the literal text kept, as long as neither holds a `[` |
| Announcement.ReplaceStage | discordLevelingSystem/announcement.py:99-100 | Each pass of the loop turns exactly the occurrences of its own token into the value's text and leaves the other tokens for later passes |
| Announcement.ShownNumberHasNoBracket | discordLevelingSystem/announcement.py:100 | `str` of a number or of None never contains a `[`, so such values never stop the rendering above |
| Announcement.DefaultMessageTokens | discordLevelingSystem/announcement.py:27 | The default message contains the mention and level tokens and none of the other three |
| Announcement.DefaultMessageRendering | discordLevelingSystem/announcement.py:91-101 | The default message renders as the mention's text, the fixed words and the level's text, whatever xp, total_xp and rank hold |
| Announcement.UnsetRendersNone | discordLevelingSystem/announcement.py:80-101 | Placeholders start unset, so a new announcement renders the message `[$xp]` as the text "None" |
| Award.DetermineNoXp | discordLevelingSystem/leveling_system.py:398-423 | True exactly in a no-XP channel or when a guild member holds a no-XP role. It raises exactly for a direct message outside the no-XP channels when no-XP roles are set |
| Award.HandleAmountParam | discordLevelingSystem/leveling_system.py:1835-1863 | Passes exactly for an int in 1..25 or two ints in 1..25 with the first smaller. Each other case gets the error of the first check it fails |
| Award.Draw | discordLevelingSystem/leveling_system.py:1917-1918 | The drawn amount lies between the pair's bounds, and so within 1..25 |
| Award.DrawCoversRange | discordLevelingSystem/leveling_system.py:1918 | Every amount between the bounds is drawn for some outcome of the generator |
| Award.NewBonus | discordLevelingSystem/leveling_system.py:213-223 | Succeeds exactly with at least one role and no multiplier above 3, and raises the matching error otherwise |
| Award.FirstHeld | discordLevelingSystem/leveling_system.py:1923-1925 | The first listed bonus role the author holds that still exists, and None exactly when the author holds none |
| Award.ApplyBonus | discordLevelingSystem/leveling_system.py:1922-1933 | Without a held role the amount is unchanged. Otherwise it is multiplied or increased once and capped at 75 |
| Award.OnlyFirstHeldRoleCounts | discordLevelingSystem/leveling_system.py:1923-1933 | Roles listed after one the author holds change nothing |
| Award.BonusAppliedOnce | discordLevelingSystem/leveling_system.py:1922-1933 | Holding several bonus roles gives the same as holding only the first |
| Award.LevelUpStep | discordLevelingSystem/leveling_system.py:1957-1962 | Levels up exactly when the level is in -1..99 and the XP reaches the next threshold. It then advances one level with XP 0 and the total unchanged; otherwise nothing changes. Below level -1 it is a KeyError |
| Award.NextLevelUpAmountLevelsUp | discordLevelingSystem/leveling_system.py:1957-1962 | Awarding at least what next_level_up reports levels the member up by exactly one |
| Award.IndexOfAward | discordLevelingSystem/leveling_system.py:1707 | `list.index`: the first position holding an equal award, and None exactly when there is none |
| Award.GetLastAward | discordLevelingSystem/leveling_system.py:1700-1715 | Fails with ValueError exactly when the award is not listed. Otherwise the result is a listed award |
| Award.LastAwardIsPredecessor | discordLevelingSystem/leveling_system.py:1700-1715 | For the first award of its level, the last award is the one listed before it, or itself when it is listed first |
| Award.AwardForLevel | discordLevelingSystem/leveling_system.py:1797-1799 | The first award whose requirement is the new level, and None exactly when no award matches |
| Award.HandleLevelUp | discordLevelingSystem/leveling_system.py:1746-1822 | Nothing without a level-up; a TypeError with announcements on; only the event without awards. A granted role always exists, and stack mode never revokes |
| Award.RoleAwardResolution | discordLevelingSystem/leveling_system.py:1789-1819 | No matching award gives only the event. Stack mode grants the match; replace mode grants it and revokes the award listed before it, with nothing revoked for the first award. A missing role stops the handler |
| Award.UnknownGuildStopsHandler | discordLevelingSystem/leveling_system.py:1790-1794 | A guild without awards ends the handler with no action and no event |
| Award.AwardXp | discordLevelingSystem/leveling_system.py:1913-1972 | The store is unchanged unless the message passes the gate, the amount check and the rate limiter. It is skipped exactly when the gate says so. Once admitted, the author has a row, other rows are untouched, and an existing total grows by exactly the earned amount. With `refresh_name`, a run that finishes leaves the author's current name in the row |
| Award.FirstAwardInserts | discordLevelingSystem/leveling_system.py:1967-1969 | A first message inserts the author at level 0 with the earned amount as both XP and total |
| Award.LaterAwardIncrements | discordLevelingSystem/leveling_system.py:1944-1972 | A later message raises the total by exactly the earned amount. It either adds the amount to the XP or advances exactly one level with XP 0, and a level within 0..100 stays within it. The name is kept with `refresh_name` off or when the handler raised; otherwise it becomes the author's current name |
| Award.AwardPassesMaxXp | discordLevelingSystem/leveling_system.py:1944-1962 | A member at level 100 and MAX_XP keeps earning: the level stays 100 and the total passes MAX_XP, where `_find_level` has no answer |
| Award.LevelTrailsTotal | discordLevelingSystem/leveling_system.py:1957-1958 | At level 1 with 201 XP in the level and 301 in total, no level-up happens although 301 XP is level 2 by the table |

## Left out

- SQLite plumbing is not modelled, because it is I/O: creating, connecting, switching, backing up and transferring database files, `export_as_json`, `sql_query_get`, commits and cursors. The table is a map.
- Plain reads of one row or of counts are not modelled separately, because each is a lookup in the map: `get_data_for`, `get_xp_for`, `get_total_xp_for`, `get_level_for`, `each_member_data`, `get_record_count`, `raw_database_contents`, `get_awards` and `levels_and_xp`.
- `insert` and `refresh_names` are not modelled, because they depend on Discord member lookups. The member's name is a parameter, and `str(message.author)` is the message's author name, which is what `_refresh_name` writes at the end of `award_xp`.
- Discord API calls are replaced. Role grants and revokes and the `dls_level_up` event are returned as actions, and role and member lookups are sets of ids.
- Announcement sending is not modelled, because it is unreachable behind the `TypeError` at leveling_system.py:1771. This covers `random.choice` of the announcement, `level_up_channel_ids`, and `channel.send` with its embeds and keyword arguments.
- The event's payload (member, message, refreshed record with rank) is not modelled. The event is the action `DispatchLevelUp`.
- The rate limiter (`CooldownMapping`) and `random.randint` are library code that is not shown. Their outcomes are the inputs `onCooldown` and `roll`.
- The constructor of `DiscordLevelingSystem` is not modelled. It checks rate and per and calls `RoleAward._check`, which `role_awards.py` does not define.
- `isinstance` checks on ids and levels are not modelled, because the model's parameters are typed ints. Only the amount of `award_xp`, which may be an int, a sequence or anything else, keeps its type errors.
- The read-modify-write race between two awards for the same member is not modelled: it is a concurrency concern, and each operation here is atomic.
- Card rendering (`rank_card.py`, `card_settings.py`) is not modelled, because it is image drawing and number formatting.
- Announcement.ReplaceChangesIff: `str.replace` is modelled only for a non-empty `old`, because all five tokens are non-empty.
- Announcement.ParseMessage: its rendering is stated (by Announcement.TemplateRendering) only for messages whose literal text and used values contain no `[`, because otherwise a replacement can join neighbouring text into a new token: `[$men[$mention]n]` with the mention `tio` gives `[$mention]`.
- Announcement.DefaultMessageRendering: assumes the mention and level texts contain no `[`, for the same reason.
- Ranking.GetRankFor: states bounds rather than a single position when totals tie, because the order of equal totals is SQLite's choice.
- Store.AddXp: the case of an empty member name is not stated separately; `_update_record` then raises, as Store.UpdateRecord states.
- Store.SetLevel: the case of an empty member name is not stated separately, for the same reason.
- Store.RemoveXpAsWritten: only its error paths and its agreement with Store.RemoveXp within the table are stated, because the corrected member carries the full contract.
- Award.HandleLevelUp: with announcements on, only the `TypeError` is stated, because nothing after it runs.

## Findings

| source | as written | input that shows it | evidently intended | confidence | as-written member | corrected member |
|---|---|---|---|---|---|---|
| discordLevelingSystem/leveling_system.py:795-806 | `remove_xp` recomputes the level with `_find_level`, which has no answer above MAX_XP. The NULL level it then writes violates the table's NOT NULL column | a member at level 100 with total MAX_XP + 100, which `award_xp` can produce since it does not cap the total, loses 1 XP | the total drops and the level stays 100, as `add_xp`'s cap at MAX_XP implies for totals past the table | not executed | Store.RemoveXpAsWritten, shown by Store.RemoveXpPastMaxFails | Store.RemoveXp |
