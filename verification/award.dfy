/**
 * `award_xp`: the per-message path of the engine. A message passes an
 * eligibility gate, the amount is validated and drawn, a bonus may raise it,
 * the rate limiter may hold it back, and then the author's row is inserted or
 * incremented, with at most one level-up and its role awards. The random
 * draw and the rate limiter's verdict are inputs; Discord side effects are
 * returned as a list of actions.
 */
module Award {
  import opened Wrappers
  import opened Errors
  import opened Levels
  import opened Store
  import opened RoleAwards

  /*---------------------------------------------------------------------------
   * Messages and settings
   *-------------------------------------------------------------------------*/

  /** Where a message was sent: in a guild (whose role ids, and the author's, are given), or as a direct message. */
  datatype Origin =
    | InGuild(guild: int, guildRoles: set<int>, authorRoles: set<int>)
    | DirectMessage

  /** The parts of a Discord message the engine reads; `isDefault` is `message.type == MessageType.default`. */
  datatype Message = Message(
    origin: Origin,
    channel: int,
    authorId: int,
    authorName: string,
    authorIsBot: bool,
    isDefault: bool)

  /**
   * The engine's settings. An unset list of no-XP roles or channels is the
   * empty set; `awards` is `None` when no awards were given; `hasBot` says
   * whether a bot was given to dispatch events to.
   */
  datatype Settings = Settings(
    noXpRoles: set<int>,
    noXpChannels: set<int>,
    announceLevelUp: bool,
    stackAwards: bool,
    active: bool,
    awards: Option<map<int, seq<RoleAward>>>,
    hasBot: bool)

  /*---------------------------------------------------------------------------
   * The eligibility gate
   *-------------------------------------------------------------------------*/

  /**
   * `_determine_no_xp`: true in a no-XP channel; otherwise true when the
   * author holds a no-XP role. The role check reads the author's roles, which
   * the author of a direct message does not have.
   */
  function DetermineNoXp(settings: Settings, msg: Message): (r: Result<bool, Error>)
    ensures r.Failure? <==>
      msg.channel !in settings.noXpChannels && settings.noXpRoles != {} && msg.origin.DirectMessage?
    ensures r.Failure? ==> r.error == Runtime(AttributeError)
    ensures r == Success(true) <==>
      || msg.channel in settings.noXpChannels
      || (msg.origin.InGuild? && exists role | role in settings.noXpRoles :: role in msg.origin.authorRoles)
  {
    if msg.channel in settings.noXpChannels then Success(true)
    else if settings.noXpRoles == {} then Success(false)
    else match msg.origin
      case DirectMessage => Failure(Runtime(AttributeError))
      case InGuild(_, _, authorRoles) => Success(exists role | role in settings.noXpRoles :: role in authorRoles)
  }

  /** The gate of `award_xp`, once `_determine_no_xp` has answered `noXp`. */
  predicate Ignored(settings: Settings, msg: Message, noXp: bool) {
    msg.origin.DirectMessage? || noXp || msg.authorIsBot || !msg.isDefault || !settings.active
  }

  /*---------------------------------------------------------------------------
   * The amount
   *-------------------------------------------------------------------------*/

  /** One element of a sequence passed as the amount. */
  datatype AmountItem = IntItem(n: int) | OtherItem

  /** The `amount` argument: an int, a sequence of items, or a value of another type. */
  datatype Amount = Scalar(n: int) | Items(items: seq<AmountItem>) | Unsupported

  const MIN_AMOUNT := 1
  const MAX_AMOUNT := 25

  predicate InAmountRange(n: int) { MIN_AMOUNT <= n <= MAX_AMOUNT }

  /** What `award_xp` accepts: an int in 1..25, or two ints in 1..25 with the first smaller. */
  predicate ValidAmount(a: Amount) {
    match a
    case Scalar(n) => InAmountRange(n)
    case Items(items) =>
      && |items| == 2
      && items[0].IntItem? && items[1].IntItem?
      && InAmountRange(items[0].n) && InAmountRange(items[1].n)
      && items[0].n < items[1].n
    case Unsupported => false
  }

  /** `_handle_amount_param`: the checks in the order they run, each with its own error. */
  function HandleAmountParam(a: Amount): (r: Outcome<Error>)
    ensures r.Pass? <==> ValidAmount(a)
    ensures a.Unsupported? ==> r == Fail(LevelingError(AmountWrongType))
    ensures a.Scalar? && !InAmountRange(a.n) ==> r == Fail(LevelingError(AmountScalarNotInRange))
    ensures a.Items? && |a.items| != 2 ==> r == Fail(LevelingError(AmountWrongLength))
    ensures a.Items? && |a.items| == 2 && (a.items[0].OtherItem? || a.items[1].OtherItem?) ==>
      r == Fail(LevelingError(AmountItemNotInt))
    ensures a.Items? && |a.items| == 2 && a.items[0].IntItem? && a.items[1].IntItem? ==>
      var (x, y) := (a.items[0].n, a.items[1].n);
      && (!InAmountRange(x) || !InAmountRange(y) ==> r == Fail(LevelingError(AmountItemNotInRange)))
      && (InAmountRange(x) && InAmountRange(y) && x == y ==> r == Fail(LevelingError(AmountItemsNotUnique)))
      && (InAmountRange(x) && InAmountRange(y) && y < x ==> r == Fail(LevelingError(AmountItemsDescending)))
    ensures r.Fail? ==> r.error.LevelingError?
  {
    match a
    case Unsupported => Fail(LevelingError(AmountWrongType))
    case Scalar(n) => if n <= 0 || n > MAX_AMOUNT then Fail(LevelingError(AmountScalarNotInRange)) else Pass
    case Items(items) =>
      if |items| != 2 then Fail(LevelingError(AmountWrongLength))
      else if items[0].OtherItem? || items[1].OtherItem? then Fail(LevelingError(AmountItemNotInt))
      else if items[0].n <= 0 || items[0].n > MAX_AMOUNT || items[1].n <= 0 || items[1].n > MAX_AMOUNT then
        Fail(LevelingError(AmountItemNotInRange))
      else if items[0].n == items[1].n then Fail(LevelingError(AmountItemsNotUnique))
      else if items[1].n < items[0].n then Fail(LevelingError(AmountItemsDescending))
      else Pass
  }

  /** The smallest and largest amount a valid argument can produce. */
  function Low(a: Amount): int
    requires ValidAmount(a)
  {
    if a.Scalar? then a.n else a.items[0].n
  }

  function High(a: Amount): int
    requires ValidAmount(a)
  {
    if a.Scalar? then a.n else a.items[1].n
  }

  /**
   * The amount awarded before any bonus: the int itself, or
   * `random.randint(low, high)` with the generator's outcome given as `roll`.
   */
  function Draw(a: Amount, roll: nat): (n: int)
    requires ValidAmount(a)
    ensures Low(a) <= n <= High(a)
    ensures InAmountRange(n)
  {
    if a.Scalar? then a.n else a.items[0].n + roll % (a.items[1].n - a.items[0].n + 1)
  }

  /** Every amount between the two bounds is drawn for some outcome of the generator. */
  lemma DrawCoversRange(a: Amount, n: int)
    requires ValidAmount(a) && Low(a) <= n <= High(a)
    ensures exists roll: nat :: Draw(a, roll) == n
  {
    var roll: nat := n - Low(a);
    if a.Items? {
      var width := High(a) - Low(a) + 1;
      assert 0 <= roll < width;
      SmallRemainder(roll, width);
    }
    assert Draw(a, roll) == n;
  }

  lemma SmallRemainder(x: int, m: int)
    requires 0 <= x < m
    ensures x % m == x
  {
  }

  /*---------------------------------------------------------------------------
   * Bonus XP
   *-------------------------------------------------------------------------*/

  datatype Bonus = Bonus(roleIds: seq<int>, bonusAmount: int, multiply: bool)

  const BONUS_CAP := 75
  const MAX_MULTIPLIER := 3

  /** `Bonus.__init__`: at least one role, and a multiplier of at most 3. */
  function NewBonus(roleIds: seq<int>, bonusAmount: int, multiply: bool): (r: Result<Bonus, Error>)
    ensures r.Success? <==> |roleIds| >= 1 && !(multiply && bonusAmount > MAX_MULTIPLIER)
    ensures |roleIds| == 0 ==> r == Failure(LevelingError(BonusNoRoles))
    ensures |roleIds| >= 1 && multiply && bonusAmount > MAX_MULTIPLIER ==> r == Failure(LevelingError(BonusMultiplierTooLarge))
    ensures r.Success? ==> r.value == Bonus(roleIds, bonusAmount, multiply)
  {
    if |roleIds| >= 1 then
      if multiply && bonusAmount > MAX_MULTIPLIER then Failure(LevelingError(BonusMultiplierTooLarge))
      else Success(Bonus(roleIds, bonusAmount, multiply))
    else Failure(LevelingError(BonusNoRoles))
  }

  /** The author holds the role, which still exists in the guild. */
  predicate Holds(guildRoles: set<int>, authorRoles: set<int>, roleId: int) {
    roleId in guildRoles && roleId in authorRoles
  }

  /** The first of `roleIds` the author holds. */
  function FirstHeld(roleIds: seq<int>, guildRoles: set<int>, authorRoles: set<int>): (r: Option<int>)
    ensures r.None? <==> forall i | 0 <= i < |roleIds| :: !Holds(guildRoles, authorRoles, roleIds[i])
    ensures r.Some? ==>
      && 0 <= r.value < |roleIds|
      && Holds(guildRoles, authorRoles, roleIds[r.value])
      && forall i | 0 <= i < r.value :: !Holds(guildRoles, authorRoles, roleIds[i])
  {
    if |roleIds| == 0 then None
    else if Holds(guildRoles, authorRoles, roleIds[0]) then Some(0)
    else match FirstHeld(roleIds[1..], guildRoles, authorRoles)
      case None => None
      case Some(i) => Some(i + 1)
  }

  /** The bonus applied to `amount`: multiplied or increased once, for the first role held, then capped at 75. */
  function ApplyBonus(bonus: Option<Bonus>, guildRoles: set<int>, authorRoles: set<int>, amount: int): (r: int)
    ensures bonus.None? || FirstHeld(bonus.value.roleIds, guildRoles, authorRoles).None? ==> r == amount
    ensures bonus.Some? && FirstHeld(bonus.value.roleIds, guildRoles, authorRoles).Some? ==>
      var raised := if bonus.value.multiply then amount * bonus.value.bonusAmount else amount + bonus.value.bonusAmount;
      && r <= BONUS_CAP
      && (raised <= BONUS_CAP ==> r == raised)
      && (raised > BONUS_CAP ==> r == BONUS_CAP)
  {
    if bonus.None? then amount
    else match FirstHeld(bonus.value.roleIds, guildRoles, authorRoles)
      case None => amount
      case Some(_) =>
        var raised := if bonus.value.multiply then amount * bonus.value.bonusAmount else amount + bonus.value.bonusAmount;
        if raised > BONUS_CAP then BONUS_CAP else raised
  }

  /** Only one role counts: roles listed after one the author holds change nothing. */
  lemma OnlyFirstHeldRoleCounts(b: Bonus, more: seq<int>, guildRoles: set<int>, authorRoles: set<int>, amount: int)
    requires FirstHeld(b.roleIds, guildRoles, authorRoles).Some?
    ensures ApplyBonus(Some(b.(roleIds := b.roleIds + more)), guildRoles, authorRoles, amount)
         == ApplyBonus(Some(b), guildRoles, authorRoles, amount)
  {
    var i := FirstHeld(b.roleIds, guildRoles, authorRoles).value;
    var longer := b.roleIds + more;
    assert longer[i] == b.roleIds[i];
    assert forall j | 0 <= j < i :: longer[j] == b.roleIds[j];
  }

  /** Holding several bonus roles gives no more than holding one: the bonus is applied once. */
  lemma BonusAppliedOnce(b: Bonus, guildRoles: set<int>, authorRoles: set<int>, amount: int)
    requires |b.roleIds| >= 1 && Holds(guildRoles, authorRoles, b.roleIds[0])
    ensures ApplyBonus(Some(b), guildRoles, authorRoles, amount)
         == ApplyBonus(Some(b.(roleIds := [b.roleIds[0]])), guildRoles, authorRoles, amount)
  {
    assert FirstHeld([b.roleIds[0]], guildRoles, authorRoles) == Some(0);
  }

  /*---------------------------------------------------------------------------
   * The level-up step
   *-------------------------------------------------------------------------*/

  /**
   * After the increment: when the XP within the level has reached the next
   * level's threshold, and the level is below that next level, the level
   * advances once and the XP within the level restarts at 0. A level below
   * -1 has no next level (`KeyError`).
   */
  function LevelUpStep(rec: Record): (r: Result<(Record, bool), Error>)
    ensures r.Failure? <==> rec.level < -1
    ensures r.Failure? ==> r.error == Runtime(KeyError)
    ensures r.Success? ==>
      (r.value.1 <==> -1 <= rec.level < MAX_LEVEL && rec.xp >= LEVELS_AND_XP[rec.level + 1])
    ensures r.Success? && r.value.1 ==> r.value.0 == rec.(level := rec.level + 1, xp := 0)
    ensures r.Success? && !r.value.1 ==> r.value.0 == rec
  {
    match NextLevelDetails(rec.level)
    case None => Failure(Runtime(KeyError))
    case Some(next) =>
      if rec.xp >= next.xpNeeded && rec.level < next.level then Success((rec.(level := next.level, xp := 0), true))
      else Success((rec, false))
  }

  /** Awarding at least what `next_level_up` reports as missing levels the member up. */
  lemma NextLevelUpAmountLevelsUp(store: Store, key: Key, amount: int)
    requires key in store && 0 <= store[key].level < MAX_LEVEL
    requires NextLevelUp(store, key).Success? && NextLevelUp(store, key).value.Some?
    requires amount >= NextLevelUp(store, key).value.value
    ensures var rec := store[key];
      LevelUpStep(rec.(xp := rec.xp + amount, totalXp := rec.totalXp + amount)) ==
        Success((rec.(level := rec.level + 1, xp := 0, totalXp := rec.totalXp + amount), true))
  {
  }

  /*---------------------------------------------------------------------------
   * Role awards on a level-up
   *-------------------------------------------------------------------------*/

  /** The first index at or after `i` holding an award equal to `award` (`list.index`). */
  function IndexOfAward(awards: seq<RoleAward>, award: RoleAward, i: nat): (r: Option<int>)
    requires i <= |awards|
    ensures r.None? <==> forall j | i <= j < |awards| :: awards[j] != award
    ensures r.Some? ==>
      && i <= r.value < |awards|
      && awards[r.value] == award
      && forall j | i <= j < r.value :: awards[j] != award
    decreases |awards| - i
  {
    if i == |awards| then None
    else if AwardEquals(awards[i], AwardValue(award)) then Some(i)
    else IndexOfAward(awards, award, i + 1)
  }

  /**
   * `_get_last_award`: the award listed just before `current`, or `current`
   * itself when it is listed first. An award missing from the list is a
   * `ValueError`. Which award is returned is stated by `LastAwardIsPredecessor`.
   */
  function GetLastAward(current: RoleAward, awards: seq<RoleAward>): (r: Result<RoleAward, Error>)
    ensures r.Failure? <==> current !in awards
    ensures r.Failure? ==> r.error == Runtime(ValueError)
    ensures r.Success? ==> r.value in awards
  {
    match IndexOfAward(awards, current, 0)
    case None => Failure(Runtime(ValueError))
    case Some(idx) => if idx - 1 < 0 then Success(current) else Success(awards[idx - 1])
  }

  /** For the first award of its level, the last award is its predecessor in the list, or itself when first. */
  lemma LastAwardIsPredecessor(awards: seq<RoleAward>, i: int)
    requires 0 <= i < |awards|
    requires forall j | 0 <= j < i :: awards[j].levelRequirement != awards[i].levelRequirement
    ensures GetLastAward(awards[i], awards) == Success(if i == 0 then awards[i] else awards[i - 1])
  {
    var idx := IndexOfAward(awards, awards[i], 0);
    assert idx == Some(i);
  }

  /** The first award in the list whose level requirement is `level`. */
  function AwardForLevel(awards: seq<RoleAward>, level: int): (r: Option<int>)
    ensures r.None? <==> forall j | 0 <= j < |awards| :: awards[j].levelRequirement != level
    ensures r.Some? ==>
      && 0 <= r.value < |awards|
      && awards[r.value].levelRequirement == level
      && forall j | 0 <= j < r.value :: awards[j].levelRequirement != level
  {
    if |awards| == 0 then None
    else if awards[0].levelRequirement == level then Some(0)
    else match AwardForLevel(awards[1..], level)
      case None => None
      case Some(i) => Some(i + 1)
  }

  /** A Discord side effect of a level-up. */
  datatype Action = AddRole(roleId: int) | RemoveRole(roleId: int) | DispatchLevelUp

  /** The `dls_level_up` event, sent when a bot was given. */
  function Dispatch(settings: Settings): seq<Action> {
    if settings.hasBot then [DispatchLevelUp] else []
  }

  /** Awards were given and are not empty. */
  predicate HasAwards(settings: Settings) {
    settings.awards.Some? && settings.awards.value != map[]
  }

  /**
   * The role-award branch of `_handle_level_up` for a member now at `level`
   * in `guild`, whose role ids are `guildRoles`. With announcements on, the
   * announcement is formatted first, through a call that passes one argument
   * more than the formatter takes (`TypeError`).
   */
  function HandleLevelUp(settings: Settings, guild: int, guildRoles: set<int>, level: int, leveledUp: bool): (r: Result<seq<Action>, Error>)
    ensures !leveledUp ==> r == Success([])
    ensures leveledUp && settings.announceLevelUp ==> r == Failure(Runtime(TypeError))
    ensures leveledUp && !settings.announceLevelUp ==> r.Success?
    ensures leveledUp && !settings.announceLevelUp && !HasAwards(settings) ==> r == Success(Dispatch(settings))
    ensures r.Success? ==> forall a | a in r.value && a.AddRole? :: a.roleId in guildRoles
    ensures r.Success? && settings.stackAwards ==> forall a | a in r.value :: !a.RemoveRole?
  {
    if !leveledUp then Success([])
    else if settings.announceLevelUp then Failure(Runtime(TypeError))
    else if HasAwards(settings) then
      if guild !in settings.awards.value then Success([])
      else
        var awards := settings.awards.value[guild];
        match AwardForLevel(awards, level)
        case None => Success(Dispatch(settings))
        case Some(i) =>
          var award := awards[i];
          if settings.stackAwards then
            if award.roleId in guildRoles then Success([AddRole(award.roleId)] + Dispatch(settings))
            else Success([])
          else
            LastAwardIsPredecessor(awards, i);
            var last := GetLastAward(award, awards).value;
            if last.roleId !in guildRoles || award.roleId !in guildRoles then Success([])
            else if last == award then Success([AddRole(award.roleId)] + Dispatch(settings))
            else Success([AddRole(award.roleId), RemoveRole(last.roleId)] + Dispatch(settings))
    else Success(Dispatch(settings))
  }

  /**
   * What a level-up does with role awards, for a guild that has them: nothing
   * when no award is for the new level but the event; in stack mode the
   * matching role is granted; in replace mode it is granted and the role of
   * the award listed before it removed, except for the first award listed.
   * A role that no longer exists stops the handler, event included.
   */
  lemma RoleAwardResolution(settings: Settings, guild: int, guildRoles: set<int>, level: int)
    requires !settings.announceLevelUp && HasAwards(settings) && guild in settings.awards.value
    ensures var awards := settings.awards.value[guild];
      var r := HandleLevelUp(settings, guild, guildRoles, level, true);
      match AwardForLevel(awards, level)
      case None => r == Success(Dispatch(settings))
      case Some(i) =>
        var award := awards[i];
        if settings.stackAwards then
          r == Success(if award.roleId in guildRoles then [AddRole(award.roleId)] + Dispatch(settings) else [])
        else if i == 0 then
          r == Success(if award.roleId in guildRoles then [AddRole(award.roleId)] + Dispatch(settings) else [])
        else
          var previous := awards[i - 1];
          && (previous.roleId !in guildRoles || award.roleId !in guildRoles ==> r == Success([]))
          && (previous.roleId in guildRoles && award.roleId in guildRoles && previous != award ==>
                r == Success([AddRole(award.roleId), RemoveRole(previous.roleId)] + Dispatch(settings)))
  {
    var awards := settings.awards.value[guild];
    match AwardForLevel(awards, level)
    case None =>
    case Some(i) => LastAwardIsPredecessor(awards, i);
  }

  /** A guild missing from the awards ends the handler before the event is dispatched. */
  lemma UnknownGuildStopsHandler(settings: Settings, guild: int, guildRoles: set<int>, level: int)
    requires !settings.announceLevelUp && HasAwards(settings) && guild !in settings.awards.value
    ensures HandleLevelUp(settings, guild, guildRoles, level, true) == Success([])
  {
  }

  /*---------------------------------------------------------------------------
   * award_xp
   *-------------------------------------------------------------------------*/

  /** What became of a message: ignored by the gate, held back by the rate limiter, a new row, or an increment. */
  datatype Report =
    | Skipped
    | CoolingDown
    | Inserted
    | Incremented(leveledUp: bool, actions: seq<Action>)

  /** The XP a message earns, once it has passed the gate and its amount is valid. */
  function Earned(msg: Message, amount: Amount, roll: nat, bonus: Option<Bonus>): int
    requires msg.origin.InGuild? && ValidAmount(amount)
  {
    ApplyBonus(bonus, msg.origin.guildRoles, msg.origin.authorRoles, Draw(amount, roll))
  }

  /** Everything before the store is touched lets the message through. */
  predicate Admitted(settings: Settings, msg: Message, amount: Amount, onCooldown: bool) {
    && DetermineNoXp(settings, msg).Success?
    && !Ignored(settings, msg, DetermineNoXp(settings, msg).value)
    && ValidAmount(amount)
    && !onCooldown
  }

  /**
   * `award_xp`, after the database guards. `roll` is the random generator's
   * outcome and `onCooldown` the rate limiter's verdict. A new author gets a
   * row at level 0 with the amount as XP and total; an existing one has both
   * increased by the amount, then at most one level-up with its role
   * awards. An error raised after a commit leaves the committed store.
   * With `refreshName` (the default in the program), a row that made it to
   * the end has its name set to the author's current name.
   */
  function AwardXp(settings: Settings, store: Store, msg: Message, amount: Amount, roll: nat,
                   bonus: Option<Bonus>, onCooldown: bool, refreshName: bool): (r: Step<Report>)
    ensures !Admitted(settings, msg, amount, onCooldown) ==> r.store == store
    ensures r.out == Success(Skipped) <==>
      DetermineNoXp(settings, msg).Success? && Ignored(settings, msg, DetermineNoXp(settings, msg).value)
    ensures r.out.Success? && r.out.value.Incremented? ==> Admitted(settings, msg, amount, onCooldown)
    ensures Admitted(settings, msg, amount, onCooldown) ==>
      var key := Key(msg.origin.guild, msg.authorId);
      && key in r.store
      && SameElsewhere(store, r.store, key)
      && (key in store ==> r.store[key].totalXp == store[key].totalXp + Earned(msg, amount, roll, bonus))
      && (r.out.Success? && refreshName ==> r.store[key].name == msg.authorName)
  {
    match DetermineNoXp(settings, msg)
    case Failure(e) => Step(store, Failure(e))
    case Success(noXp) =>
      if Ignored(settings, msg, noXp) then Step(store, Success(Skipped))
      else match HandleAmountParam(amount)
        case Fail(e) => Step(store, Failure(e))
        case Pass =>
          var earned := Earned(msg, amount, roll, bonus);
          if onCooldown then Step(store, Success(CoolingDown))
          else
            var key := Key(msg.origin.guild, msg.authorId);
            if key !in store then
              Step(store[key := Record(msg.authorName, 0, earned, earned)], Success(Inserted))
            else
              var rec := store[key];
              var bumped := rec.(xp := rec.xp + earned, totalXp := rec.totalXp + earned);
              match LevelUpStep(bumped)
              case Failure(e) => Step(store[key := bumped], Failure(e))
              case Success((after, up)) =>
                var updated := store[key := after];
                match HandleLevelUp(settings, msg.origin.guild, msg.origin.guildRoles, after.level, up)
                case Failure(e) => Step(updated, Failure(e))
                case Success(actions) =>
                  var refreshed := if refreshName then updated[key := after.(name := msg.authorName)] else updated;
                  Step(refreshed, Success(Incremented(up, actions)))
  }

  /** A first message inserts the author at level 0 with the earned amount as both XP and total. */
  lemma FirstAwardInserts(settings: Settings, store: Store, msg: Message, amount: Amount, roll: nat, bonus: Option<Bonus>,
                          refreshName: bool)
    requires Admitted(settings, msg, amount, false)
    requires Key(msg.origin.guild, msg.authorId) !in store
    ensures var e := Earned(msg, amount, roll, bonus);
      AwardXp(settings, store, msg, amount, roll, bonus, false, refreshName) ==
        Step(store[Key(msg.origin.guild, msg.authorId) := Record(msg.authorName, 0, e, e)], Success(Inserted))
  {
  }

  /**
   * A later message raises the total by exactly the earned amount, and
   * either adds it to the XP within the level or advances exactly one level
   * with the XP restarting at 0; a level within 0..100 stays within it. The
   * stored name is kept, unless `refreshName` is on and the handler
   * finished, in which case it becomes the author's current name.
   */
  lemma LaterAwardIncrements(settings: Settings, store: Store, msg: Message, amount: Amount, roll: nat, bonus: Option<Bonus>,
                             refreshName: bool)
    requires Admitted(settings, msg, amount, false)
    requires Key(msg.origin.guild, msg.authorId) in store
    requires store[Key(msg.origin.guild, msg.authorId)].level >= -1
    ensures var key := Key(msg.origin.guild, msg.authorId);
      var r := AwardXp(settings, store, msg, amount, roll, bonus, false, refreshName);
      var (before, after) := (store[key], r.store[key]);
      var e := Earned(msg, amount, roll, bonus);
      && after.name == (if refreshName && r.out.Success? then msg.authorName else before.name)
      && after.totalXp == before.totalXp + e
      && (|| (after.level == before.level && after.xp == before.xp + e)
          || (after.level == before.level + 1 && after.xp == 0))
      && (IsLevel(before.level) ==> IsLevel(after.level))
  {
  }

  /** A member at level 100 keeps earning: the total passes MAX_XP and the level stays 100. */
  lemma AwardPassesMaxXp(settings: Settings, store: Store, msg: Message, amount: Amount, roll: nat, bonus: Option<Bonus>,
                         refreshName: bool)
    requires Admitted(settings, msg, amount, false)
    requires Key(msg.origin.guild, msg.authorId) in store
    requires store[Key(msg.origin.guild, msg.authorId)].level == MAX_LEVEL
    requires store[Key(msg.origin.guild, msg.authorId)].totalXp == MAX_XP
    requires Earned(msg, amount, roll, bonus) > 0
    ensures var after := AwardXp(settings, store, msg, amount, roll, bonus, false, refreshName).store[Key(msg.origin.guild, msg.authorId)];
      after.level == MAX_LEVEL && after.totalXp > MAX_XP && FindLevel(after.totalXp).None?
  {
  }

  /**
   * The level compares the XP within the level with the next level's total
   * threshold, so it can trail the level the total reaches: at level 1 with
   * 200 XP since the last level-up and 300 in total, one more XP leaves the
   * member at level 1 although 301 XP is level 2.
   */
  lemma LevelTrailsTotal()
    ensures LevelUpStep(Record("member#0001", 1, 201, 301)) == Success((Record("member#0001", 1, 201, 301), false))
    ensures FindLevel(301) == Some(2)
  {
    TableIsMee6Curve();
    FindLevelIsGreatestLevelReached(301, 2);
  }
}
