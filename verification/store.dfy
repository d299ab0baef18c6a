/**
 * The `leaderboard` table as a map from (guild, member) to a record, and the
 * administrative operations over it. Each operation is the body that runs
 * once the guards of module `Guards` have passed.
 */
module Store {
  import opened Wrappers
  import opened Errors
  import opened Levels

  datatype Key = Key(guild: int, member: int)

  /** One row: the member's name, level, XP within the level, and total XP. */
  datatype Record = Record(name: string, level: int, xp: int, totalXp: int)

  type Store = map<Key, Record>

  /** The store after an operation, and its return value or the error it raised (after any commits). */
  datatype Step<T> = Step(store: Store, out: Result<T, Error>)

  /** Every row holds a level of the table. */
  predicate LevelsInRange(store: Store) {
    forall k | k in store :: IsLevel(store[k].level)
  }

  /** The level stored is the one the total XP reaches. */
  predicate Consistent(r: Record) {
    FindLevel(r.totalXp) == Some(r.level)
  }

  /** Rows other than `key` are the same in both stores. */
  ghost predicate SameElsewhere(a: Store, b: Store, key: Key) {
    && (forall k | k != key :: k in a <==> k in b)
    && (forall k | k in a && k != key :: a[k] == b[k])
  }

  /*---------------------------------------------------------------------------
   * _update_record
   *-------------------------------------------------------------------------*/

  /**
   * `_update_record`: an upsert. A possibly-new row must come with a
   * non-empty name. An existing row gets the new level, XP and total and
   * keeps its name; otherwise a row is inserted. A `None` level or name
   * written into the table violates its NOT NULL columns.
   */
  function UpdateRecord(store: Store, key: Key, level: Option<int>, xp: int, totalXp: int,
                        name: Option<string>, maybeNewRecord: bool): (r: Result<Store, Error>)
    ensures maybeNewRecord && (name.None? || name.value == "") ==> r == Failure(Runtime(NameMissing))
    ensures r.Failure? ==> r.error == Runtime(NameMissing) || r.error == Runtime(NotNullViolation)
    ensures r.Success? <==>
      && !(maybeNewRecord && (name.None? || name.value == ""))
      && level.Some?
      && (key in store || name.Some?)
    ensures r.Success? ==>
      && key in r.value
      && SameElsewhere(store, r.value, key)
      && r.value[key].level == level.value
      && r.value[key].xp == xp
      && r.value[key].totalXp == totalXp
      && r.value[key].name == (if key in store then store[key].name else name.value)
  {
    if maybeNewRecord && (name.None? || name.value == "") then Failure(Runtime(NameMissing))
    else if key in store then
      if level.None? then Failure(Runtime(NotNullViolation))
      else Success(store[key := store[key].(level := level.value, xp := xp, totalXp := totalXp)])
    else if level.None? || name.None? then Failure(Runtime(NotNullViolation))
    else Success(store[key := Record(name.value, level.value, xp, totalXp)])
  }

  /*---------------------------------------------------------------------------
   * add_record and set_level
   *-------------------------------------------------------------------------*/

  /**
   * `add_record`: the level must be 0..100; the row gets that level, XP 0 and
   * the level's threshold as total, and `str(member_name)` as name when new.
   */
  function AddRecord(store: Store, guild: int, member: int, memberName: string, level: int): (r: Result<Store, Error>)
    ensures !IsLevel(level) ==> r == Failure(LevelingError(LevelNotInRange))
    ensures IsLevel(level) && memberName == "" ==> r == Failure(Runtime(NameMissing))
    ensures IsLevel(level) && memberName != "" ==>
      && r.Success?
      && SameElsewhere(store, r.value, Key(guild, member))
      && Key(guild, member) in r.value
      && var rec := r.value[Key(guild, member)];
      && rec.level == level && rec.xp == 0 && rec.totalXp == LEVELS_AND_XP[level]
      && rec.name == (if Key(guild, member) in store then store[Key(guild, member)].name else memberName)
      && Consistent(rec)
  {
    if !IsLevel(level) then Failure(LevelingError(LevelNotInRange))
    else
      FindLevelOfThreshold(level);
      UpdateRecord(store, Key(guild, member), Some(level), 0, LEVELS_AND_XP[level], Some(memberName), true)
  }

  /** `set_level`: as `add_record`, for the member who is `key`, whose name is `memberName`. */
  function SetLevel(store: Store, key: Key, memberName: string, level: int): (r: Result<Store, Error>)
    ensures !IsLevel(level) ==> r == Failure(LevelingError(LevelNotInRange))
    ensures IsLevel(level) && memberName != "" ==>
      && r.Success?
      && SameElsewhere(store, r.value, key)
      && key in r.value
      && var rec := r.value[key];
      && rec.level == level && rec.xp == 0 && rec.totalXp == LEVELS_AND_XP[level]
      && rec.name == (if key in store then store[key].name else memberName)
      && Consistent(rec)
  {
    if IsLevel(level) then
      FindLevelOfThreshold(level);
      UpdateRecord(store, key, Some(level), 0, LEVELS_AND_XP[level], Some(memberName), true)
    else
      Failure(LevelingError(LevelNotInRange))
  }

  /*---------------------------------------------------------------------------
   * add_xp and remove_xp
   *-------------------------------------------------------------------------*/

  /**
   * `add_xp`: the amount must be positive. A member without a row, or whose
   * total is already at or above MAX_XP, is left alone. Otherwise the total
   * grows by the amount, capped at MAX_XP, the level is looked up from the
   * new total, and the XP within the level is kept. A new total still below
   * 0 (a row left negative by a negative bonus) has no level, and writing
   * that `None` violates the NOT NULL level column.
   */
  function AddXp(store: Store, key: Key, memberName: string, amount: int): (r: Result<Store, Error>)
    ensures amount <= 0 ==> r == Failure(LevelingError(AmountNotPositive))
    ensures amount > 0 && (key !in store || store[key].totalXp >= MAX_XP) ==> r == Success(store)
    ensures amount > 0 && key in store && store[key].totalXp + amount < 0 && memberName != "" ==>
      r == Failure(Runtime(NotNullViolation))
    ensures amount > 0 && key in store && 0 <= store[key].totalXp + amount && store[key].totalXp < MAX_XP && memberName != "" ==>
      && r.Success?
      && SameElsewhere(store, r.value, key)
      && key in r.value
      && var (old_, new_) := (store[key], r.value[key]);
      && new_.totalXp == (if old_.totalXp + amount <= MAX_XP then old_.totalXp + amount else MAX_XP)
      && old_.totalXp < new_.totalXp
      && new_.xp == old_.xp
      && new_.name == old_.name
      && Consistent(new_)
  {
    if amount <= 0 then Failure(LevelingError(AmountNotPositive))
    else if key !in store then Success(store)
    else
      var rec := store[key];
      if rec.totalXp >= MAX_XP then Success(store)
      else
        var total := if rec.totalXp + amount <= MAX_XP then rec.totalXp + amount else MAX_XP;
        UpdateRecord(store, key, FindLevel(total), rec.xp, total, Some(memberName), true)
  }

  /** The total `remove_xp` writes: the old total less the amount, floored at 0. */
  function ReducedTotal(totalXp: int, amount: int): (t: int)
    ensures t >= 0
    ensures t == 0 || t == totalXp - amount
  {
    var t := totalXp - amount;
    if t >= 1 then t else 0
  }

  /**
   * `remove_xp` as written: the amount must be positive. A member without a
   * row, or with total 0, is left alone. Otherwise the total drops by the
   * amount, floored at 0, and the level is looked up from the new total with
   * `_find_level`, which has no answer above MAX_XP.
   */
  function RemoveXpAsWritten(store: Store, key: Key, amount: int): (r: Result<Store, Error>)
    ensures amount <= 0 ==> r == Failure(LevelingError(AmountNotPositive))
    ensures amount > 0 && (key !in store || store[key].totalXp == 0) ==> r == Success(store)
    ensures amount > 0 && key in store && store[key].totalXp != 0 && ReducedTotal(store[key].totalXp, amount) > MAX_XP ==>
      (FindLevel(ReducedTotal(store[key].totalXp, amount)).None? <==> r == Failure(Runtime(NotNullViolation)))
  {
    if amount <= 0 then Failure(LevelingError(AmountNotPositive))
    else if key !in store then Success(store)
    else
      var rec := store[key];
      if rec.totalXp == 0 then Success(store)
      else
        var total := ReducedTotal(rec.totalXp, amount);
        UpdateRecord(store, key, FindLevel(total), rec.xp, total, None, false)
  }

  /** The level for a total that may exceed MAX_XP: above the last threshold the level is 100. */
  function LevelForTotal(totalXp: int): (l: Option<int>)
    ensures 0 <= totalXp ==> l.Some? && IsLevel(l.value)
    ensures 0 <= totalXp <= MAX_XP ==> l == FindLevel(totalXp)
    ensures totalXp > MAX_XP ==> l == Some(MAX_LEVEL)
  {
    if totalXp > MAX_XP then Some(MAX_LEVEL) else FindLevel(totalXp)
  }

  /**
   * `remove_xp` with the level of a total above MAX_XP taken to be 100, so
   * that a member pushed past MAX_XP by `award_xp` can lose XP again.
   */
  function RemoveXp(store: Store, key: Key, amount: int): (r: Result<Store, Error>)
    ensures amount <= 0 ==> r == Failure(LevelingError(AmountNotPositive))
    ensures amount > 0 ==> r.Success?
    ensures amount > 0 && (key !in store || store[key].totalXp == 0) ==> r.value == store
    ensures amount > 0 && key in store && store[key].totalXp != 0 ==>
      && SameElsewhere(store, r.value, key)
      && key in r.value
      && var (old_, new_) := (store[key], r.value[key]);
      && new_.totalXp == ReducedTotal(old_.totalXp, amount)
      && new_.xp == old_.xp
      && new_.name == old_.name
      && IsLevel(new_.level)
      && (new_.totalXp <= MAX_XP ==> Consistent(new_))
  {
    if amount <= 0 then Failure(LevelingError(AmountNotPositive))
    else if key !in store then Success(store)
    else
      var rec := store[key];
      if rec.totalXp == 0 then Success(store)
      else
        var total := ReducedTotal(rec.totalXp, amount);
        UpdateRecord(store, key, LevelForTotal(total), rec.xp, total, None, false)
  }

  /** The two agree wherever the total written stays within the table. */
  lemma RemoveXpAgreesWithinTable(store: Store, key: Key, amount: int)
    requires amount > 0 && key in store && store[key].totalXp != 0
    requires ReducedTotal(store[key].totalXp, amount) <= MAX_XP
    ensures RemoveXp(store, key, amount) == RemoveXpAsWritten(store, key, amount)
  {
  }

  /** A member held above MAX_XP: level 100, with 100 XP more than the last threshold. */
  function PastMaxStore(key: Key): Store {
    map[key := Record("member#0001", MAX_LEVEL, 100, MAX_XP + 100)]
  }

  /** As written, removing 1 XP from a total of MAX_XP + 100 writes a NULL level, which the table rejects. */
  lemma RemoveXpPastMaxFails(key: Key)
    ensures RemoveXpAsWritten(PastMaxStore(key), key, 1) == Failure(Runtime(NotNullViolation))
    ensures RemoveXp(PastMaxStore(key), key, 1).Success?
    ensures RemoveXp(PastMaxStore(key), key, 1).value[key].level == MAX_LEVEL
  {
    TableIsMee6Curve();
    assert ReducedTotal(MAX_XP + 100, 1) == MAX_XP + 99;
    assert MAX_XP + 99 !in LEVELS_AND_XP by {
      ThresholdsBounded(0);
      forall l | 0 <= l < |LEVELS_AND_XP| ensures LEVELS_AND_XP[l] != MAX_XP + 99 {
        ThresholdsBounded(l);
      }
    }
  }

  /** Adding XP and removing it again restores a consistent record whose total stays within 1..MAX_XP. */
  lemma AddThenRemoveXp(store: Store, key: Key, memberName: string, amount: int)
    requires amount > 0 && memberName != "" && key in store
    requires Consistent(store[key]) && 1 <= store[key].totalXp && store[key].totalXp + amount <= MAX_XP
    ensures AddXp(store, key, memberName, amount).Success?
    ensures RemoveXp(AddXp(store, key, memberName, amount).value, key, amount) == Success(store)
  {
    var rec := store[key];
    var s1 := AddXp(store, key, memberName, amount).value;
    var raised := s1[key];
    assert raised.totalXp == rec.totalXp + amount && raised.xp == rec.xp && raised.name == rec.name;
    assert ReducedTotal(raised.totalXp, amount) == rec.totalXp;
    var s2 := RemoveXp(s1, key, amount).value;
    var restored := s2[key];
    assert restored.totalXp == rec.totalXp && restored.xp == rec.xp && restored.name == rec.name;
    assert FindLevel(rec.totalXp) == Some(restored.level);
    assert restored == rec;
    forall k ensures k in s2 <==> k in store {
    }
    forall k | k in s2 ensures s2[k] == store[k] {
    }
    assert s2 == store;
  }

  /*---------------------------------------------------------------------------
   * reset_member, wipe_database, reset_everyone
   *-------------------------------------------------------------------------*/

  function Zeroed(r: Record): Record {
    r.(level := 0, xp := 0, totalXp := 0)
  }

  /** `reset_member`: the member's level, XP and total become 0; no row is created. */
  function ResetMember(store: Store, key: Key): (s: Store)
    ensures s.Keys == store.Keys
    ensures SameElsewhere(store, s, key)
    ensures key in s ==> s[key].name == store[key].name && s[key].level == 0 && s[key].xp == 0 && s[key].totalXp == 0
    ensures key in s ==> Consistent(s[key])
  {
    TableIsMee6Curve();
    FindLevelOfThreshold(0);
    if key in store then store[key := Zeroed(store[key])] else store
  }

  /** The rows an operation scoped to `guild` touches: that guild's, or every row when `guild` is `None`. */
  predicate InScope(k: Key, guild: Option<int>) {
    guild.None? || k.guild == guild.value
  }

  /** `wipe_database`: refuses unless `intentional`; deletes the guild's rows, or every row. */
  function WipeDatabase(store: Store, guild: Option<int>, intentional: bool): (r: Result<Store, Error>)
    ensures !intentional <==> r == Failure(FailSafe)
    ensures r.Success? ==> forall k :: k in r.value <==> k in store && !InScope(k, guild)
    ensures r.Success? ==> forall k | k in r.value :: r.value[k] == store[k]
  {
    if !intentional then Failure(FailSafe)
    else Success(map k | k in store && !InScope(k, guild) :: store[k])
  }

  /** `reset_everyone`: refuses unless `intentional`; zeroes the guild's rows, or every row. */
  function ResetEveryone(store: Store, guild: Option<int>, intentional: bool): (r: Result<Store, Error>)
    ensures !intentional <==> r == Failure(FailSafe)
    ensures r.Success? ==> r.value.Keys == store.Keys
    ensures r.Success? ==> forall k | k in store ::
      && r.value[k].name == store[k].name
      && (InScope(k, guild) ==> r.value[k].level == 0 && r.value[k].xp == 0 && r.value[k].totalXp == 0)
      && (!InScope(k, guild) ==> r.value[k] == store[k])
  {
    if !intentional then Failure(FailSafe)
    else Success(map k | k in store :: if InScope(k, guild) then Zeroed(store[k]) else store[k])
  }

  /** Wiping twice is wiping once. */
  lemma WipeDatabaseIdempotent(store: Store, guild: Option<int>)
    ensures WipeDatabase(WipeDatabase(store, guild, true).value, guild, true) == WipeDatabase(store, guild, true)
  {
    var once := WipeDatabase(store, guild, true).value;
    var twice := WipeDatabase(once, guild, true).value;
    forall k ensures k in twice <==> k in once {
    }
    assert twice.Keys == once.Keys;
    assert twice == once;
  }

  /*---------------------------------------------------------------------------
   * is_in_database, remove_from_database, clean_database
   *-------------------------------------------------------------------------*/

  /** `is_in_database`: the member has a row in the guild, or in any guild when `guild` is `None`. */
  predicate IsInDatabase(store: Store, member: int, guild: Option<int>) {
    exists k | k in store :: k.member == member && InScope(k, guild)
  }

  /** `remove_from_database`: deletes the member's rows in scope and reports whether there were any. */
  function RemoveFromDatabase(store: Store, member: int, guild: Option<int>): (r: (Store, bool))
    ensures r.1 <==> IsInDatabase(store, member, guild)
    ensures !IsInDatabase(r.0, member, guild)
    ensures forall k :: k in r.0 <==> k in store && !(k.member == member && InScope(k, guild))
    ensures forall k | k in r.0 :: r.0[k] == store[k]
  {
    var removable := IsInDatabase(store, member, guild);
    if removable then (map k | k in store && !(k.member == member && InScope(k, guild)) :: store[k], true)
    else (store, false)
  }

  /** The keys `clean_database` deletes: the guild's rows whose member is not in the guild's roster. */
  function Departed(store: Store, guild: int, roster: set<int>): set<Key> {
    set k | k in store && k.guild == guild && k.member !in roster
  }

  /**
   * `clean_database`: deletes the rows of `guild` whose member the guild no
   * longer has (`roster` is the set of its current member ids) and returns
   * how many it deleted.
   */
  function CleanDatabase(store: Store, guild: int, roster: set<int>): (r: (Store, nat))
    ensures forall k :: k in r.0 <==> k in store && k !in Departed(store, guild, roster)
    ensures forall k | k in r.0 :: r.0[k] == store[k]
    ensures r.1 == |Departed(store, guild, roster)|
    ensures |r.0| + r.1 == |store|
  {
    var gone := Departed(store, guild, roster);
    var kept := map k | k in store && k !in gone :: store[k];
    assert store.Keys == kept.Keys + gone;
    assert kept.Keys * gone == {};
    (kept, |gone|)
  }

  /** After a clean, every row of the guild belongs to a current member, and a second clean removes nothing. */
  lemma CleanDatabaseSettles(store: Store, guild: int, roster: set<int>)
    ensures var s := CleanDatabase(store, guild, roster).0;
      && (forall k | k in s && k.guild == guild :: k.member in roster)
      && CleanDatabase(s, guild, roster) == (s, 0)
  {
    var s := CleanDatabase(store, guild, roster).0;
    assert Departed(s, guild, roster) == {};
    var again := CleanDatabase(s, guild, roster).0;
    forall k ensures k in again <==> k in s {
    }
    assert again.Keys == s.Keys;
    assert again == s;
  }

  /*---------------------------------------------------------------------------
   * Queries
   *-------------------------------------------------------------------------*/

  /** `next_level`: `None` without a row; otherwise the level after the member's, capped at 100. */
  function NextLevel(store: Store, key: Key): (r: Option<int>)
    ensures r.None? <==> key !in store
    ensures r.Some? && store[key].level >= -1 ==>
      IsLevel(r.value) && NextLevelDetails(store[key].level) == Some(Details(r.value, LEVELS_AND_XP[r.value]))
  {
    if key !in store then None
    else
      var next := store[key].level + 1;
      Some(if next > MAX_LEVEL then MAX_LEVEL else next)
  }

  /**
   * `next_level_up`: `None` without a row, 0 at level 100, and otherwise the
   * next level's threshold less the member's XP within the level. A level
   * below -1 is not a key of the table (`KeyError`).
   */
  function NextLevelUp(store: Store, key: Key): (r: Result<Option<int>, Error>)
    ensures key !in store <==> r == Success(None)
    ensures key in store && store[key].level == MAX_LEVEL ==> r == Success(Some(0))
    ensures key in store && store[key].level < -1 ==> r == Failure(Runtime(KeyError))
    ensures key in store && IsLevel(store[key].level) && store[key].level < MAX_LEVEL ==>
      r == Success(Some(LEVELS_AND_XP[store[key].level + 1] - store[key].xp))
  {
    if key !in store then Success(None)
    else
      var rec := store[key];
      if rec.level == MAX_LEVEL then Success(Some(0))
      else
        match NextLevelDetails(rec.level)
        case None => Failure(Runtime(KeyError))
        case Some(details) => Success(Some(details.xpNeeded - rec.xp))
  }

  /** `get_xp_for_level`: the level's threshold, or an error for a level outside 0..100. */
  function GetXpForLevel(level: int): (r: Result<int, Error>)
    ensures r.Success? <==> IsLevel(level)
    ensures r.Failure? ==> r.error == LevelingError(UnknownLevel)
    ensures r.Success? ==> r.value == CurveThreshold(level)
  {
    TableIsMee6Curve();
    if IsLevel(level) then Success(LEVELS_AND_XP[level]) else Failure(LevelingError(UnknownLevel))
  }

  /** `get_xp_for_level` and `_find_level` are inverse on the levels. */
  lemma GetXpForLevelRoundTrip(level: int)
    requires IsLevel(level)
    ensures FindLevel(GetXpForLevel(level).value) == Some(level)
  {
    FindLevelOfThreshold(level);
  }

  /*---------------------------------------------------------------------------
   * The level invariant
   *-------------------------------------------------------------------------*/

  /** Every administrative operation keeps every stored level within 0..100. */
  lemma AdministrativeOperationsKeepLevels(store: Store, key: Key, name: string, guild: Option<int>,
                                           member: int, guildId: int, roster: set<int>, level: int, amount: int)
    requires LevelsInRange(store)
    ensures var r := AddRecord(store, key.guild, key.member, name, level); r.Success? ==> LevelsInRange(r.value)
    ensures var r := SetLevel(store, key, name, level); r.Success? ==> LevelsInRange(r.value)
    ensures var r := AddXp(store, key, name, amount); r.Success? ==> LevelsInRange(r.value)
    ensures var r := RemoveXp(store, key, amount); r.Success? ==> LevelsInRange(r.value)
    ensures LevelsInRange(ResetMember(store, key))
    ensures var r := WipeDatabase(store, guild, true); LevelsInRange(r.value)
    ensures var r := ResetEveryone(store, guild, true); LevelsInRange(r.value)
    ensures LevelsInRange(RemoveFromDatabase(store, member, guild).0)
    ensures LevelsInRange(CleanDatabase(store, guildId, roster).0)
  {
    var r := AddXp(store, key, name, amount);
    if r.Success? && r.value != store {
      assert IsLevel(r.value[key].level);
    }
  }
}
