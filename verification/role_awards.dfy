/**
 * Role awards: a role granted when a member reaches a level. Every award
 * ever constructed is entered into a process-wide registry of role ids and
 * level requirements, and construction validates that whole registry.
 */
module RoleAwards {
  import opened Wrappers
  import opened Errors

  datatype RoleAward = RoleAward(roleId: int, levelRequirement: int)

  /*---------------------------------------------------------------------------
   * Counting, as `collections.Counter` does it
   *-------------------------------------------------------------------------*/

  /** No value occurs twice. */
  predicate Distinct(s: seq<int>) {
    forall i, j | 0 <= i < j < |s| :: s[i] != s[j]
  }

  /** The largest count, over the values listed in `keys`, of that value in `s`; 0 when `keys` is empty. */
  function MaxCountOver(s: seq<int>, keys: seq<int>): (m: nat)
    ensures forall k | 0 <= k < |keys| :: multiset(s)[keys[k]] <= m
    ensures |keys| > 0 ==> exists k | 0 <= k < |keys| :: multiset(s)[keys[k]] == m
    ensures |keys| == 0 ==> m == 0
    decreases |keys|
  {
    if |keys| == 0 then 0
    else
      var rest := MaxCountOver(s, keys[1..]);
      var here := multiset(s)[keys[0]];
      assert forall k | 1 <= k < |keys| :: keys[k] == keys[1..][k - 1];
      if here >= rest then here
      else
        assert exists k | 0 <= k < |keys[1..]| :: multiset(s)[keys[1..][k]] == rest;
        rest
  }

  /** `max(Counter(s).values())`: the count of the most frequent value. */
  function MaxCount(s: seq<int>): nat {
    MaxCountOver(s, s)
  }

  lemma {:induction false} DistinctCountsAtMostOne(s: seq<int>, x: int)
    requires Distinct(s)
    ensures multiset(s)[x] <= 1
  {
    if |s| > 0 {
      var init := s[..|s| - 1];
      assert s == init + [s[|s| - 1]];
      assert Distinct(init) by {
        forall i, j | 0 <= i < j < |init| ensures init[i] != init[j] {
          assert init[i] == s[i] && init[j] == s[j];
        }
      }
      DistinctCountsAtMostOne(init, x);
      if x == s[|s| - 1] {
        assert x !in init by {
          forall i | 0 <= i < |init| ensures init[i] != x {
            assert init[i] == s[i];
          }
        }
      }
    }
  }

  lemma RepeatedValueCountsTwice(s: seq<int>, i: int, j: int)
    requires 0 <= i < j < |s| && s[i] == s[j]
    ensures multiset(s)[s[i]] >= 2
  {
    assert s == s[..i] + [s[i]] + s[i + 1..j] + [s[j]] + s[j + 1..];
  }

  /** On a non-empty sequence, the Counter check `max(...) != 1` fails exactly when some value repeats. */
  lemma MaxCountDetectsRepeats(s: seq<int>)
    requires |s| > 0
    ensures MaxCount(s) != 1 <==> !Distinct(s)
  {
    var m := MaxCount(s);
    var k :| 0 <= k < |s| && multiset(s)[s[k]] == m;
    assert s[k] in multiset(s);
    if Distinct(s) {
      DistinctCountsAtMostOne(s, s[k]);
    } else {
      var i, j :| 0 <= i < j < |s| && s[i] == s[j];
      RepeatedValueCountsTwice(s, i, j);
    }
  }

  /*---------------------------------------------------------------------------
   * The registry of every award constructed so far
   *-------------------------------------------------------------------------*/

  /** The two class-level lists: every role id and every level requirement ever given to the constructor. */
  datatype Registry = Registry(roleIds: seq<int>, levels: seq<int>)

  const EMPTY_REGISTRY := Registry([], [])

  /** What the constructor's checks demand of the whole registry. */
  predicate ValidRegistry(reg: Registry) {
    && Distinct(reg.roleIds)
    && (forall i | 0 <= i < |reg.levels| :: reg.levels[i] > 0)
    && Distinct(reg.levels)
  }

  /** The entries of `s` that are not positive, in order. */
  function NonPositive(s: seq<int>): (r: seq<int>)
    ensures |r| > 0 <==> exists i | 0 <= i < |s| :: s[i] <= 0
    ensures forall i | 0 <= i < |r| :: r[i] <= 0
  {
    if |s| == 0 then []
    else
      var rest := NonPositive(s[1..]);
      assert forall i | 1 <= i < |s| :: s[i] == s[1..][i - 1];
      if s[0] <= 0 then [s[0]] + rest else rest
  }

  /**
   * `_check_duplicate_ids`: the highest count among the role ids must be 1.
   * Taking the maximum of no counts at all is a `ValueError`.
   */
  function CheckDuplicateIds(roleIds: seq<int>): (r: Outcome<Error>)
    ensures r.Pass? <==> |roleIds| > 0 && Distinct(roleIds)
    ensures |roleIds| > 0 && !Distinct(roleIds) ==> r == Fail(RoleAwardError(DuplicateRoleIds))
    ensures |roleIds| == 0 ==> r == Fail(Runtime(ValueError))
  {
    if |roleIds| == 0 then Fail(Runtime(ValueError))
    else
      MaxCountDetectsRepeats(roleIds);
      if MaxCount(roleIds) != 1 then Fail(RoleAwardError(DuplicateRoleIds)) else Pass
  }

  /**
   * `_check_duplicate_lvl_req`: no level requirement may be 0 or below, and
   * then the highest count among them must be 1.
   */
  function CheckLevelRequirements(levels: seq<int>): (r: Outcome<Error>)
    ensures r.Pass? <==> |levels| > 0 && (forall i | 0 <= i < |levels| :: levels[i] > 0) && Distinct(levels)
    ensures (exists i | 0 <= i < |levels| :: levels[i] <= 0) ==> r == Fail(RoleAwardError(LevelRequirementNotPositive))
    ensures |levels| > 0 && (forall i | 0 <= i < |levels| :: levels[i] > 0) && !Distinct(levels) ==>
      r == Fail(RoleAwardError(DuplicateLevelRequirements))
    ensures |levels| == 0 ==> r == Fail(Runtime(ValueError))
  {
    if |NonPositive(levels)| > 0 then Fail(RoleAwardError(LevelRequirementNotPositive))
    else if |levels| == 0 then Fail(Runtime(ValueError))
    else
      MaxCountDetectsRepeats(levels);
      if MaxCount(levels) != 1 then Fail(RoleAwardError(DuplicateLevelRequirements)) else Pass
  }

  /** The registry after a construction, and the award or the error it raised. */
  datatype Construction = Construction(registry: Registry, award: Result<RoleAward, Error>)

  /**
   * `RoleAward(role_id, level_requirement)`: the pair is appended to the
   * registry first, then the registry is checked for a repeated role id, a
   * non-positive level requirement and a repeated level requirement, in that
   * order. A failed construction leaves its entry in the registry.
   */
  function NewRoleAward(reg: Registry, roleId: int, level: int): (c: Construction)
    ensures c.registry == Registry(reg.roleIds + [roleId], reg.levels + [level])
    ensures c.award.Success? <==> ValidRegistry(c.registry)
    ensures c.award.Success? ==> c.award.value == RoleAward(roleId, level)
    ensures !Distinct(c.registry.roleIds) ==>
      c.award == Failure(RoleAwardError(DuplicateRoleIds))
    ensures Distinct(c.registry.roleIds) && (exists i | 0 <= i < |c.registry.levels| :: c.registry.levels[i] <= 0) ==>
      c.award == Failure(RoleAwardError(LevelRequirementNotPositive))
    ensures
      && Distinct(c.registry.roleIds)
      && (forall i | 0 <= i < |c.registry.levels| :: c.registry.levels[i] > 0)
      && !Distinct(c.registry.levels)
      ==> c.award == Failure(RoleAwardError(DuplicateLevelRequirements))
  {
    var reg' := Registry(reg.roleIds + [roleId], reg.levels + [level]);
    var out :=
      match CheckDuplicateIds(reg'.roleIds)
      case Fail(e) => Failure(e)
      case Pass =>
        match CheckLevelRequirements(reg'.levels)
        case Fail(e) => Failure(e)
        case Pass => Success(RoleAward(roleId, level));
    Construction(reg', out)
  }

  /** Once the registry is invalid, every later construction fails and the registry stays invalid. */
  lemma RegistryPoisoned(reg: Registry, roleId: int, level: int)
    requires !ValidRegistry(reg)
    ensures NewRoleAward(reg, roleId, level).award.Failure?
    ensures !ValidRegistry(NewRoleAward(reg, roleId, level).registry)
  {
    var reg' := NewRoleAward(reg, roleId, level).registry;
    if !Distinct(reg.roleIds) {
      RepeatSurvivesAppend(reg.roleIds, roleId);
    } else if exists i | 0 <= i < |reg.levels| :: reg.levels[i] <= 0 {
      var i :| 0 <= i < |reg.levels| && reg.levels[i] <= 0;
      assert reg'.levels[i] <= 0;
    } else {
      RepeatSurvivesAppend(reg.levels, level);
    }
  }

  /** A repeated value stays repeated when anything is appended. */
  lemma RepeatSurvivesAppend(s: seq<int>, x: int)
    requires !Distinct(s)
    ensures !Distinct(s + [x])
  {
    var i, j :| 0 <= i < j < |s| && s[i] == s[j];
    assert (s + [x])[i] == (s + [x])[j];
  }

  /** Appending a value the sequence lacks keeps it free of repeats. */
  lemma DistinctAppend(s: seq<int>, x: int)
    requires Distinct(s) && x !in s
    ensures Distinct(s + [x])
  {
    forall i, j | 0 <= i < j < |s| + 1 ensures (s + [x])[i] != (s + [x])[j] {
      if j == |s| {
        assert (s + [x])[i] == s[i];
      }
    }
  }

  /** A fresh role id with a fresh positive level is accepted by a valid registry, which stays valid. */
  lemma FreshAwardAccepted(reg: Registry, roleId: int, level: int)
    requires ValidRegistry(reg)
    requires roleId !in reg.roleIds && level !in reg.levels && level > 0
    ensures NewRoleAward(reg, roleId, level).award == Success(RoleAward(roleId, level))
    ensures ValidRegistry(NewRoleAward(reg, roleId, level).registry)
  {
    DistinctAppend(reg.roleIds, roleId);
    DistinctAppend(reg.levels, level);
    var levels := reg.levels + [level];
    assert forall i | 0 <= i < |levels| :: levels[i] > 0;
  }

  /*---------------------------------------------------------------------------
   * Equality and the checks the engine applies to its award lists
   *-------------------------------------------------------------------------*/

  /** What `==` may compare an award with: another award, or any other object. */
  datatype Value = AwardValue(award: RoleAward) | OtherValue

  /** `RoleAward.__eq__`: the same role id and the same level requirement; anything but an award is unequal. */
  function AwardEquals(a: RoleAward, v: Value): (eq: bool)
    ensures eq <==> v == AwardValue(a)
  {
    match v
    case AwardValue(b) => a.roleId == b.roleId && a.levelRequirement == b.levelRequirement
    case OtherValue => false
  }

  /** `__eq__` is reflexive and symmetric between awards. */
  lemma AwardEqualsIsEquivalence(a: RoleAward, b: RoleAward)
    ensures AwardEquals(a, AwardValue(a))
    ensures AwardEquals(a, AwardValue(b)) <==> AwardEquals(b, AwardValue(a))
  {
  }

  /** An award object in a list: the object's identity and its fields. */
  datatype AwardObject = AwardObject(identity: int, award: RoleAward)

  function Identities(objects: seq<AwardObject>): (ids: seq<int>)
    ensures |ids| == |objects|
    ensures forall i | 0 <= i < |objects| :: ids[i] == objects[i].identity
  {
    if |objects| == 0 then [] else [objects[0].identity] + Identities(objects[1..])
  }

  /** `_verify_duplicate_awards`: an empty list passes; otherwise the same object may not appear twice. */
  function VerifyDuplicateAwards(objects: seq<AwardObject>): (r: Outcome<Error>)
    ensures r.Pass? <==> forall i, j | 0 <= i < j < |objects| :: objects[i].identity != objects[j].identity
    ensures r.Fail? ==> r.error == RoleAwardError(DuplicateAwardObjects)
  {
    if |objects| == 0 then Pass
    else
      var ids := Identities(objects);
      MaxCountDetectsRepeats(ids);
      if MaxCount(ids) != 1 then Fail(RoleAwardError(DuplicateAwardObjects)) else Pass
  }

  /** The level requirement each award is compared against: its predecessor's, and 0 for the first. */
  function PreviousRequirement(awards: seq<RoleAward>, i: int): int
    requires 0 <= i < |awards|
  {
    if i == 0 then 0 else awards[i - 1].levelRequirement
  }

  /**
   * `_verify_awards_integrity`: walks the list raising `ImproperRoleAwardOrder`
   * at the first award whose level requirement is below its predecessor's
   * (below 0 for the first award). Equal neighbours and the empty list pass.
   */
  method VerifyAwardsIntegrity(awards: seq<RoleAward>) returns (r: Outcome<Error>)
    ensures r.Fail? <==> exists i | 0 <= i < |awards| :: awards[i].levelRequirement < PreviousRequirement(awards, i)
    ensures r.Fail? ==> r.error == ImproperRoleAwardOrder
  {
    if |awards| == 0 {
      return Pass;
    }
    var previous := 0;
    var i := 0;
    while i < |awards|
      invariant 0 <= i <= |awards|
      invariant previous == (if i == 0 then 0 else awards[i - 1].levelRequirement)
      invariant forall k | 0 <= k < i :: awards[k].levelRequirement >= PreviousRequirement(awards, k)
    {
      if awards[i].levelRequirement < previous {
        return Fail(ImproperRoleAwardOrder);
      }
      previous := awards[i].levelRequirement;
      i := i + 1;
    }
    return Pass;
  }

  /** An ordered list is non-decreasing in its level requirements, so every later award needs at least as much. */
  lemma {:induction false} IntegrityMeansNonDecreasing(awards: seq<RoleAward>, i: int, j: int)
    requires forall k | 0 <= k < |awards| :: awards[k].levelRequirement >= PreviousRequirement(awards, k)
    requires 0 <= i <= j < |awards|
    ensures 0 <= awards[i].levelRequirement <= awards[j].levelRequirement
    decreases j
  {
    if i < j {
      IntegrityMeansNonDecreasing(awards, i, j - 1);
      assert awards[j].levelRequirement >= PreviousRequirement(awards, j);
    } else if i > 0 {
      IntegrityMeansNonDecreasing(awards, i - 1, i - 1);
      assert awards[i].levelRequirement >= PreviousRequirement(awards, i);
    }
  }
}
