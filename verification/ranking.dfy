/**
 * `get_rank_for`: a member's 1-based position in the guild's rows ordered by
 * total XP, highest first. The database is free to order rows with equal
 * totals either way, so the leaderboard is any order with that property and
 * the rank is pinned down between the members strictly ahead and the members
 * at least level with the member.
 */
module Ranking {
  import opened Wrappers
  import opened Store

  /** The total XP of `member` in `guild`, or 0 when it has no row there. */
  function TotalOf(store: Store, guild: int, member: int): int {
    if Key(guild, member) in store then store[Key(guild, member)].totalXp else 0
  }

  predicate DistinctMembers(order: seq<int>) {
    forall i, j | 0 <= i < j < |order| :: order[i] != order[j]
  }

  /**
   * `order` lists each member of `guild` with a row exactly once, by total XP
   * from highest to lowest.
   */
  ghost predicate IsLeaderboard(store: Store, guild: int, order: seq<int>) {
    && DistinctMembers(order)
    && (forall m :: m in order <==> Key(guild, m) in store)
    && (forall i, j | 0 <= i < j < |order| :: TotalOf(store, guild, order[i]) >= TotalOf(store, guild, order[j]))
  }

  /** The members of the guild whose total is above `key`'s. */
  function Ahead(store: Store, key: Key): set<int>
    requires key in store
  {
    set k | k in store && k.guild == key.guild && store[k].totalXp > store[key].totalXp :: k.member
  }

  /** The members of the guild whose total is at least `key`'s, the member included. */
  function LevelOrAhead(store: Store, key: Key): set<int>
    requires key in store
  {
    set k | k in store && k.guild == key.guild && store[k].totalXp >= store[key].totalXp :: k.member
  }

  function Prefix(order: seq<int>, n: int): set<int>
    requires 0 <= n <= |order|
  {
    set i | 0 <= i < n :: order[i]
  }

  lemma {:induction false} PrefixCardinality(order: seq<int>, n: int)
    requires DistinctMembers(order) && 0 <= n <= |order|
    ensures |Prefix(order, n)| == n
  {
    if n > 0 {
      PrefixCardinality(order, n - 1);
      assert Prefix(order, n) == Prefix(order, n - 1) + {order[n - 1]};
    }
  }

  /** `b` is one of `members` with the largest total. */
  predicate IsTop(store: Store, guild: int, members: set<int>, b: int) {
    b in members && forall m | m in members :: TotalOf(store, guild, b) >= TotalOf(store, guild, m)
  }

  lemma NonEmptyHasMember(members: set<int>)
    requires members != {}
    ensures exists b :: b in members
  {
    assert (forall b :: b !in members) ==> members == {};
  }

  /** A non-empty set of members has one whose total is the largest. */
  lemma {:induction false} TopExists(store: Store, guild: int, members: set<int>)
    requires members != {}
    ensures exists b :: IsTop(store, guild, members, b)
    decreases |members|, 1
  {
    NonEmptyHasMember(members);
    var x :| x in members;
    if !IsTop(store, guild, members, x) {
      TopBeyond(store, guild, members, x);
    }
  }

  /** When `x` is not on top, the top of the others is on top of all. */
  lemma {:induction false} TopBeyond(store: Store, guild: int, members: set<int>, x: int)
    requires x in members && !IsTop(store, guild, members, x)
    ensures exists b :: IsTop(store, guild, members, b)
    decreases |members|, 0
  {
    var y :| y in members && TotalOf(store, guild, y) > TotalOf(store, guild, x);
    var rest := members - {x};
    assert y in rest;
    TopExists(store, guild, rest);
    var b :| IsTop(store, guild, rest, b);
    assert TotalOf(store, guild, b) >= TotalOf(store, guild, y);
    assert IsTop(store, guild, members, b);
  }

  /**
   * The `ORDER BY member_total_xp DESC` query over the guild's rows, as a
   * selection sort; a tie goes to whichever member the choice picks.
   */
  method Leaderboard(store: Store, guild: int) returns (order: seq<int>)
    ensures IsLeaderboard(store, guild, order)
  {
    var remaining := set k | k in store && k.guild == guild :: k.member;
    order := [];
    while remaining != {}
      invariant forall m :: m in order || m in remaining <==> Key(guild, m) in store
      invariant forall m | m in order :: m !in remaining
      invariant DistinctMembers(order)
      invariant forall i, j | 0 <= i < j < |order| :: TotalOf(store, guild, order[i]) >= TotalOf(store, guild, order[j])
      invariant forall i, m | 0 <= i < |order| && m in remaining :: TotalOf(store, guild, order[i]) >= TotalOf(store, guild, m)
      decreases |remaining|
    {
      TopExists(store, guild, remaining);
      var best :| IsTop(store, guild, remaining, best);
      order := order + [best];
      remaining := remaining - {best};
    }
  }

  /** Where `member` sits in a leaderboard, given that it is listed. */
  lemma RankBounds(store: Store, key: Key, order: seq<int>, idx: int)
    requires key in store && IsLeaderboard(store, key.guild, order)
    requires 0 <= idx < |order| && order[idx] == key.member
    ensures |Ahead(store, key)| <= idx < |LevelOrAhead(store, key)|
  {
    var g := key.guild;
    var t := store[key].totalXp;
    assert TotalOf(store, g, key.member) == t;
    forall a | a in Ahead(store, key) ensures a in Prefix(order, idx) {
      assert Key(g, a) in store && TotalOf(store, g, a) > t;
      var j :| 0 <= j < |order| && order[j] == a;
    }
    forall a | a in Prefix(order, idx + 1) ensures a in LevelOrAhead(store, key) {
      var j :| 0 <= j < idx + 1 && order[j] == a;
      assert Key(g, a) in store;
      if j < idx {
        assert TotalOf(store, g, order[j]) >= TotalOf(store, g, order[idx]);
      }
    }
    PrefixCardinality(order, idx);
    PrefixCardinality(order, idx + 1);
    SubsetCardinality(Ahead(store, key), Prefix(order, idx));
    SubsetCardinality(Prefix(order, idx + 1), LevelOrAhead(store, key));
  }

  lemma SubsetCardinality(a: set<int>, b: set<int>)
    requires a <= b
    ensures |a| <= |b|
  {
    assert b == a + (b - a);
  }

  /** With no other member on the same total, the members at least level are those ahead and the member itself. */
  lemma UniqueTotalRank(store: Store, key: Key)
    requires key in store
    requires forall k | k in store && k.guild == key.guild && k != key :: store[k].totalXp != store[key].totalXp
    ensures |LevelOrAhead(store, key)| == |Ahead(store, key)| + 1
  {
    assert LevelOrAhead(store, key) == Ahead(store, key) + {key.member};
  }

  /**
   * `get_rank_for`: `None` for a member without a row in the guild;
   * otherwise a position after every member ahead and no later than the
   * members at least level, which is exactly one past those ahead when no
   * one else has the same total.
   */
  method GetRankFor(store: Store, key: Key) returns (rank: Option<int>)
    ensures rank.None? <==> key !in store
    ensures rank.Some? ==> |Ahead(store, key)| < rank.value <= |LevelOrAhead(store, key)|
    ensures rank.Some? && (forall k | k in store && k.guild == key.guild && k != key :: store[k].totalXp != store[key].totalXp) ==>
      rank.value == |Ahead(store, key)| + 1
  {
    var order := Leaderboard(store, key.guild);
    var i := 0;
    while i < |order| && order[i] != key.member
      invariant 0 <= i <= |order|
      invariant forall j | 0 <= j < i :: order[j] != key.member
    {
      i := i + 1;
    }
    if i == |order| {
      rank := None;
    } else {
      RankBounds(store, key, order, i);
      if forall k | k in store && k.guild == key.guild && k != key :: store[k].totalXp != store[key].totalXp {
        UniqueTotalRank(store, key);
      }
      rank := Some(i + 1);
    }
  }
}
