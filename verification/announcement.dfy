/**
 * The level-up announcement: a message template whose `[$…]` tokens are
 * replaced by the member's details, one token after another.
 */
module Announcement {
  import opened Wrappers

  /*---------------------------------------------------------------------------
   * Decimal rendering of integers, as `str(int)` does it
   *-------------------------------------------------------------------------*/

  predicate IsDigit(c: char) { '0' as int <= c as int <= '9' as int }

  function DigitChar(d: int): (c: char)
    requires 0 <= d < 10
    ensures IsDigit(c) && (c as int) - ('0' as int) == d
  {
    (('0' as int) + d) as char
  }

  /** The decimal digits of `n`, most significant first, with no leading zero. */
  function NatToString(n: nat): (s: string)
    ensures |s| > 0 && forall i | 0 <= i < |s| :: IsDigit(s[i])
    ensures |s| > 1 ==> s[0] != '0'
    decreases n
  {
    if n < 10 then [DigitChar(n)] else NatToString(n / 10) + [DigitChar(n % 10)]
  }

  /** `str(n)` for an int: a minus sign before the digits of a negative number. */
  function IntToString(n: int): string {
    if n < 0 then "-" + NatToString(-n) else NatToString(n)
  }

  function DigitValue(c: char): (d: nat)
    requires IsDigit(c)
    ensures d < 10
  {
    (c as int) - ('0' as int)
  }

  /** Reads back a string of decimal digits. */
  function ParseNat(s: string): nat
    requires forall i | 0 <= i < |s| :: IsDigit(s[i])
    decreases |s|
  {
    if |s| == 0 then 0
    else
      assert IsDigit(s[|s| - 1]);
      ParseNat(s[..|s| - 1]) * 10 + DigitValue(s[|s| - 1])
  }

  /** Reads back what `IntToString` writes. */
  function ParseInt(s: string): int
    requires |s| > 0
    requires s[0] == '-' ==> forall i | 1 <= i < |s| :: IsDigit(s[i])
    requires s[0] != '-' ==> forall i | 0 <= i < |s| :: IsDigit(s[i])
  {
    if s[0] == '-' then -(ParseNat(s[1..]) as int) else ParseNat(s)
  }

  lemma {:induction false} NatToStringRoundTrip(n: nat)
    ensures ParseNat(NatToString(n)) == n
    decreases n
  {
    if n >= 10 {
      NatToStringRoundTrip(n / 10);
      var s := NatToString(n);
      assert s[..|s| - 1] == NatToString(n / 10);
    }
  }

  /** Rendering an integer and reading it back gives the integer. */
  lemma IntToStringRoundTrip(n: int)
    ensures var s := IntToString(n);
      && |s| > 0
      && (s[0] == '-' <==> n < 0)
      && (s[0] == '-' ==> forall i | 1 <= i < |s| :: IsDigit(s[i]))
      && (s[0] != '-' ==> forall i | 0 <= i < |s| :: IsDigit(s[i]))
      && ParseInt(s) == n
  {
    var s := IntToString(n);
    if n < 0 {
      NatToStringRoundTrip(-n);
      assert s[1..] == NatToString(-n);
    } else {
      NatToStringRoundTrip(n);
    }
  }

  /*---------------------------------------------------------------------------
   * `str.replace`
   *-------------------------------------------------------------------------*/

  /** `t` occurs in `s` starting at index `i`. */
  predicate OccursAt(s: string, t: string, i: int) {
    0 <= i && i + |t| <= |s| && s[i..i + |t|] == t
  }

  /** `t` occurs in `s` at index `i` or later. */
  predicate ContainsFrom(s: string, t: string, i: int) {
    exists j | i <= j <= |s| - |t| :: OccursAt(s, t, j)
  }

  predicate Contains(s: string, t: string) {
    ContainsFrom(s, t, 0)
  }

  /** Compares `s[i + k..]` with `t[k..]` one character at a time. */
  predicate MatchesFrom(s: string, t: string, i: nat, k: nat)
    requires i + |t| <= |s| && k <= |t|
    decreases |t| - k
  {
    k == |t| || (s[i + k] == t[k] && MatchesFrom(s, t, i, k + 1))
  }

  lemma {:induction false} MatchesFromIff(s: string, t: string, i: nat, k: nat)
    requires i + |t| <= |s| && k <= |t|
    ensures MatchesFrom(s, t, i, k) <==> s[i + k..i + |t|] == t[k..]
    decreases |t| - k
  {
    if k < |t| {
      MatchesFromIff(s, t, i, k + 1);
      assert s[i + k..i + |t|] == [s[i + k]] + s[i + k + 1..i + |t|];
      assert t[k..] == [t[k]] + t[k + 1..];
    }
  }

  /** The character-by-character comparison agrees with `OccursAt`. */
  lemma MatchesAtIff(s: string, t: string, i: nat)
    requires i + |t| <= |s|
    ensures MatchesFrom(s, t, i, 0) <==> OccursAt(s, t, i)
  {
    MatchesFromIff(s, t, i, 0);
  }

  /** How many times `str.replace` finds `old` scanning from index `i`, left to right, without overlap. */
  function OccurrencesFrom(s: string, pattern: string, i: nat): nat
    requires |pattern| > 0 && i <= |s|
    decreases |s| - i
  {
    if |s| - i < |pattern| then 0
    else if MatchesFrom(s, pattern, i, 0) then 1 + OccurrencesFrom(s, pattern, i + |pattern|)
    else OccurrencesFrom(s, pattern, i + 1)
  }

  lemma {:induction false} OccurrencesCountContainment(s: string, pattern: string, i: nat)
    requires |pattern| > 0 && i <= |s|
    ensures OccurrencesFrom(s, pattern, i) > 0 <==> ContainsFrom(s, pattern, i)
    decreases |s| - i
  {
    if |s| - i >= |pattern| {
      MatchesAtIff(s, pattern, i);
      if !MatchesFrom(s, pattern, i, 0) {
        OccurrencesCountContainment(s, pattern, i + 1);
        if ContainsFrom(s, pattern, i) {
          var j :| i <= j <= |s| - |pattern| && OccursAt(s, pattern, j);
          assert j != i;
          assert ContainsFrom(s, pattern, i + 1);
        }
      }
    }
  }

  /** `s[i..].replace(old, new)` for a non-empty `old`. */
  function ReplaceFrom(s: string, pattern: string, repl: string, i: nat): string
    requires |pattern| > 0 && i <= |s|
    decreases |s| - i
  {
    if |s| - i < |pattern| then s[i..]
    else if MatchesFrom(s, pattern, i, 0) then repl + ReplaceFrom(s, pattern, repl, i + |pattern|)
    else [s[i]] + ReplaceFrom(s, pattern, repl, i + 1)
  }

  /**
   * `s.replace(old, new)` for a non-empty `old`: every occurrence found
   * scanning left to right, without overlap, is replaced by `new`.
   */
  function Replace(s: string, pattern: string, repl: string): string
    requires |pattern| > 0
  {
    ReplaceFrom(s, pattern, repl, 0)
  }

  lemma MultiplyStep(k: int, d: int)
    ensures (1 + k) * d == d + k * d
  {
  }

  /** Each occurrence found changes the length by the difference between `new` and `old`. */
  lemma {:induction false} ReplaceLength(s: string, pattern: string, repl: string, i: nat)
    requires |pattern| > 0 && i <= |s|
    ensures |ReplaceFrom(s, pattern, repl, i)| == |s| - i + OccurrencesFrom(s, pattern, i) * (|repl| - |pattern|)
    decreases |s| - i
  {
    if |s| - i >= |pattern| {
      if MatchesFrom(s, pattern, i, 0) {
        var d := |repl| - |pattern|;
        ReplaceLength(s, pattern, repl, i + |pattern|);
        var k := OccurrencesFrom(s, pattern, i + |pattern|);
        assert OccurrencesFrom(s, pattern, i) == 1 + k;
        MultiplyStep(k, d);
      } else {
        ReplaceLength(s, pattern, repl, i + 1);
      }
    }
  }

  lemma {:induction false} ReplaceUnchangedWithoutOccurrences(s: string, pattern: string, repl: string, i: nat)
    requires |pattern| > 0 && i <= |s| && OccurrencesFrom(s, pattern, i) == 0
    ensures ReplaceFrom(s, pattern, repl, i) == s[i..]
    decreases |s| - i
  {
    if |s| - i >= |pattern| {
      ReplaceUnchangedWithoutOccurrences(s, pattern, repl, i + 1);
      assert s[i..] == [s[i]] + s[i + 1..];
    }
  }

  lemma {:induction false} ReplaceByItself(s: string, pattern: string, i: nat)
    requires |pattern| > 0 && i <= |s|
    ensures ReplaceFrom(s, pattern, pattern, i) == s[i..]
    decreases |s| - i
  {
    if |s| - i >= |pattern| {
      MatchesAtIff(s, pattern, i);
      if MatchesFrom(s, pattern, i, 0) {
        ReplaceByItself(s, pattern, i + |pattern|);
        assert s[i..] == s[i..i + |pattern|] + s[i + |pattern|..];
      } else {
        ReplaceByItself(s, pattern, i + 1);
        assert s[i..] == [s[i]] + s[i + 1..];
      }
    }
  }

  /** With `old` present and `new` of the same length but different, the result differs. */
  lemma {:induction false} ReplaceSameLengthChanges(s: string, pattern: string, repl: string, i: nat)
    requires |pattern| > 0 && |repl| == |pattern| && repl != pattern && i <= |s|
    requires OccurrencesFrom(s, pattern, i) > 0
    ensures ReplaceFrom(s, pattern, repl, i) != s[i..]
    decreases |s| - i
  {
    MatchesAtIff(s, pattern, i);
    var r := ReplaceFrom(s, pattern, repl, i);
    if MatchesFrom(s, pattern, i, 0) {
      assert r[..|repl|] == repl;
      assert s[i..][..|pattern|] == pattern;
    } else {
      ReplaceSameLengthChanges(s, pattern, repl, i + 1);
      assert r[1..] == ReplaceFrom(s, pattern, repl, i + 1);
      assert s[i..][1..] == s[i + 1..];
    }
  }

  /** With `old` present and `new` of another length, the length changes. */
  lemma ReplaceOtherLengthChanges(s: string, pattern: string, repl: string)
    requires |pattern| > 0 && |repl| != |pattern| && OccurrencesFrom(s, pattern, 0) > 0
    ensures |Replace(s, pattern, repl)| != |s|
  {
    ReplaceLength(s, pattern, repl, 0);
    NonZeroProduct(OccurrencesFrom(s, pattern, 0), |repl| - |pattern|);
  }

  lemma NonZeroProduct(k: int, d: int)
    requires k > 0 && d != 0
    ensures k * d != 0
  {
    if d > 0 {
      assert k * d >= d;
    } else {
      assert k * d <= d;
    }
  }

  /** A string without `old` is returned unchanged. */
  lemma ReplaceAbsent(s: string, pattern: string, repl: string)
    requires |pattern| > 0 && !Contains(s, pattern)
    ensures Replace(s, pattern, repl) == s
  {
    OccurrencesCountContainment(s, pattern, 0);
    ReplaceUnchangedWithoutOccurrences(s, pattern, repl, 0);
  }

  /** `replace` changes the string exactly when `old` occurs in it and `new` differs from it. */
  lemma ReplaceChangesIff(s: string, pattern: string, repl: string)
    requires |pattern| > 0
    ensures Replace(s, pattern, repl) == s <==> (!Contains(s, pattern) || repl == pattern)
  {
    OccurrencesCountContainment(s, pattern, 0);
    if !Contains(s, pattern) {
      ReplaceUnchangedWithoutOccurrences(s, pattern, repl, 0);
    } else if repl == pattern {
      ReplaceByItself(s, pattern, 0);
    } else if |repl| != |pattern| {
      ReplaceOtherLengthChanges(s, pattern, repl);
    } else {
      ReplaceSameLengthChanges(s, pattern, repl, 0);
    }
  }

  /*---------------------------------------------------------------------------
   * LevelUpAnnouncement
   *-------------------------------------------------------------------------*/

  const AUTHOR_MENTION: string := "[$mention]"
  const XP: string := "[$xp]"
  const TOTAL_XP: string := "[$total_xp]"
  const LEVEL: string := "[$level]"
  const RANK: string := "[$rank]"

  const DEFAULT_TEXT_AFTER_MENTION: string := ", you are now **level "
  const DEFAULT_TEXT_AFTER_LEVEL: string := "!**"

  /**
   * The message used when the announcement is given none:
   * `[$mention], you are now **level [$level]!**`.
   */
  const DEFAULT_MESSAGE: string := AUTHOR_MENTION + DEFAULT_TEXT_AFTER_MENTION + LEVEL + DEFAULT_TEXT_AFTER_LEVEL

  /** A placeholder's value: unset (`None`), a number, or text such as a mention. */
  datatype Placeholder = Unset | IntValue(n: int) | TextValue(text: string)

  /** `str(value)`. */
  function Show(p: Placeholder): string {
    match p
    case Unset => "None"
    case IntValue(n) => IntToString(n)
    case TextValue(t) => t
  }

  datatype LevelUpAnnouncement = LevelUpAnnouncement(
    message: string,
    levelUpChannelId: Option<int>,
    authorMention: Placeholder,
    xp: Placeholder,
    totalXp: Placeholder,
    level: Placeholder,
    rank: Placeholder)

  /** A new announcement: every placeholder starts unset. */
  function NewAnnouncement(message: string, levelUpChannelId: Option<int>): (a: LevelUpAnnouncement)
    ensures a.message == message && a.levelUpChannelId == levelUpChannelId
    ensures a.authorMention.Unset? && a.xp.Unset? && a.totalXp.Unset? && a.level.Unset? && a.rank.Unset?
  {
    LevelUpAnnouncement(message, levelUpChannelId, Unset, Unset, Unset, Unset, Unset)
  }

  /** None of the five tokens occurs in `message`. */
  predicate HasNoToken(message: string) {
    && !Contains(message, AUTHOR_MENTION)
    && !Contains(message, XP)
    && !Contains(message, TOTAL_XP)
    && !Contains(message, LEVEL)
    && !Contains(message, RANK)
  }

  /**
   * `_parse_message`: replaces every occurrence of each token by its value's
   * text, in the order mention, xp, total_xp, level, rank.
   */
  function ParseMessage(a: LevelUpAnnouncement, message: string): (r: string)
    ensures HasNoToken(message) ==> r == message
  {
    var m1 := Replace(message, AUTHOR_MENTION, Show(a.authorMention));
    ReplaceChangesIff(message, AUTHOR_MENTION, Show(a.authorMention));
    var m2 := Replace(m1, XP, Show(a.xp));
    ReplaceChangesIff(m1, XP, Show(a.xp));
    var m3 := Replace(m2, TOTAL_XP, Show(a.totalXp));
    ReplaceChangesIff(m2, TOTAL_XP, Show(a.totalXp));
    var m4 := Replace(m3, LEVEL, Show(a.level));
    ReplaceChangesIff(m3, LEVEL, Show(a.level));
    ReplaceChangesIff(m4, RANK, Show(a.rank));
    Replace(m4, RANK, Show(a.rank))
  }

  /** The tokens are five distinct strings, each `[$` + a name + `]`. */
  lemma TokensAreDistinctBracketedNames()
    ensures AUTHOR_MENTION == "[$" + "mention" + "]"
    ensures XP == "[$" + "xp" + "]"
    ensures TOTAL_XP == "[$" + "total_xp" + "]"
    ensures LEVEL == "[$" + "level" + "]"
    ensures RANK == "[$" + "rank" + "]"
    ensures |{AUTHOR_MENTION, XP, TOTAL_XP, LEVEL, RANK}| == 5
  {
    assert AUTHOR_MENTION[2] != XP[2] && AUTHOR_MENTION[2] != TOTAL_XP[2];
    assert AUTHOR_MENTION[2] != LEVEL[2] && AUTHOR_MENTION[2] != RANK[2];
    assert XP[2] != TOTAL_XP[2] && XP[2] != LEVEL[2] && XP[2] != RANK[2];
    assert TOTAL_XP[2] != LEVEL[2] && TOTAL_XP[2] != RANK[2];
    assert LEVEL[2] != RANK[2];
  }

  /*---------------------------------------------------------------------------
   * Replacing within concatenations
   *-------------------------------------------------------------------------*/

  lemma {:induction false} MatchesFromShift(s: string, t: string, i: nat, j: nat, k: nat)
    requires i + j + |t| <= |s| && k <= |t|
    ensures MatchesFrom(s, t, i + j, k) == MatchesFrom(s[i..], t, j, k)
    decreases |t| - k
  {
    if k < |t| {
      MatchesFromShift(s, t, i, j, k + 1);
      assert s[i..][j + k] == s[i + j + k];
    }
  }

  /** Replacing from index `i + j` of `s` is replacing from index `j` of `s[i..]`. */
  lemma {:induction false} ReplaceFromShift(s: string, pattern: string, repl: string, i: nat, j: nat)
    requires |pattern| > 0 && i + j <= |s|
    ensures ReplaceFrom(s, pattern, repl, i + j) == ReplaceFrom(s[i..], pattern, repl, j)
    decreases |s| - i - j
  {
    var t := s[i..];
    assert |t| - j == |s| - (i + j);
    if |s| - (i + j) >= |pattern| {
      MatchesFromShift(s, pattern, i, j, 0);
      if MatchesFrom(s, pattern, i + j, 0) {
        calc {
          ReplaceFrom(s, pattern, repl, i + j);
          repl + ReplaceFrom(s, pattern, repl, i + j + |pattern|);
          { ReplaceFromShift(s, pattern, repl, i, j + |pattern|); }
          repl + ReplaceFrom(t, pattern, repl, j + |pattern|);
          ReplaceFrom(t, pattern, repl, j);
        }
      } else {
        calc {
          ReplaceFrom(s, pattern, repl, i + j);
          [s[i + j]] + ReplaceFrom(s, pattern, repl, i + j + 1);
          { ReplaceFromShift(s, pattern, repl, i, j + 1); }
          [t[j]] + ReplaceFrom(t, pattern, repl, j + 1);
          ReplaceFrom(t, pattern, repl, j);
        }
      }
    } else {
      assert t[j..] == s[i + j..];
    }
  }

  /** A string that starts with `old` starts, once replaced, with `new`. */
  lemma ReplaceLeadingPattern(pattern: string, rest: string, repl: string)
    requires |pattern| > 0
    ensures Replace(pattern + rest, pattern, repl) == repl + Replace(rest, pattern, repl)
  {
    var s := pattern + rest;
    MatchesAtIff(s, pattern, 0);
    assert s[0..|pattern|] == pattern;
    ReplaceFromShift(s, pattern, repl, |pattern|, 0);
    assert s[|pattern|..] == rest;
  }

  /** Text without the first character of `old` passes through `replace` untouched, even before an occurrence. */
  lemma {:induction false} ReplaceSkipsPrefix(a: string, b: string, pattern: string, repl: string)
    requires |pattern| > 0 && pattern[0] !in a
    ensures Replace(a + b, pattern, repl) == a + Replace(b, pattern, repl)
    decreases |a|
  {
    if |a| > 0 {
      var s := a + b;
      if |s| >= |pattern| {
        assert s[0] == a[0];
        MatchesAtIff(s, pattern, 0);
        assert s[0..|pattern|][0] != pattern[0];
        ReplaceFromShift(s, pattern, repl, 1, 0);
        assert s[1..] == a[1..] + b;
        ReplaceSkipsPrefix(a[1..], b, pattern, repl);
        assert s == [a[0]] + (a[1..] + b);
      } else {
        assert Replace(b, pattern, repl) == b[0..];
        assert b[0..] == b;
      }
    } else {
      assert a + b == b;
    }
  }

  /** A character of `t` that `s` lacks rules out every occurrence of `t` in `s`. */
  lemma MissingCharacterExcludes(s: string, t: string, c: char)
    requires c in t && c !in s
    ensures !Contains(s, t)
  {
    var k :| 0 <= k < |t| && t[k] == c;
    forall j | 0 <= j <= |s| - |t|
      ensures !OccursAt(s, t, j)
    {
      assert s[j..j + |t|][k] == s[j + k];
      assert s[j + k] in s;
    }
  }

  lemma IntToStringHasNoBracket(n: int)
    ensures '[' !in IntToString(n)
  {
    var s := IntToString(n);
    forall i | 0 <= i < |s|
      ensures s[i] != '['
    {
      if n < 0 && i > 0 {
        assert s[i] == NatToString(-n)[i - 1];
      }
    }
  }

  /** A string that differs from `old` at index `k`, with no other `old[0]` after its first character, passes through `replace`. */
  lemma ReplaceSkipsMismatch(q: string, rest: string, pattern: string, repl: string, k: nat)
    requires k < |q| && k < |pattern| && q[k] != pattern[k] && pattern[0] !in q[1..]
    ensures Replace(q + rest, pattern, repl) == q + Replace(rest, pattern, repl)
  {
    var s := q + rest;
    if |s| >= |pattern| {
      assert !MatchesFrom(s, pattern, 0, 0) by {
        MatchesAtIff(s, pattern, 0);
        assert s[0..|pattern|][k] == q[k];
      }
      assert Replace(s, pattern, repl) == [s[0]] + ReplaceFrom(s, pattern, repl, 1);
      assert ReplaceFrom(s, pattern, repl, 1) == q[1..] + Replace(rest, pattern, repl) by {
        ReplaceFromShift(s, pattern, repl, 1, 0);
        assert s[1..] == q[1..] + rest;
        ReplaceSkipsPrefix(q[1..], rest, pattern, repl);
      }
      assert q == [q[0]] + q[1..];
    } else {
      assert Replace(s, pattern, repl) == s[0..] == s;
      assert Replace(rest, pattern, repl) == rest[0..] == rest;
    }
  }

  /*---------------------------------------------------------------------------
   * Templates: literal text with tokens in between
   *-------------------------------------------------------------------------*/

  datatype Token = Mention | Xp | TotalXp | Level | Rank

  function TokenText(t: Token): string {
    match t
    case Mention => AUTHOR_MENTION
    case Xp => XP
    case TotalXp => TOTAL_XP
    case Level => LEVEL
    case Rank => RANK
  }

  /** The position of the token in the order `_parse_message` replaces them. */
  function Order(t: Token): nat {
    match t
    case Mention => 0
    case Xp => 1
    case TotalXp => 2
    case Level => 3
    case Rank => 4
  }

  function TokenAt(k: nat): (t: Token)
    requires k < 5
    ensures Order(t) == k
  {
    if k == 0 then Mention else if k == 1 then Xp else if k == 2 then TotalXp else if k == 3 then Level else Rank
  }

  function ValueOf(a: LevelUpAnnouncement, t: Token): Placeholder {
    match t
    case Mention => a.authorMention
    case Xp => a.xp
    case TotalXp => a.totalXp
    case Level => a.level
    case Rank => a.rank
  }

  lemma TokenShape(t: Token, u: Token)
    ensures |TokenText(t)| > 2 && TokenText(t)[0] == '[' && '[' !in TokenText(t)[1..]
    ensures t != u ==> TokenText(t)[2] != TokenText(u)[2]
  {
    var w := TokenText(t);
    forall i | 1 <= i < |w|
      ensures w[i] != '['
    {
    }
    assert w[1..][..] == w[1..];
  }

  /** A piece of a template: literal text, or one of the five tokens. */
  datatype Segment = Literal(text: string) | Slot(token: Token)

  /** The message a template spells out. */
  function Written(segs: seq<Segment>): string
    decreases |segs|
  {
    if |segs| == 0 then ""
    else
      (match segs[0] case Literal(t) => t case Slot(tok) => TokenText(tok)) + Written(segs[1..])
  }

  /** The intended rendering: each token stands for its value's text, the literal text stays. */
  function Rendered(a: LevelUpAnnouncement, segs: seq<Segment>): string
    decreases |segs|
  {
    if |segs| == 0 then ""
    else
      (match segs[0] case Literal(t) => t case Slot(tok) => Show(ValueOf(a, tok))) + Rendered(a, segs[1..])
  }

  /** No `[` in the literal text nor in the value of a token the template uses. */
  predicate Renderable(a: LevelUpAnnouncement, segs: seq<Segment>) {
    forall i | 0 <= i < |segs| ::
      match segs[i]
      case Literal(t) => '[' !in t
      case Slot(tok) => '[' !in Show(ValueOf(a, tok))
  }

  /** The template after the first `k` replacements of `_parse_message`. */
  function PartlyRendered(a: LevelUpAnnouncement, segs: seq<Segment>, k: nat): string
    decreases |segs|
  {
    if |segs| == 0 then ""
    else
      (match segs[0]
       case Literal(t) => t
       case Slot(tok) => if Order(tok) < k then Show(ValueOf(a, tok)) else TokenText(tok))
      + PartlyRendered(a, segs[1..], k)
  }

  lemma {:induction false} PartlyRenderedEnds(a: LevelUpAnnouncement, segs: seq<Segment>)
    ensures PartlyRendered(a, segs, 0) == Written(segs)
    ensures PartlyRendered(a, segs, 5) == Rendered(a, segs)
    decreases |segs|
  {
    if |segs| > 0 {
      PartlyRenderedEnds(a, segs[1..]);
    }
  }

  /** The `k`-th replacement turns exactly the occurrences of the `k`-th token into its value's text. */
  lemma {:induction false} ReplaceStage(a: LevelUpAnnouncement, segs: seq<Segment>, k: nat)
    requires k < 5 && Renderable(a, segs)
    ensures var t := TokenAt(k);
      Replace(PartlyRendered(a, segs, k), TokenText(t), Show(ValueOf(a, t))) == PartlyRendered(a, segs, k + 1)
    decreases |segs|
  {
    var t := TokenAt(k);
    var pattern, repl := TokenText(t), Show(ValueOf(a, t));
    TokenShape(t, t);
    if |segs| == 0 {
      assert Replace("", pattern, repl) == "";
    } else {
      assert Renderable(a, segs[1..]) by {
        forall i | 0 <= i < |segs[1..]| ensures segs[1..][i] == segs[i + 1] { }
      }
      assert segs[0] == segs[0];
      ReplaceStage(a, segs[1..], k);
      var rest := PartlyRendered(a, segs[1..], k);
      match segs[0]
      case Literal(w) =>
        ReplaceSkipsPrefix(w, rest, pattern, repl);
      case Slot(tok) =>
        if Order(tok) < k {
          ReplaceSkipsPrefix(Show(ValueOf(a, tok)), rest, pattern, repl);
        } else if Order(tok) == k {
          assert tok == t;
          ReplaceLeadingPattern(pattern, rest, repl);
        } else {
          TokenShape(tok, t);
          ReplaceSkipsMismatch(TokenText(tok), rest, pattern, repl, 2);
        }
    }
  }

  /**
   * `_parse_message` renders a template: every occurrence of every token
   * becomes its value's text and the literal text is kept, provided neither
   * the literal text nor the values used contain a `[`.
   */
  lemma TemplateRendering(a: LevelUpAnnouncement, segs: seq<Segment>)
    requires Renderable(a, segs)
    ensures ParseMessage(a, Written(segs)) == Rendered(a, segs)
  {
    PartlyRenderedEnds(a, segs);
    var m0 := PartlyRendered(a, segs, 0);
    var m1 := PartlyRendered(a, segs, 1);
    var m2 := PartlyRendered(a, segs, 2);
    var m3 := PartlyRendered(a, segs, 3);
    var m4 := PartlyRendered(a, segs, 4);
    assert Replace(m0, AUTHOR_MENTION, Show(a.authorMention)) == m1 by { ReplaceStage(a, segs, 0); }
    assert Replace(m1, XP, Show(a.xp)) == m2 by { ReplaceStage(a, segs, 1); }
    assert Replace(m2, TOTAL_XP, Show(a.totalXp)) == m3 by { ReplaceStage(a, segs, 2); }
    assert Replace(m3, LEVEL, Show(a.level)) == m4 by { ReplaceStage(a, segs, 3); }
    assert Replace(m4, RANK, Show(a.rank)) == PartlyRendered(a, segs, 5) by { ReplaceStage(a, segs, 4); }
  }

  /** A number or an unset value never brings a `[` into the message. */
  lemma ShownNumberHasNoBracket(p: Placeholder)
    requires !p.TextValue?
    ensures '[' !in Show(p)
  {
    if p.IntValue? {
      IntToStringHasNoBracket(p.n);
    }
  }

  /*---------------------------------------------------------------------------
   * The default message
   *-------------------------------------------------------------------------*/

  lemma FixedWordsHaveNoBracket()
    ensures '[' !in DEFAULT_TEXT_AFTER_MENTION && '[' !in DEFAULT_TEXT_AFTER_LEVEL
  {
  }

  /** The default message holds the mention token at its start and the level token after the fixed words. */
  lemma DefaultMessageHoldsMentionAndLevel()
    ensures Contains(DEFAULT_MESSAGE, AUTHOR_MENTION) && Contains(DEFAULT_MESSAGE, LEVEL)
  {
    var d := DEFAULT_MESSAGE;
    assert d[..10] == AUTHOR_MENTION && OccursAt(d, AUTHOR_MENTION, 0);
    assert d[32..40] == LEVEL && OccursAt(d, LEVEL, 32);
  }

  /** None of the other three tokens can occur: the default message has no `x` and no `k`. */
  lemma DefaultMessageLacksOtherTokens()
    ensures !Contains(DEFAULT_MESSAGE, XP) && !Contains(DEFAULT_MESSAGE, TOTAL_XP) && !Contains(DEFAULT_MESSAGE, RANK)
  {
    var d := DEFAULT_MESSAGE;
    forall i | 0 <= i < |d|
      ensures d[i] != 'x' && d[i] != 'k'
    {
    }
    MissingCharacterExcludes(d, XP, 'x');
    MissingCharacterExcludes(d, TOTAL_XP, 'x');
    MissingCharacterExcludes(d, RANK, 'k');
  }

  /** The default message holds the mention and level tokens and none of the other three. */
  lemma DefaultMessageTokens()
    ensures Contains(DEFAULT_MESSAGE, AUTHOR_MENTION) && Contains(DEFAULT_MESSAGE, LEVEL)
    ensures !Contains(DEFAULT_MESSAGE, XP) && !Contains(DEFAULT_MESSAGE, TOTAL_XP) && !Contains(DEFAULT_MESSAGE, RANK)
  {
    DefaultMessageHoldsMentionAndLevel();
    DefaultMessageLacksOtherTokens();
  }

  /**
   * The default message renders as the mention's text, the fixed words and
   * the level's text, whatever the other three placeholders hold, provided
   * the two values contain no `[`.
   */
  lemma DefaultMessageRendering(a: LevelUpAnnouncement)
    requires '[' !in Show(a.authorMention) && '[' !in Show(a.level)
    ensures ParseMessage(a, DEFAULT_MESSAGE)
      == Show(a.authorMention) + DEFAULT_TEXT_AFTER_MENTION + Show(a.level) + DEFAULT_TEXT_AFTER_LEVEL
  {
    FixedWordsHaveNoBracket();
    var segs := [Slot(Mention), Literal(DEFAULT_TEXT_AFTER_MENTION), Slot(Level), Literal(DEFAULT_TEXT_AFTER_LEVEL)];
    assert segs[1..] == segs[1..2] + segs[2..] && segs[2..][1..] == segs[3..] && segs[3..][1..] == [];
    assert Written(segs) == DEFAULT_MESSAGE by {
      assert Written(segs[3..]) == DEFAULT_TEXT_AFTER_LEVEL + Written([]);
      assert Written(segs[2..]) == LEVEL + DEFAULT_TEXT_AFTER_LEVEL;
      assert Written(segs[1..]) == DEFAULT_TEXT_AFTER_MENTION + (LEVEL + DEFAULT_TEXT_AFTER_LEVEL);
    }
    var mention, lvl := Show(a.authorMention), Show(a.level);
    assert Rendered(a, segs) == mention + DEFAULT_TEXT_AFTER_MENTION + lvl + DEFAULT_TEXT_AFTER_LEVEL by {
      assert Rendered(a, segs[3..]) == DEFAULT_TEXT_AFTER_LEVEL + Rendered(a, []);
      assert Rendered(a, segs[2..]) == lvl + DEFAULT_TEXT_AFTER_LEVEL;
      assert Rendered(a, segs[1..]) == DEFAULT_TEXT_AFTER_MENTION + (lvl + DEFAULT_TEXT_AFTER_LEVEL);
    }
    TemplateRendering(a, segs);
  }

  /** A placeholder never set renders as the text "None". */
  lemma UnsetRendersNone(channel: Option<int>)
    ensures ParseMessage(NewAnnouncement(XP, channel), XP) == "None"
  {
    assert XP[..|XP|] == XP;
    assert Replace(XP, XP, "None") == "None";
  }
}
