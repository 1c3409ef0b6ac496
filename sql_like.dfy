/**
 * SQLite's `LIKE` operator as the report queries use it: `%` matches any
 * run of characters, `_` matches exactly one character, and every other
 * pattern character matches itself up to ASCII case (no `ESCAPE` clause).
 */
module SqlLike {
  import opened Text

  predicate Like(s: string, pattern: string) {
    LikeFrom(s, 0, pattern, 0)
  }

  predicate LikeFrom(s: string, i: nat, p: string, j: nat)
    requires i <= |s| && j <= |p|
    decreases |s| - i + |p| - j
  {
    if j == |p| then i == |s|
    else if p[j] == '%' then LikeFrom(s, i, p, j + 1) || (i < |s| && LikeFrom(s, i + 1, p, j))
    else i < |s| && (p[j] == '_' || LowerChar(s[i]) == LowerChar(p[j])) && LikeFrom(s, i + 1, p, j + 1)
  }

  /** A pattern character with no special meaning. */
  predicate IsLiteral(c: char) {
    c != '%' && c != '_'
  }

  /** Past the last wildcard, the rest of the pattern must match the rest of
      the string exactly, up to case. */
  lemma {:induction false} LikeLiteralTail(s: string, i: nat, p: string, j: nat)
    requires i <= |s| && j <= |p|
    requires forall t :: j <= t < |p| ==> IsLiteral(p[t])
    ensures LikeFrom(s, i, p, j) <==> Lower(s[i..]) == Lower(p[j..])
    decreases |p| - j
  {
    if j < |p| && i < |s| {
      LikeLiteralTail(s, i + 1, p, j + 1);
      assert IsLiteral(p[j]);
      LowerCons(s[i..]);
      LowerCons(p[j..]);
      assert s[i..][1..] == s[i + 1..];
      assert p[j..][1..] == p[j + 1..];
      var x, y := Lower(s[i..]), Lower(p[j..]);
      assert x == y <==> x[0] == y[0] && x[1..] == y[1..];
    } else if j < |p| {
      assert |Lower(p[j..])| > 0;
    } else if i < |s| {
      assert |Lower(s[i..])| > 0;
    }
  }

  lemma LowerCons(x: string)
    requires x != []
    ensures Lower(x) == [LowerChar(x[0])] + Lower(x[1..])
  {
  }

  /** A single `%` matches every suffix. */
  lemma {:induction false} PercentMatchesRest(s: string, i: nat, p: string, j: nat)
    requires i <= |s| && j < |p| && p[j] == '%' && j + 1 == |p|
    ensures LikeFrom(s, i, p, j)
    decreases |s| - i
  {
    if i < |s| {
      PercentMatchesRest(s, i + 1, p, j);
    }
  }

  /** Some suffix starting at or after `i` matches the pattern from `j`. */
  ghost predicate SomeSuffixMatches(s: string, i: nat, p: string, j: nat)
    requires i <= |s| && j <= |p|
  {
    exists k :: i <= k <= |s| && LikeFrom(s, k, p, j)
  }

  /** A leading `%` tries every split point. */
  lemma {:induction false} PercentSplits(s: string, i: nat, p: string, j: nat)
    requires i <= |s| && j < |p| && p[j] == '%'
    ensures LikeFrom(s, i, p, j) <==> SomeSuffixMatches(s, i, p, j + 1)
    decreases |s| - i
  {
    if i < |s| {
      PercentSplits(s, i + 1, p, j);
      if LikeFrom(s, i, p, j + 1) {
        assert i <= i <= |s| && LikeFrom(s, i, p, j + 1);
      }
      if SomeSuffixMatches(s, i, p, j + 1) {
        var k :| i <= k <= |s| && LikeFrom(s, k, p, j + 1);
        if k > i {
          assert i + 1 <= k <= |s| && LikeFrom(s, k, p, j + 1);
        }
      }
    } else {
      if LikeFrom(s, i, p, j + 1) {
        assert i <= i <= |s| && LikeFrom(s, i, p, j + 1);
      }
      if SomeSuffixMatches(s, i, p, j + 1) {
        var k :| i <= k <= |s| && LikeFrom(s, k, p, j + 1);
        assert k == i;
      }
    }
  }

  /** `u LIKE 'gh_%'`: the name starts with `gh` in either case and has at
      least one more character, whatever it is. */
  lemma LikeGhPattern(u: string)
    ensures Like(u, "gh_%") <==> |u| >= 3 && LowerChar(u[0]) == 'g' && LowerChar(u[1]) == 'h'
  {
    var p := "gh_%";
    assert p[0] == 'g' && p[1] == 'h' && p[2] == '_' && p[3] == '%';
    if Like(u, p) {
      assert LikeFrom(u, 1, p, 1);
      assert LikeFrom(u, 2, p, 2);
      assert LikeFrom(u, 3, p, 3);
    }
    if |u| >= 3 && LowerChar(u[0]) == 'g' && LowerChar(u[1]) == 'h' {
      PercentMatchesRest(u, 3, p, 3);
      assert LikeFrom(u, 2, p, 2);
      assert LikeFrom(u, 1, p, 1);
    }
  }

  /** `u LIKE '%@chatroom'`: the name ends with `@chatroom` up to case. */
  lemma LikeChatroomPattern(u: string)
    ensures Like(u, "%@chatroom") <==> EndsWith(Lower(u), "@chatroom")
  {
    var p := "%@chatroom";
    var lit := "@chatroom";
    assert p[1..] == lit;
    assert Lower(lit) == lit;
    forall t | 1 <= t < |p| ensures IsLiteral(p[t]) {
      assert p[t] == lit[t - 1];
    }
    PercentSplits(u, 0, p, 0);
    forall k | 0 <= k <= |u| ensures LikeFrom(u, k, p, 1) <==> Lower(u)[k..] == lit {
      LikeLiteralTail(u, k, p, 1);
      assert Lower(u)[k..] == Lower(u[k..]);
    }
    if EndsWith(Lower(u), lit) {
      var k := |u| - 9;
      assert Lower(u)[k..] == lit;
      assert 0 <= k <= |u| && LikeFrom(u, k, p, 1);
    }
    if Like(u, p) {
      var k :| 0 <= k <= |u| && LikeFrom(u, k, p, 1);
      assert |Lower(u)[k..]| == 9;
    }
  }

  /** `name LIKE 'Msg_%'`: the name starts with `msg` in either case and has
      at least one more character. */
  lemma LikeMsgPattern(name: string)
    ensures Like(name, "Msg_%") <==>
            |name| >= 4 && LowerChar(name[0]) == 'm' && LowerChar(name[1]) == 's' && LowerChar(name[2]) == 'g'
  {
    var p := "Msg_%";
    assert p[0] == 'M' && p[1] == 's' && p[2] == 'g' && p[3] == '_' && p[4] == '%';
    if Like(name, p) {
      assert LikeFrom(name, 1, p, 1);
      assert LikeFrom(name, 2, p, 2);
      assert LikeFrom(name, 3, p, 3);
      assert LikeFrom(name, 4, p, 4);
    }
    if |name| >= 4 && LowerChar(name[0]) == 'm' && LowerChar(name[1]) == 's' && LowerChar(name[2]) == 'g' {
      PercentMatchesRest(name, 4, p, 4);
      assert LikeFrom(name, 3, p, 3);
      assert LikeFrom(name, 2, p, 2);
      assert LikeFrom(name, 1, p, 1);
    }
  }
}
