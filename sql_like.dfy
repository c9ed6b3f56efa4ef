/** SQL `LIKE` pattern matching, as the name search uses it: `%` matches any
    run of characters (also none), `_` matches exactly one character, every
    other character matches itself. Comparison is character for character. */
module SqlLike {

  function Like(s: string, p: string): bool
    decreases |p|, |s|
  {
    if p == [] then s == []
    else if p[0] == '%' then Like(s, p[1..]) || (s != [] && Like(s[1..], p))
    else s != [] && (p[0] == '_' || p[0] == s[0]) && Like(s[1..], p[1..])
  }

  /** A term holding no wildcard character. */
  predicate Literal(t: string) {
    '%' !in t && '_' !in t
  }

  /** `t` occurs in `s` as a contiguous piece: it is a prefix of some suffix. */
  ghost predicate Contains(s: string, t: string) {
    exists k :: 0 <= k <= |s| && t <= s[k..]
  }

  /** The pattern a name-search term becomes: `'%' . $term . '%'`. */
  function Pattern(t: string): string {
    "%" + t + "%"
  }

  lemma {:induction false} LikePercentMatchesAll(s: string)
    ensures Like(s, "%")
  {
    if s != [] {
      LikePercentMatchesAll(s[1..]);
    }
  }

  lemma {:induction false} LikeLiteralPrefix(s: string, t: string, q: string)
    requires Literal(t)
    ensures Like(s, t + q) <==> |t| <= |s| && s[..|t|] == t && Like(s[|t|..], q)
  {
    var p := t + q;
    if t == [] {
      assert p == q && s[0..] == s;
    } else {
      assert p[0] == t[0] && p[1..] == t[1..] + q;
      assert t[0] != '%' && t[0] != '_';
      if s != [] {
        LikeLiteralPrefix(s[1..], t[1..], q);
        assert |t| <= |s| ==> s[1..][|t| - 1..] == s[|t|..];
        if |t| <= |s| {
          assert s[..|t|] == t <==> s[0] == t[0] && s[1..][..|t| - 1] == t[1..];
        }
      }
    }
  }

  lemma {:induction false} LikeLeadingPercent(s: string, q: string)
    ensures Like(s, "%" + q) <==> exists k :: 0 <= k <= |s| && Like(s[k..], q)
  {
    var p := "%" + q;
    assert p[0] == '%' && p[1..] == q;
    if Like(s, p) {
      if Like(s, q) {
        assert s[0..] == s;
      } else {
        LikeLeadingPercent(s[1..], q);
        var k :| 0 <= k <= |s[1..]| && Like(s[1..][k..], q);
        assert s[1..][k..] == s[k + 1..];
      }
    } else {
      forall k | 0 <= k <= |s|
        ensures !Like(s[k..], q)
      {
        if k == 0 {
          assert s[0..] == s;
        } else {
          LikeLeadingPercent(s[1..], q);
          assert s[1..][k - 1..] == s[k..];
        }
      }
    }
  }

  /** For a term without wildcards, `LIKE '%term%'` is substring search. */
  lemma LikeIsContains(s: string, t: string)
    requires Literal(t)
    ensures Like(s, Pattern(t)) <==> Contains(s, t)
  {
    assert Pattern(t) == "%" + (t + "%");
    LikeLeadingPercent(s, t + "%");
    if Like(s, Pattern(t)) {
      var k :| 0 <= k <= |s| && Like(s[k..], t + "%");
      LikeLiteralPrefix(s[k..], t, "%");
      assert t <= s[k..];
    }
    if Contains(s, t) {
      var k :| 0 <= k <= |s| && t <= s[k..];
      LikeLiteralPrefix(s[k..], t, "%");
      LikePercentMatchesAll(s[k..][|t|..]);
    }
  }

  /** A piece found at a position is contained. */
  lemma ContainedAt(s: string, t: string, k: int)
    requires 0 <= k <= |s| && t <= s[k..]
    ensures Contains(s, t)
  {
  }

  /** A term holding a character the string lacks is not contained. */
  lemma AbsentCharNotContained(s: string, t: string, i: int)
    requires 0 <= i < |t| && t[i] !in s
    ensures !Contains(s, t)
  {
    forall k | 0 <= k <= |s|
      ensures !(t <= s[k..])
    {
      if k + i < |s| {
        assert s[k..][i] == s[k + i];
      }
    }
  }
}
