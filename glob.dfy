/**
 * The `-path PATTERN` test of `find`: the whole path is matched against a
 * shell pattern in which `*` stands for any run of characters, `/` included.
 */
module Glob {

  /** `s` matches `pat`, where `*` is the only wildcard and every other character stands for itself. */
  predicate Match(pat: string, s: string)
    ensures '*' !in pat ==> (Match(pat, s) <==> s == pat)
    decreases |pat| + |s|
  {
    if pat == [] then s == []
    else if pat[0] == '*' then Match(pat[1..], s) || (s != [] && Match(pat, s[1..]))
    else s != [] && s[0] == pat[0] && Match(pat[1..], s[1..])
  }

  /** A wildcard-free start of a pattern must be matched character by character. */
  lemma {:induction false} MatchLiteral(lit: string, rest: string, s: string)
    requires '*' !in lit
    ensures Match(lit + rest, s) <==> |lit| <= |s| && s[..|lit|] == lit && Match(rest, s[|lit|..])
    decreases |lit|
  {
    if lit == [] {
      assert lit + rest == rest;
    } else {
      assert (lit + rest)[0] == lit[0];
      assert (lit + rest)[1..] == lit[1..] + rest;
      if s != [] {
        MatchLiteral(lit[1..], rest, s[1..]);
        if |lit| <= |s| {
          assert s[1..][|lit| - 1..] == s[|lit|..];
          assert s[..|lit|] == [s[0]] + s[1..][..|lit| - 1];
        }
      }
    }
  }

  /** A leading `*` lets the rest of the pattern match any suffix. */
  lemma {:induction false} MatchStar(rest: string, s: string)
    ensures Match("*" + rest, s) <==> exists k :: 0 <= k <= |s| && Match(rest, s[k..])
    decreases |s|
  {
    var pat := "*" + rest;
    assert pat[1..] == rest;
    if s == [] {
      assert s[0..] == s;
    } else {
      MatchStar(rest, s[1..]);
      assert s[0..] == s;
      if exists k :: 0 <= k <= |s| && Match(rest, s[k..]) {
        var k :| 0 <= k <= |s| && Match(rest, s[k..]);
        if k > 0 {
          assert s[1..][k - 1..] == s[k..];
        }
      }
      if exists k :: 0 <= k <= |s[1..]| && Match(rest, s[1..][k..]) {
        var k :| 0 <= k <= |s[1..]| && Match(rest, s[1..][k..]);
        assert s[1..][k..] == s[k + 1..];
      }
    }
  }
}
