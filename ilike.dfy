/** SQL `ILIKE` as the provider search uses it: `%` matches any run of
    characters, `_` any one character, every other character itself up to ASCII
    case. */
module Patterns {

  function Lower(c: char): char
  {
    if 'A' <= c <= 'Z' then (c as int + 32) as char else c
  }

  predicate SameIgnoringCase(a: string, b: string)
  {
    |a| == |b| && forall i :: 0 <= i < |a| ==> Lower(a[i]) == Lower(b[i])
  }

  /** `p` occurs in `s` at position `k`, up to case. */
  predicate OccursAt(s: string, p: string, k: int)
  {
    0 <= k && k + |p| <= |s| && SameIgnoringCase(s[k..k + |p|], p)
  }

  predicate ContainsIgnoringCase(s: string, p: string)
  {
    exists k :: 0 <= k <= |s| && OccursAt(s, p, k)
  }

  predicate NoWildcards(p: string)
  {
    forall i :: 0 <= i < |p| ==> p[i] != '%' && p[i] != '_'
  }

  /** `s ILIKE pattern`. A pattern without wildcards matches exactly the strings
      equal to it up to case. */
  predicate ILike(s: string, pattern: string)
    ensures NoWildcards(pattern) ==> (ILike(s, pattern) <==> SameIgnoringCase(s, pattern))
    decreases |pattern|, |s|
  {
    if pattern == [] then s == []
    else if pattern[0] == '%' then ILike(s, pattern[1..]) || (s != [] && ILike(s[1..], pattern))
    else s != [] && (pattern[0] == '_' || Lower(s[0]) == Lower(pattern[0])) && ILike(s[1..], pattern[1..])
  }

  /** A lone `%` matches every string. */
  lemma {:induction false} PercentMatchesAll(s: string)
    ensures ILike(s, "%")
    decreases |s|
  {
    if s == [] {
      assert "%"[1..] == [];
    } else {
      PercentMatchesAll(s[1..]);
    }
  }

  /** A leading `%` skips some prefix of the string. */
  lemma {:induction false} LeadingPercent(s: string, q: string)
    ensures ILike(s, "%" + q) <==> exists k :: 0 <= k <= |s| && ILike(s[k..], q)
    decreases |s|
  {
    assert ("%" + q)[0] == '%' && ("%" + q)[1..] == q;
    if s == [] {
      assert s[0..] == s;
    } else {
      LeadingPercent(s[1..], q);
      if ILike(s, "%" + q) {
        if !ILike(s, q) {
          var k :| 0 <= k <= |s[1..]| && ILike(s[1..][k..], q);
          assert s[1..][k..] == s[k + 1..];
        } else {
          assert s[0..] == s;
        }
      }
      if exists k :: 0 <= k <= |s| && ILike(s[k..], q) {
        var k :| 0 <= k <= |s| && ILike(s[k..], q);
        if k == 0 {
          assert s[0..] == s;
        } else {
          assert s[1..][k - 1..] == s[k..];
        }
      }
    }
  }

  /** A wildcard-free prefix of the pattern matches the same number of characters
      of the string, up to case. */
  lemma {:induction false} LiteralPrefix(s: string, p: string, rest: string)
    requires NoWildcards(p)
    ensures ILike(s, p + rest) <==>
      |p| <= |s| && SameIgnoringCase(s[..|p|], p) && ILike(s[|p|..], rest)
    decreases |p|
  {
    if p == [] {
      assert p + rest == rest && s[..0] == [] && s[0..] == s;
    } else {
      assert (p + rest)[0] == p[0] && (p + rest)[1..] == p[1..] + rest;
      if s == [] {
      } else {
        LiteralPrefix(s[1..], p[1..], rest);
        if |p| <= |s| {
          assert s[1..][|p| - 1..] == s[|p|..];
          assert s[1..][..|p| - 1] == s[..|p|][1..];
          assert SameIgnoringCase(s[..|p|], p) <==>
                 Lower(s[0]) == Lower(p[0]) && SameIgnoringCase(s[..|p|][1..], p[1..]) by {
            if Lower(s[0]) == Lower(p[0]) && SameIgnoringCase(s[..|p|][1..], p[1..]) {
              forall i | 0 <= i < |p| ensures Lower(s[..|p|][i]) == Lower(p[i]) {
                if i > 0 { assert s[..|p|][i] == s[..|p|][1..][i - 1]; }
              }
            }
          }
        }
      }
    }
  }

  /** The provider search `ILIKE '%provider%'`, for a provider without wildcards,
      is a case-insensitive substring test. */
  lemma SubstringPattern(s: string, provider: string)
    requires NoWildcards(provider)
    ensures ILike(s, "%" + provider + "%") <==> ContainsIgnoringCase(s, provider)
  {
    assert "%" + provider + "%" == "%" + (provider + "%");
    LeadingPercent(s, provider + "%");
    if ILike(s, "%" + provider + "%") {
      var k :| 0 <= k <= |s| && ILike(s[k..], provider + "%");
      LiteralPrefix(s[k..], provider, "%");
      assert s[k..][..|provider|] == s[k..k + |provider|];
      assert OccursAt(s, provider, k);
    }
    if ContainsIgnoringCase(s, provider) {
      var k :| 0 <= k <= |s| && OccursAt(s, provider, k);
      assert k + |provider| <= |s|;
      assert s[k..][..|provider|] == s[k..k + |provider|];
      PercentMatchesAll(s[k..][|provider|..]);
      LiteralPrefix(s[k..], provider, "%");
    }
  }

  /** The empty provider matches every row. */
  lemma EmptyProviderMatchesAll(s: string)
    ensures ILike(s, "%" + "" + "%")
  {
    assert "%" + "" + "%" == "%%";
    assert "%%"[1..] == "%";
    PercentMatchesAll(s);
  }

  /** The search ignores the case of the provider it is given. */
  lemma {:induction false} CaseOfPatternIrrelevant(s: string, pattern: string, other: string)
    requires SameIgnoringCase(pattern, other)
    ensures ILike(s, pattern) <==> ILike(s, other)
    decreases |pattern|, |s|
  {
    if pattern != [] {
      assert other != [];
      assert Lower(pattern[0]) == Lower(other[0]);
      assert SameIgnoringCase(pattern[1..], other[1..]) by {
        forall i | 0 <= i < |pattern[1..]| ensures Lower(pattern[1..][i]) == Lower(other[1..][i]) {
          assert pattern[1..][i] == pattern[i + 1] && other[1..][i] == other[i + 1];
        }
      }
      LowerFixesWildcards(pattern[0], other[0]);
      CaseOfPatternIrrelevant(s, pattern[1..], other[1..]);
      if s != [] {
        CaseOfPatternIrrelevant(s[1..], pattern, other);
        CaseOfPatternIrrelevant(s[1..], pattern[1..], other[1..]);
      }
    } else {
      assert other == [];
    }
  }

  /** Only `%` and `_` themselves fold to `%` and `_`. */
  lemma LowerFixesWildcards(a: char, b: char)
    requires Lower(a) == Lower(b)
    ensures a == '%' <==> b == '%'
    ensures a == '_' <==> b == '_'
  {
  }
}
