/** SQLite's LIKE operator, which DeleteDirectory and TreeForACLTags use to test for a path prefix. */
module SqlLike {

  /** LIKE folds ASCII letters only. */
  function FoldAscii(c: char): char {
    if 'A' <= c <= 'Z' then (c as int + 32) as char else c
  }

  /** `s LIKE pattern`: '%' stands for any string, '_' for any one character. */
  predicate Like(s: string, pattern: string)
    decreases |pattern|, |s|
  {
    if pattern == "" then s == ""
    else if pattern[0] == '%' then Like(s, pattern[1..]) || (s != "" && Like(s[1..], pattern))
    else s != "" && (pattern[0] == '_' || FoldAscii(s[0]) == FoldAscii(pattern[0])) && Like(s[1..], pattern[1..])
  }

  lemma {:induction false} LikeAnything(s: string)
    ensures Like(s, "%")
  {
    assert "%"[1..] == "";
    if s != "" {
      LikeAnything(s[1..]);
    }
  }

  /** A literal prefix is always matched, even when the prefix itself contains '%' or '_'. */
  lemma {:induction false} LikePrefix(prefix: string, rest: string)
    ensures Like(prefix + rest, prefix + "%")
  {
    if prefix == "" {
      assert prefix + rest == rest && prefix + "%" == "%";
      LikeAnything(rest);
    } else {
      LikePrefix(prefix[1..], rest);
      var s, pattern := prefix + rest, prefix + "%";
      assert s[1..] == prefix[1..] + rest && pattern[1..] == prefix[1..] + "%";
      if prefix[0] == '%' {
        assert Like(s[1..], pattern[1..]);
        LikePercentAbsorbs(s[1..], pattern);
        assert Like(s[1..], pattern);
      }
    }
  }

  /** What the rest of a pattern matches, the pattern with a '%' in front matches too. */
  lemma LikePercentAbsorbs(s: string, pattern: string)
    requires pattern != "" && pattern[0] == '%' && Like(s, pattern[1..])
    ensures Like(s, pattern)
  {
  }

  /** The test for entries beneath a directory never misses one. */
  lemma LikeBeneath(path: string, dir: string)
    requires dir + "/" <= path
    ensures Like(path, dir + "/%")
  {
    LikePrefix(dir + "/", path[|dir| + 1..]);
    assert path == (dir + "/") + path[|dir| + 1..];
    assert dir + "/%" == (dir + "/") + "%";
  }

  /** It does match more: '_' in a directory's own name stands for any character. */
  lemma LikeOverMatches()
    ensures Like("/axb/c", "/a_b/%") && !("/a_b/" <= "/axb/c")
  {
    LikeAnything("c");
    assert "/axb/c"[1..] == "axb/c" && "/a_b/%"[1..] == "a_b/%";
    assert "axb/c"[1..] == "xb/c" && "a_b/%"[1..] == "_b/%";
    assert "xb/c"[1..] == "b/c" && "_b/%"[1..] == "b/%";
    assert "b/c"[1..] == "/c" && "b/%"[1..] == "/%";
    assert "/c"[1..] == "c" && "/%"[1..] == "%";
    assert Like("/c", "/%");
    assert Like("b/c", "b/%");
    assert Like("xb/c", "_b/%");
    assert Like("axb/c", "a_b/%");
    assert "/a_b/"[2] != "/axb/c"[2];
  }

  /** What '%' means: the rest of the pattern matches some suffix. */
  lemma {:induction false} LikePercent(s: string, rest: string)
    ensures Like(s, "%" + rest) <==> exists i :: 0 <= i <= |s| && Like(s[i..], rest)
    decreases |s|
  {
    var pattern := "%" + rest;
    assert pattern[0] == '%' && pattern[1..] == rest;
    if Like(s, rest) {
      assert s[0..] == s;
    }
    if s != "" {
      LikePercent(s[1..], rest);
      SuffixOfRest(s, rest);
    }
  }

  lemma SuffixOfRest(s: string, rest: string)
    requires s != ""
    ensures (exists i :: 0 <= i <= |s| && Like(s[i..], rest))
       <==> Like(s, rest) || exists i :: 0 <= i <= |s[1..]| && Like(s[1..][i..], rest)
  {
    var t := s[1..];
    forall i | 0 <= i <= |t|
      ensures t[i..] == s[i + 1..]
    {
    }
    assert s[0..] == s;
    if i :| 0 <= i <= |t| && Like(t[i..], rest) {
      assert Like(s[i + 1..], rest);
    }
    if i :| 0 <= i <= |s| && Like(s[i..], rest) {
      if i > 0 {
        assert Like(t[i - 1..], rest);
      }
    }
  }

  /** The character stands for itself, in either case, or '_' for any. */
  predicate CharMatches(c: char, p: char) {
    p == '_' || FoldAscii(c) == FoldAscii(p)
  }

  ghost predicate PrefixMatches(s: string, prefix: string) {
    |prefix| <= |s| && forall i :: 0 <= i < |prefix| ==> CharMatches(s[i], prefix[i])
  }

  /** Exactly what matches a prefix pattern when the prefix holds no '%': the strings that agree with it
      character by character, up to ASCII case and with '_' for any character. */
  lemma {:induction false} LikeExactly(s: string, prefix: string)
    requires '%' !in prefix
    ensures Like(s, prefix + "%") <==> PrefixMatches(s, prefix)
  {
    if prefix == "" {
      assert prefix + "%" == "%";
      LikeAnything(s);
    } else {
      var pattern := prefix + "%";
      assert pattern[0] == prefix[0] && pattern[1..] == prefix[1..] + "%";
      if s != "" {
        LikeExactly(s[1..], prefix[1..]);
        PrefixMatchesRest(s, prefix);
      }
    }
  }

  lemma PrefixMatchesRest(s: string, prefix: string)
    requires s != "" && prefix != ""
    ensures PrefixMatches(s, prefix) <==> CharMatches(s[0], prefix[0]) && PrefixMatches(s[1..], prefix[1..])
  {
    if CharMatches(s[0], prefix[0]) && PrefixMatches(s[1..], prefix[1..]) {
      forall i | 0 <= i < |prefix|
        ensures CharMatches(s[i], prefix[i])
      {
        if i > 0 {
          assert s[1..][i - 1] == s[i] && prefix[1..][i - 1] == prefix[i];
        }
      }
    }
    if PrefixMatches(s, prefix) {
      forall i | 0 <= i < |prefix[1..]|
        ensures CharMatches(s[1..][i], prefix[1..][i])
      {
        assert s[1..][i] == s[i + 1] && prefix[1..][i] == prefix[i + 1];
      }
    }
  }

  predicate Lower(c: char) {
    'a' <= c <= 'z'
  }

  /** Two characters fold alike when they are equal or the two cases of one ASCII letter. */
  lemma FoldsIff(c: char, d: char)
    ensures FoldAscii(c) == FoldAscii(d) <==>
              c == d || (Lower(c) && d as int == c as int - 32) || (Lower(d) && c as int == d as int - 32)
  {
  }

  /** A path in other case matches too. */
  lemma LikeIgnoresCase()
    ensures Like("/A/c", "/a/%") && !("/a/" <= "/A/c")
  {
    LikeExactly("/A/c", "/a/");
    assert "/a/" + "%" == "/a/%";
    assert "/a/"[1] != "/A/c"[1];
  }
}
