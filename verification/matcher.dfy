/** Artifact name patterns. The configured pattern is turned into a regular
    expression by escaping `.` and replacing `*` with `.*`, and the artifact
    name must match it as a whole. */
module Matcher {
  import opened JavaText

  /** The characters a regular-expression `.` does not match in Java unless
      the DOTALL flag is set. */
  predicate IsLineTerminator(c: char)
  {
    c == '\n' || c == '\r' || c == '\U{0085}' || c == '\U{2028}' || c == '\U{2029}'
  }

  predicate NoLineTerminator(s: string)
  {
    forall i :: 0 <= i < |s| ==> !IsLineTerminator(s[i])
  }

  /** `matchesPattern(name, pattern)`: `*` stands for any run of characters
      other than line terminators, every other character (the dot included)
      for itself, and the match covers the whole name, case-sensitively. */
  function MatchesPattern(name: string, pattern: string): bool
    decreases |pattern|, |name|
  {
    if pattern == [] then name == []
    else if pattern[0] == '*' then
      || MatchesPattern(name, pattern[1..])
      || (name != [] && !IsLineTerminator(name[0]) && MatchesPattern(name[1..], pattern))
    else name != [] && name[0] == pattern[0] && MatchesPattern(name[1..], pattern[1..])
  }

  /** A leading `*` takes some run of the name free of line terminators,
      possibly empty, and the rest of the pattern must match what follows.
      With LiteralHead this accounts for every pattern, any number of stars
      included. */
  lemma {:induction false} StarSplit(name: string, rest: string)
    ensures MatchesPattern(name, "*" + rest)
        <==> exists k :: 0 <= k <= |name| && NoLineTerminator(name[..k]) && MatchesPattern(name[k..], rest)
    decreases |name|
  {
    var pattern := "*" + rest;
    assert pattern[0] == '*' && pattern[1..] == rest;
    assert name[..0] == [] && name[0..] == name;
    if name != [] {
      var tail := name[1..];
      StarSplit(tail, rest);
      if MatchesPattern(name, pattern) && !MatchesPattern(name, rest) {
        var k' :| 0 <= k' <= |tail| && NoLineTerminator(tail[..k']) && MatchesPattern(tail[k'..], rest);
        assert name[..k' + 1] == [name[0]] + tail[..k'] && name[k' + 1..] == tail[k'..];
      }
      if exists k :: 0 <= k <= |name| && NoLineTerminator(name[..k]) && MatchesPattern(name[k..], rest) {
        var k :| 0 <= k <= |name| && NoLineTerminator(name[..k]) && MatchesPattern(name[k..], rest);
        if k > 0 {
          assert name[..k][0] == name[0];
          assert tail[..k - 1] == name[..k][1..] && tail[k - 1..] == name[k..];
        }
      }
    }
  }

  /** A pattern without `*` matches exactly the identical name. */
  lemma {:induction false} LiteralPattern(name: string, pattern: string)
    requires '*' !in pattern
    ensures MatchesPattern(name, pattern) <==> name == pattern
    decreases |pattern|
  {
    if pattern != [] && name != [] {
      assert '*' !in pattern[1..];
      LiteralPattern(name[1..], pattern[1..]);
      if name[0] == pattern[0] && name[1..] == pattern[1..] {
        assert name == [name[0]] + name[1..] && pattern == [pattern[0]] + pattern[1..];
      }
    }
  }

  /** A literal head of the pattern must be the head of the name, and the rest
      of the pattern must match the rest of the name. */
  lemma {:induction false} LiteralHead(name: string, prefix: string, rest: string)
    requires '*' !in prefix
    ensures MatchesPattern(name, prefix + rest)
        <==> StartsWith(name, prefix) && MatchesPattern(name[|prefix|..], rest)
    decreases |prefix|
  {
    if prefix != [] {
      assert (prefix + rest)[1..] == prefix[1..] + rest;
      assert '*' !in prefix[1..];
      if name != [] {
        LiteralHead(name[1..], prefix[1..], rest);
        if |prefix| <= |name| {
          assert name[1..][|prefix| - 1..] == name[|prefix|..];
        }
        if StartsWith(name[1..], prefix[1..]) && name[0] == prefix[0] {
          assert name[..|prefix|] == [name[0]] + name[1..][..|prefix| - 1];
        }
      }
    } else {
      assert prefix + rest == rest;
    }
  }

  /** `*` followed by a literal suffix matches exactly the names that end
      with the suffix and have no line terminator before it. */
  lemma {:induction false} StarThenLiteral(name: string, suffix: string)
    requires '*' !in suffix
    ensures MatchesPattern(name, "*" + suffix)
        <==> EndsWith(name, suffix) && NoLineTerminator(name[..|name| - |suffix|])
    decreases |name|
  {
    var pattern := "*" + suffix;
    assert pattern[1..] == suffix;
    LiteralPattern(name, suffix);
    if name != [] {
      StarThenLiteral(name[1..], suffix);
      if EndsWith(name, suffix) && name != suffix {
        assert |name| > |suffix|;
        assert name[1..][|name| - 1 - |suffix|..] == name[|name| - |suffix|..];
        assert name[1..][..|name| - 1 - |suffix|] == name[1..|name| - |suffix|];
      }
      if EndsWith(name[1..], suffix) {
        assert name[1..][|name| - 1 - |suffix|..] == name[|name| - |suffix|..];
        assert name[..|name| - |suffix|] == [name[0]] + name[1..][..|name| - 1 - |suffix|];
      }
    }
  }

  /** The default pattern `*.jar` matches exactly the names ending in `.jar`
      (lower case) that contain no line terminator. */
  lemma DefaultPattern(name: string)
    ensures MatchesPattern(name, "*.jar") <==> EndsWith(name, ".jar") && NoLineTerminator(name)
  {
    StarThenLiteral(name, ".jar");
    assert "*.jar" == "*" + ".jar";
    if EndsWith(name, ".jar") {
      assert name == name[..|name| - 4] + ".jar";
      if NoLineTerminator(name[..|name| - 4]) {
        forall i | 0 <= i < |name|
          ensures !IsLineTerminator(name[i])
        {
          if i < |name| - 4 {
            assert name[i] == name[..|name| - 4][i];
          } else {
            assert name[i] == ".jar"[i - (|name| - 4)];
          }
        }
      }
    }
  }

  /** A pattern with one `*` between two literal parts matches exactly the
      names that start with the first part, end with the second after it, and
      have no line terminator in between. */
  lemma PrefixStarSuffix(name: string, prefix: string, suffix: string)
    requires '*' !in prefix && '*' !in suffix
    ensures MatchesPattern(name, prefix + ("*" + suffix))
        <==> && StartsWith(name, prefix)
             && EndsWith(name[|prefix|..], suffix)
             && NoLineTerminator(name[|prefix|..|name| - |suffix|])
  {
    LiteralHead(name, prefix, "*" + suffix);
    StarAfterPrefix(name, prefix, suffix);
    if StartsWith(name, prefix) {
      StarThenLiteral(name[|prefix|..], suffix);
    }
  }

  /** Past the literal head, the `*` part covers exactly the characters
      between the head and the suffix. */
  lemma StarAfterPrefix(name: string, prefix: string, suffix: string)
    requires '*' !in suffix
    ensures StartsWith(name, prefix) && EndsWith(name[|prefix|..], suffix) ==>
      (MatchesPattern(name[|prefix|..], "*" + suffix) <==> NoLineTerminator(name[|prefix|..|name| - |suffix|]))
  {
    if StartsWith(name, prefix) && EndsWith(name[|prefix|..], suffix) {
      var tail := name[|prefix|..];
      StarThenLiteral(tail, suffix);
      InnerSlice(name, |prefix|, |suffix|);
      assert tail[..|tail| - |suffix|] == name[|prefix|..|name| - |suffix|];
    }
  }

  /** The part of `s[from..]` before its last `drop` characters. */
  lemma InnerSlice(s: string, from: nat, drop: nat)
    requires from + drop <= |s|
    ensures s[from..][..|s[from..]| - drop] == s[from..|s| - drop]
  {
  }

  /** The match is anchored at both ends: `app-*.jar` matches `app-1.2.3.jar`
      but neither `other-app-1.2.3.jar.bak` nor the upper-case `app-1.JAR`. */
  lemma AnchoredExamples()
    ensures MatchesPattern("app-1.2.3.jar", "app-*.jar")
    ensures !MatchesPattern("other-app-1.2.3.jar.bak", "app-*.jar")
    ensures !MatchesPattern("app-1.JAR", "app-*.jar")
  {
    assert "app-*.jar" == "app-" + ("*" + ".jar");
    VersionedJarMatches();
    OtherPrefixFails();
    UpperCaseFails();
  }

  lemma VersionedJarMatches()
    ensures MatchesPattern("app-1.2.3.jar", "app-" + ("*" + ".jar"))
  {
    PrefixStarSuffix("app-1.2.3.jar", "app-", ".jar");
    assert "app-1.2.3.jar"[..4] == "app-";
    assert "app-1.2.3.jar"[4..] == "1.2.3.jar";
    assert "1.2.3.jar"[5..] == ".jar";
    assert "app-1.2.3.jar"[4..9] == "1.2.3";
  }

  lemma OtherPrefixFails()
    ensures !MatchesPattern("other-app-1.2.3.jar.bak", "app-" + ("*" + ".jar"))
  {
    PrefixStarSuffix("other-app-1.2.3.jar.bak", "app-", ".jar");
    assert "other-app-1.2.3.jar.bak"[0] != "app-"[0];
  }

  lemma UpperCaseFails()
    ensures !MatchesPattern("app-1.JAR", "app-" + ("*" + ".jar"))
  {
    PrefixStarSuffix("app-1.JAR", "app-", ".jar");
    assert "app-1.JAR"[4..] == "1.JAR";
    assert "1.JAR"[1..] != ".jar";
  }
}
