/**
 * An assumed meaning of the SQL LIKE operator the store applies to the
 * patterns the compiler emits: case-sensitive, with no escape character;
 * `%` matches any run of characters, `_` any one character, every other
 * character itself. This is a reference definition used to show
 * that the patterns made by StartsWith, EndsWith and Contains select the
 * texts with that prefix, suffix or substring.
 */
module Like {

  predicate Like(pattern: string, text: string)
    decreases |pattern| + |text|
  {
    if pattern == [] then text == []
    else if pattern[0] == '%' then Like(pattern[1..], text) || (text != [] && Like(pattern, text[1..]))
    else if pattern[0] == '_' then text != [] && Like(pattern[1..], text[1..])
    else text != [] && text[0] == pattern[0] && Like(pattern[1..], text[1..])
  }

  /** A literal search string: no wildcard and no quote (the compiler does not escape). */
  predicate Plain(s: string) {
    forall i :: 0 <= i < |s| ==> s[i] != '%' && s[i] != '_' && s[i] != '\''
  }

  predicate IsSuffix(s: string, t: string) {
    |s| <= |t| && t[|t| - |s|..] == s
  }

  predicate IsSubstring(s: string, t: string) {
    exists k :: 0 <= k <= |t| && s <= t[k..]
  }

  /** Without wildcards a pattern matches only itself. */
  lemma {:induction false} PlainMatchesItself(s: string, t: string)
    requires Plain(s)
    ensures Like(s, t) <==> s == t
    decreases |s|
  {
    if s != [] && t != [] {
      assert Plain(s[1..]) by {
        forall i | 0 <= i < |s[1..]| ensures s[1..][i] != '%' && s[1..][i] != '_' && s[1..][i] != '\'' {
          assert s[1..][i] == s[i + 1];
        }
      }
      PlainMatchesItself(s[1..], t[1..]);
      if s[0] == t[0] && s[1..] == t[1..] {
        assert s == [s[0]] + s[1..] && t == [t[0]] + t[1..];
      }
    } else if s != [] {
      assert s[0] != '%' && s[0] != '_';
    }
  }

  /** A lone `%` matches everything. */
  lemma {:induction false} PercentMatchesAll(t: string)
    ensures Like("%", t)
    decreases |t|
  {
    assert "%"[1..] == [];
    if t != [] {
      PercentMatchesAll(t[1..]);
    }
  }

  /** A leading `%` matches when the rest of the pattern matches some suffix of the text. */
  lemma {:induction false} LeadingPercent(q: string, t: string)
    ensures Like("%" + q, t) <==> exists k :: 0 <= k <= |t| && Like(q, t[k..])
    decreases |t|
  {
    var p := "%" + q;
    assert p[0] == '%' && p[1..] == q;
    assert t[0..] == t;
    if t != [] {
      LeadingPercent(q, t[1..]);
      if exists k :: 0 <= k <= |t[1..]| && Like(q, t[1..][k..]) {
        var k :| 0 <= k <= |t[1..]| && Like(q, t[1..][k..]);
        assert t[1..][k..] == t[k + 1..];
      }
      if exists k :: 0 <= k <= |t| && Like(q, t[k..]) {
        var k :| 0 <= k <= |t| && Like(q, t[k..]);
        if k > 0 {
          assert t[1..][k - 1..] == t[k..];
        }
      }
    }
  }

  /** `s%` matches exactly the texts that start with `s`. */
  lemma {:induction false} PrefixPattern(s: string, t: string)
    requires Plain(s)
    ensures Like(s + "%", t) <==> s <= t
    decreases |s|
  {
    if s == [] {
      assert s + "%" == "%";
      PercentMatchesAll(t);
    } else {
      var p := s + "%";
      assert p[0] == s[0] && p[1..] == s[1..] + "%";
      assert s[0] != '%' && s[0] != '_';
      assert Plain(s[1..]) by {
        forall i | 0 <= i < |s[1..]| ensures s[1..][i] != '%' && s[1..][i] != '_' && s[1..][i] != '\'' {
          assert s[1..][i] == s[i + 1];
        }
      }
      if t != [] {
        PrefixPattern(s[1..], t[1..]);
        if s[0] == t[0] && s[1..] <= t[1..] {
          assert s == [s[0]] + s[1..] && t == [t[0]] + t[1..];
        }
        if s <= t {
          assert s[1..] <= t[1..];
        }
      }
    }
  }

  /** `%s` matches exactly the texts that end with `s`. */
  lemma SuffixPattern(s: string, t: string)
    requires Plain(s)
    ensures Like("%" + s, t) <==> IsSuffix(s, t)
  {
    LeadingPercent(s, t);
    if IsSuffix(s, t) {
      var k := |t| - |s|;
      PlainMatchesItself(s, t[k..]);
    }
    if exists k :: 0 <= k <= |t| && Like(s, t[k..]) {
      var k :| 0 <= k <= |t| && Like(s, t[k..]);
      PlainMatchesItself(s, t[k..]);
    }
  }

  /** `%s%` matches exactly the texts that contain `s`. */
  lemma SubstringPattern(s: string, t: string)
    requires Plain(s)
    ensures Like("%" + s + "%", t) <==> IsSubstring(s, t)
  {
    assert "%" + s + "%" == "%" + (s + "%");
    LeadingPercent(s + "%", t);
    if IsSubstring(s, t) {
      var k :| 0 <= k <= |t| && s <= t[k..];
      PrefixPattern(s, t[k..]);
    }
    if exists k :: 0 <= k <= |t| && Like(s + "%", t[k..]) {
      var k :| 0 <= k <= |t| && Like(s + "%", t[k..]);
      PrefixPattern(s, t[k..]);
    }
  }
}
