/**
 * SQLite's built-in LIKE operator, as the post search uses it
 * (index.html/app.py:108-110): the pattern is `%` + search + `%`, with no
 * ESCAPE clause, so `%` and `_` inside the search text stay wildcards.
 * Case is folded for ASCII letters only.
 */
module SqlLike {

  /** ASCII-only case folding: 'A'..'Z' become 'a'..'z', every other character is kept. */
  function Fold(c: char): char {
    if 'A' <= c <= 'Z' then (c as int + 32) as char else c
  }

  /**
   * pattern LIKE-matches text: `%` matches any run of characters (possibly
   * empty), `_` matches exactly one character, any other character matches
   * itself up to ASCII case.
   */
  predicate Like(pattern: string, text: string)
    decreases |pattern| + |text|
  {
    if |pattern| == 0 then |text| == 0
    else if pattern[0] == '%' then Like(pattern[1..], text) || (|text| > 0 && Like(pattern, text[1..]))
    else |text| > 0 && (pattern[0] == '_' || Fold(pattern[0]) == Fold(text[0])) && Like(pattern[1..], text[1..])
  }

  /** The LIKE pattern the search box builds. */
  function SearchPattern(search: string): string {
    "%" + search + "%"
  }

  /** s contains neither LIKE wildcard. */
  predicate NoWildcards(s: string) {
    forall k :: 0 <= k < |s| ==> s[k] != '%' && s[k] != '_'
  }

  /** s occurs in t at offset i when both are case-folded. */
  predicate FoldedAt(s: string, t: string, i: int) {
    0 <= i && i + |s| <= |t| && forall k :: 0 <= k < |s| ==> Fold(s[k]) == Fold(t[i + k])
  }

  /** t contains s as a substring, ignoring ASCII case. */
  predicate ContainsFolded(t: string, s: string) {
    exists i :: 0 <= i <= |t| && FoldedAt(s, t, i)
  }

  /** A lone `%` matches every text. */
  lemma {:induction false} PercentMatchesAll(t: string)
    ensures Like("%", t)
  {
    assert "%"[1..] == "";
    if |t| > 0 {
      PercentMatchesAll(t[1..]);
    }
  }

  /** A wildcard-free s followed by `%` matches exactly the texts that start with s, up to case. */
  lemma {:induction false} PrefixThenPercent(s: string, t: string)
    requires NoWildcards(s)
    ensures Like(s + "%", t) <==> FoldedAt(s, t, 0)
  {
    if |s| == 0 {
      assert s + "%" == "%";
      PercentMatchesAll(t);
    } else {
      var p := s + "%";
      assert p[0] == s[0] && p[1..] == s[1..] + "%";
      assert NoWildcards(s[1..]) by {
        forall k | 0 <= k < |s| - 1 ensures s[1..][k] != '%' && s[1..][k] != '_' {
          assert s[1..][k] == s[k + 1];
        }
      }
      if |t| > 0 {
        PrefixThenPercent(s[1..], t[1..]);
        if FoldedAt(s, t, 0) {
          assert FoldedAt(s[1..], t[1..], 0) by {
            forall k | 0 <= k < |s| - 1 ensures Fold(s[1..][k]) == Fold(t[1..][k]) {
              assert s[1..][k] == s[k + 1] && t[1..][k] == t[k + 1];
            }
          }
        }
        if Fold(s[0]) == Fold(t[0]) && FoldedAt(s[1..], t[1..], 0) {
          forall k | 0 <= k < |s| ensures Fold(s[k]) == Fold(t[k]) {
            if k > 0 {
              assert s[1..][k - 1] == s[k] && t[1..][k - 1] == t[k];
            }
          }
        }
      }
    }
  }

  /** A leading `%` lets the rest of the pattern match any suffix of the text. */
  lemma {:induction false} LeadingPercent(q: string, t: string)
    ensures Like("%" + q, t) <==> exists i :: 0 <= i <= |t| && Like(q, t[i..])
    decreases |t|
  {
    var p := "%" + q;
    assert p[0] == '%' && p[1..] == q;
    assert t[0..] == t;
    if |t| > 0 {
      LeadingPercent(q, t[1..]);
      if Like(p, t[1..]) {
        var j :| 0 <= j <= |t| - 1 && Like(q, t[1..][j..]);
        assert t[1..][j..] == t[j + 1..];
      }
      if exists i :: 0 <= i <= |t| && Like(q, t[i..]) {
        var i :| 0 <= i <= |t| && Like(q, t[i..]);
        if i > 0 {
          assert t[1..][i - 1..] == t[i..];
        }
      }
    }
  }

  /**
   * For a search text without wildcards, the search pattern matches exactly
   * the texts that contain the search text, ignoring ASCII case.
   */
  lemma {:induction false} SearchIsFoldedSubstring(s: string, t: string)
    requires NoWildcards(s)
    ensures Like(SearchPattern(s), t) <==> ContainsFolded(t, s)
  {
    assert SearchPattern(s) == "%" + (s + "%");
    LeadingPercent(s + "%", t);
    if Like(SearchPattern(s), t) {
      var i :| 0 <= i <= |t| && Like(s + "%", t[i..]);
      PrefixThenPercent(s, t[i..]);
      forall k | 0 <= k < |s| ensures Fold(s[k]) == Fold(t[i + k]) {
        assert t[i..][k] == t[i + k];
      }
      assert FoldedAt(s, t, i);
    }
    if ContainsFolded(t, s) {
      var i :| 0 <= i <= |t| && FoldedAt(s, t, i);
      assert FoldedAt(s, t[i..], 0) by {
        forall k | 0 <= k < |s| ensures Fold(s[k]) == Fold(t[i..][k]) {
          assert t[i..][k] == t[i + k];
        }
      }
      PrefixThenPercent(s, t[i..]);
    }
  }

  /** `_` is a wildcard too: the search "a_c" finds "ABC", which does not contain "a_c". */
  lemma UnderscoreIsWildcard()
    ensures Like(SearchPattern("a_c"), "ABC")
    ensures !ContainsFolded("ABC", "a_c")
  {
    var p := SearchPattern("a_c");
    assert p == "%a_c%";
    assert p[1..] == "a_c%" && p[2..] == "_c%" && p[3..] == "c%" && p[4..] == "%" && p[5..] == "";
    assert "ABC"[1..] == "BC" && "BC"[1..] == "C" && "C"[1..] == "";
    assert Like("%", "");
    assert Like("c%", "C");
    assert Like("_c%", "BC");
    assert Like("a_c%", "ABC");
  }
}
