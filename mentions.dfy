/**
 * Mention extraction: re.findall(r"@([A-Za-z0-9_]+)", content) at
 * index.html/app.py:96. The character class is spelled out, so it is ASCII
 * only; there is no word-boundary test before the `@` and no check that the
 * mentioned user exists.
 */
module MentionScan {

  /** A character of the class [A-Za-z0-9_]. */
  predicate IsWordChar(c: char) {
    'A' <= c <= 'Z' || 'a' <= c <= 'z' || '0' <= c <= '9' || c == '_'
  }

  /** The length of the longest run of word characters at the start of s. */
  function RunLength(s: string): (n: nat)
    ensures n <= |s|
    ensures forall k :: 0 <= k < n ==> IsWordChar(s[k])
    ensures n == |s| || !IsWordChar(s[n])
  {
    if |s| > 0 && IsWordChar(s[0]) then 1 + RunLength(s[1..]) else 0
  }

  /**
   * The matches of the regular expression, left to right: at an `@`
   * followed by a word character the greedy group takes the whole run and
   * scanning resumes after it; anywhere else scanning moves on by one.
   * Each match uses up its `@` and at least one character, so a text holds
   * at most half its length in mentions.
   */
  function Mentions(s: string): (r: seq<string>)
    ensures 2 * |r| <= |s|
    decreases |s|
  {
    if |s| < 2 then []
    else if s[0] == '@' && IsWordChar(s[1]) then
      var n := RunLength(s[1..]);
      [s[1..1 + n]] + Mentions(s[1 + n..])
    else Mentions(s[1..])
  }

  /** m is the maximal run of word characters right after the `@` at index i of s. */
  predicate MentionAt(s: string, i: int, m: string) {
    && 0 <= i && i + 1 + |m| <= |s|
    && s[i] == '@'
    && |m| > 0
    && m == s[i + 1..i + 1 + |m|]
    && (forall k :: 0 <= k < |m| ==> IsWordChar(m[k]))
    && (i + 1 + |m| == |s| || !IsWordChar(s[i + 1 + |m|]))
  }

  /** Dropping d characters from the front shifts every mention position by d. */
  lemma MentionShift(s: string, d: nat, j: int, m: string)
    requires d <= |s| && 0 <= j
    ensures MentionAt(s[d..], j, m) <==> MentionAt(s, j + d, m)
  {
    if j + 1 + |m| <= |s| - d {
      assert s[d..][j] == s[j + d];
      assert s[d..][j + 1..j + 1 + |m|] == s[j + d + 1..j + d + 1 + |m|];
      if j + 1 + |m| < |s| - d {
        assert s[d..][j + 1 + |m|] == s[j + d + 1 + |m|];
      }
    }
  }

  /** No `@` lies inside the run that follows the first character. */
  lemma RunHasNoAt(s: string, i: int)
    requires |s| > 0 && 1 <= i <= RunLength(s[1..])
    ensures s[i] != '@'
  {
    assert s[1..][i - 1] == s[i];
  }

  /** Only one word run can follow a given `@`: its length is the run length. */
  lemma MentionAtIsRun(s: string, i: int, m: string)
    requires MentionAt(s, i, m)
    ensures |m| == RunLength(s[i + 1..])
  {
    var r := s[i + 1..];
    var n := RunLength(r);
    forall k | 0 <= k < |m| ensures IsWordChar(r[k]) {
      assert r[k] == m[k];
    }
  }

  /** Every extracted string is the maximal word run after some `@` of the text. */
  lemma {:induction false} MentionsSound(s: string, m: string)
    requires m in Mentions(s)
    ensures exists i :: MentionAt(s, i, m)
    decreases |s|
  {
    if s[0] == '@' && IsWordChar(s[1]) {
      var n := RunLength(s[1..]);
      var head := s[1..1 + n];
      var rest := s[1 + n..];
      assert n >= 1 by { assert s[1..][0] == s[1]; }
      assert Mentions(s) == [head] + Mentions(rest);
      if m == head {
        forall k | 0 <= k < |head| ensures IsWordChar(head[k]) {
          assert head[k] == s[1..][k];
        }
        if 1 + n < |s| {
          assert s[1 + n] == s[1..][n];
        }
        assert MentionAt(s, 0, m);
      } else {
        MentionsSound(rest, m);
        var j :| MentionAt(rest, j, m);
        MentionShift(s, 1 + n, j, m);
      }
    } else {
      MentionsSound(s[1..], m);
      var j :| MentionAt(s[1..], j, m);
      MentionShift(s, 1, j, m);
    }
  }

  /**
   * No `@` followed by a word character is skipped: a match never contains
   * an `@`, so scanning resumes before the next one.
   */
  lemma {:induction false} MentionsComplete(s: string, i: int, m: string)
    requires MentionAt(s, i, m)
    ensures m in Mentions(s)
    decreases |s|
  {
    if s[0] == '@' && IsWordChar(s[1]) {
      var n := RunLength(s[1..]);
      if i == 0 {
        MentionAtIsRun(s, 0, m);
        assert m == s[1..1 + n];
      } else {
        MentionPastRun(s, i, m);
        MentionsComplete(s[1 + n..], i - 1 - n, m);
      }
    } else {
      MentionPastStart(s, i, m);
      MentionsComplete(s[1..], i - 1, m);
    }
  }

  /** A later mention starts after the run matched at the front. */
  lemma MentionPastRun(s: string, i: int, m: string)
    requires MentionAt(s, i, m) && i > 0
    requires s[0] == '@' && IsWordChar(s[1])
    ensures RunLength(s[1..]) < i && MentionAt(s[1 + RunLength(s[1..])..], i - 1 - RunLength(s[1..]), m)
  {
    var n := RunLength(s[1..]);
    if i <= n {
      RunHasNoAt(s, i);
      assert false;
    }
    MentionShift(s, 1 + n, i - 1 - n, m);
  }

  /** Where no match starts at the front, every mention lies in the rest. */
  lemma MentionPastStart(s: string, i: int, m: string)
    requires MentionAt(s, i, m)
    requires !(s[0] == '@' && IsWordChar(s[1]))
    ensures 0 < i && MentionAt(s[1..], i - 1, m)
  {
    if i == 0 {
      assert false;
    }
    MentionShift(s, 1, i - 1, m);
  }

  /**
   * A string is extracted exactly when it is the maximal word run after some
   * `@` of the text.
   */
  lemma MentionsExactly(s: string, m: string)
    ensures m in Mentions(s) <==> exists i :: MentionAt(s, i, m)
  {
    if m in Mentions(s) {
      MentionsSound(s, m);
    }
    if exists i :: MentionAt(s, i, m) {
      var i :| MentionAt(s, i, m);
      MentionsComplete(s, i, m);
    }
  }

  /** Every extracted mention is a non-empty run of word characters. */
  lemma {:induction false} MentionsAreWords(s: string)
    ensures forall m :: m in Mentions(s) ==> |m| > 0 && forall k :: 0 <= k < |m| ==> IsWordChar(m[k])
  {
    forall m | m in Mentions(s) ensures |m| > 0 && forall k :: 0 <= k < |m| ==> IsWordChar(m[k]) {
      MentionsExactly(s, m);
    }
  }
}
