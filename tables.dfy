/**
 * Generic operations on a table held as a sequence of rows: the WHERE
 * filter that SELECT and DELETE apply, the reverse scan that ORDER BY ... DESC
 * performs on an integer primary key, and "ids strictly ascending", which is
 * how SQLite stores a rowid table.
 */
module Tables {

  /** Rows of s that satisfy keep, in their original order. */
  function Filter<T(!new)>(s: seq<T>, keep: T -> bool): (r: seq<T>)
    ensures |r| <= |s|
    ensures forall x :: x in r <==> x in s && keep(x)
  {
    if |s| == 0 then [] else (if keep(s[0]) then [s[0]] else []) + Filter(s[1..], keep)
  }

  /** s read back to front. */
  function Reverse<T(!new)>(s: seq<T>): (r: seq<T>)
    ensures |r| == |s|
    ensures forall i :: 0 <= i < |s| ==> r[i] == s[|s| - 1 - i]
    ensures forall x :: x in r <==> x in s
  {
    if |s| == 0 then [] else Reverse(s[1..]) + [s[0]]
  }

  /** The keys of s strictly increase from front to back. */
  predicate Ascending<T(!new)>(s: seq<T>, key: T -> int) {
    forall i, j :: 0 <= i < j < |s| ==> key(s[i]) < key(s[j])
  }

  /** rel holds of every pair of rows of s taken front to back. */
  predicate Ordered<T>(s: seq<T>, rel: (T, T) -> bool) {
    forall i, j :: 0 <= i < j < |s| ==> rel(s[i], s[j])
  }

  /**
   * Filtering keeps the relative order of the rows it keeps: any relation
   * that holds of every front-to-back pair still does afterwards.
   */
  lemma {:induction false} FilterOrdered<T(!new)>(s: seq<T>, keep: T -> bool, rel: (T, T) -> bool)
    requires Ordered(s, rel)
    ensures Ordered(Filter(s, keep), rel)
  {
    if |s| > 0 {
      var tail := Filter(s[1..], keep);
      assert Ordered(s[1..], rel) by {
        forall i, j | 0 <= i < j < |s| - 1 ensures rel(s[1..][i], s[1..][j]) {
          assert s[1..][i] == s[i + 1] && s[1..][j] == s[j + 1];
        }
      }
      FilterOrdered(s[1..], keep, rel);
      forall y | y in tail ensures rel(s[0], y) {
        var k :| 0 <= k < |s| - 1 && s[1..][k] == y;
        assert s[k + 1] == y;
      }
      var r := Filter(s, keep);
      if keep(s[0]) {
        assert r == [s[0]] + tail;
        forall i, j | 0 <= i < j < |r| ensures rel(r[i], r[j]) {
          assert r[j] == tail[j - 1] && tail[j - 1] in tail;
          if i > 0 {
            assert r[i] == tail[i - 1];
          }
        }
      } else {
        assert r == tail;
      }
    }
  }

  /** Filtering keeps the keys ascending. */
  lemma FilterAscending<T(!new)>(s: seq<T>, keep: T -> bool, key: T -> int)
    requires Ascending(s, key)
    ensures Ascending(Filter(s, keep), key)
  {
    var below := (a: T, b: T) => key(a) < key(b);
    assert Ordered(s, below);
    FilterOrdered(s, keep, below);
  }

  /**
   * The filtered rows sit at strictly increasing positions of s: filtering
   * picks a subsequence and never reorders.
   */
  lemma {:induction false} FilterEmbeds<T(!new)>(s: seq<T>, keep: T -> bool) returns (idx: seq<int>)
    ensures |idx| == |Filter(s, keep)|
    ensures forall k :: 0 <= k < |idx| ==> 0 <= idx[k] < |s| && Filter(s, keep)[k] == s[idx[k]]
    ensures forall j, k :: 0 <= j < k < |idx| ==> idx[j] < idx[k]
  {
    if |s| == 0 {
      idx := [];
    } else {
      var t := FilterEmbeds(s[1..], keep);
      var tail := Filter(s[1..], keep);
      if keep(s[0]) {
        idx := EmbedsAfterHead(s, [s[0]], tail, t);
        assert Filter(s, keep) == [s[0]] + tail;
      } else {
        idx := EmbedsAfterHead(s, [], tail, t);
        assert Filter(s, keep) == tail;
      }
    }
  }

  /**
   * If tail sits at increasing indices t of s[1..], then head + tail sits at
   * increasing indices of s, where head is empty or s's first element.
   */
  lemma EmbedsAfterHead<T>(s: seq<T>, head: seq<T>, tail: seq<T>, t: seq<int>) returns (idx: seq<int>)
    requires |s| > 0 && (head == [] || head == [s[0]])
    requires |t| == |tail|
    requires forall k :: 0 <= k < |t| ==> 0 <= t[k] < |s| - 1 && tail[k] == s[1..][t[k]]
    requires forall j, k :: 0 <= j < k < |t| ==> t[j] < t[k]
    ensures |idx| == |head + tail|
    ensures forall k :: 0 <= k < |idx| ==> 0 <= idx[k] < |s| && (head + tail)[k] == s[idx[k]]
    ensures forall j, k :: 0 <= j < k < |idx| ==> idx[j] < idx[k]
  {
    var shifted := seq(|t|, k requires 0 <= k < |t| => t[k] + 1);
    idx := if head == [] then shifted else [0] + shifted;
    var h := |head|;
    forall k | 0 <= k < |idx| ensures 0 <= idx[k] < |s| && (head + tail)[k] == s[idx[k]] {
      if k >= h {
        assert idx[k] == t[k - h] + 1 && (head + tail)[k] == tail[k - h];
      }
    }
  }

  /** Filtering s + [x] filters s and then decides x alone. */
  lemma {:induction false} FilterSnoc<T(!new)>(s: seq<T>, x: T, keep: T -> bool)
    ensures Filter(s + [x], keep) == Filter(s, keep) + (if keep(x) then [x] else [])
  {
    if |s| == 0 {
      assert s + [x] == [x];
      assert [x][1..] == [];
    } else {
      assert (s + [x])[0] == s[0];
      assert (s + [x])[1..] == s[1..] + [x];
      FilterSnoc(s[1..], x, keep);
    }
  }

  /** A filter that every row passes changes nothing. */
  lemma {:induction false} FilterKeepsAll<T(!new)>(s: seq<T>, keep: T -> bool)
    requires forall x :: x in s ==> keep(x)
    ensures Filter(s, keep) == s
  {
    if |s| > 0 {
      assert s[0] in s;
      assert forall x :: x in s[1..] ==> x in s;
      FilterKeepsAll(s[1..], keep);
      assert [s[0]] + s[1..] == s;
    }
  }

  /** Appending a row whose key exceeds every key keeps the keys ascending. */
  lemma AppendAscending<T(!new)>(s: seq<T>, x: T, key: T -> int)
    requires Ascending(s, key)
    requires forall y :: y in s ==> key(y) < key(x)
    ensures Ascending(s + [x], key)
  {
    var t := s + [x];
    forall i, j | 0 <= i < j < |t| ensures key(t[i]) < key(t[j]) {
      if j == |s| {
        assert t[i] == s[i] && s[i] in s;
      } else {
        assert t[i] == s[i] && t[j] == s[j];
      }
    }
  }
}
