/**
 * The PHP string primitives the core relies on: strpos (FindFrom),
 * implode (Join), and the comma split that reads a directive's fields back
 * (Split), with the lemmas that relate them.
 */
module Strings {
  import opened Wrappers

  /** pat occurs in s starting at index k. */
  predicate MatchAt<T(==)>(s: seq<T>, pat: seq<T>, k: nat)
  {
    k + |pat| <= |s| && s[k..k + |pat|] == pat
  }

  /**
   * strpos(s, pat, from): the first index at or after from where pat occurs;
   * None where strpos returns false.
   */
  function FindFrom<T(==)>(s: seq<T>, pat: seq<T>, from: nat): (r: Option<nat>)
    ensures r.Some? ==> from <= r.value && MatchAt(s, pat, r.value)
    ensures r.Some? ==> forall k: nat :: from <= k < r.value ==> !MatchAt(s, pat, k)
    ensures r.None? ==> forall k: nat :: from <= k ==> !MatchAt(s, pat, k)
    decreases |s| - from
  {
    if |s| < from + |pat| then None
    else if MatchAt(s, pat, from) then Some(from)
    else FindFrom(s, pat, from + 1)
  }

  /** An occurrence with none before it (from `from` on) is the one strpos finds. */
  lemma FindFromFirst<T>(s: seq<T>, pat: seq<T>, from: nat, k: nat)
    requires from <= k && MatchAt(s, pat, k)
    requires forall j: nat :: from <= j < k ==> !MatchAt(s, pat, j)
    ensures FindFrom(s, pat, from) == Some(k)
  {
  }

  /** implode(sep, parts): the parts with sep between consecutive ones. */
  function Join<T>(parts: seq<seq<T>>, sep: seq<T>): seq<T>
  {
    if |parts| == 0 then []
    else if |parts| == 1 then parts[0]
    else parts[0] + sep + Join(parts[1..], sep)
  }

  /** A join starts with its first part and ends with its last one: no separator before or after. */
  lemma {:induction false} JoinEnds<T>(parts: seq<seq<T>>, sep: seq<T>)
    requires |parts| >= 1
    ensures |parts[0]| <= |Join(parts, sep)| && Join(parts, sep)[..|parts[0]|] == parts[0]
    ensures |parts[|parts| - 1]| <= |Join(parts, sep)|
    ensures Join(parts, sep)[|Join(parts, sep)| - |parts[|parts| - 1]|..] == parts[|parts| - 1]
  {
    if |parts| >= 2 {
      var rest := Join(parts[1..], sep);
      JoinEnds(parts[1..], sep);
      assert parts[1..][|parts[1..]| - 1] == parts[|parts| - 1];
      assert Join(parts, sep) == parts[0] + sep + rest;
      var last := parts[|parts| - 1];
      assert Join(parts, sep)[|Join(parts, sep)| - |last|..] == rest[|rest| - |last|..];
    }
  }

  /** Unfolds a join by its first part. */
  lemma JoinCons<T>(head: seq<T>, rest: seq<seq<T>>, sep: seq<T>)
    requires |rest| >= 1
    ensures Join([head] + rest, sep) == head + sep + Join(rest, sep)
  {
    assert ([head] + rest)[1..] == rest;
  }

  /** Unfolds a join by its last part. */
  lemma {:induction false} JoinSnoc<T>(parts: seq<seq<T>>, sep: seq<T>)
    requires |parts| >= 2
    ensures Join(parts, sep) == Join(parts[..|parts| - 1], sep) + sep + parts[|parts| - 1]
  {
    if |parts| > 2 {
      var tail := parts[1..];
      JoinSnoc(tail, sep);
      assert tail[..|tail| - 1] == parts[..|parts| - 1][1..];
      JoinCons(parts[0], parts[..|parts| - 1][1..], sep);
      assert [parts[0]] + parts[..|parts| - 1][1..] == parts[..|parts| - 1];
    } else {
      assert parts[1..] == [parts[1]];
      assert parts[..1] == [parts[0]];
    }
  }

  /** Each part followed by its own terminator. */
  function Terminated<T>(parts: seq<seq<T>>, sep: seq<T>): seq<T>
  {
    if |parts| == 0 then [] else parts[0] + sep + Terminated(parts[1..], sep)
  }

  /** A join is the terminated form without its last terminator. */
  lemma {:induction false} JoinThenSeparator<T>(parts: seq<seq<T>>, sep: seq<T>)
    requires |parts| >= 1
    ensures Join(parts, sep) + sep == Terminated(parts, sep)
  {
    if |parts| > 1 {
      JoinThenSeparator(parts[1..], sep);
      calc {
        Join(parts, sep) + sep;
        parts[0] + sep + (Join(parts[1..], sep) + sep);
        parts[0] + sep + Terminated(parts[1..], sep);
      }
    } else {
      assert parts[1..] == [];
    }
  }

  /** Number of elements of s equal to x. */
  function Count<T(==)>(s: seq<T>, x: T): nat
  {
    if |s| == 0 then 0 else (if s[0] == x then 1 else 0) + Count(s[1..], x)
  }

  lemma {:induction false} CountConcat<T>(a: seq<T>, b: seq<T>, x: T)
    ensures Count(a + b, x) == Count(a, x) + Count(b, x)
  {
    if |a| == 0 {
      assert a + b == b;
    } else {
      assert (a + b)[1..] == a[1..] + b;
      CountConcat(a[1..], b, x);
    }
  }

  lemma {:induction false} CountAbsent<T>(s: seq<T>, x: T)
    requires x !in s
    ensures Count(s, x) == 0
  {
    if |s| > 0 {
      assert s[0] != x;
      assert forall i :: 0 <= i < |s[1..]| ==> s[1..][i] == s[i + 1];
      CountAbsent(s[1..], x);
    }
  }

  /**
   * When no part contains x and the separator holds one x, every x in the
   * join marks a separator: n parts are joined by exactly n - 1 separators.
   */
  lemma {:induction false} JoinSeparatorCount<T>(parts: seq<seq<T>>, sep: seq<T>, x: T)
    requires |parts| >= 1
    requires forall i :: 0 <= i < |parts| ==> x !in parts[i]
    requires Count(sep, x) == 1
    ensures Count(Join(parts, sep), x) == |parts| - 1
  {
    CountAbsent(parts[0], x);
    if |parts| > 1 {
      JoinSeparatorCount(parts[1..], sep, x);
      CountConcat(parts[0] + sep, Join(parts[1..], sep), x);
      CountConcat(parts[0], sep, x);
    }
  }

  /** The pieces of s between occurrences of c (one more piece than there are c's). */
  function Split<T(==)>(s: seq<T>, c: T): (r: seq<seq<T>>)
    ensures |r| >= 1
    decreases |s|
  {
    if |s| == 0 then [[]]
    else
      var rest := Split(s[1..], c);
      if s[0] == c then [[]] + rest else [[s[0]] + rest[0]] + rest[1..]
  }

  /** A sequence without the separator is a single piece. */
  lemma {:induction false} SplitWithout<T>(s: seq<T>, c: T)
    requires c !in s
    ensures Split(s, c) == [s]
  {
    if |s| > 0 {
      assert c !in s[1..];
      SplitWithout(s[1..], c);
      assert [s[0]] + s[1..] == s;
    }
  }

  /** The first piece ends at the first separator. */
  lemma {:induction false} SplitAfterPiece<T>(p: seq<T>, t: seq<T>, c: T)
    requires c !in p
    ensures Split(p + [c] + t, c) == [p] + Split(t, c)
    decreases |p|
  {
    var s := p + [c] + t;
    if |p| == 0 {
      assert s == [c] + t;
      assert s[1..] == t;
    } else {
      assert s[1..] == p[1..] + [c] + t;
      assert c !in p[1..];
      SplitAfterPiece(p[1..], t, c);
      assert [p[0]] + p[1..] == p;
    }
  }

  /**
   * Splitting a join recovers every part but the last, followed by the
   * pieces of the last, when no part but the last holds the separator.
   */
  lemma {:induction false} SplitJoin<T>(parts: seq<seq<T>>, c: T)
    requires |parts| >= 1
    requires forall i :: 0 <= i < |parts| - 1 ==> c !in parts[i]
    ensures Split(Join(parts, [c]), c) == parts[..|parts| - 1] + Split(parts[|parts| - 1], c)
  {
    var n := |parts|;
    if n == 1 {
      assert parts[..0] == [];
    } else {
      var tail := parts[1..];
      forall i | 0 <= i < |tail| - 1 ensures c !in tail[i] {
        assert tail[i] == parts[i + 1];
      }
      var last := parts[n - 1];
      assert tail[|tail| - 1] == last;
      SplitJoin(tail, c);
      assert [parts[0]] + tail == parts;
      JoinCons(parts[0], tail, [c]);
      SplitAfterPiece(parts[0], Join(tail, [c]), c);
      calc {
        Split(Join(parts, [c]), c);
        Split(parts[0] + [c] + Join(tail, [c]), c);
        [parts[0]] + Split(Join(tail, [c]), c);
        [parts[0]] + (tail[..|tail| - 1] + Split(last, c));
        { assert [parts[0]] + tail[..|tail| - 1] == parts[..n - 1]; }
        parts[..n - 1] + Split(last, c);
      }
    }
  }

  /** When no part holds the separator, splitting the join gives back exactly the parts. */
  lemma {:induction false} SplitJoinExact<T>(parts: seq<seq<T>>, c: T)
    requires |parts| >= 1
    requires forall i :: 0 <= i < |parts| ==> c !in parts[i]
    ensures Split(Join(parts, [c]), c) == parts
  {
    if |parts| == 1 {
      SplitWithout(parts[0], c);
    } else {
      var tail := parts[1..];
      forall i | 0 <= i < |tail| ensures c !in tail[i] {
        assert tail[i] == parts[i + 1];
      }
      SplitJoinExact(tail, c);
      JoinCons(parts[0], tail, [c]);
      assert [parts[0]] + tail == parts;
      SplitAfterPiece(parts[0], Join(tail, [c]), c);
    }
  }

  /** Joining the pieces with the separator gives back the original. */
  lemma {:induction false} JoinSplit<T>(s: seq<T>, c: T)
    ensures Join(Split(s, c), [c]) == s
    decreases |s|
  {
    if |s| > 0 {
      var rest := Split(s[1..], c);
      JoinSplit(s[1..], c);
      if s[0] == c {
        assert Split(s, c) == [[]] + rest;
        assert ([[]] + rest)[1..] == rest;
        assert [c] + s[1..] == s;
      } else {
        var r := Split(s, c);
        assert r == [[s[0]] + rest[0]] + rest[1..];
        if |rest| == 1 {
          assert Join(rest, [c]) == rest[0];
          assert r == [[s[0]] + rest[0]];
          assert [s[0]] + s[1..] == s;
        } else {
          assert Join(rest, [c]) == rest[0] + [c] + Join(rest[1..], [c]);
          assert r[1..] == rest[1..];
          assert Join(r, [c]) == [s[0]] + rest[0] + [c] + Join(rest[1..], [c]);
          assert [s[0]] + s[1..] == s;
        }
      }
    }
  }
}
