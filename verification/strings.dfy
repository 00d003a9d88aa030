/** String operations the tool relies on: Python's substring test `pat in s`,
    Python's ordering of `str` values, sorting a set of strings, and
    `" ".join` together with the split that undoes it. */
module Strings {
  import opened Seqs

  /** `pat` occurs in `s` starting at position `i`. */
  predicate OccursAt(s: string, pat: string, i: int)
  {
    0 <= i && i + |pat| <= |s| && s[i..i + |pat|] == pat
  }

  lemma OccursAtShift(s: string, pat: string, i: int)
    requires |s| > 0 && i >= 0
    ensures OccursAt(s[1..], pat, i) <==> OccursAt(s, pat, i + 1)
  {
    if 0 <= i && i + |pat| <= |s| - 1 {
      assert s[1..][i..i + |pat|] == s[i + 1..i + 1 + |pat|];
    }
  }

  /** Python's `pat in s` on strings: true exactly when `pat` occurs somewhere in `s`. */
  function Contains(s: string, pat: string): (r: bool)
    ensures r <==> exists i :: OccursAt(s, pat, i)
    decreases |s|
  {
    if |s| < |pat| then
      false
    else if s[..|pat|] == pat then
      assert OccursAt(s, pat, 0);
      true
    else
      var r := Contains(s[1..], pat);
      assert r ==> exists i :: OccursAt(s, pat, i) by {
        if r {
          var i :| OccursAt(s[1..], pat, i);
          OccursAtShift(s, pat, i);
        }
      }
      assert (exists i :: OccursAt(s, pat, i)) ==> r by {
        if exists i :: OccursAt(s, pat, i) {
          var i :| OccursAt(s, pat, i);
          assert i != 0;
          OccursAtShift(s, pat, i - 1);
        }
      }
      r
  }

  /** Python's `a < b` on `str`: lexicographic by character, a proper prefix is smaller. */
  predicate Less(a: string, b: string)
  {
    if |a| == 0 then |b| > 0
    else |b| > 0 && (a[0] < b[0] || (a[0] == b[0] && Less(a[1..], b[1..])))
  }

  lemma {:induction false} LessIrreflexive(a: string)
    ensures !Less(a, a)
  {
    if |a| > 0 {
      LessIrreflexive(a[1..]);
    }
  }

  lemma {:induction false} LessTransitive(a: string, b: string, c: string)
    requires Less(a, b) && Less(b, c)
    ensures Less(a, c)
  {
    if |a| > 0 && a[0] == b[0] && b[0] == c[0] {
      LessTransitive(a[1..], b[1..], c[1..]);
    }
  }

  lemma {:induction false} LessTotal(a: string, b: string)
    requires a != b
    ensures Less(a, b) || Less(b, a)
  {
    if |a| > 0 && |b| > 0 && a[0] == b[0] {
      assert a == [a[0]] + a[1..];
      assert b == [b[0]] + b[1..];
      LessTotal(a[1..], b[1..]);
    }
  }

  /** `Less` is a strict total order on strings, so sorting by it is well defined. */
  lemma LessIsStrictTotalOrder()
    ensures forall a :: !Less(a, a)
    ensures forall a, b, c :: Less(a, b) && Less(b, c) ==> Less(a, c)
    ensures forall a, b :: a != b ==> Less(a, b) || Less(b, a)
  {
    forall a ensures !Less(a, a) {
      LessIrreflexive(a);
    }
    forall a, b, c | Less(a, b) && Less(b, c) ensures Less(a, c) {
      LessTransitive(a, b, c);
    }
    forall a, b | a != b ensures Less(a, b) || Less(b, a) {
      LessTotal(a, b);
    }
  }

  /** Each element is strictly smaller than every later one. */
  predicate StrictlySorted(xs: seq<string>)
  {
    forall i, j :: 0 <= i < j < |xs| ==> Less(xs[i], xs[j])
  }

  lemma SortedIsDistinct(xs: seq<string>)
    requires StrictlySorted(xs)
    ensures Distinct(xs)
  {
    forall i, j | 0 <= i < j < |xs| ensures xs[i] != xs[j] {
      if xs[i] == xs[j] {
        LessIrreflexive(xs[i]);
      }
    }
  }

  /** `m` is the smallest element of `s`. */
  predicate IsLeast(m: string, s: set<string>)
  {
    m in s && forall x :: x in s && x != m ==> Less(m, x)
  }

  lemma {:induction false} LeastExists(s: set<string>)
    requires s != {}
    ensures exists m :: IsLeast(m, s)
    decreases |s|
  {
    var x :| x in s;
    var rest := s - {x};
    if rest == {} {
      assert s == {x};
      assert IsLeast(x, s);
    } else {
      LeastExists(rest);
      var m :| IsLeast(m, rest);
      if Less(m, x) {
        assert IsLeast(m, s);
      } else {
        LessTotal(m, x);
        assert Less(x, m);
        forall y | y in s && y != x ensures Less(x, y) {
          if y != m {
            assert y in rest;
            LessTransitive(x, m, y);
          }
        }
        assert IsLeast(x, s);
      }
    }
  }

  lemma LeastUnique(m: string, n: string, s: set<string>)
    requires IsLeast(m, s) && IsLeast(n, s)
    ensures m == n
  {
    if m != n {
      LessTransitive(m, n, m);
      LessIrreflexive(m);
    }
  }

  /** There is exactly one least element of a non-empty set. */
  lemma LeastIsUnique(s: set<string>)
    requires s != {}
    ensures exists m :: IsLeast(m, s)
    ensures forall m, n :: IsLeast(m, s) && IsLeast(n, s) ==> m == n
  {
    LeastExists(s);
    forall m, n | IsLeast(m, s) && IsLeast(n, s) ensures m == n {
      LeastUnique(m, n, s);
    }
  }

  lemma SortedCons(m: string, rest: seq<string>, s: set<string>)
    requires IsLeast(m, s)
    requires StrictlySorted(rest) && forall x :: x in rest <==> x in s - {m}
    ensures StrictlySorted([m] + rest)
  {
    forall j | 0 <= j < |rest| ensures Less(m, rest[j]) {
      assert rest[j] in s - {m};
    }
  }

  /** Python's `sorted(s)` for a set of strings: its elements in ascending order. */
  function SortedSet(s: set<string>): (r: seq<string>)
    ensures |r| == |s|
    ensures forall x :: x in r <==> x in s
    ensures StrictlySorted(r)
    decreases |s|
  {
    if s == {} then
      []
    else
      LeastIsUnique(s);
      var m :| m in s && IsLeast(m, s);
      var rest := SortedSet(s - {m});
      SortedCons(m, rest, s);
      [m] + rest
  }

  lemma SortedHeadIsLeast(xs: seq<string>, s: set<string>)
    requires |xs| > 0 && StrictlySorted(xs)
    requires forall x :: x in xs <==> x in s
    ensures IsLeast(xs[0], s)
  {
    forall y | y in s && y != xs[0] ensures Less(xs[0], y) {
      var k :| 0 <= k < |xs| && xs[k] == y;
    }
  }

  lemma SortedTail(xs: seq<string>, s: set<string>)
    requires |xs| > 0 && StrictlySorted(xs)
    requires forall x :: x in xs <==> x in s
    ensures StrictlySorted(xs[1..])
    ensures forall x :: x in xs[1..] <==> x in s - {xs[0]}
  {
    var rest := xs[1..];
    forall x ensures x in rest <==> x in s - {xs[0]} {
      if x in rest {
        var k :| 0 <= k < |rest| && rest[k] == x;
        assert Less(xs[0], xs[k + 1]);
        LessIrreflexive(xs[0]);
      }
      if x in s - {xs[0]} {
        var k :| 0 <= k < |xs| && xs[k] == x;
        assert rest[k - 1] == x;
      }
    }
  }

  /** A strictly sorted sequence is determined by its elements: it is the sorted set. */
  lemma {:induction false} SortedSetUnique(xs: seq<string>, s: set<string>)
    requires StrictlySorted(xs)
    requires forall x :: x in xs <==> x in s
    ensures xs == SortedSet(s)
    decreases |xs|
  {
    var r := SortedSet(s);
    if xs == [] {
      assert forall x :: x !in s;
      assert s == {};
    } else {
      SortedHeadIsLeast(xs, s);
      SortedHeadIsLeast(r, s);
      LeastUnique(r[0], xs[0], s);
      SortedTail(xs, s);
      SortedTail(r, s);
      SortedSetUnique(xs[1..], s - {xs[0]});
      SortedSetUnique(r[1..], s - {xs[0]});
      assert xs == [xs[0]] + xs[1..];
      assert r == [r[0]] + r[1..];
    }
  }

  /** Python's `" ".join(xs)`. */
  function Join(xs: seq<string>): string
  {
    if |xs| == 0 then ""
    else if |xs| == 1 then xs[0]
    else xs[0] + " " + Join(xs[1..])
  }

  /** Python's `s.split(" ")`: the pieces between single spaces. */
  function Split(s: string): (r: seq<string>)
    ensures |r| > 0
  {
    if |s| == 0 then [""]
    else
      var rest := Split(s[1..]);
      if s[0] == ' ' then [""] + rest
      else [[s[0]] + rest[0]] + rest[1..]
  }

  /** `s` contains no space character. */
  predicate SpaceFree(s: string)
  {
    ' ' !in s
  }

  lemma {:induction false} SplitWord(w: string)
    requires SpaceFree(w)
    ensures Split(w) == [w]
  {
    if |w| > 0 {
      SplitWord(w[1..]);
      assert [w[0]] + w[1..] == w;
    }
  }

  lemma {:induction false} SplitWordThenSpace(w: string, tail: string)
    requires SpaceFree(w)
    ensures Split(w + " " + tail) == [w] + Split(tail)
  {
    var s := w + " " + tail;
    if |w| == 0 {
      assert s[0] == ' ' && s[1..] == tail;
    } else {
      assert s[1..] == w[1..] + " " + tail;
      SplitWordThenSpace(w[1..], tail);
      assert [w[0]] + w[1..] == w;
    }
  }

  /** Splitting on spaces undoes `" ".join` when no piece holds a space. */
  lemma {:induction false} SplitJoin(xs: seq<string>)
    requires |xs| > 0
    requires forall i :: 0 <= i < |xs| ==> SpaceFree(xs[i])
    ensures Split(Join(xs)) == xs
    decreases |xs|
  {
    if |xs| == 1 {
      SplitWord(xs[0]);
    } else {
      SplitWordThenSpace(xs[0], Join(xs[1..]));
      SplitJoin(xs[1..]);
      assert [xs[0]] + xs[1..] == xs;
    }
  }
}
