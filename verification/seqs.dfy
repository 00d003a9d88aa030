/** Small facts about sequences used by the commit-graph model: distinctness
    and the pigeonhole bound that goes with it. */
module Seqs {

  /** No element occurs twice in `xs`. */
  predicate Distinct<T(==)>(xs: seq<T>)
  {
    forall i, j :: 0 <= i < j < |xs| ==> xs[i] != xs[j]
  }

  /** A duplicate-free sequence drawn from `s` is no longer than `s` has elements. */
  lemma {:induction false} DistinctBounded<T>(xs: seq<T>, s: set<T>)
    requires Distinct(xs)
    requires forall x :: x in xs ==> x in s
    ensures |xs| <= |s|
    decreases |xs|
  {
    if xs != [] {
      var rest := xs[1..];
      assert Distinct(rest) by {
        forall i, j | 0 <= i < j < |rest| ensures rest[i] != rest[j] {
          assert rest[i] == xs[i + 1] && rest[j] == xs[j + 1];
        }
      }
      forall x | x in rest ensures x in s - {xs[0]} {
        var k :| 0 <= k < |rest| && rest[k] == x;
        assert xs[k + 1] == x;
      }
      DistinctBounded(rest, s - {xs[0]});
    }
  }

  /** A duplicate-free sequence listing exactly the elements of `s` has `|s|` entries. */
  lemma {:induction false} DistinctCard<T>(xs: seq<T>, s: set<T>)
    requires Distinct(xs)
    requires forall x :: x in xs <==> x in s
    ensures |xs| == |s|
    decreases |xs|
  {
    if xs == [] {
      assert forall x :: x !in s;
      assert s == {};
    } else {
      var rest := xs[1..];
      DistinctTail(xs);
      DistinctNotInSuffix(xs, 0);
      forall x ensures x in rest <==> x in s - {xs[0]} {
        if x in s - {xs[0]} {
          var k :| 0 <= k < |xs| && xs[k] == x;
          assert rest[k - 1] == x;
        }
      }
      DistinctCard(rest, s - {xs[0]});
    }
  }

  lemma DistinctTail<T>(xs: seq<T>)
    requires Distinct(xs) && xs != []
    ensures Distinct(xs[1..])
  {
    forall i, j | 0 <= i < j < |xs| - 1 ensures xs[1..][i] != xs[1..][j] {
      assert xs[1..][i] == xs[i + 1] && xs[1..][j] == xs[j + 1];
    }
  }

  /** In a duplicate-free sequence an element does not recur later. */
  lemma DistinctNotInSuffix<T>(xs: seq<T>, j: nat)
    requires Distinct(xs) && j < |xs|
    ensures xs[j] !in xs[j + 1..]
  {
    var rest := xs[j + 1..];
    assert forall i :: 0 <= i < |rest| ==> rest[i] == xs[j + 1 + i];
  }

  /** In a duplicate-free sequence an element does not occur earlier. */
  lemma DistinctNotInPrefix<T>(xs: seq<T>, j: nat)
    requires Distinct(xs) && j < |xs|
    ensures xs[j] !in xs[..j]
  {
    var pre := xs[..j];
    assert forall i :: 0 <= i < |pre| ==> pre[i] == xs[i];
  }

  /** A prefix of `xs` is a prefix of anything `xs` is extended to. */
  lemma PrefixOfConcat<T>(ps: seq<T>, xs: seq<T>, ys: seq<T>)
    requires ps <= xs
    ensures ps <= xs + ys
  {
    assert (xs + ys)[..|ps|] == xs[..|ps|];
  }

  /** A prefix agrees with the whole sequence on its own indices. */
  lemma PrefixIndex<T>(ps: seq<T>, xs: seq<T>, k: int)
    requires ps <= xs && 0 <= k < |ps|
    ensures k < |xs| && xs[k] == ps[k]
  {
    assert xs[..|ps|] == ps;
  }

  /** Pigeonhole: a sequence drawn from `s` that is longer than `s` repeats an element. */
  lemma Pigeonhole<T>(xs: seq<T>, s: set<T>)
    requires forall x :: x in xs ==> x in s
    requires |xs| > |s|
    ensures exists i, j :: 0 <= i < j < |xs| && xs[i] == xs[j]
  {
    if Distinct(xs) {
      DistinctBounded(xs, s);
      assert false;
    }
  }

  /** Moving the front of the second sequence onto the first keeps the concatenation. */
  lemma ShiftFront<T>(xs: seq<T>, ys: seq<T>)
    requires ys != []
    ensures (xs + [ys[0]]) + ys[1..] == xs + ys
  {
    assert ys == [ys[0]] + ys[1..];
  }

  /** `ks` followed by each element of `ps` that is not already present, in
      order of first occurrence: how a dict's key order grows when the
      elements of `ps` are inserted one after another. */
  function AppendNew<T(==)>(ks: seq<T>, ps: seq<T>): seq<T>
    decreases |ps|
  {
    if ps == [] then ks
    else
      var r := AppendNew(ks, ps[..|ps| - 1]);
      var last := ps[|ps| - 1];
      if last in r then r else r + [last]
  }

  /** What inserting `ps` after `ks` gives: `ks` is kept as a prefix, an
      element is present exactly when it was in `ks` or `ps`, every element
      appended comes from `ps` and was new, and nothing is ever duplicated. */
  lemma {:induction false} AppendNewFacts<T>(ks: seq<T>, ps: seq<T>)
    ensures ks <= AppendNew(ks, ps)
    ensures forall x :: x in AppendNew(ks, ps) <==> x in ks || x in ps
    ensures forall i :: |ks| <= i < |AppendNew(ks, ps)| ==> AppendNew(ks, ps)[i] in ps && AppendNew(ks, ps)[i] !in ks
    ensures Distinct(ks) ==> Distinct(AppendNew(ks, ps))
    decreases |ps|
  {
    if ps != [] {
      var front := ps[..|ps| - 1];
      var last := ps[|ps| - 1];
      assert ps == front + [last];
      AppendNewFacts(ks, front);
      var r := AppendNew(ks, front);
      PrefixOfConcat(ks, r, [last]);
      if last !in r {
        assert forall i :: |ks| <= i < |r| ==> (r + [last])[i] == r[i];
      }
    }
  }

  /** The elements of `xs` in order of first occurrence, each once. */
  function Dedup<T(==, !new)>(xs: seq<T>): (r: seq<T>)
    ensures Distinct(r)
    ensures forall x {:trigger x in r} :: x in r <==> x in xs
  {
    AppendNewFacts([], xs);
    AppendNew([], xs)
  }

  /** The elements of `xs` that are not in `s`, in order, repeats kept. */
  function Outside<T(==, !new)>(xs: seq<T>, s: set<T>): (r: seq<T>)
    ensures forall x {:trigger x in r} :: x in r <==> x in xs && x !in s
    ensures |r| <= |xs|
  {
    if xs == [] then []
    else (if xs[0] in s then [] else [xs[0]]) + Outside(xs[1..], s)
  }

  /** Inserting `ps` and then `qs` is inserting `ps + qs`. */
  lemma {:induction false} AppendNewConcat<T>(ks: seq<T>, ps: seq<T>, qs: seq<T>)
    ensures AppendNew(AppendNew(ks, ps), qs) == AppendNew(ks, ps + qs)
    decreases |qs|
  {
    if qs == [] {
      assert ps + qs == ps;
    } else {
      var front := qs[..|qs| - 1];
      assert (ps + qs)[..|ps + qs| - 1] == ps + front;
      assert (ps + qs)[|ps + qs| - 1] == qs[|qs| - 1];
      AppendNewConcat(ks, ps, front);
    }
  }

  /** Filtering distributes over concatenation. */
  lemma {:induction false} OutsideConcat<T(!new)>(xs: seq<T>, ys: seq<T>, s: set<T>)
    ensures Outside(xs + ys, s) == Outside(xs, s) + Outside(ys, s)
    decreases |xs|
  {
    if xs == [] {
      assert xs + ys == ys;
    } else {
      assert (xs + ys)[0] == xs[0];
      assert (xs + ys)[1..] == xs[1..] + ys;
      OutsideConcat(xs[1..], ys, s);
    }
  }

  /** Inserting one element appends it exactly when it is new. */
  lemma AppendNewOne<T>(ks: seq<T>, p: T)
    ensures AppendNew(ks, [p]) == if p in ks then ks else ks + [p]
  {
    assert [p][..0] == [];
  }

  /** Filtering one element keeps it exactly when it is outside `s`. */
  lemma OutsideOne<T(!new)>(p: T, s: set<T>)
    ensures Outside([p], s) == if p in s then [] else [p]
  {
    assert [p][1..] == [];
  }

  /** Appending one element to the input appends it to the deduplicated
      sequence exactly when it is new. */
  lemma DedupSnoc<T(!new)>(xs: seq<T>, x: T)
    ensures Dedup(xs + [x]) == if x in xs then Dedup(xs) else Dedup(xs) + [x]
  {
    assert (xs + [x])[..|xs|] == xs;
    AppendNewFacts([], xs);
  }

  /** A queue made of the unpopped part of `front` followed by `rest`, popped
      once and extended by `more`, keeps that shape: either one more element of
      `front` is used up, or `front` is used up and `rest` loses its head. */
  lemma PopShape<T>(front: seq<T>, n: nat, rest: seq<T>, q: seq<T>, more: seq<T>)
    requires n <= |front| && q == front[n..] + rest && q != []
    ensures n < |front| ==> q[0] == front[n] && front[..n + 1] == front[..n] + [q[0]]
    ensures n < |front| ==> q[1..] + more == front[n + 1..] + (rest + more)
    ensures n == |front| ==> rest != [] && q[1..] + more == front[n..] + (rest[1..] + more)
  {
    if n < |front| {
      assert q[1..] == front[n + 1..] + rest;
      assert front[..n + 1] == front[..n] + [front[n]];
    } else {
      assert front[n..] == [] && q == rest;
    }
  }
}
