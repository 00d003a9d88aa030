/** The topological sort: reverse Kahn over the commit graph. Every node
    carries a counter of its children not yet emitted; nodes without
    children seed a FIFO queue; emitting a node decrements the counters of
    its parents in ascending hash order and queues each parent whose
    counter reaches zero. */
module TopoSort {
  import opened Seqs
  import opened Strings
  import opened CommitGraph

  /** The initial queue: childless nodes in graph insertion order. */
  function Seeds(g: Graph): (r: seq<Hash>)
    requires KeysMatch(g)
    ensures Distinct(r)
    ensures forall k {:trigger k in r} :: k in r <==> k in g.nodes && g.nodes[k].children == {}
  {
    Childless(g, g.keys)
  }

  /** The children of `k` not yet emitted. */
  ghost function Pending(g: Graph, k: Hash, out: seq<Hash>): set<Hash>
    requires k in g.nodes
  {
    set c | c in g.nodes[k].children && c !in out
  }

  /** Every emitted node's children were emitted before it. */
  ghost predicate ChildrenFirst(g: Graph, out: seq<Hash>)
  {
    forall i, c :: 0 <= i < |out| && out[i] in g.nodes && c in g.nodes[out[i]].children ==> c in out[..i]
  }

  /** The counters while the parents `ps` of the last emitted node are
      being released: those in `ps[j..]` are still counted once too often. */
  ghost predicate ReleaseInv(g: Graph, out: seq<Hash>, queue: seq<Hash>, count: map<Hash, int>,
                             ps: seq<Hash>, j: nat)
    requires j <= |ps|
  {
    && Distinct(out + queue)
    && (forall k :: k in out + queue ==> k in g.nodes)
    && (forall k :: k in ps ==> k in g.nodes)
    && count.Keys == g.nodes.Keys
    && (forall k :: k in g.nodes ==>
          count[k] == |Pending(g, k, out)| + (if k in ps[j..] then 1 else 0))
    && (forall k :: k in g.nodes ==>
          (k in out + queue <==> Pending(g, k, out) == {} && k !in ps[j..]))
  }

  /** What holds between iterations of the outer loop. */
  ghost predicate SortInv(g: Graph, out: seq<Hash>, queue: seq<Hash>, count: map<Hash, int>)
    requires KeysMatch(g)
  {
    && ReleaseInv(g, out, queue, count, [], 0)
    && ChildrenFirst(g, out)
    && Seeds(g) <= out + queue
  }

  lemma SortStart(g: Graph, count: map<Hash, int>)
    requires Wf(g)
    requires count.Keys == g.nodes.Keys
    requires forall k :: k in g.nodes ==> count[k] == |g.nodes[k].children|
    ensures SortInv(g, [], Seeds(g), count)
  {
    forall k | k in g.nodes ensures Pending(g, k, []) == g.nodes[k].children {
    }
  }

  lemma FrontNotEmitted(out: seq<Hash>, queue: seq<Hash>)
    requires Distinct(out + queue) && queue != []
    ensures queue[0] !in out
  {
    assert (out + queue)[|out|] == queue[0];
    assert forall i :: 0 <= i < |out| ==> (out + queue)[i] == out[i];
  }

  /** Emitting `curr` removes it from the pending children of exactly its parents. */
  lemma EmitPending(g: Graph, out: seq<Hash>, curr: Hash, k: Hash)
    requires Wf(g) && curr in g.nodes && k in g.nodes && curr !in out
    ensures Pending(g, k, out + [curr]) == Pending(g, k, out) - {curr}
    ensures curr in Pending(g, k, out) <==> k in g.nodes[curr].parents
  {
  }

  lemma EmitCount(g: Graph, out: seq<Hash>, curr: Hash, k: Hash, n: int)
    requires Wf(g) && curr in g.nodes && k in g.nodes && curr !in out
    requires n == |Pending(g, k, out)|
    ensures n == |Pending(g, k, out + [curr])| + (if k in g.nodes[curr].parents then 1 else 0)
  {
    EmitPending(g, out, curr, k);
  }

  lemma EmitChildrenFirst(g: Graph, out: seq<Hash>, curr: Hash)
    requires ChildrenFirst(g, out)
    requires curr in g.nodes && Pending(g, curr, out) == {}
    ensures ChildrenFirst(g, out + [curr])
  {
    var out' := out + [curr];
    forall i, c | 0 <= i < |out'| && out'[i] in g.nodes && c in g.nodes[out'[i]].children
      ensures c in out'[..i]
    {
      if i < |out| {
        assert out'[..i] == out[..i];
      } else {
        assert out'[..i] == out;
        assert c !in Pending(g, curr, out);
      }
    }
  }

  /** Popping the front of the queue and emitting it. */
  lemma PopStep(g: Graph, out: seq<Hash>, queue: seq<Hash>, count: map<Hash, int>)
    requires Wf(g) && SortInv(g, out, queue, count) && queue != []
    ensures ReleaseInv(g, out + [queue[0]], queue[1..], count, SortedSet(g.nodes[queue[0]].parents), 0)
    ensures ChildrenFirst(g, out + [queue[0]])
    ensures (out + [queue[0]]) + queue[1..] == out + queue
  {
    var curr := queue[0];
    var out' := out + [curr];
    var ps := SortedSet(g.nodes[curr].parents);
    ShiftFront(out, queue);
    assert ps[0..] == ps;
    FrontNotEmitted(out, queue);
    forall k | k in g.nodes
      ensures count[k] == |Pending(g, k, out')| + (if k in ps then 1 else 0)
      ensures k in out' + queue[1..] <==> Pending(g, k, out') == {} && k !in ps
    {
      EmitCount(g, out, curr, k, count[k]);
      EmitPending(g, out, curr, k);
    }
    EmitChildrenFirst(g, out, curr);
  }

  /** The entries of `ps` whose counter stands at zero, in the order of `ps`. */
  function ZeroIn(ps: seq<Hash>, count: map<Hash, int>): (r: seq<Hash>)
    ensures forall k :: k in r <==> k in ps && k in count && count[k] == 0
  {
    if ps == [] then []
    else
      var last := ps[|ps| - 1];
      ZeroIn(ps[..|ps| - 1], count) + (if last in count && count[last] == 0 then [last] else [])
  }

  /** `ZeroIn` only looks at the counters of the entries of `ps`. */
  lemma {:induction false} ZeroInAgree(ps: seq<Hash>, count: map<Hash, int>, count': map<Hash, int>)
    requires forall k :: k in ps ==> (k in count <==> k in count')
    requires forall k :: k in ps && k in count ==> count[k] == count'[k]
    ensures ZeroIn(ps, count) == ZeroIn(ps, count')
    decreases |ps|
  {
    if ps != [] {
      ZeroInAgree(ps[..|ps| - 1], count, count');
    }
  }

  /** Compared with the start of the inner loop (`queue0`, `count0`), only
      the counters of the parents `ps[..j]` released so far have changed,
      and the nodes queued since are those of them whose counter reached
      zero, in the order of `ps`. */
  ghost predicate Released(g: Graph, queue0: seq<Hash>, count0: map<Hash, int>,
                           queue: seq<Hash>, count: map<Hash, int>, ps: seq<Hash>, j: nat)
    requires j <= |ps|
  {
    && queue == queue0 + ZeroIn(ps[..j], count)
    && (forall k :: k in count0 && k !in ps[..j] ==> k in count && count[k] == count0[k])
  }

  lemma ReleasedStep(g: Graph, queue0: seq<Hash>, count0: map<Hash, int>,
                     queue: seq<Hash>, count: map<Hash, int>, ps: seq<Hash>, j: nat)
    requires j < |ps| && Released(g, queue0, count0, queue, count, ps, j)
    requires ps[j] in count && ps[j] !in ps[..j]
    ensures var count' := count[ps[j] := count[ps[j]] - 1];
      Released(g, queue0, count0, if count'[ps[j]] == 0 then queue + [ps[j]] else queue, count', ps, j + 1)
  {
    var count' := count[ps[j] := count[ps[j]] - 1];
    assert ps[..j + 1] == ps[..j] + [ps[j]];
    assert ps[..j + 1][..j] == ps[..j];
    ZeroInAgree(ps[..j], count, count');
  }

  /** Everything the inner loop keeps while releasing `ps[j..]`, starting
      from `queue0` and `count0`. */
  ghost predicate ReleaseState(g: Graph, out: seq<Hash>, queue0: seq<Hash>, count0: map<Hash, int>,
                               queue: seq<Hash>, count: map<Hash, int>, ps: seq<Hash>, j: nat)
  {
    && j <= |ps|
    && Distinct(ps)
    && ReleaseInv(g, out, queue, count, ps, j)
    && queue0 <= queue
    && Released(g, queue0, count0, queue, count, ps, j)
  }

  /** Releasing parent `ps[j]`: decrement its counter, queue it at zero. */
  lemma ReleaseStep(g: Graph, out: seq<Hash>, queue0: seq<Hash>, count0: map<Hash, int>,
                    queue: seq<Hash>, count: map<Hash, int>, ps: seq<Hash>, j: nat,
                    queue': seq<Hash>, count': map<Hash, int>)
    requires ReleaseState(g, out, queue0, count0, queue, count, ps, j) && j < |ps|
    requires ps[j] in count && count' == count[ps[j] := count[ps[j]] - 1]
    requires queue' == if count'[ps[j]] == 0 then queue + [ps[j]] else queue
    ensures ReleaseState(g, out, queue0, count0, queue', count', ps, j + 1)
  {
    assert ps[j..] == [ps[j]] + ps[j + 1..];
    DistinctNotInSuffix(ps, j);
    ReleaseOne(g, out, queue, count, ps, j);
    DistinctNotInPrefix(ps, j);
    ReleasedStep(g, queue0, count0, queue, count, ps, j);
  }

  /** Once every parent is released, a node is emitted or queued exactly
      when its counter is zero, and only the released parents were touched. */
  lemma ReleaseDone(g: Graph, out: seq<Hash>, queue0: seq<Hash>, count0: map<Hash, int>,
                    queue: seq<Hash>, count: map<Hash, int>, ps: seq<Hash>)
    requires ReleaseState(g, out, queue0, count0, queue, count, ps, |ps|)
    ensures ReleaseInv(g, out, queue, count, ps, |ps|)
    ensures queue == queue0 + ZeroIn(ps, count)
    ensures forall k :: k in count0 && k !in ps ==> count[k] == count0[k]
    ensures forall k :: k in g.nodes ==> (k in out + queue <==> count[k] == 0)
  {
    assert ps[|ps|..] == [];
    assert ps[..|ps|] == ps;
  }

  /** The inner loop: decrements the counter of each parent in `ps`, in
      order, and queues a parent as soon as its counter reaches zero. */
  method ReleaseParents(g: Graph, out: seq<Hash>, queue: seq<Hash>, count: map<Hash, int>, ps: seq<Hash>)
    returns (count': map<Hash, int>, queue': seq<Hash>)
    requires StrictlySorted(ps)
    requires ReleaseInv(g, out, queue, count, ps, 0)
    ensures ReleaseInv(g, out, queue', count', ps, |ps|)
    ensures queue' == queue + ZeroIn(ps, count')
    ensures forall k :: k in g.nodes && k !in ps ==> count'[k] == count[k]
    ensures forall k :: k in g.nodes ==> (k in out + queue' <==> count'[k] == 0)
  {
    count', queue' := count, queue;
    SortedIsDistinct(ps);
    var j := 0;
    while j < |ps|
      invariant ReleaseState(g, out, queue, count, queue', count', ps, j)
    {
      var p := ps[j];
      var count2 := count'[p := count'[p] - 1];
      var queue2 := queue';
      if count2[p] == 0 {
        queue2 := queue2 + [p];
      }
      ReleaseStep(g, out, queue, count, queue', count', ps, j, queue2, count2);
      count', queue' := count2, queue2;
      j := j + 1;
    }
    ReleaseDone(g, out, queue, count, queue', count', ps);
  }

  lemma ReleaseOne(g: Graph, out: seq<Hash>, queue: seq<Hash>, count: map<Hash, int>, ps: seq<Hash>, j: nat)
    requires j < |ps| && ReleaseInv(g, out, queue, count, ps, j)
    requires ps[j..] == [ps[j]] + ps[j + 1..] && ps[j] !in ps[j + 1..]
    ensures ps[j] in g.nodes
    ensures var count' := count[ps[j] := count[ps[j]] - 1];
      ReleaseInv(g, out, if count'[ps[j]] == 0 then queue + [ps[j]] else queue, count', ps, j + 1)
  {
    var p := ps[j];
    var count' := count[p := count[p] - 1];
    var queue' := if count'[p] == 0 then queue + [p] else queue;
    assert p !in out + queue;
    if count'[p] == 0 {
      assert out + queue' == (out + queue) + [p];
      assert Pending(g, p, out) == {};
    }
    forall k | k in out + queue' ensures k in g.nodes {
      if k != p {
        assert k in out + queue;
      }
    }
  }

  /** In an output that puts children first, every child stands before each
      of its parents: for the edge from `out[j]` up to its parent `out[i]`, `j < i`. */
  lemma ChildBeforeParent(g: Graph, out: seq<Hash>, i: nat, j: nat)
    requires Wf(g) && Distinct(out) && ChildrenFirst(g, out)
    requires i < |out| && j < |out| && out[j] in g.nodes && out[i] in g.nodes[out[j]].parents
    ensures j < i
  {
    assert out[j] in g.nodes[out[i]].children;
    assert out[j] in out[..i];
    var k :| 0 <= k < i && out[..i][k] == out[j];
    assert out[k] == out[j];
  }

  ghost predicate IsChildPath(g: Graph, path: seq<Hash>)
  {
    && |path| > 0
    && (forall i :: 0 <= i < |path| ==> path[i] in g.nodes)
    && (forall i :: 0 <= i < |path| - 1 ==> path[i + 1] in g.nodes[path[i]].children)
  }

  /** No path of child edges leads from a node back to itself. */
  ghost predicate Acyclic(g: Graph)
  {
    forall path :: IsChildPath(g, path) && |path| > 1 ==> path[0] != path[|path| - 1]
  }

  /** A child path that returns to a node it passed contains a cycle. */
  lemma RepeatGivesCycle(g: Graph, path: seq<Hash>, i: nat, j: nat)
    requires IsChildPath(g, path) && i < j < |path| && path[i] == path[j]
    ensures !Acyclic(g)
  {
    var cycle := path[i..j + 1];
    forall m | 0 <= m < |cycle| - 1 ensures cycle[m + 1] in g.nodes[cycle[m]].children {
      assert cycle[m] == path[i + m] && cycle[m + 1] == path[i + m + 1];
    }
    assert IsChildPath(g, cycle);
    assert cycle[0] == cycle[|cycle| - 1];
  }

  lemma ExtendChildPath(g: Graph, path: seq<Hash>, c: Hash)
    requires IsChildPath(g, path) && c in g.nodes[path[|path| - 1]].children && c in g.nodes
    ensures IsChildPath(g, path + [c])
  {
    var path' := path + [c];
    forall i | 0 <= i < |path'| - 1 ensures path'[i + 1] in g.nodes[path'[i]].children {
      if i < |path| - 1 {
        assert path'[i] == path[i] && path'[i + 1] == path[i + 1];
      }
    }
  }

  /** If every node of a non-empty set has a child inside the set (`next`
      names one for each), the graph has a cycle. */
  lemma ChildInsideGivesCycle(g: Graph, s: set<Hash>, next: map<Hash, Hash>)
    requires s != {} && s <= next.Keys
    requires forall k :: k in s ==> k in g.nodes
    requires forall k {:trigger next[k]} :: k in s ==> next[k] in g.nodes[k].children && next[k] in s
    ensures !Acyclic(g)
  {
    var k0 :| k0 in s;
    var path := [k0];
    while |path| <= |s|
      invariant 0 < |path| <= |s| + 1
      invariant IsChildPath(g, path)
      invariant forall x :: x in path ==> x in s
      decreases |s| + 1 - |path|
    {
      var c := next[path[|path| - 1]];
      ExtendChildPath(g, path, c);
      path := path + [c];
    }
    Pigeonhole(path, s);
    var i, j :| 0 <= i < j < |path| && path[i] == path[j];
    RepeatGivesCycle(g, path, i, j);
  }

  /** Some element of a non-empty set. */
  ghost function Pick(xs: set<Hash>): (r: Hash)
    requires xs != {}
    ensures r in xs
  {
    var x :| x in xs; x
  }

  /** On an acyclic graph, a node is left un-emitted only if nothing is. */
  lemma AcyclicAllEmitted(g: Graph, out: seq<Hash>)
    requires Wf(g) && Acyclic(g)
    requires forall k :: k in g.nodes ==> (k in out <==> Pending(g, k, out) == {})
    ensures forall k :: k in g.nodes ==> k in out
  {
    var s := set k | k in g.nodes && k !in out;
    if s != {} {
      var next := map k | k in s :: Pick(Pending(g, k, out));
      ChildInsideGivesCycle(g, s, next);
    }
  }

  /** One iteration of the outer loop keeps its invariant. */
  lemma SortStep(g: Graph, out: seq<Hash>, queue: seq<Hash>, out': seq<Hash>, queue': seq<Hash>,
                 count': map<Hash, int>, ps: seq<Hash>)
    requires KeysMatch(g)
    requires Seeds(g) <= out + queue
    requires queue != [] && out' + queue[1..] == out + queue
    requires queue[1..] <= queue'
    requires ReleaseInv(g, out', queue', count', ps, |ps|)
    requires ChildrenFirst(g, out')
    ensures SortInv(g, out', queue', count')
  {
    assert ps[|ps|..] == [];
    assert out' + queue[1..] <= out' + queue';
  }

  /** An empty queue leaves the invariant saying everything the sort promises. */
  lemma SortDone(g: Graph, out: seq<Hash>, count: map<Hash, int>)
    requires Wf(g) && SortInv(g, out, [], count)
    ensures Distinct(out)
    ensures forall k :: k in out ==> k in g.nodes
    ensures forall k :: k in g.nodes ==>
      (k in out <==> forall c :: c in g.nodes[k].children ==> c in out)
    ensures Seeds(g) <= out
    ensures Acyclic(g) ==> forall k :: k in g.nodes ==> k in out
    ensures Acyclic(g) ==> |out| == |g.keys|
  {
    assert out + [] == out;
    forall k | k in g.nodes
      ensures Pending(g, k, out) == {} <==> forall c :: c in g.nodes[k].children ==> c in out
    {
      if Pending(g, k, out) != {} {
        var c :| c in Pending(g, k, out);
      }
    }
    if Acyclic(g) {
      AcyclicAllEmitted(g, out);
      DistinctCard(out, g.nodes.Keys);
      DistinctCard(g.keys, g.nodes.Keys);
    }
  }

  /** Reverse Kahn topological sort of a commit graph. */
  method Sort(g: Graph) returns (out: seq<Hash>)
    requires Wf(g)
    ensures Distinct(out)
    ensures forall k :: k in out ==> k in g.nodes
    ensures ChildrenFirst(g, out)
    ensures forall k :: k in g.nodes ==>
      (k in out <==> forall c :: c in g.nodes[k].children ==> c in out)
    ensures Seeds(g) <= out
    ensures Acyclic(g) ==> forall k :: k in g.nodes ==> k in out
    ensures Acyclic(g) ==> |out| == |g.keys|
  {
    var count: map<Hash, int> := map k | k in g.nodes :: |g.nodes[k].children|;
    var queue := Seeds(g);
    out := [];
    SortStart(g, count);
    while queue != []
      invariant SortInv(g, out, queue, count)
      invariant |out| <= |g.nodes.Keys|
      decreases |g.nodes.Keys| - |out|
    {
      DistinctBounded(out + queue, g.nodes.Keys);
      PopStep(g, out, queue, count);
      var curr := queue[0];
      var ps := SortedSet(g.nodes[curr].parents);
      var out' := out + [curr];
      var count', queue' := ReleaseParents(g, out', queue[1..], count, ps);
      SortStep(g, out, queue, out', queue', count', ps);
      out, queue, count := out', queue', count';
    }
    SortDone(g, out, count);
  }
}
