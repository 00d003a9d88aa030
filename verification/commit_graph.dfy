/** The commit graph and its construction: a breadth-first walk from the
    branch tips over an object store, linking every commit to the parents its
    object names, with parent and child edges kept symmetric. */
module CommitGraph {
  import opened Seqs
  import opened Strings

  type Hash = string

  /** The object store as the walk sees it: each commit hash that has an
      object maps to the decoded text lines of that object. */
  type Store = map<Hash, seq<string>>

  /** One commit's edges, both as hashes into the graph arena. */
  datatype CommitNode = CommitNode(parents: set<Hash>, children: set<Hash>)

  /** The graph arena. `nodes` maps each hash to its node; `keys` lists the
      same hashes in the order they were first inserted, which is the order
      in which the sort later visits `graph.values()`. */
  datatype Graph = Graph(keys: seq<Hash>, nodes: map<Hash, CommitNode>)

  /** `keys` lists every node exactly once. */
  predicate KeysMatch(g: Graph)
  {
    && Distinct(g.keys)
    && (forall k :: k in g.keys ==> k in g.nodes)
    && (forall k {:trigger k in g.keys} :: k in g.nodes ==> k in g.keys)
  }

  /** `keys` and the domain of `nodes` hold the same hashes. */
  predicate KeysCover(g: Graph)
  {
    && (forall k :: k in g.keys ==> k in g.nodes)
    && (forall k {:trigger k in g.keys} :: k in g.nodes ==> k in g.keys)
  }

  /** Every edge leads to a node of the graph. */
  predicate EdgesClosed(g: Graph)
  {
    && (forall a, b {:trigger b in g.nodes[a].parents} ::
          a in g.nodes && b in g.nodes[a].parents ==> b in g.nodes)
    && (forall a, b {:trigger b in g.nodes[a].children} ::
          a in g.nodes && b in g.nodes[a].children ==> b in g.nodes)
  }

  /** `b` is a parent of `a` exactly when `a` is a child of `b`. */
  predicate Symmetric(g: Graph)
  {
    forall a, b {:trigger b in g.nodes[a].parents} {:trigger a in g.nodes[b].children} ::
      a in g.nodes && b in g.nodes ==>
        (b in g.nodes[a].parents <==> a in g.nodes[b].children)
  }

  predicate Wf(g: Graph)
  {
    KeysMatch(g) && EdgesClosed(g) && Symmetric(g)
  }

  /** The nodes of `keys` that have no children, in the order of `keys`. */
  function Childless(g: Graph, keys: seq<Hash>): (r: seq<Hash>)
    requires forall k :: k in keys ==> k in g.nodes
    ensures forall k {:trigger k in r} :: k in r <==> k in keys && g.nodes[k].children == {}
    ensures Distinct(keys) ==> Distinct(r)
    decreases |keys|
  {
    if keys == [] then []
    else
      var rest := Childless(g, keys[1..]);
      assert Distinct(keys) ==> Distinct(keys[1..]) && keys[0] !in keys[1..] by {
        if Distinct(keys) {
          forall i, j | 0 <= i < j < |keys[1..]| ensures keys[1..][i] != keys[1..][j] {
            assert keys[1..][i] == keys[i + 1] && keys[1..][j] == keys[j + 1];
          }
        }
      }
      var r := if g.nodes[keys[0]].children == {} then [keys[0]] + rest else rest;
      assert forall k :: k in r <==> k in keys && g.nodes[k].children == {} by {
        forall k ensures k in r <==> k in keys && g.nodes[k].children == {} {
          assert k in keys <==> k == keys[0] || k in keys[1..];
          assert k in r <==> (k == keys[0] && g.nodes[k].children == {}) || k in rest;
        }
      }
      assert Distinct(keys) ==> keys[0] !in rest;
      r
  }

  /** Childless nodes of a concatenation: those of each part, in order. */
  lemma {:induction false} ChildlessConcat(g: Graph, xs: seq<Hash>, ys: seq<Hash>)
    requires forall k :: k in xs + ys ==> k in g.nodes
    ensures Childless(g, xs + ys) == Childless(g, xs) + Childless(g, ys)
    decreases |xs|
  {
    if xs == [] {
      assert xs + ys == ys;
    } else {
      assert (xs + ys)[0] == xs[0];
      assert (xs + ys)[1..] == xs[1..] + ys;
      ChildlessConcat(g, xs[1..], ys);
    }
  }

  /** When every node listed has a child, none of them is childless. */
  lemma {:induction false} ChildlessNone(g: Graph, ys: seq<Hash>)
    requires forall k :: k in ys ==> k in g.nodes && g.nodes[k].children != {}
    ensures Childless(g, ys) == []
    decreases |ys|
  {
    if ys != [] {
      ChildlessNone(g, ys[1..]);
    }
  }

  /** If a node childless in `g2` was already childless in `g`, the childless
      nodes of `g2` can be picked from those of `g`. */
  lemma {:induction false} ChildlessRefine(g: Graph, g2: Graph, xs: seq<Hash>)
    requires forall k :: k in xs ==> k in g.nodes && k in g2.nodes
    requires forall k :: k in xs && g2.nodes[k].children == {} ==> g.nodes[k].children == {}
    ensures Childless(g2, xs) == Childless(g2, Childless(g, xs))
    decreases |xs|
  {
    if xs != [] {
      ChildlessRefine(g, g2, xs[1..]);
      var rest := Childless(g, xs[1..]);
      if g.nodes[xs[0]].children == {} {
        assert ([xs[0]] + rest)[0] == xs[0];
        assert ([xs[0]] + rest)[1..] == rest;
      }
    }
  }

  /** The substring whose presence marks a line as naming a parent. */
  const ParentToken: string := "parent "

  /** A line names a parent when the token occurs anywhere in it. */
  predicate IsParentLine(line: string)
  {
    Contains(line, ParentToken)
  }

  /** The parent hash a parent line names: the line without its first seven characters. */
  function ParentOf(line: string): Hash
    requires IsParentLine(line)
  {
    line[7..]
  }

  /** The parent a single line names, if any. */
  function LineParents(line: string): (r: set<Hash>)
    ensures |r| <= 1
  {
    if IsParentLine(line) then {ParentOf(line)} else {}
  }

  /** The parent a single line names, as a list of at most one hash. */
  function LineParentList(line: string): (r: seq<Hash>)
    ensures forall p {:trigger p in r} :: p in r <==> p in LineParents(line)
    ensures |r| <= 1
  {
    if IsParentLine(line) then [ParentOf(line)] else []
  }

  /** The parents a commit object names, in line order, repeats kept. */
  function ParentList(lines: seq<string>): (r: seq<Hash>)
    ensures |r| <= |lines|
  {
    if lines == [] then []
    else
      ParentList(lines[..|lines| - 1]) + LineParentList(lines[|lines| - 1])
  }

  /** The parents a commit object names. */
  function ParentsOf(lines: seq<string>): set<Hash>
  {
    set p | p in ParentList(lines)
  }

  /** Scanning one more line extends the parent list by what that line names. */
  lemma ParentListStep(lines: seq<string>, i: nat)
    requires i < |lines|
    ensures ParentList(lines[..i + 1]) == ParentList(lines[..i]) + LineParentList(lines[i])
    ensures ParentsOf(lines[..i + 1]) == ParentsOf(lines[..i]) + LineParents(lines[i])
  {
    assert lines[..i + 1][..i] == lines[..i];
  }

  /** A hash is a parent of a commit exactly when one of its object's lines
      contains the parent token and that line minus its first seven
      characters is the hash. */
  lemma {:induction false} ParentsOfMeaning(lines: seq<string>, p: Hash)
    ensures p in ParentsOf(lines) <==>
      exists j :: 0 <= j < |lines| && IsParentLine(lines[j]) && ParentOf(lines[j]) == p
    decreases |lines|
  {
    if lines != [] {
      var front := lines[..|lines| - 1];
      var last := lines[|lines| - 1];
      ParentsOfMeaning(front, p);
      assert forall j :: 0 <= j < |front| ==> front[j] == lines[j];
      if p in ParentsOf(lines) && p !in ParentsOf(front) {
        assert IsParentLine(last) && ParentOf(last) == p;
      }
    }
  }

  /** A git-style line `parent <h>` names exactly the hash `h`. */
  lemma ParentLineRoundTrip(h: Hash)
    ensures IsParentLine(ParentToken + h)
    ensures ParentOf(ParentToken + h) == h
  {
    assert OccursAt(ParentToken + h, ParentToken, 0);
  }

  /** The token need not start the line: any line with it inside names a
      parent, and the hash taken is still everything after the seventh character. */
  lemma ParentTokenAnywhere(before: string, after: string)
    ensures IsParentLine(before + ParentToken + after)
    ensures ParentOf(before + ParentToken + after) == (before + ParentToken + after)[7..]
  {
    var line := before + ParentToken + after;
    assert line[|before|..|before| + |ParentToken|] == ParentToken;
    assert OccursAt(line, ParentToken, |before|);
  }

  /** Every hash in `s` that has an object has all the parents that object names in `s`. */
  ghost predicate ClosedUnderParents(store: Store, s: set<Hash>)
  {
    forall v, p :: v in s && v in store && p in ParentsOf(store[v]) ==> p in s
  }

  /** Every tip is in `s`. */
  ghost predicate HoldsTips(tips: seq<Hash>, s: set<Hash>)
  {
    forall t :: t in tips ==> t in s
  }

  /** `h` is a tip or an ancestor of one: it lies in every parent-closed set holding the tips. */
  ghost predicate Reachable(store: Store, tips: seq<Hash>, h: Hash)
  {
    forall s {:trigger ClosedUnderParents(store, s)} ::
      ClosedUnderParents(store, s) && HoldsTips(tips, s) ==> h in s
  }

  /** With no tips nothing is reachable: the empty set is closed under parents. */
  lemma NothingReachableWithoutTips(store: Store, h: Hash)
    ensures !Reachable(store, [], h)
  {
    assert ClosedUnderParents(store, {}) && HoldsTips([], {});
  }

  lemma ReachableTip(store: Store, tips: seq<Hash>, t: Hash)
    requires t in tips
    ensures Reachable(store, tips, t)
  {
  }

  /** The parents named by a reachable commit's object are reachable. */
  lemma ReachableParent(store: Store, tips: seq<Hash>, v: Hash, p: Hash)
    requires Reachable(store, tips, v)
    requires v in store && p in ParentsOf(store[v])
    ensures Reachable(store, tips, p)
  {
  }

  /** Inserts an empty node for `h` unless the graph already has one; a new
      hash goes to the end of the key order. */
  function AddNode(g: Graph, h: Hash): (r: Graph)
    requires Wf(g)
    ensures Wf(r)
    ensures r.nodes.Keys == g.nodes.Keys + {h}
    ensures h in g.nodes ==> r == g
    ensures h !in g.nodes ==> r.nodes[h] == CommitNode({}, {}) && r.keys == g.keys + [h]
    ensures forall k :: k in g.nodes ==> r.nodes[k] == g.nodes[k]
  {
    if h in g.nodes then g
    else Graph(g.keys + [h], g.nodes[h := CommitNode({}, {})])
  }

  /** Links child `c` to parent `p` in both directions. */
  function AddEdge(g: Graph, c: Hash, p: Hash): (r: Graph)
    requires c in g.nodes && p in g.nodes
    ensures r.keys == g.keys && r.nodes.Keys == g.nodes.Keys
    ensures p in r.nodes[c].parents && c in r.nodes[p].children
    ensures r.nodes[c].parents == g.nodes[c].parents + {p}
    ensures forall k :: k in g.nodes && k != c ==> r.nodes[k].parents == g.nodes[k].parents
  {
    var n1 := g.nodes[c := g.nodes[c].(parents := g.nodes[c].parents + {p})];
    var n2 := n1[p := n1[p].(children := n1[p].children + {c})];
    Graph(g.keys, n2)
  }

  /** Adding an edge keeps the graph well formed, in particular symmetric. */
  lemma AddEdgeWf(g: Graph, c: Hash, p: Hash)
    requires Wf(g) && c in g.nodes && p in g.nodes
    ensures Wf(AddEdge(g, c, p))
  {
    var r := AddEdge(g, c, p);
    forall a, b | a in r.nodes && b in r.nodes[a].children ensures b in r.nodes {
      if !(a == p && b == c) {
        assert b in g.nodes[a].children;
      }
    }
    forall a, b | a in r.nodes && b in r.nodes
      ensures b in r.nodes[a].parents <==> a in r.nodes[b].children
    {
      if !(a == c && b == p) {
        assert b in r.nodes[a].parents <==> b in g.nodes[a].parents;
        assert a in r.nodes[b].children <==> a in g.nodes[b].children;
      }
    }
  }

  /** `g2` is `g` after linking `curr` to the parents `named`: every named
      parent has a node and is a parent of `curr`, the parents of every
      other node are unchanged, and a node created on the way has no
      parents yet. */
  ghost predicate LinkedWith(g: Graph, curr: Hash, named: set<Hash>, g2: Graph)
    requires curr in g.nodes
  {
    && Wf(g2)
    && g2.nodes.Keys == g.nodes.Keys + named
    && g2.nodes[curr].parents == g.nodes[curr].parents + named
    && (forall k :: k in g.nodes && k != curr ==> g2.nodes[k].parents == g.nodes[k].parents)
    && (forall k :: k in g2.nodes && k !in g.nodes ==> g2.nodes[k].parents == {})
  }

  /** Linking with no parents changes nothing. */
  lemma LinkedWithNone(g: Graph, curr: Hash)
    requires Wf(g) && curr in g.nodes
    ensures LinkedWith(g, curr, {}, g)
  {
  }

  /** Linking with `a` and then with `b` is linking with both. */
  lemma LinkedWithCompose(g: Graph, curr: Hash, a: set<Hash>, g1: Graph, b: set<Hash>, g2: Graph)
    requires curr in g.nodes
    requires LinkedWith(g, curr, a, g1)
    requires LinkedWith(g1, curr, b, g2)
    ensures LinkedWith(g, curr, a + b, g2)
  {
    UnionAssoc(g.nodes.Keys, a, b);
    UnionAssoc(g.nodes[curr].parents, a, b);
  }

  /** One line of `curr`'s object: when it names a parent, queue that
      parent unless visited, make sure a node exists for it and link the
      two commits in both directions; any other line changes nothing. */
  method LinkLine(g: Graph, visited: set<Hash>, queue: seq<Hash>, curr: Hash, line: string)
    returns (g': Graph, queue': seq<Hash>)
    requires Wf(g) && curr in g.nodes
    ensures LinkedWith(g, curr, LineParents(line), g')
    ensures g'.keys == AppendNew(g.keys, LineParentList(line))
    ensures queue' == queue + Outside(LineParentList(line), visited)
  {
    if IsParentLine(line) {
      var p := ParentOf(line);
      assert LineParentList(line) == [p] && LineParents(line) == {p};
      OutsideOne(p, visited);
      if p !in visited {
        queue' := queue + [p];
      } else {
        queue' := queue;
      }
      g' := AddEdge(AddNode(g, p), curr, p);
      LinkedWithOne(g, curr, p);
    } else {
      g', queue' := g, queue;
      LinkedWithNone(g, curr);
      assert LineParentList(line) == [] && LineParents(line) == {};
    }
  }

  /** Linking a single parent `p` is what one parent line does. */
  lemma LinkedWithOne(g: Graph, curr: Hash, p: Hash)
    requires Wf(g) && curr in g.nodes
    ensures LinkedWith(g, curr, {p}, AddEdge(AddNode(g, p), curr, p))
    ensures AddEdge(AddNode(g, p), curr, p).keys == AppendNew(g.keys, [p])
  {
    AddEdgeWf(AddNode(g, p), curr, p);
    AppendNewOne(g.keys, p);
  }

  /** Linking only adds child edges: every old node keeps its children, and
      each named parent gains `curr` as a child. */
  lemma LinkedChildren(g: Graph, curr: Hash, named: set<Hash>, g2: Graph)
    requires Wf(g) && curr in g.nodes
    requires LinkedWith(g, curr, named, g2)
    ensures forall k :: k in g.nodes ==> g.nodes[k].children <= g2.nodes[k].children
    ensures forall p :: p in named ==> p in g2.nodes && curr in g2.nodes[p].children
  {
    forall k, c | k in g.nodes && c in g.nodes[k].children ensures c in g2.nodes[k].children {
      assert k in g.nodes[c].parents;
      assert k in g2.nodes[c].parents;
    }
  }

  lemma UnionAssoc(a: set<Hash>, b: set<Hash>, c: set<Hash>)
    ensures (a + b) + c == a + (b + c)
  {
  }

  /** `g2`/`queue2` is `g`/`queue` after the first `i` lines of `curr`'s
      object have been scanned. */
  ghost predicate Scanned(g: Graph, visited: set<Hash>, queue: seq<Hash>, curr: Hash,
                          lines: seq<string>, i: nat, g2: Graph, queue2: seq<Hash>)
    requires curr in g.nodes
  {
    && i <= |lines|
    && LinkedWith(g, curr, ParentsOf(lines[..i]), g2)
    && g2.keys == AppendNew(g.keys, ParentList(lines[..i]))
    && queue2 == queue + Outside(ParentList(lines[..i]), visited)
  }

  /** Links made by the first `i` lines, then by line `i`, are the links
      made by the first `i + 1` lines. */
  lemma ScanLinks(g: Graph, curr: Hash, lines: seq<string>, i: nat, g2: Graph, g3: Graph)
    requires curr in g.nodes && i < |lines|
    requires LinkedWith(g, curr, ParentsOf(lines[..i]), g2)
    requires LinkedWith(g2, curr, LineParents(lines[i]), g3)
    ensures LinkedWith(g, curr, ParentsOf(lines[..i + 1]), g3)
  {
    ParentListStep(lines, i);
    LinkedWithCompose(g, curr, ParentsOf(lines[..i]), g2, LineParents(lines[i]), g3);
  }

  /** Key order after the first `i` lines, then line `i`. */
  lemma ScanKeys(ks: seq<Hash>, lines: seq<string>, i: nat, ks2: seq<Hash>, ks3: seq<Hash>)
    requires i < |lines|
    requires ks2 == AppendNew(ks, ParentList(lines[..i]))
    requires ks3 == AppendNew(ks2, LineParentList(lines[i]))
    ensures ks3 == AppendNew(ks, ParentList(lines[..i + 1]))
  {
    ParentListStep(lines, i);
    AppendNewConcat(ks, ParentList(lines[..i]), LineParentList(lines[i]));
  }

  /** Queue after the first `i` lines, then line `i`. */
  lemma ScanQueue(queue: seq<Hash>, visited: set<Hash>, lines: seq<string>, i: nat,
                  queue2: seq<Hash>, queue3: seq<Hash>)
    requires i < |lines|
    requires queue2 == queue + Outside(ParentList(lines[..i]), visited)
    requires queue3 == queue2 + Outside(LineParentList(lines[i]), visited)
    ensures queue3 == queue + Outside(ParentList(lines[..i + 1]), visited)
  {
    ParentListStep(lines, i);
    OutsideConcat(ParentList(lines[..i]), LineParentList(lines[i]), visited);
  }

  /** Scanning line `i` after the first `i` lines is scanning `i + 1` lines. */
  lemma ScanStep(g: Graph, visited: set<Hash>, queue: seq<Hash>, curr: Hash, lines: seq<string>, i: nat,
                 g2: Graph, queue2: seq<Hash>, g3: Graph, queue3: seq<Hash>)
    requires curr in g.nodes && i < |lines|
    requires Scanned(g, visited, queue, curr, lines, i, g2, queue2)
    requires LinkedWith(g2, curr, LineParents(lines[i]), g3)
    requires g3.keys == AppendNew(g2.keys, LineParentList(lines[i]))
    requires queue3 == queue2 + Outside(LineParentList(lines[i]), visited)
    ensures Scanned(g, visited, queue, curr, lines, i + 1, g3, queue3)
  {
    ScanLinks(g, curr, lines, i, g2, g3);
    ScanKeys(g.keys, lines, i, g2.keys, g3.keys);
    ScanQueue(queue, visited, lines, i, queue2, queue3);
  }

  /** The inner loop of the walk: scans the lines of `curr`'s object, links
      `curr` to each parent they name, creates missing parent nodes and
      queues every named parent not yet visited. */
  method LinkParents(g: Graph, visited: set<Hash>, queue: seq<Hash>, curr: Hash, lines: seq<string>)
    returns (g': Graph, queue': seq<Hash>)
    requires Wf(g) && curr in g.nodes
    ensures LinkedWith(g, curr, ParentsOf(lines), g')
    ensures g'.keys == AppendNew(g.keys, ParentList(lines))
    ensures queue' == queue + Outside(ParentList(lines), visited)
  {
    g', queue' := g, queue;
    LinkedWithNone(g, curr);
    assert lines[..0] == [];
    var i := 0;
    while i < |lines|
      invariant Scanned(g, visited, queue, curr, lines, i, g', queue')
    {
      var g1, queue1 := LinkLine(g', visited, queue', curr, lines[i]);
      ScanStep(g, visited, queue, curr, lines, i, g', queue', g1, queue1);
      g', queue' := g1, queue1;
      i := i + 1;
    }
    assert lines[..i] == lines;
  }

  /** The state of the breadth-first walk: the graph built so far, the
      hashes already visited, the work queue, and every hash whose object
      has been requested, in request order. */
  datatype Walk = Walk(graph: Graph, visited: set<Hash>, queue: seq<Hash>, requested: seq<Hash>)

  /** The graph part of the walk invariant: every visited hash has its
      node linked to exactly the parents its object names; every other
      node is queued and has no parents yet. */
  ghost predicate WalkGraph(store: Store, w: Walk)
  {
    && Wf(w.graph)
    && w.visited <= w.graph.nodes.Keys && w.visited <= store.Keys
    && (forall k :: k in w.graph.nodes ==> k in w.visited || k in w.queue)
    && (forall k :: k in w.graph.nodes && k !in w.visited ==> w.graph.nodes[k].parents == {})
    && (forall v {:trigger ParentsOf(store[v])} ::
          v in w.visited ==> w.graph.nodes[v].parents == ParentsOf(store[v]))
  }

  /** The request log: every visited hash was requested exactly once. */
  ghost predicate WalkRequests(w: Walk)
  {
    && (forall h :: h in w.requested <==> h in w.visited)
    && Distinct(w.requested)
  }

  /** The reachability half: no tip has been lost, and everything visited
      or queued is reachable from the tips. */
  ghost predicate WalkReach(store: Store, tips: seq<Hash>, w: Walk)
  {
    && (forall t :: t in tips ==> t in w.visited || t in w.queue)
    && (forall h :: h in w.visited ==> Reachable(store, tips, h))
    && (forall h :: h in w.queue ==> Reachable(store, tips, h))
  }

  /** What holds between iterations of the walk. */
  ghost predicate WalkInv(store: Store, tips: seq<Hash>, w: Walk)
  {
    WalkGraph(store, w) && WalkRequests(w) && WalkReach(store, tips, w)
  }

  lemma WalkStart(store: Store, tips: seq<Hash>)
    ensures WalkInv(store, tips, Walk(Graph([], map[]), {}, tips, []))
  {
    forall h | h in tips ensures Reachable(store, tips, h) {
      ReachableTip(store, tips, h);
    }
  }

  /** Popping an already-visited hash changes nothing else. */
  lemma WalkSkip(store: Store, tips: seq<Hash>, w: Walk)
    requires WalkInv(store, tips, w) && w.queue != [] && w.queue[0] in w.visited
    ensures WalkInv(store, tips, w.(queue := w.queue[1..]))
  {
    var q := w.queue[1..];
    forall k | k in w.queue ensures k == w.queue[0] || k in q {
      var i :| 0 <= i < |w.queue| && w.queue[i] == k;
      if i > 0 {
        assert q[i - 1] == k;
      }
    }
  }

  lemma VisitShrinksUnvisited(keys: set<Hash>, visited: set<Hash>, h: Hash)
    requires h in keys && h !in visited
    ensures |keys - (visited + {h})| < |keys - visited|
  {
    assert keys - (visited + {h}) == (keys - visited) - {h};
  }

  /** Every element of a non-empty queue is its front or in its rest. */
  lemma QueueSplit(q: seq<Hash>)
    requires q != []
    ensures forall k :: k in q ==> k == q[0] || k in q[1..]
  {
    forall k | k in q ensures k == q[0] || k in q[1..] {
      var i :| 0 <= i < |q| && q[i] == k;
      if i > 0 {
        assert q[1..][i - 1] == k;
      }
    }
  }

  /** `g`/`queue` is what visiting the front hash of `w` produces: the hash
      is unvisited and has an object, its node is linked to the parents that
      object names, and the unvisited ones among them are queued in order. */
  ghost predicate VisitedFront(store: Store, w: Walk, g: Graph, queue: seq<Hash>)
  {
    && WalkGraph(store, w)
    && w.queue != [] && w.queue[0] !in w.visited && w.queue[0] in store
    && LinkedWith(AddNode(w.graph, w.queue[0]), w.queue[0], ParentsOf(store[w.queue[0]]), g)
    && queue == w.queue[1..] + Outside(ParentList(store[w.queue[0]]), w.visited + {w.queue[0]})
  }

  /** After a visit every node is visited or queued. */
  lemma VisitCovers(store: Store, w: Walk, g: Graph, queue: seq<Hash>)
    requires VisitedFront(store, w, g, queue)
    ensures forall k :: k in g.nodes ==> k in w.visited + {w.queue[0]} || k in queue
  {
    var curr := w.queue[0];
    var g0 := AddNode(w.graph, curr);
    QueueSplit(w.queue);
    forall k | k in g.nodes ensures k in w.visited + {curr} || k in queue {
      if k !in g0.nodes {
        assert k in ParentList(store[curr]) && k !in w.visited + {curr};
      }
    }
  }

  /** After a visit every unvisited node still has no parents. */
  lemma VisitKeepsRoots(store: Store, w: Walk, g: Graph, queue: seq<Hash>)
    requires VisitedFront(store, w, g, queue)
    ensures forall k :: k in g.nodes && k !in w.visited + {w.queue[0]} ==> g.nodes[k].parents == {}
  {
    var g0 := AddNode(w.graph, w.queue[0]);
    forall k | k in g.nodes && k !in w.visited + {w.queue[0]} ensures g.nodes[k].parents == {} {
      if k in g0.nodes {
        assert g.nodes[k].parents == g0.nodes[k].parents == w.graph.nodes[k].parents;
      }
    }
  }

  /** After a visit every visited node has exactly the parents its object names. */
  lemma VisitLinksParents(store: Store, w: Walk, g: Graph, queue: seq<Hash>)
    requires VisitedFront(store, w, g, queue)
    ensures forall v {:trigger ParentsOf(store[v])} ::
      v in w.visited + {w.queue[0]} ==> g.nodes[v].parents == ParentsOf(store[v])
  {
    var curr := w.queue[0];
    assert AddNode(w.graph, curr).nodes[curr].parents == {};
  }

  /** Marking the front hash visited and linking it to the parents its
      object names keeps the graph part of the invariant. */
  lemma VisitGraph(store: Store, w: Walk, g: Graph, queue: seq<Hash>)
    requires VisitedFront(store, w, g, queue)
    ensures WalkGraph(store, Walk(g, w.visited + {w.queue[0]}, queue, []))
  {
    VisitCovers(store, w, g, queue);
    VisitKeepsRoots(store, w, g, queue);
    VisitLinksParents(store, w, g, queue);
  }

  /** Requesting the object of an unvisited hash keeps the log duplicate-free. */
  lemma VisitRequests(w: Walk, curr: Hash)
    requires WalkRequests(w) && curr !in w.visited
    ensures WalkRequests(Walk(w.graph, w.visited + {curr}, [], w.requested + [curr]))
  {
  }

  /** The parents just queued are reachable, so the reachability half holds too. */
  lemma VisitReach(store: Store, tips: seq<Hash>, w: Walk, queue: seq<Hash>)
    requires WalkReach(store, tips, w)
    requires w.queue != [] && w.queue[0] in store
    requires queue == w.queue[1..] + Outside(ParentList(store[w.queue[0]]), w.visited + {w.queue[0]})
    ensures WalkReach(store, tips, Walk(w.graph, w.visited + {w.queue[0]}, queue, []))
  {
    var curr := w.queue[0];
    forall p | p in ParentsOf(store[curr]) ensures Reachable(store, tips, p) {
      ReachableParent(store, tips, curr, p);
    }
    QueueSplit(w.queue);
  }

  /** The key order after inserting `h`: unchanged for a known hash, else
      `h` appended. */
  function Inserted(g: Graph, h: Hash): (r: seq<Hash>)
  {
    if h in g.nodes then g.keys else g.keys + [h]
  }

  /** One visit, from `w` to `w2`: the front hash becomes visited, its
      node and then its new parents are appended to the key order, the
      queue loses its front and gains the unvisited parents in line order,
      children sets only grow, and every parent named by the object has the
      visited hash among its children. */
  ghost predicate VisitStep(store: Store, w: Walk, w2: Walk)
  {
    && KeysCover(w.graph) && KeysCover(w2.graph)
    && w.queue != [] && w.queue[0] !in w.visited && w.queue[0] in store
    && w.queue[0] in w2.graph.nodes
    && w2.visited == w.visited + {w.queue[0]}
    && w2.graph.keys == AppendNew(Inserted(w.graph, w.queue[0]), ParentList(store[w.queue[0]]))
    && w2.queue == w.queue[1..] + Outside(ParentList(store[w.queue[0]]), w2.visited)
    && (forall k :: k in w.graph.nodes ==>
          k in w2.graph.nodes && w.graph.nodes[k].children <= w2.graph.nodes[k].children)
    && (forall p :: p in ParentsOf(store[w.queue[0]]) ==>
          p in w2.graph.nodes && w.queue[0] in w2.graph.nodes[p].children)
  }

  /** The separate facts `Visit` establishes make up one `VisitStep`. */
  lemma VisitStepOf(store: Store, w: Walk, w2: Walk)
    requires Wf(w.graph) && Wf(w2.graph)
    requires w.queue != [] && w.queue[0] !in w.visited && w.queue[0] in store
    requires w2.visited == w.visited + {w.queue[0]} && w2.visited <= w2.graph.nodes.Keys
    requires w2.graph.keys == AppendNew(AddNode(w.graph, w.queue[0]).keys, ParentList(store[w.queue[0]]))
    requires w2.queue == w.queue[1..] + Outside(ParentList(store[w.queue[0]]), w2.visited)
    requires forall k :: k in w.graph.nodes ==>
      k in w2.graph.nodes && w.graph.nodes[k].children <= w2.graph.nodes[k].children
    requires forall p :: p in ParentsOf(store[w.queue[0]]) ==>
      p in w2.graph.nodes && w.queue[0] in w2.graph.nodes[p].children
    ensures VisitStep(store, w, w2)
  {
    assert AddNode(w.graph, w.queue[0]).keys == Inserted(w.graph, w.queue[0]);
  }

  /** Visits the hash at the front of the queue, which has not been visited
      and whose object exists: marks it visited, makes sure it has a node,
      requests its object and links it to the parents the object names. */
  method Visit(store: Store, tips: seq<Hash>, w: Walk) returns (w': Walk)
    requires WalkInv(store, tips, w)
    requires w.queue != [] && w.queue[0] !in w.visited && w.queue[0] in store
    ensures WalkInv(store, tips, w')
    ensures w'.visited == w.visited + {w.queue[0]}
    ensures w'.graph.keys == AppendNew(AddNode(w.graph, w.queue[0]).keys, ParentList(store[w.queue[0]]))
    ensures w'.queue == w.queue[1..] + Outside(ParentList(store[w.queue[0]]), w'.visited)
    ensures forall k :: k in w.graph.nodes ==>
      k in w'.graph.nodes && w.graph.nodes[k].children <= w'.graph.nodes[k].children
    ensures forall p :: p in ParentsOf(store[w.queue[0]]) ==>
      p in w'.graph.nodes && w.queue[0] in w'.graph.nodes[p].children
  {
    var curr := w.queue[0];
    var visited := w.visited + {curr};
    var g, queue := LinkParents(AddNode(w.graph, curr), visited, w.queue[1..], curr, store[curr]);
    LinkedChildren(AddNode(w.graph, curr), curr, ParentsOf(store[curr]), g);
    VisitGraph(store, w, g, queue);
    VisitRequests(w, curr);
    VisitReach(store, tips, w, queue);
    w' := Walk(g, visited, queue, w.requested + [curr]);
  }

  /** An exhausted walk has built the whole reachable graph. */
  lemma WalkDone(store: Store, tips: seq<Hash>, w: Walk)
    requires WalkInv(store, tips, w) && w.queue == []
    ensures Wf(w.graph)
    ensures forall k :: k in w.graph.nodes <==> k in w.requested
    ensures HoldsTips(tips, w.graph.nodes.Keys)
    ensures ClosedUnderParents(store, w.graph.nodes.Keys)
    ensures forall k :: k in w.graph.nodes ==>
      k in store && w.graph.nodes[k].parents == ParentsOf(store[k])
  {
  }

  /** Requesting the object of a reachable, unvisited hash that the store
      lacks: the request list stays duplicate-free and reachable. */
  lemma WalkFail(store: Store, tips: seq<Hash>, w: Walk)
    requires WalkInv(store, tips, w) && w.queue != [] && w.queue[0] !in w.visited
    ensures Distinct(w.requested + [w.queue[0]])
    ensures forall h :: h in w.requested + [w.queue[0]] ==> Reachable(store, tips, h)
  {
  }

  /** What the walk promises for an empty tip list: no object is requested
      and the graph is empty. */
  lemma NoTipsNoGraph(store: Store, res: BuildResult, requested: seq<Hash>)
    requires forall h :: h in requested ==> Reachable(store, [], h)
    requires res.Built? ==> KeysMatch(res.graph) && forall k :: k in res.graph.nodes <==> k in requested
    requires res.ObjectNotFound? ==> Reachable(store, [], res.hash)
    ensures requested == [] && res == Built(Graph([], map[]))
  {
    if requested != [] {
      NothingReachableWithoutTips(store, requested[0]);
      assert false;
    }
    if res.ObjectNotFound? {
      NothingReachableWithoutTips(store, res.hash);
      assert false;
    }
    assert res.graph.nodes == map[];
    DistinctBounded(res.graph.keys, res.graph.nodes.Keys);
  }

  /** The key-order half of the walk. `n` tips have been popped so far and
      `rest` is the part of the queue behind the tips not yet popped. While
      tips remain, the popped tips are exactly the visited hashes; a node
      that is not visited has a child; so the childless nodes, in key
      order, are the popped tips without children in order of first
      occurrence. */
  ghost predicate WalkOrder(tips: seq<Hash>, w: Walk, n: nat, rest: seq<Hash>)
  {
    && KeysCover(w.graph)
    && n <= |tips|
    && w.queue == tips[n..] + rest
    && (forall h :: h in rest ==> h in w.graph.nodes)
    && (forall t :: t in tips[..n] ==> t in w.visited && t in w.graph.nodes)
    && (n < |tips| ==> forall v :: v in w.visited ==> v in tips[..n])
    && (forall k :: k in w.graph.nodes && k !in w.visited ==> w.graph.nodes[k].children != {})
    && Childless(w.graph, w.graph.keys) == Childless(w.graph, Dedup(tips[..n]))
  }

  lemma OrderStart(tips: seq<Hash>)
    ensures WalkOrder(tips, Walk(Graph([], map[]), {}, tips, []), 0, [])
  {
    assert tips[0..] + [] == tips;
    assert tips[..0] == [];
    assert Dedup(tips[..0]) == [];
  }

  /** Popping tip `n`, which is already visited, pops nothing new. */
  lemma OrderSkipTip(tips: seq<Hash>, w: Walk, n: nat, rest: seq<Hash>)
    requires WalkOrder(tips, w, n, rest) && n < |tips| && w.queue[0] in w.visited
    ensures WalkOrder(tips, w.(queue := w.queue[1..]), n + 1, rest)
  {
    assert w.queue[0] == tips[n] && tips[n] in tips[..n];
    assert w.queue[1..] == tips[n + 1..] + rest;
    assert tips[..n + 1] == tips[..n] + [tips[n]];
    assert tips[..n + 1][..n] == tips[..n];
    AppendNewFacts([], tips[..n]);
    assert Dedup(tips[..n + 1]) == Dedup(tips[..n]);
  }

  /** Once the tips are used up, popping a visited hash only shortens `rest`. */
  lemma OrderSkipRest(tips: seq<Hash>, w: Walk, rest: seq<Hash>)
    requires WalkOrder(tips, w, |tips|, rest) && w.queue != []
    ensures WalkOrder(tips, w.(queue := w.queue[1..]), |tips|, rest[1..])
  {
    assert tips[|tips|..] == [];
    assert w.queue == rest;
  }

  /** A visit adds no node other than the visited hash and its parents,
      and a new node that is not visited has a child. */
  lemma VisitNewNodes(store: Store, w: Walk, w2: Walk)
    requires VisitStep(store, w, w2)
    ensures forall k :: k in w2.graph.nodes ==>
      k in w.graph.nodes || k == w.queue[0] || k in ParentsOf(store[w.queue[0]])
    ensures forall k :: k in w2.graph.nodes && k !in w2.visited && k !in w.graph.nodes ==>
      w2.graph.nodes[k].children != {}
  {
    var curr := w.queue[0];
    var ks := Inserted(w.graph, curr);
    AppendNewFacts(ks, ParentList(store[curr]));
    forall k | k in w2.graph.nodes ensures k in w.graph.nodes || k == curr || k in ParentsOf(store[curr]) {
      assert k in w2.graph.keys;
      if k in ks && k != curr {
        assert k in w.graph.keys;
      }
    }
  }

  /** Keys appended for hashes that have children add no childless node. */
  lemma {:induction false} ChildlessAppendNew(g: Graph, ks: seq<Hash>, named: seq<Hash>)
    requires forall k :: k in ks ==> k in g.nodes
    requires forall p :: p in named ==> p in g.nodes && g.nodes[p].children != {}
    ensures forall k :: k in AppendNew(ks, named) ==> k in g.nodes
    ensures Childless(g, AppendNew(ks, named)) == Childless(g, ks)
  {
    var r := AppendNew(ks, named);
    AppendNewFacts(ks, named);
    var tail := r[|ks|..];
    assert r == ks + tail;
    forall k | k in tail ensures k in g.nodes && g.nodes[k].children != {} {
      var i :| 0 <= i < |tail| && tail[i] == k;
      assert r[|ks| + i] == k;
    }
    ChildlessNone(g, tail);
    ChildlessConcat(g, ks, tail);
  }

  /** When children only grow, two key lists with the same childless nodes
      keep the same childless nodes. */
  lemma ChildlessGrown(g: Graph, g2: Graph, ks: seq<Hash>, d: seq<Hash>)
    requires forall k :: k in ks ==> k in g.nodes
    requires forall k :: k in d ==> k in g.nodes
    requires forall k :: k in g.nodes ==> k in g2.nodes && g.nodes[k].children <= g2.nodes[k].children
    requires Childless(g, ks) == Childless(g, d)
    ensures Childless(g2, ks) == Childless(g2, d)
  {
    ChildlessRefine(g, g2, ks);
    ChildlessRefine(g, g2, d);
  }

  /** After a visit of `curr`, the childless keys are the old ones
      (re-checked in the new graph) followed by `curr` if it was new and has
      no children. */
  lemma ChildlessAfterVisit(g: Graph, g2: Graph, curr: Hash, named: seq<Hash>, d: seq<Hash>)
    requires KeysCover(g) && KeysCover(g2)
    requires forall k :: k in d ==> k in g.nodes
    requires Childless(g, g.keys) == Childless(g, d)
    requires curr in g2.nodes
    requires g2.keys == AppendNew(Inserted(g, curr), named)
    requires forall k :: k in g.nodes ==> k in g2.nodes && g.nodes[k].children <= g2.nodes[k].children
    requires forall p :: p in named ==> p in g2.nodes && g2.nodes[p].children != {}
    ensures Childless(g2, g2.keys) ==
      Childless(g2, d) + Childless(g2, if curr in g.nodes then [] else [curr])
  {
    var e := if curr in g.nodes then [] else [curr];
    assert Inserted(g, curr) == g.keys + e;
    ChildlessAppendNew(g2, g.keys + e, named);
    ChildlessConcat(g2, g.keys, e);
    ChildlessGrown(g, g2, g.keys, d);
  }

  /** The childless half of `OrderVisit`. */
  lemma OrderVisitChildless(store: Store, tips: seq<Hash>, w: Walk, w2: Walk, n: nat, rest: seq<Hash>)
    requires WalkOrder(tips, w, n, rest) && VisitStep(store, w, w2)
    ensures forall t :: t in tips[..if n < |tips| then n + 1 else n] ==> t in w2.graph.nodes
    ensures Childless(w2.graph, w2.graph.keys) ==
      Childless(w2.graph, Dedup(tips[..if n < |tips| then n + 1 else n]))
  {
    var curr := w.queue[0];
    var g, g2 := w.graph, w2.graph;
    var named := ParentList(store[curr]);
    var d := Dedup(tips[..n]);
    assert forall p :: p in named ==> p in g2.nodes && g2.nodes[p].children != {} by {
      forall p | p in named ensures p in g2.nodes && g2.nodes[p].children != {} {
        assert p in ParentsOf(store[curr]);
      }
    }
    ChildlessAfterVisit(g, g2, curr, named, d);
    if n < |tips| {
      assert curr == tips[n] && curr !in tips[..n];
      assert tips[..n + 1] == tips[..n] + [curr];
      DedupSnoc(tips[..n], curr);
      ChildlessConcat(g2, d, [curr]);
      if curr in g.nodes {
        ChildlessNone(g2, [curr]);
      }
    } else {
      assert tips[n..] == [] && w.queue == rest;
      ChildlessNone(g2, []);
    }
  }

  /** After a visit, a node that is not visited still has a child. */
  lemma VisitKeepsChildren(store: Store, w: Walk, w2: Walk)
    requires VisitStep(store, w, w2)
    requires forall k :: k in w.graph.nodes && k !in w.visited ==> w.graph.nodes[k].children != {}
    ensures forall k :: k in w2.graph.nodes && k !in w2.visited ==> w2.graph.nodes[k].children != {}
  {
    VisitNewNodes(store, w, w2);
  }

  /** After a visit, the hashes queued behind the tips are still nodes. */
  lemma VisitKeepsRest(store: Store, w: Walk, w2: Walk, rest: seq<Hash>)
    requires VisitStep(store, w, w2)
    requires forall h :: h in rest ==> h in w.graph.nodes
    ensures forall h :: h in rest + Outside(ParentList(store[w.queue[0]]), w2.visited) ==> h in w2.graph.nodes
  {
    forall h | h in rest + Outside(ParentList(store[w.queue[0]]), w2.visited) ensures h in w2.graph.nodes {
      if h !in rest {
        assert h in ParentsOf(store[w.queue[0]]);
      }
    }
  }

  /** Visiting tip `n` makes the first `n + 1` tips exactly the visited
      hashes, as long as tips remain. */
  lemma VisitPopsTip(store: Store, tips: seq<Hash>, w: Walk, w2: Walk, n: nat)
    requires VisitStep(store, w, w2) && n < |tips| && w.queue[0] == tips[n]
    requires forall t :: t in tips[..n] ==> t in w.visited
    requires forall v :: v in w.visited ==> v in tips[..n]
    ensures forall t :: t in tips[..n + 1] ==> t in w2.visited
    ensures forall v :: v in w2.visited ==> v in tips[..n + 1]
  {
    assert tips[..n + 1] == tips[..n] + [tips[n]];
  }

  /** Visiting a tip keeps the key-order half of the invariant, with one
      more tip popped. */
  lemma OrderVisitTip(store: Store, tips: seq<Hash>, w: Walk, w2: Walk, n: nat, rest: seq<Hash>)
    requires WalkOrder(tips, w, n, rest) && VisitStep(store, w, w2) && n < |tips|
    ensures WalkOrder(tips, w2, n + 1, rest + Outside(ParentList(store[w.queue[0]]), w2.visited))
  {
    PopShape(tips, n, rest, w.queue, Outside(ParentList(store[w.queue[0]]), w2.visited));
    VisitKeepsChildren(store, w, w2);
    VisitKeepsRest(store, w, w2, rest);
    VisitPopsTip(store, tips, w, w2, n);
    OrderVisitChildless(store, tips, w, w2, n, rest);
  }

  /** Visiting a hash queued behind the tips keeps the key-order half of
      the invariant. */
  lemma OrderVisitRest(store: Store, tips: seq<Hash>, w: Walk, w2: Walk, rest: seq<Hash>)
    requires WalkOrder(tips, w, |tips|, rest) && VisitStep(store, w, w2)
    ensures rest != []
    ensures WalkOrder(tips, w2, |tips|, rest[1..] + Outside(ParentList(store[w.queue[0]]), w2.visited))
  {
    PopShape(tips, |tips|, rest, w.queue, Outside(ParentList(store[w.queue[0]]), w2.visited));
    VisitKeepsChildren(store, w, w2);
    VisitKeepsRest(store, w, w2, rest[1..]);
    OrderVisitChildless(store, tips, w, w2, |tips|, rest);
  }

  /** Popping an already-visited hash: the order invariant holds for the
      shorter queue with the updated count and remainder. */
  lemma OrderSkip(tips: seq<Hash>, w: Walk, n: nat, rest: seq<Hash>) returns (n2: nat, rest2: seq<Hash>)
    requires WalkOrder(tips, w, n, rest) && w.queue != [] && w.queue[0] in w.visited
    ensures WalkOrder(tips, w.(queue := w.queue[1..]), n2, rest2)
  {
    if n < |tips| {
      OrderSkipTip(tips, w, n, rest);
      n2, rest2 := n + 1, rest;
    } else {
      OrderSkipRest(tips, w, rest);
      n2, rest2 := n, rest[1..];
    }
  }

  /** A visit: the order invariant holds after it with the updated count
      and remainder. */
  lemma OrderVisit(store: Store, tips: seq<Hash>, w: Walk, w2: Walk, n: nat, rest: seq<Hash>)
    returns (n2: nat, rest2: seq<Hash>)
    requires WalkOrder(tips, w, n, rest) && VisitStep(store, w, w2)
    ensures WalkOrder(tips, w2, n2, rest2)
  {
    if n < |tips| {
      OrderVisitTip(store, tips, w, w2, n, rest);
      n2, rest2 := n + 1, rest + Outside(ParentList(store[w.queue[0]]), w2.visited);
    } else {
      OrderVisitRest(store, tips, w, w2, rest);
      n2, rest2 := n, rest[1..] + Outside(ParentList(store[w.queue[0]]), w2.visited);
    }
  }

  datatype BuildResult =
    | Built(graph: Graph)
    | ObjectNotFound(hash: Hash)

  /** Builds the commit graph reachable from `tips`. `requested` lists, in
      order, every hash whose object was requested from the store. */
  method BuildCommitGraph(tips: seq<Hash>, store: Store) returns (res: BuildResult, requested: seq<Hash>)
    ensures Distinct(requested)
    ensures forall h :: h in requested ==> Reachable(store, tips, h)
    ensures res.Built? ==> Wf(res.graph)
    ensures res.Built? ==> forall k :: k in res.graph.nodes <==> k in requested
    ensures res.Built? ==> forall h :: h in res.graph.nodes <==> Reachable(store, tips, h)
    ensures res.Built? ==> HoldsTips(tips, res.graph.nodes.Keys)
    ensures res.Built? ==> Childless(res.graph, res.graph.keys) == Childless(res.graph, Dedup(tips))
    ensures res.Built? ==> ClosedUnderParents(store, res.graph.nodes.Keys)
    ensures res.Built? ==> forall k :: k in res.graph.nodes ==>
      k in store && res.graph.nodes[k].parents == ParentsOf(store[k])
    ensures res.ObjectNotFound? ==> res.hash !in store && Reachable(store, tips, res.hash)
  {
    var w := Walk(Graph([], map[]), {}, tips, []);
    ghost var n: nat, rest := 0, [];
    WalkStart(store, tips);
    OrderStart(tips);
    while w.queue != []
      invariant WalkInv(store, tips, w)
      invariant WalkOrder(tips, w, n, rest)
      decreases |store.Keys - w.visited|, |w.queue|
    {
      var curr := w.queue[0];
      if curr in w.visited {
        WalkSkip(store, tips, w);
        n, rest := OrderSkip(tips, w, n, rest);
        w := w.(queue := w.queue[1..]);
        continue;
      }
      if curr !in store {
        WalkFail(store, tips, w);
        requested := w.requested + [curr];
        return ObjectNotFound(curr), requested;
      }
      VisitShrinksUnvisited(store.Keys, w.visited, curr);
      ghost var w0 := w;
      w := Visit(store, tips, w);
      VisitStepOf(store, w0, w);
      n, rest := OrderVisit(store, tips, w0, w, n, rest);
    }
    WalkDone(store, tips, w);
    assert n == |tips| && tips[..n] == tips;
    res, requested := Built(w.graph), w.requested;
  }
}
