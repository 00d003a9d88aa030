/** The output of the tool: one line per commit in topological order, the
    commit's hash followed by the branches whose tip it is, and a sticky
    marker block wherever the next commit is not a parent of the one just
    printed. */
module RunFormat {
  import opened Seqs
  import opened Strings
  import opened CommitGraph

  /** Branch name to the hash of the commit at its tip. */
  type Branches = map<string, Hash>

  /** The names of the branches whose tip is `h`. */
  function BranchesAt(branches: Branches, h: Hash): (r: set<string>)
  {
    set b | b in branches && branches[b] == h
  }

  /** The line printed for commit `h`: the hash alone, or the hash, a space
      and the names of the branches at `h` in ascending order joined by spaces. */
  function CommitLine(branches: Branches, h: Hash): string
  {
    var names := SortedSet(BranchesAt(branches, h));
    if names == [] then h else h + " " + Join(names)
  }

  /** The first line of a marker block: the parents of the commit just
      printed, then `=`. */
  function StickyEnd(g: Graph, h: Hash): string
    requires h in g.nodes
  {
    Join(SortedSet(g.nodes[h].parents)) + "="
  }

  /** The last line of a marker block: `=`, then the children of the commit
      about to be printed. */
  function StickyStart(g: Graph, h: Hash): string
    requires h in g.nodes
  {
    "=" + Join(SortedSet(g.nodes[h].children))
  }

  /** Every entry of `order` has a node. */
  predicate InGraph(g: Graph, order: seq<Hash>)
  {
    forall i :: 0 <= i < |order| ==> order[i] in g.nodes
  }

  /** The chain breaks before position `i`: `order[i]` is not a parent of
      the commit printed just before it. */
  predicate IsBreak(g: Graph, order: seq<Hash>, i: int)
    requires InGraph(g, order) && 0 < i < |order|
  {
    order[i] !in g.nodes[order[i - 1]].parents
  }

  /** The number of breaks among the first `n` positions. */
  function BreaksBefore(g: Graph, order: seq<Hash>, n: nat): nat
    requires InGraph(g, order) && n <= |order|
  {
    if n <= 1 then 0
    else BreaksBefore(g, order, n - 1) + (if IsBreak(g, order, n - 1) then 1 else 0)
  }

  /** The index of the line on which the commit at position `i` appears:
      one line per earlier commit and three per break up to and including `i`. */
  function LinePos(g: Graph, order: seq<Hash>, i: nat): nat
    requires InGraph(g, order) && i < |order|
  {
    i + 3 * BreaksBefore(g, order, i + 1)
  }

  /** Consecutive commits are one line apart, or four across a break: the
      three lines in between are exactly the marker block. */
  lemma LinePosStep(g: Graph, order: seq<Hash>, i: nat)
    requires InGraph(g, order) && 0 < i < |order|
    ensures LinePos(g, order, i) == LinePos(g, order, i - 1) + (if IsBreak(g, order, i) then 4 else 1)
  {
  }

  /** The block printed for commit `n > 0`: a marker block if the chain
      breaks there, then the commit's own line. */
  function Block(g: Graph, order: seq<Hash>, branches: Branches, n: nat): (r: seq<string>)
    requires InGraph(g, order) && 0 < n < |order|
    ensures |r| == if IsBreak(g, order, n) then 4 else 1
    ensures r[|r| - 1] == CommitLine(branches, order[n])
  {
    (if IsBreak(g, order, n)
     then [StickyEnd(g, order[n - 1]), "", StickyStart(g, order[n])]
     else []) + [CommitLine(branches, order[n])]
  }

  /** The output for the first `n` commits, block by block. */
  function Expected(g: Graph, order: seq<Hash>, branches: Branches, n: nat): seq<string>
    requires InGraph(g, order) && 0 < n <= |order|
  {
    if n == 1 then [CommitLine(branches, order[0])]
    else Expected(g, order, branches, n - 1) + Block(g, order, branches, n - 1)
  }

  /** The output for `n` commits ends with the line of commit `n - 1`. */
  lemma {:induction false} ExpectedLength(g: Graph, order: seq<Hash>, branches: Branches, n: nat)
    requires InGraph(g, order) && 0 < n <= |order|
    ensures |Expected(g, order, branches, n)| == LinePos(g, order, n - 1) + 1
  {
    if n > 1 {
      ExpectedLength(g, order, branches, n - 1);
      LinePosStep(g, order, n - 1);
    }
  }

  /** Later output only appends: the output for `n` commits is a prefix of
      the output for `m >= n` commits. */
  lemma {:induction false} ExpectedPrefix(g: Graph, order: seq<Hash>, branches: Branches, n: nat, m: nat)
    requires InGraph(g, order) && 0 < n <= m <= |order|
    ensures Expected(g, order, branches, n) <= Expected(g, order, branches, m)
    decreases m
  {
    if n < m {
      ExpectedPrefix(g, order, branches, n, m - 1);
      PrefixOfConcat(Expected(g, order, branches, n), Expected(g, order, branches, m - 1),
                     Block(g, order, branches, m - 1));
    }
  }

  /** Commit `j` is printed on line `LinePos(j)`. */
  lemma ExpectedCommit(g: Graph, order: seq<Hash>, branches: Branches, n: nat, j: nat)
    requires InGraph(g, order) && j < n <= |order|
    ensures LinePos(g, order, j) < |Expected(g, order, branches, n)|
    ensures Expected(g, order, branches, n)[LinePos(g, order, j)] == CommitLine(branches, order[j])
  {
    var upto := Expected(g, order, branches, j + 1);
    ExpectedLength(g, order, branches, j + 1);
    if j > 0 {
      var block := Block(g, order, branches, j);
      assert upto == Expected(g, order, branches, j) + block;
      assert upto[|upto| - 1] == block[|block| - 1];
    }
    ExpectedPrefix(g, order, branches, j + 1, n);
    PrefixIndex(upto, Expected(g, order, branches, n), LinePos(g, order, j));
  }

  /** A break before commit `j` puts the three marker lines just above its line. */
  lemma ExpectedMarkers(g: Graph, order: seq<Hash>, branches: Branches, n: nat, j: nat)
    requires InGraph(g, order) && 0 < j < n <= |order| && IsBreak(g, order, j)
    ensures 3 <= LinePos(g, order, j) < |Expected(g, order, branches, n)|
    ensures Expected(g, order, branches, n)[LinePos(g, order, j) - 3] == StickyEnd(g, order[j - 1])
    ensures Expected(g, order, branches, n)[LinePos(g, order, j) - 2] == ""
    ensures Expected(g, order, branches, n)[LinePos(g, order, j) - 1] == StickyStart(g, order[j])
  {
    var prev := Expected(g, order, branches, j);
    var block := Block(g, order, branches, j);
    var upto := Expected(g, order, branches, j + 1);
    var all := Expected(g, order, branches, n);
    var pos := LinePos(g, order, j);
    assert upto == prev + block;
    ExpectedLength(g, order, branches, j);
    ExpectedLength(g, order, branches, j + 1);
    LinePosStep(g, order, j);
    assert pos - 3 == |prev|;
    ExpectedPrefix(g, order, branches, j + 1, n);
    PrefixIndex(upto, all, pos - 3);
    PrefixIndex(upto, all, pos - 2);
    PrefixIndex(upto, all, pos - 1);
    assert upto[pos - 3] == block[0] && upto[pos - 2] == block[1] && upto[pos - 1] == block[2];
  }

  lemma {:induction false} LinePosMonotone(g: Graph, order: seq<Hash>, j: nat, n: nat)
    requires InGraph(g, order) && j < n < |order|
    ensures LinePos(g, order, j) < LinePos(g, order, n)
    decreases n - j
  {
    LinePosStep(g, order, n);
    if j < n - 1 {
      LinePosMonotone(g, order, j, n - 1);
    }
  }

  /** The layout of the whole output: `n + 3 * breaks` lines, no marker
      block before the first commit, commit `i` on line `LinePos(i)`, and
      the marker block on the three lines above it exactly when the chain
      breaks before `i`. */
  lemma ExpectedLayout(g: Graph, order: seq<Hash>, branches: Branches)
    requires |order| > 0 && InGraph(g, order)
    ensures var lines := Expected(g, order, branches, |order|);
      && |lines| == |order| + 3 * BreaksBefore(g, order, |order|)
      && LinePos(g, order, 0) == 0
      && (forall i :: 0 < i < |order| ==>
            LinePos(g, order, i) == LinePos(g, order, i - 1) + (if IsBreak(g, order, i) then 4 else 1))
      && (forall i :: 0 <= i < |order| ==>
            LinePos(g, order, i) < |lines| && lines[LinePos(g, order, i)] == CommitLine(branches, order[i]))
      && (forall i :: 0 < i < |order| && IsBreak(g, order, i) ==>
            && 3 <= LinePos(g, order, i) < |lines|
            && lines[LinePos(g, order, i) - 3] == StickyEnd(g, order[i - 1])
            && lines[LinePos(g, order, i) - 2] == ""
            && lines[LinePos(g, order, i) - 1] == StickyStart(g, order[i]))
  {
    var lines := Expected(g, order, branches, |order|);
    ExpectedLength(g, order, branches, |order|);
    forall i | 0 < i < |order| ensures
      LinePos(g, order, i) == LinePos(g, order, i - 1) + (if IsBreak(g, order, i) then 4 else 1)
    {
      LinePosStep(g, order, i);
    }
    forall i | 0 <= i < |order| ensures
      LinePos(g, order, i) < |lines| && lines[LinePos(g, order, i)] == CommitLine(branches, order[i])
    {
      ExpectedCommit(g, order, branches, |order|, i);
    }
    forall i | 0 < i < |order| && IsBreak(g, order, i) ensures
      && 3 <= LinePos(g, order, i) < |lines|
      && lines[LinePos(g, order, i) - 3] == StickyEnd(g, order[i - 1])
      && lines[LinePos(g, order, i) - 2] == ""
      && lines[LinePos(g, order, i) - 1] == StickyStart(g, order[i])
    {
      ExpectedMarkers(g, order, branches, |order|, i);
    }
  }

  /** Prints the sorted commits: the first commit's line, then for every
      further commit a marker block when it is not a parent of the commit
      printed just before it, then its own line. The output is returned as
      its list of lines. */
  method PrintCommits(g: Graph, order: seq<Hash>, branches: Branches) returns (lines: seq<string>)
    requires |order| > 0 && InGraph(g, order)
    ensures lines == Expected(g, order, branches, |order|)
    ensures |lines| == |order| + 3 * BreaksBefore(g, order, |order|)
    ensures forall i :: 0 <= i < |order| ==>
      LinePos(g, order, i) < |lines| && lines[LinePos(g, order, i)] == CommitLine(branches, order[i])
    ensures forall i :: 0 < i < |order| && IsBreak(g, order, i) ==>
      && 3 <= LinePos(g, order, i) < |lines|
      && lines[LinePos(g, order, i) - 3] == StickyEnd(g, order[i - 1])
      && lines[LinePos(g, order, i) - 2] == ""
      && lines[LinePos(g, order, i) - 1] == StickyStart(g, order[i])
  {
    lines := RenderLines(g, order, branches);
    ExpectedLayout(g, order, branches);
  }

  /** The loop of `PrintCommits`, collecting the lines block by block. */
  method RenderLines(g: Graph, order: seq<Hash>, branches: Branches) returns (lines: seq<string>)
    requires |order| > 0 && InGraph(g, order)
    ensures lines == Expected(g, order, branches, |order|)
  {
    var last := order[0];
    lines := [CommitLine(branches, last)];
    var i := 1;
    while i < |order|
      invariant 1 <= i <= |order|
      invariant last == order[i - 1]
      invariant lines == Expected(g, order, branches, i)
    {
      var commit := order[i];
      if commit !in g.nodes[last].parents {
        lines := lines + [StickyEnd(g, last), "", StickyStart(g, commit)];
      }
      lines := lines + [CommitLine(branches, commit)];
      last := commit;
      i := i + 1;
    }
  }

  /** The commit line is the hash and the sorted branch names, joined by spaces. */
  lemma CommitLineIsJoin(branches: Branches, h: Hash)
    ensures CommitLine(branches, h) == Join([h] + SortedSet(BranchesAt(branches, h)))
  {
    var names := SortedSet(BranchesAt(branches, h));
    if names != [] {
      assert ([h] + names)[1..] == names;
    }
  }

  /** Read back, a commit line gives its hash first and then exactly the
      branches whose tip it is, each once, in ascending order. */
  lemma CommitLineTokens(branches: Branches, h: Hash)
    requires SpaceFree(h)
    requires forall b :: b in branches ==> SpaceFree(b)
    ensures var t := Split(CommitLine(branches, h));
      && |t| > 0 && t[0] == h
      && StrictlySorted(t[1..])
      && (forall b :: b in t[1..] <==> b in branches && branches[b] == h)
  {
    var at := BranchesAt(branches, h);
    assert forall b :: b in at <==> b in branches && branches[b] == h;
    var names := SortedSet(at);
    var xs := [h] + names;
    CommitLineIsJoin(branches, h);
    forall i | 0 <= i < |xs| ensures SpaceFree(xs[i]) {
      if i > 0 {
        assert xs[i] == names[i - 1];
      }
    }
    SplitJoin(xs);
    assert xs[1..] == names;
  }

  /** Read back, the first marker line is a body followed by `=`, and the
      body splits into exactly the parents of the commit printed before the
      break, each once, in ascending order. */
  lemma StickyEndTokens(g: Graph, h: Hash)
    requires h in g.nodes && g.nodes[h].parents != {}
    requires forall p :: p in g.nodes[h].parents ==> SpaceFree(p)
    ensures exists body :: StickyEnd(g, h) == body + "=" && Split(body) == SortedSet(g.nodes[h].parents)
  {
    var ps := SortedSet(g.nodes[h].parents);
    forall i | 0 <= i < |ps| ensures SpaceFree(ps[i]) {
      assert ps[i] in g.nodes[h].parents;
    }
    SplitJoin(ps);
    assert StickyEnd(g, h) == Join(ps) + "=" && Split(Join(ps)) == ps;
  }

  /** Read back, the last marker line is `=` followed by a body, and the
      body splits into exactly the children of the commit printed after the
      break, each once, in ascending order. */
  lemma StickyStartTokens(g: Graph, h: Hash)
    requires h in g.nodes && g.nodes[h].children != {}
    requires forall c :: c in g.nodes[h].children ==> SpaceFree(c)
    ensures exists body :: StickyStart(g, h) == "=" + body && Split(body) == SortedSet(g.nodes[h].children)
  {
    var cs := SortedSet(g.nodes[h].children);
    forall i | 0 <= i < |cs| ensures SpaceFree(cs[i]) {
      assert cs[i] in g.nodes[h].children;
    }
    SplitJoin(cs);
    assert StickyStart(g, h) == "=" + Join(cs) && Split(Join(cs)) == cs;
  }
}
