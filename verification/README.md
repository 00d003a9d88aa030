# topo-order-commits in Dafny

A model of the core of `topo_order_commits.py`. The tool lists the commits of
a git repository in topological order, newest first. After each commit hash
it prints the branches whose tip that commit is. A "sticky" marker block goes
wherever the next commit printed is not a parent of the one just printed.

The core has three stages. Each is a Dafny module, with two small support
modules underneath:

- `CommitGraph` covers `CommitNode` and `build_commit_graph`.
  - The graph is an arena: `Graph(keys, nodes)`. `nodes` maps each hash to a
    `CommitNode(parents, children)`, whose edges are sets of hashes.
  - `keys` lists the hashes in the order they were first inserted. That is the
    iteration order of the Python dict, and the sort depends on it.
  - `read_commit` becomes a `Store`: a map from each hash that has an object
    to the decoded lines of that object.
  - The breadth-first walk is `BuildCommitGraph`. Besides the graph, it
    returns the list of hashes whose objects it requested, in order.
  - A hash with no object ends the walk with `ObjectNotFound`.
- `TopoSort` covers `sort`: reverse Kahn.
  - Every node has a counter of its children not yet emitted.
  - The queue is seeded with the childless nodes, in insertion order.
  - Popping the front emits it. Then the counters of its parents are
    decremented in ascending hash order, and a parent is queued when its
    counter reaches zero.
- `RunFormat` covers `print_commits`.
  - The printed output is returned as a list of lines.
  - It is compared with a block-by-block reference (`Expected`) and with a
    positional description: commit `i` goes on line
    `i + 3 * (breaks up to i)`, and the marker lines go on the three lines
    above it.
- `Strings` models three Python string operations:
  - `pat in s`;
  - the ordering `<` on `str` and `sorted` over a set of strings;
  - `" ".join`, together with the split that reads a line back.
- `Seqs` holds facts about duplicate-free sequences, including the
  pigeonhole principle.

The two parts of a commit line, the hash and the branch names, are built by
joining with spaces, as in the code. Three lemmas read them back:
`CommitLineTokens`, `StickyEndTokens` and `StickyStartTokens`.

In a git commit object, a parent header line begins with `parent `. The
code instead tests for that substring anywhere in the line, then drops the
first seven characters. The model follows the code: `IsParentLine` is
`Contains(line, "parent ")`, and `ParentTokenAnywhere` states the
consequence.

The walk's key order is modelled exactly. `AppendNew(ks, ps)` is `ks`
followed by the new elements of `ps`, in order. Each visit appends the
visited hash if it has no node yet, then the parents its object names. As a
consequence, the childless nodes appear in `keys` in the order in which
they first occur among the tips. `TopoSort.Seeds` is exactly that list, so
it is where the sort starts.

`RenderLines` is the loop inside `PrintCommits`. Its contract ties the loop
to the block-by-block reference `Expected`, and `PrintCommits` states the
resulting layout.

## Model

| member | source | states |
|---|---|---|
| `Strings.Contains` | topo_order_commits.py:88 | Python's `pat in s`: true exactly when `pat` occurs in `s` at some index |
| `Strings.LessIsStrictTotalOrder` | topo_order_commits.py:29-30 | the hash comparison used by `CommitNode.__lt__` is irreflexive, transitive and total, so `sorted` over hashes is well defined |
| `Strings.SortedSet` | topo_order_commits.py:119 | `sorted(...)` of a set yields a sequence of the same size with exactly the set's elements in strictly ascending order |
| `Strings.SortedSetUnique` | topo_order_commits.py:132-133 | any strictly ascending sequence with exactly the elements of a set is `SortedSet` of that set: the sorted order is the only one |
| `Strings.SplitJoin` | topo_order_commits.py:135 | splitting a `" ".join` of space-free pieces on spaces gives the pieces back |
| `CommitGraph.AddNode` | topo_order_commits.py:81-82 | a node is created only for a new hash: an existing node and every other node stay as they were, a new node has no edges, and the graph stays well formed |
| `CommitGraph.AddEdge` | topo_order_commits.py:97-99 | linking adds `p` to the child's parents and the child to `p`'s children, and leaves the parents of every other node and the key order unchanged |
| `CommitGraph.AddEdgeWf` | topo_order_commits.py:97-99 | after linking, every edge still leads to a node and `b` is a parent of `a` exactly when `a` is a child of `b` |
| `Seqs.AppendNewFacts` | topo_order_commits.py:79-93 | inserting hashes into the graph dict one after another keeps the old key order as a prefix, a key is present exactly when it was there before or was inserted, every appended key was new, and no key appears twice |
| `CommitGraph.Childless` | topo_order_commits.py:113 | the childless nodes among the given keys, in key order, with no repeats when the keys have none |
| `CommitGraph.ParentsOfMeaning` | topo_order_commits.py:85-89 | a hash is among the parents an object names exactly when one of its lines contains `parent ` and, without its first seven characters, is that hash |
| `CommitGraph.ParentLineRoundTrip` | topo_order_commits.py:88-89 | the line `parent <h>` is a parent line and names exactly `h` |
| `CommitGraph.ParentTokenAnywhere` | topo_order_commits.py:88-89 | any line with `parent ` somewhere inside is a parent line, and the hash taken is still the line without its first seven characters |
| `CommitGraph.LinkLine` | topo_order_commits.py:88-99 | one line of a commit object: a parent line appends its parent to the queue if not yet visited (even when it is already queued), appends its key if the node is new, and links both directions; any other line changes nothing |
| `CommitGraph.LinkedChildren` | topo_order_commits.py:97-99 | linking only adds children, and every named parent gets the current commit as a child |
| `CommitGraph.ScanStep` | topo_order_commits.py:87-99 | scanning the first `i` lines and then line `i` has the same effect on links, key order and queue as scanning the first `i + 1` lines |
| `CommitGraph.LinkParents` | topo_order_commits.py:87-99 | after all lines are scanned, the current commit's parents are its old parents plus exactly the parents its object names; new nodes have no parents; the parents of other nodes are unchanged; the keys gain the new parents in line order; the queue gains every named parent not yet visited, in line order with repeats kept; the graph stays well formed |
| `CommitGraph.WalkSkip` | topo_order_commits.py:75-78 | popping an already visited hash keeps every invariant of the walk |
| `CommitGraph.Visit` | topo_order_commits.py:73-99 | visiting an unvisited hash whose object exists adds it to the visited set, requests its object once and keeps every invariant of the walk; the keys gain the hash if it is new and then its new parents in line order; the queue loses its front and gains the unvisited parents in line order; children sets only grow, and each named parent gets the hash as a child |
| `CommitGraph.OrderSkipTip` | topo_order_commits.py:73-76 | popping a tip that is already visited keeps the key-order invariant: while tips remain, the popped tips are exactly the visited hashes; an unvisited node has a child; and the childless keys are the childless popped tips in first-occurrence order |
| `CommitGraph.OrderVisitTip` | topo_order_commits.py:73-99 | visiting a tip keeps the same key-order invariant with one more tip popped |
| `CommitGraph.OrderVisitRest` | topo_order_commits.py:73-99 | once the tips are used up, visiting a queued parent keeps the key-order invariant |
| `CommitGraph.BuildCommitGraph` | topo_order_commits.py:69-101 | no object is requested twice; every request is for a tip or an ancestor of one; a built graph is well formed, holds every tip, is closed under parents, has a node for exactly the reachable hashes (which are exactly the requested ones), lists its childless nodes in the order in which they first occur among the tips, and gives each node exactly the parents its object names; a missing object is reported for a reachable hash absent from the store |
| `CommitGraph.NoTipsNoGraph` | topo_order_commits.py:72-74 | with no tips, whatever `BuildCommitGraph` promises forces an empty graph and no object requests |
| `TopoSort.Seeds` | topo_order_commits.py:113 | the initial queue holds each node without children exactly once |
| `TopoSort.PopStep` | topo_order_commits.py:116-117 | emitting the front of the queue keeps the children-first order, and every counter then equals the number of unemitted children, plus one for each parent not yet released |
| `TopoSort.ReleaseParents` | topo_order_commits.py:119-122 | decrementing the counters of the sorted parents leaves the other counters unchanged, appends exactly the parents whose counter reached zero, in ascending order, and makes a node emitted-or-queued exactly when its counter is zero |
| `TopoSort.ChildBeforeParent` | topo_order_commits.py:106-124 | in an output that lists children first, every child stands before each of its parents |
| `TopoSort.AcyclicAllEmitted` | topo_order_commits.py:115-122 | on an acyclic graph, when every node is emitted exactly when all its children are, every node is emitted |
| `TopoSort.Sort` | topo_order_commits.py:106-124 | no hash is emitted twice; only nodes are emitted; every child comes before its parents; a node is emitted exactly when all its children are; the output starts with the childless nodes in insertion order; on an acyclic graph every node is emitted, so the output lists each node once |
| `RunFormat.Block` | topo_order_commits.py:139-154 | each later commit contributes four lines after a break and one line otherwise, ending with its own commit line |
| `RunFormat.ExpectedLength` | topo_order_commits.py:139-155 | the output for the first `n` commits ends on the line of commit `n - 1` |
| `RunFormat.ExpectedPrefix` | topo_order_commits.py:139-155 | printing more commits only appends lines |
| `RunFormat.ExpectedCommit` | topo_order_commits.py:148-154 | commit `j` is printed on line `LinePos(j)` |
| `RunFormat.ExpectedMarkers` | topo_order_commits.py:140-146 | before a commit that is not a parent of the previous one, the three lines above it are the previous commit's parents followed by `=`, a blank line, and `=` followed by the commit's children |
| `RunFormat.LinePosMonotone` | topo_order_commits.py:139-155 | commits appear in the output in the order given |
| `RunFormat.ExpectedLayout` | topo_order_commits.py:128-155 | the output has `n + 3 * breaks` lines; the first commit is on line 0 with no marker block above it; consecutive commits are four lines apart across a break and one line apart otherwise; every commit and marker line is where the positional description puts it |
| `RunFormat.PrintCommits` | topo_order_commits.py:128-155 | for a non-empty order, the output is the reference output: `n + 3 * breaks` lines, commit `i` on line `LinePos(i)`, and a marker block exactly above each commit that is not a parent of its predecessor |
| `RunFormat.CommitLineIsJoin` | topo_order_commits.py:131-135 | a commit line is the hash and the sorted branch names joined by single spaces |
| `RunFormat.CommitLineTokens` | topo_order_commits.py:148-152 | read back, a commit line gives its hash first, then exactly the branches at that commit, each once and in ascending order |
| `RunFormat.StickyEndTokens` | topo_order_commits.py:141-142 | read back, the first marker line is a body followed by `=`, and the body splits into exactly the parents of the commit before the break, each once, in ascending order |
| `RunFormat.StickyStartTokens` | topo_order_commits.py:145-146 | read back, the last marker line is `=` followed by a body, and the body splits into exactly the children of the commit after the break, each once, in ascending order |

## Left out

- Finding the repository, listing branches and reading objects
  (`topo_order_commits.py:34-65`). These are file-system I/O and zlib
  decompression. The store of decoded object lines is a parameter in their
  place.
- `bytes.decode` and `splitlines` (line 85). Each object in the store is
  already a list of lines.
- The driver `topo_order_commits` (lines 158-177). It does the I/O and
  calls the three stages in turn. That includes its `os.chdir` on the
  not-found value -1, which raises instead of halting cleanly.
- Printing to standard output. `PrintCommits` returns the lines instead.
- StickyEnd: the code joins the hashes of a marker line in Python set
  iteration order, which is unspecified. The model uses ascending order, so
  the ascending order that `StickyEndTokens` and `StickyStartTokens` state is
  the model's choice, not a promise of the code. Which hashes a marker line
  lists is the code's own behaviour.
- StickyStart: same as StickyEnd, for the children listed after the `=`.
- `RunFormat.StickyEndTokens`, `RunFormat.StickyStartTokens`: these assume
  a non-empty set of hashes without spaces. For an empty set the line is just
  `=`, and a line cannot be read back into hashes that contain spaces.
- `RunFormat.CommitLineTokens`: this assumes hashes and branch names without
  spaces.
- `CommitGraph.BuildCommitGraph`: the contract states only the order of
  the childless keys, which is the order the sort starts from. The full key
  order is stated one visit at a time by `Visit`, not for the whole walk.
- `TopoSort.Sort`: the contract says which nodes are emitted and that
  children come first. The particular order among the valid ones is fixed
  step by step by `ReleaseParents` and the FIFO queue, but no single lemma
  states it.
- `TopoSort.Sort`: the behaviour on cyclic graphs is not described beyond
  the general guarantees (children first, no repeats). Completeness is
  stated only for acyclic graphs. A git history cannot contain a cycle.
- `PrintCommits` requires a non-empty order, as the code does: it reads
  `sorted_commits[0]` first, so an empty repository raises `IndexError`.
- Aliasing: the code pops from `branch_tips`, which is the caller's list.
  The model works on a copy.
- Node identity: `CommitNode` objects are compared by identity in the code.
  The model identifies a node by its hash. The graph holds one node per
  hash, so this is the same relation.
