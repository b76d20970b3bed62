/** What the import-cycle gate reports: exactly the components of two or more files, and their chains. */
module CycleReport {
  import opened ImportGraph
  import opened ImportCycles
  import opened Lexicographic

  /** A round trip that leaves its first file. */
  ghost predicate HasCycle(g: Graph) {
    exists p, i :: IsPath(g, p) && p[0] == p[|p| - 1] && 0 <= i < |p| && p[i] != p[0]
  }

  ghost predicate Together(sccs: seq<seq<File>>, x: File, y: File) {
    exists c :: c in sccs && x in c && y in c
  }

  ghost predicate AllComponents(g: Graph, sccs: seq<seq<File>>) {
    forall c | c in sccs :: |c| > 1 && Distinct(c) && IsScc(g, Elems(c))
  }

  ghost predicate AllPairs(g: Graph, sccs: seq<seq<File>>) {
    forall x, y {:trigger Mutual(g, x, y)} | x != y && Mutual(g, x, y) :: Together(sccs, x, y)
  }

  /** Components are completed before the ones that import them. */
  ghost predicate ReverseTopological(g: Graph, sccs: seq<seq<File>>) {
    forall i, j, x, y | 0 <= i < j < |sccs| && x in sccs[i] && y in sccs[j] :: !Reach(g, x, y)
  }

  method FindCycles(graph: Graph) returns (sccs: seq<seq<File>>)
    ensures AllComponents(graph, sccs) && AllPairs(graph, sccs) && ReverseTopological(graph, sccs)
    ensures forall i, j, x | 0 <= i < j < |sccs| && x in sccs[i] :: x !in sccs[j]
    ensures sccs == [] <==> !HasCycle(graph)
  {
    var finder := new CycleFinder(graph);
    var nodes := graph.Keys;
    while nodes != {}
      invariant finder.graph == graph && finder.Valid({}) && finder.stack == []
      invariant nodes <= graph.Keys && graph.Keys - nodes <= finder.index.Keys
      decreases nodes
    {
      var node :| node in nodes;
      nodes := nodes - {node};
      if node !in finder.index {
        finder.StrongConnect(node, {});
        NothingOpen(graph, finder.index, finder.stack);
      }
    }
    sccs := finder.sccs;
    SearchedAll(graph, finder.index.Keys - Elems(finder.stack), sccs);
    NoFileTwice(graph, sccs);
    EmptyMeansAcyclic(graph, sccs);
  }

  /** With no call open, the stack is empty. */
  lemma NothingOpen(g: Graph, index: map<File, nat>, stack: seq<File>)
    requires StackOk(g, index, stack, {})
    ensures stack == []
  {
    assert stack == [] || HasAnchor(g, index, {}, stack[0]);
  }

  lemma SearchedAll(g: Graph, done: set<File>, sccs: seq<seq<File>>)
    requires DoneOk(g, done, sccs) && g.Keys <= done
    ensures AllComponents(g, sccs) && AllPairs(g, sccs) && ReverseTopological(g, sccs)
  {
    forall x, y | x != y && Mutual(g, x, y)
      ensures Together(sccs, x, y)
    {
      ReachFromKey(g, x, y);
      ReachFromKey(g, y, x);
      assert Reported(sccs, x);
      var c :| c in sccs && x in c;
      assert x in Elems(c) && y in Elems(c);
    }
  }

  lemma NoFileTwice(g: Graph, sccs: seq<seq<File>>)
    requires ReverseTopological(g, sccs)
    ensures forall i, j, x | 0 <= i < j < |sccs| && x in sccs[i] :: x !in sccs[j]
  {
    forall i, j, x | 0 <= i < j < |sccs| && x in sccs[i]
      ensures x !in sccs[j]
    {
      ReachSelf(g, x);
    }
  }

  lemma PathReaches(g: Graph, p: seq<File>, i: nat, j: nat)
    requires IsPath(g, p) && i <= j < |p|
    ensures Reach(g, p[i], p[j])
  {
    assert IsPath(g, p[i..j + 1]);
  }

  lemma MutualIsCycle(g: Graph, x: File, y: File)
    requires x != y && Mutual(g, x, y)
    ensures HasCycle(g)
  {
    var p :| IsPath(g, p) && p[0] == x && p[|p| - 1] == y;
    var q :| IsPath(g, q) && q[0] == y && q[|q| - 1] == x;
    JoinPaths(g, p, q);
    var r := p + q[1..];
    assert r[0] == r[|r| - 1] && r[|p| - 1] != r[0];
  }

  lemma CycleIsMutual(g: Graph)
    ensures HasCycle(g) <==> exists x, y :: x != y && Mutual(g, x, y)
  {
    hide Reach;
    if HasCycle(g) {
      var p, i :| IsPath(g, p) && p[0] == p[|p| - 1] && 0 <= i < |p| && p[i] != p[0];
      PathReaches(g, p, 0, i);
      PathReaches(g, p, i, |p| - 1);
      assert Mutual(g, p[0], p[i]);
    }
    if x, y :| x != y && Mutual(g, x, y) {
      MutualIsCycle(g, x, y);
    }
  }

  lemma EmptyMeansAcyclic(g: Graph, sccs: seq<seq<File>>)
    requires AllComponents(g, sccs) && AllPairs(g, sccs)
    ensures sccs == [] <==> !HasCycle(g)
  {
    CycleIsMutual(g);
    if sccs != [] {
      var c := sccs[0];
      assert c[0] in Elems(c) && c[1] in Elems(c) && Mutual(g, c[0], c[1]);
    }
    if x, y :| x != y && Mutual(g, x, y) {
      assert Together(sccs, x, y);
    }
  }

  /** The contract of `FindCycles` leaves no choice: it names the same components for every search order. */
  lemma ReportIsUnique(g: Graph, a: seq<seq<File>>, b: seq<seq<File>>)
    requires AllComponents(g, a) && AllPairs(g, a) && AllComponents(g, b) && AllPairs(g, b)
    ensures forall c | c in a :: exists d :: d in b && Elems(d) == Elems(c)
  {
    forall c | c in a
      ensures exists d :: d in b && Elems(d) == Elems(c)
    {
      assert c[0] in Elems(c) && c[1] in Elems(c) && Mutual(g, c[0], c[1]);
      assert Together(b, c[0], c[1]);
      var d :| d in b && c[0] in d && c[1] in d;
      assert c[0] in Elems(d);
      assert forall y :: y in Elems(c) <==> Mutual(g, c[0], y);
      assert forall y :: y in Elems(d) <==> Mutual(g, c[0], y);
      assert Elems(c) == Elems(d);
    }
  }

  // ----- The printed chain -----

  /** `next` is the first import of `current`, in import order, still open to a chain through `cycle`. */
  ghost predicate FirstOpen(g: Graph, cycle: set<File>, visited: set<File>, current: File, next: File) {
    current in g &&
    exists i :: 0 <= i < |g[current]| && g[current][i] == next
      && next in cycle && next !in visited
      && forall j | 0 <= j < i :: g[current][j] !in cycle || g[current][j] in visited
  }

  ghost predicate Stuck(g: Graph, cycle: set<File>, visited: set<File>, current: File) {
    forall w | w in cycle && Edge(g, current, w) :: w in visited
  }

  /** A walk that starts at `walk[0]` and greedily takes the first open import at every step. */
  ghost predicate Greedy(g: Graph, cycle: set<File>, walk: seq<File>) {
    && |walk| > 0 && Distinct(walk) && Elems(walk) <= cycle
    && forall k | 0 < k < |walk| :: FirstOpen(g, cycle, Elems(walk[..k]), walk[k - 1], walk[k])
  }

  /** The chain printed from `start`: a greedy walk that cannot go on, and `start` again. */
  ghost predicate Prints(g: Graph, cycle: set<File>, start: File, chain: seq<File>) {
    && |chain| >= 2 && chain[0] == chain[|chain| - 1] == start
    && Greedy(g, cycle, chain[..|chain| - 1])
    && Stuck(g, cycle, Elems(chain[..|chain| - 1]), chain[|chain| - 2])
  }

  /** The step a chain closes with is an import. */
  ghost predicate Closes(g: Graph, chain: seq<File>) {
    |chain| >= 2 && Edge(g, chain[|chain| - 2], chain[|chain| - 1])
  }

  datatype Choice = Found(file: File) | NoneOpen

  /** The first file of the sorted cycle. */
  function Earliest(cycle: seq<File>): (f: File)
    requires cycle != []
    ensures f in cycle && forall h | h in cycle :: h == f || Precedes(f.path, h.path)
  {
    if |cycle| == 1 then cycle[0]
    else
      var f := Earliest(cycle[1..]);
      assert cycle == [cycle[0]] + cycle[1..];
      PrecedesTotal(f.path, cycle[0].path);
      if Precedes(f.path, cycle[0].path) then f
      else
        EarlierThanRest(cycle[0], f, cycle[1..]);
        cycle[0]
  }

  lemma EarlierThanRest(a: File, f: File, rest: seq<File>)
    requires a == f || Precedes(a.path, f.path)
    requires forall h | h in rest :: h == f || Precedes(f.path, h.path)
    ensures forall h | h in rest :: h == a || Precedes(a.path, h.path)
  {
    forall h | h in rest && h != f && a != f
      ensures Precedes(a.path, h.path)
    {
      PrecedesTrans(a.path, f.path, h.path);
    }
  }

  method NextOpen(g: Graph, cycle: set<File>, visited: set<File>, current: File) returns (r: Choice)
    ensures r.Found? ==> FirstOpen(g, cycle, visited, current, r.file)
    ensures r.NoneOpen? ==> Stuck(g, cycle, visited, current)
  {
    var imports := Imports(g, current);
    for i := 0 to |imports|
      invariant forall j | 0 <= j < i :: imports[j] !in cycle || imports[j] in visited
    {
      if imports[i] in cycle && imports[i] !in visited {
        return Found(imports[i]);
      }
    }
    return NoneOpen;
  }

  lemma ExtendGreedy(g: Graph, cycle: set<File>, walk: seq<File>, next: File)
    requires Greedy(g, cycle, walk) && FirstOpen(g, cycle, Elems(walk), walk[|walk| - 1], next)
    ensures Greedy(g, cycle, walk + [next])
  {
    var w := walk + [next];
    assert next !in walk && next in cycle;
    forall k | 0 < k < |w|
      ensures FirstOpen(g, cycle, Elems(w[..k]), w[k - 1], w[k])
    {
      assert w[..k] == walk[..k];
      assert k == |walk| ==> walk[..k] == walk;
    }
  }

  /** A walk without repeats is no longer than the cycle it stays in. */
  lemma WalkFits(walk: seq<File>, cycle: seq<File>)
    requires Distinct(walk) && Elems(walk) <= Elems(cycle)
    ensures |walk| <= |cycle|
  {
    DistinctSize(walk);
    ElemsSize(cycle);
    var extra := Elems(cycle) - Elems(walk);
    assert |Elems(cycle)| == |extra| + |Elems(walk)| by {
      assert Elems(cycle) == extra + Elems(walk);
    }
  }

  lemma {:induction false} DistinctSize(s: seq<File>)
    requires Distinct(s)
    ensures |Elems(s)| == |s|
  {
    if s != [] {
      DistinctSize(s[1..]);
      assert Elems(s) == Elems(s[1..]) + {s[0]};
    }
  }

  lemma {:induction false} ElemsSize(s: seq<File>)
    ensures |Elems(s)| <= |s|
  {
    if s != [] {
      ElemsSize(s[1..]);
      assert Elems(s) == Elems(s[1..]) + {s[0]};
    }
  }

  lemma GreedyStarts(g: Graph, cycle: set<File>, start: File)
    requires start in cycle
    ensures Greedy(g, cycle, [start]) && Elems([start]) == {start}
  {
  }

  lemma GreedyFits(g: Graph, cycle: seq<File>, walk: seq<File>)
    requires Greedy(g, Elems(cycle), walk)
    ensures |walk| <= |cycle|
  {
    WalkFits(walk, cycle);
  }

  method FormatCycleChain(cycle: seq<File>, graph: Graph) returns (chain: seq<File>)
    requires cycle != []
    ensures Prints(graph, Elems(cycle), Earliest(cycle), chain)
  {
    hide Greedy, FirstOpen, Stuck, Earliest;
    var start := Earliest(cycle);
    GreedyStarts(graph, Elems(cycle), start);
    var cycleSet := set f | f in cycle;
    chain := [start];
    var visited := {start};
    var current := start;
    ghost var stuck := false;
    for i := 0 to |cycle|
      invariant |chain| == i + 1 && chain[0] == start && chain[|chain| - 1] == current
      invariant Greedy(graph, cycleSet, chain) && visited == Elems(chain) && !stuck
    {
      var next := NextOpen(graph, cycleSet, visited, current);
      if next.NoneOpen? {
        stuck := true;
        break;
      }
      ExtendGreedy(graph, cycleSet, chain, next.file);
      chain := chain + [next.file];
      visited := visited + {next.file};
      current := next.file;
    }
    if !stuck {
      GreedyFits(graph, cycle, chain);
    }
    ghost var walk := chain;
    chain := chain + [start];
    assert chain[..|chain| - 1] == walk;
  }

  /** Two greedy walks from one file take the same steps as long as both go on. */
  lemma {:induction false} GreedyIsForced(g: Graph, cycle: set<File>, a: seq<File>, b: seq<File>, k: nat)
    requires Greedy(g, cycle, a) && Greedy(g, cycle, b) && a[0] == b[0] && k <= |a| && k <= |b|
    ensures a[..k] == b[..k]
  {
    if k == 1 {
      assert a[..1] == [a[0]] && b[..1] == [b[0]];
    } else if k > 1 {
      GreedyIsForced(g, cycle, a, b, k - 1);
      assert a[k - 2] == a[..k - 1][k - 2] && b[k - 2] == b[..k - 1][k - 2];
      OneFirstOpen(g, cycle, Elems(a[..k - 1]), a[k - 2], a[k - 1], b[k - 1]);
      assert a[..k] == a[..k - 1] + [a[k - 1]] && b[..k] == b[..k - 1] + [b[k - 1]];
    }
  }

  lemma OneFirstOpen(g: Graph, cycle: set<File>, visited: set<File>, current: File, a: File, b: File)
    requires FirstOpen(g, cycle, visited, current, a) && FirstOpen(g, cycle, visited, current, b)
    ensures a == b
  {
  }

  /** A walk that goes on was not stuck. */
  lemma StuckIsLast(g: Graph, cycle: set<File>, a: seq<File>, b: seq<File>)
    requires Greedy(g, cycle, a) && Greedy(g, cycle, b) && a[0] == b[0]
    requires Stuck(g, cycle, Elems(a), a[|a| - 1])
    ensures |b| <= |a|
  {
    assert a[..|a|] == a;
    if |b| > |a| {
      GreedyIsForced(g, cycle, a, b, |a|);
    }
  }

  /** The component, its first file and the import order leave one chain to print. */
  lemma PrintsOne(g: Graph, cycle: set<File>, start: File, a: seq<File>, b: seq<File>)
    requires Prints(g, cycle, start, a) && Prints(g, cycle, start, b)
    ensures a == b
  {
    var x, y := a[..|a| - 1], b[..|b| - 1];
    StuckIsLast(g, cycle, x, y);
    StuckIsLast(g, cycle, y, x);
    GreedyIsForced(g, cycle, x, y, |x|);
    assert x[..|x|] == x && y[..|y|] == y;
    assert a == x + [start] && b == y + [start];
  }

  /** Inside a component, nothing leads out of a part that keeps its own imports. */
  lemma ReachInside(g: Graph, cycle: set<File>, part: set<File>, x: File, y: File)
    requires IsScc(g, cycle) && part <= cycle && x in part && y in cycle
    requires forall u, v | u in part && v in cycle && Edge(g, u, v) :: v in part
    ensures y in part
  {
    var p :| IsPath(g, p) && p[0] == x && p[|p| - 1] == y;
    hide IsScc;
    var i := 0;
    while i < |p| - 1
      invariant 0 <= i < |p| && p[i] in part
    {
      assert Edge(g, p[i], p[i + 1]);
      PathStaysInside(g, cycle, p, i + 1);
      i := i + 1;
    }
  }

  lemma PathStaysInside(g: Graph, cycle: set<File>, p: seq<File>, i: nat)
    requires IsScc(g, cycle) && IsPath(g, p) && p[0] in cycle && p[|p| - 1] in cycle && i < |p|
    ensures p[i] in cycle
  {
    PathReaches(g, p, 0, i);
    PathReaches(g, p, i, |p| - 1);
    ReachTrans(g, p[i], p[|p| - 1], p[0]);
  }

  /** Every file of a component of two or more imports another one of them. */
  lemma ImportsAnother(g: Graph, cycle: set<File>, x: File, y: File) returns (w: File)
    requires IsScc(g, cycle) && x in cycle && y in cycle && x != y
    ensures w != x && w in cycle && Edge(g, x, w)
  {
    if forall w | w in cycle && Edge(g, x, w) :: w == x {
      ReachInside(g, cycle, {x}, x, y);
      assert false;
    }
    w :| w in cycle && Edge(g, x, w) && w != x;
  }

  /** A walk that takes no step leaves no other file of the component to go to. */
  lemma StepIsTaken(g: Graph, cycle: set<File>, start: File, chain: seq<File>, w: File)
    requires Prints(g, cycle, start, chain) && w in cycle && Edge(g, start, w) && w != start
    ensures |chain| >= 3
  {
    assert chain[..1] == [start];
  }

  /** For a reported component the chain always names at least two files. */
  lemma ChainNamesTwoFiles(g: Graph, cycle: seq<File>, chain: seq<File>)
    requires |cycle| > 1 && Distinct(cycle) && IsScc(g, Elems(cycle))
    requires Prints(g, Elems(cycle), Earliest(cycle), chain)
    ensures |chain| >= 3
  {
    hide IsScc, Prints, Earliest;
    var x := Earliest(cycle);
    var y := if cycle[0] == x then cycle[1] else cycle[0];
    assert x in Elems(cycle) && y in Elems(cycle);
    var w := ImportsAnother(g, Elems(cycle), x, y);
    StepIsTaken(g, Elems(cycle), x, chain, w);
  }

  // ----- When the printed closing step is an import -----

  /** A way through the component without repeats. */
  ghost predicate Trail(g: Graph, cycle: set<File>, p: seq<File>) {
    IsPath(g, p) && Distinct(p) && Elems(p) <= cycle
  }

  /** A trail from `start` that cannot go on. */
  ghost predicate DeadEnd(g: Graph, cycle: set<File>, start: File, p: seq<File>) {
    Trail(g, cycle, p) && p[0] == start && Stuck(g, cycle, Elems(p), p[|p| - 1])
  }

  /** The last file imports the first one. */
  ghost predicate Rounds(g: Graph, p: seq<File>) {
    |p| > 0 && Edge(g, p[|p| - 1], p[0])
  }

  /** The same imports, each file's in any order. */
  ghost predicate Reordered(g: Graph, h: Graph) {
    h.Keys == g.Keys && forall f | f in g :: multiset(h[f]) == multiset(g[f])
  }

  lemma SameEdges(g: Graph, h: Graph)
    requires Reordered(g, h)
    ensures forall x, y :: Edge(g, x, y) <==> Edge(h, x, y)
  {
    forall x, y
      ensures Edge(g, x, y) <==> Edge(h, x, y)
    {
      if x in g {
        assert y in g[x] <==> y in multiset(g[x]);
        assert y in h[x] <==> y in multiset(h[x]);
      }
    }
  }

  /** A printed walk is a dead end of the component. */
  lemma PrintedIsDeadEnd(g: Graph, h: Graph, cycle: set<File>, start: File, chain: seq<File>)
    requires Reordered(g, h) && Prints(h, cycle, start, chain)
    ensures |chain| >= 2 && DeadEnd(g, cycle, start, chain[..|chain| - 1])
    ensures Closes(h, chain) <==> Rounds(g, chain[..|chain| - 1])
  {
    SameEdges(g, h);
    var p := chain[..|chain| - 1];
    forall i | 0 <= i < |p| - 1
      ensures Edge(g, p[i], p[i + 1])
    {
      assert FirstOpen(h, cycle, Elems(p[..i + 1]), p[i], p[i + 1]);
      assert Edge(h, p[i], p[i + 1]);
    }
    StuckInAnyOrder(g, h, cycle, Elems(p), p[|p| - 1]);
  }

  function ToFront(imports: seq<File>, w: File): (r: seq<File>)
    ensures multiset(r) == multiset(imports)
    ensures w in imports ==> r != [] && r[0] == w
  {
    if w !in imports then imports
    else
      var i := PlaceOf(imports, w);
      assert imports == imports[..i] + [w] + imports[i + 1..];
      [w] + imports[..i] + imports[i + 1..]
  }

  function PlaceOf(s: seq<File>, w: File): (i: nat)
    requires w in s
    ensures i < |s| && s[i] == w
  {
    if s[0] == w then 0 else 1 + PlaceOf(s[1..], w)
  }

  /** The import order that makes the greedy walk follow `p`. */
  function Steered(g: Graph, p: seq<File>): Graph {
    map f | f in g :: ToFront(g[f], if f in p && PlaceOf(p, f) + 1 < |p| then p[PlaceOf(p, f) + 1] else f)
  }

  lemma SteeredStep(g: Graph, cycle: set<File>, p: seq<File>, k: nat)
    requires Trail(g, cycle, p) && 0 < k < |p|
    ensures FirstOpen(Steered(g, p), cycle, Elems(p[..k]), p[k - 1], p[k])
  {
    assert Edge(g, p[k - 1], p[k - 1 + 1]);
    assert PlaceOf(p, p[k - 1]) == k - 1;
    assert Steered(g, p)[p[k - 1]][0] == p[k];
    assert p[k] in Elems(p);
  }

  lemma SteeredReorders(g: Graph, p: seq<File>)
    ensures Reordered(g, Steered(g, p))
  {
  }

  lemma StuckInAnyOrder(g: Graph, h: Graph, cycle: set<File>, visited: set<File>, x: File)
    requires Reordered(g, h)
    ensures Stuck(g, cycle, visited, x) <==> Stuck(h, cycle, visited, x)
  {
    SameEdges(g, h);
  }

  /** Every dead end is printed for some import order. */
  lemma DeadEndIsPrinted(g: Graph, cycle: set<File>, start: File, p: seq<File>)
    requires DeadEnd(g, cycle, start, p)
    ensures Reordered(g, Steered(g, p)) && Prints(Steered(g, p), cycle, start, p + [start])
  {
    hide FirstOpen, Stuck, Reordered, Steered;
    SteeredReorders(g, p);
    StuckInAnyOrder(g, Steered(g, p), cycle, Elems(p), p[|p| - 1]);
    forall k | 0 < k < |p|
      ensures FirstOpen(Steered(g, p), cycle, Elems(p[..k]), p[k - 1], p[k])
    {
      SteeredStep(g, cycle, p, k);
    }
    assert (p + [start])[..|p|] == p;
  }

  ghost predicate ClosesInEveryOrder(g: Graph, cycle: set<File>, start: File) {
    forall h, chain | Reordered(g, h) && Prints(h, cycle, start, chain) :: Closes(h, chain)
  }

  ghost predicate DeadEndsRound(g: Graph, cycle: set<File>, start: File) {
    forall p | DeadEnd(g, cycle, start, p) :: Rounds(g, p)
  }

  /** The chain from `start` closes with an import, whatever order the imports stand in, exactly when the last
      file of every dead end from `start` imports it. */
  lemma ClosingIsRealExactly(g: Graph, cycle: set<File>, start: File)
    ensures ClosesInEveryOrder(g, cycle, start) <==> DeadEndsRound(g, cycle, start)
  {
    hide Reordered, Prints, DeadEnd, Closes, Rounds;
    if DeadEndsRound(g, cycle, start) {
      forall h, chain | Reordered(g, h) && Prints(h, cycle, start, chain)
        ensures Closes(h, chain)
      {
        PrintedIsDeadEnd(g, h, cycle, start, chain);
      }
    } else {
      var p :| DeadEnd(g, cycle, start, p) && !Rounds(g, p);
      DeadEndIsPrinted(g, cycle, start, p);
      var h, chain := Steered(g, p), p + [start];
      PrintedIsDeadEnd(g, h, cycle, start, chain);
      assert chain[..|chain| - 1] == p;
    }
  }

  /** A way through all files of the component, each once, and back to where it began. */
  ghost predicate FullRound(g: Graph, cycle: set<File>, p: seq<File>) {
    Trail(g, cycle, p) && Elems(p) == cycle && Rounds(g, p)
  }

  lemma TrailFits(g: Graph, cycle: set<File>, p: seq<File>)
    requires Trail(g, cycle, p)
    ensures |p| <= |cycle|
  {
    DistinctSize(p);
    assert cycle == Elems(p) + (cycle - Elems(p));
  }

  lemma TrailGrows(g: Graph, cycle: set<File>, p: seq<File>, next: File)
    requires Trail(g, cycle, p) && Edge(g, p[|p| - 1], next) && next in cycle && next !in p
    ensures Trail(g, cycle, p + [next])
  {
  }

  lemma TurnedIsDistinct(a: seq<File>, b: seq<File>)
    requires Distinct(a + b)
    ensures Distinct(b + a) && Elems(b + a) == Elems(a + b)
  {
    var p, q := a + b, b + a;
    assert forall i | 0 <= i < |q| :: q[i] == if i < |b| then p[|a| + i] else p[i - |b|];
    assert forall x :: x in q <==> x in p;
  }

  lemma JoinedIsPath(g: Graph, a: seq<File>, b: seq<File>)
    requires |a| > 0 && IsPath(g, a) && (b == [] || (IsPath(g, b) && Edge(g, b[|b| - 1], a[0])))
    ensures IsPath(g, b + a)
  {
  }

  lemma PathParts(g: Graph, p: seq<File>, i: nat)
    requires IsPath(g, p) && i < |p|
    ensures IsPath(g, p[..i + 1]) && (i + 1 < |p| ==> IsPath(g, p[i + 1..]))
  {
  }

  /** A round can be entered at any of its files. */
  lemma TrailTurns(g: Graph, cycle: set<File>, p: seq<File>, i: nat) returns (q: seq<File>)
    requires Trail(g, cycle, p) && Rounds(g, p) && i < |p|
    ensures Trail(g, cycle, q) && |q| == |p| && Elems(q) == Elems(p) && q[|q| - 1] == p[i]
  {
    var a, b := p[..i + 1], p[i + 1..];
    q := b + a;
    PathParts(g, p, i);
    hide IsPath, Distinct;
    assert p == a + b;
    TurnedIsDistinct(a, b);
    JoinedIsPath(g, a, b);
  }

  /** Some file of a part of the component imports a file of the rest. */
  lemma WayOut(g: Graph, cycle: set<File>, p: seq<File>) returns (i: nat, w: File)
    requires IsScc(g, cycle) && |p| > 0 && Elems(p) <= cycle && Elems(p) != cycle
    ensures i < |p| && Edge(g, p[i], w) && w in cycle && w !in p
  {
    var y :| y in cycle && y !in Elems(p);
    if forall u, v | u in Elems(p) && v in cycle && Edge(g, u, v) :: v in Elems(p) {
      assert p[0] in Elems(p);
      ReachInside(g, cycle, Elems(p), p[0], y);
      assert false;
    }
    var u, v :| u in Elems(p) && v in cycle && Edge(g, u, v) && v !in Elems(p);
    i :| 0 <= i < |p| && p[i] == u;
    w := v;
  }

  /** If every dead end of the component rounds, whichever file it starts from, then an import cycle runs
      through all files of the component, each once. */
  lemma {:induction false} FullRoundExists(g: Graph, cycle: set<File>, p: seq<File>)
    requires IsScc(g, cycle) && Trail(g, cycle, p) && forall start | start in cycle :: DeadEndsRound(g, cycle, start)
    ensures exists q :: FullRound(g, cycle, q)
    decreases |cycle| - |p|
  {
    hide IsScc;
    TrailFits(g, cycle, p);
    if !Stuck(g, cycle, Elems(p), p[|p| - 1]) {
      var w :| w in cycle && Edge(g, p[|p| - 1], w) && w !in Elems(p);
      TrailGrows(g, cycle, p, w);
      TrailFits(g, cycle, p + [w]);
      FullRoundExists(g, cycle, p + [w]);
    } else {
      assert p[0] in Elems(p);
      assert DeadEndsRound(g, cycle, p[0]) && DeadEnd(g, cycle, p[0], p);
      if Elems(p) == cycle {
        assert FullRound(g, cycle, p);
      } else {
        var i, w := WayOut(g, cycle, p);
        var q := TrailTurns(g, cycle, p, i);
        assert w !in Elems(q);
        TrailGrows(g, cycle, q, w);
        TrailFits(g, cycle, q + [w]);
        FullRoundExists(g, cycle, q + [w]);
      }
    }
  }

  /** In a component no import cycle runs through whole, some first file and some import order make the
      printed closing step an import that does not exist. */
  lemma NoFullRoundMisprints(g: Graph, cycle: set<File>)
    requires IsScc(g, cycle) && !exists q :: FullRound(g, cycle, q)
    ensures exists start :: start in cycle && !ClosesInEveryOrder(g, cycle, start)
  {
    if forall start | start in cycle :: ClosesInEveryOrder(g, cycle, start) {
      forall start | start in cycle
        ensures DeadEndsRound(g, cycle, start)
      {
        ClosingIsRealExactly(g, cycle, start);
      }
      var x :| x in cycle;
      FullRoundExists(g, cycle, [x]);
    }
  }

  /** No file of the component imports two others of it. */
  ghost predicate OneImportEach(g: Graph, cycle: set<File>) {
    forall f, v, w | f in cycle && v in cycle && w in cycle && v != f && w != f && Edge(g, f, v) && Edge(g, f, w) ::
      v == w
  }

  /** In such a component every dead end runs through all files and rounds. */
  lemma OneImportEachCloses(g: Graph, cycle: set<File>, start: File, p: seq<File>)
    requires IsScc(g, cycle) && |cycle| > 1 && OneImportEach(g, cycle) && DeadEnd(g, cycle, start, p)
    ensures FullRound(g, cycle, p)
  {
    hide IsScc, OneImportEach;
    var x := p[|p| - 1];
    assert x in Elems(p);
    assert cycle == (cycle - {x}) + {x};
    var y :| y in cycle - {x};
    var w := ImportsAnother(g, cycle, x, y);
    assert w in Elems(p);
    var j :| 0 <= j < |p| && p[j] == w;
    TailIsAll(g, cycle, p, j);
    assert p[0] in Elems(p) && p[j..][0] == p[j];
    var k :| 0 <= k < |p[j..]| && p[j..][k] == p[0];
    assert p[j + k] == p[0];
    assert p[j..] == p;
  }

  /** The part of the walk from the file its last one imports is the whole component. */
  lemma TailIsAll(g: Graph, cycle: set<File>, p: seq<File>, j: nat)
    requires IsScc(g, cycle) && OneImportEach(g, cycle) && Trail(g, cycle, p)
    requires j < |p| - 1 && Edge(g, p[|p| - 1], p[j])
    ensures Elems(p[j..]) == cycle
  {
    hide IsScc, OneImportEach;
    forall u, v | u in Elems(p[j..]) && v in cycle && Edge(g, u, v)
      ensures v in Elems(p[j..])
    {
      NextIsOnly(g, cycle, p, j, u, v);
    }
    assert p[j..][0] in Elems(p[j..]);
    forall u | u in Elems(p[j..])
      ensures u in cycle
    {
      assert u in Elems(p);
    }
    forall y | y in cycle
      ensures y in Elems(p[j..])
    {
      ReachInside(g, cycle, Elems(p[j..]), p[j..][0], y);
    }
  }

  lemma NextIsOnly(g: Graph, cycle: set<File>, p: seq<File>, j: nat, u: File, v: File)
    requires OneImportEach(g, cycle) && Trail(g, cycle, p) && j < |p| - 1 && Edge(g, p[|p| - 1], p[j])
    requires u in Elems(p[j..]) && v in cycle && Edge(g, u, v)
    ensures v in Elems(p[j..])
  {
    var k :| 0 <= k < |p[j..]| && p[j..][k] == u;
    var next := if j + k + 1 < |p| then p[j + k + 1] else p[j];
    assert p[j + k] in Elems(p) && next in Elems(p);
    assert Edge(g, p[j + k], next);
    assert next == (if k + 1 < |p[j..]| then p[j..][k + 1] else p[j..][0]);
  }

  /** When no file of a reported component imports two others of it, the chain names every file once and its
      closing step is an import, in any import order. */
  lemma SimpleCyclePrintsTrue(g: Graph, cycle: seq<File>, chain: seq<File>)
    requires |cycle| > 1 && Distinct(cycle) && IsScc(g, Elems(cycle)) && OneImportEach(g, Elems(cycle))
    requires Prints(g, Elems(cycle), Earliest(cycle), chain)
    ensures Closes(g, chain) && |chain| == |cycle| + 1 && Elems(chain) == Elems(cycle)
  {
    hide IsScc, Prints, DeadEnd, OneImportEach, Earliest;
    ChainIsRound(g, Elems(cycle), Earliest(cycle), chain);
    var p := chain[..|chain| - 1];
    DistinctSize(cycle);
    assert Reordered(g, g);
    PrintedIsDeadEnd(g, g, Elems(cycle), Earliest(cycle), chain);
    OneImportEachCloses(g, Elems(cycle), Earliest(cycle), p);
    DistinctSize(p);
  }

  lemma ChainIsRound(g: Graph, cycle: set<File>, start: File, chain: seq<File>)
    requires Prints(g, cycle, start, chain)
    ensures |chain| >= 2 && chain == chain[..|chain| - 1] + [chain[0]]
    ensures Elems(chain) == Elems(chain[..|chain| - 1])
  {
    var p := chain[..|chain| - 1];
    assert chain == p + [chain[0]] && p[0] == chain[0];
  }

  /** For a component of two files the closing step is always an import. */
  lemma TwoFileChainCloses(g: Graph, cycle: seq<File>, chain: seq<File>)
    requires |cycle| == 2 && Distinct(cycle) && IsScc(g, Elems(cycle))
    requires Prints(g, Elems(cycle), Earliest(cycle), chain)
    ensures Closes(g, chain) && |chain| == 3
  {
    TwoAreOneEach(g, cycle);
    hide IsScc, Prints, Earliest, OneImportEach;
    SimpleCyclePrintsTrue(g, cycle, chain);
  }

  lemma TwoAreOneEach(g: Graph, cycle: seq<File>)
    requires |cycle| == 2
    ensures OneImportEach(g, Elems(cycle))
  {
  }

  // ----- The smallest component that misprints -----

  function ThreeFiles(a: File, b: File, c: File): Graph {
    map[a := [b], b := [c, a], c := [b]]
  }

  lemma HubIsScc(g: Graph, s: set<File>, hub: File)
    requires hub in s && Closed(g, s) && forall x | x in s :: Mutual(g, hub, x)
    ensures IsScc(g, s)
  {
    hide Reach;
    forall x, y | x in s
      ensures y in s <==> Mutual(g, x, y)
    {
      if y in s {
        ReachTrans(g, x, hub, y);
        ReachTrans(g, y, hub, x);
      } else if Mutual(g, x, y) {
        ReachClosed(g, s, x, y);
      }
    }
  }

  lemma ThreeFilesAreOneComponent(a: File, b: File, c: File)
    requires a != b && b != c && a != c
    ensures IsScc(ThreeFiles(a, b, c), {a, b, c})
  {
    hide Reach;
    var g := ThreeFiles(a, b, c);
    ReachEdge(g, a, b);
    ReachEdge(g, b, c);
    ReachEdge(g, b, a);
    ReachEdge(g, c, b);
    ReachSelf(g, b);
    HubIsScc(g, {a, b, c}, b);
  }

  lemma WalkOfThree(a: File, b: File, c: File)
    requires a != b && b != c && a != c
    ensures Prints(ThreeFiles(a, b, c), {a, b, c}, a, [a, b, c, a])
  {
    var g, walk := ThreeFiles(a, b, c), [a, b, c];
    assert walk[..1] == [a] && walk[..2] == [a, b];
    assert g[a][0] == b && g[b][0] == c;
    assert Elems([a]) == {a} && Elems([a, b]) == {a, b} && Elems(walk) == {a, b, c};
    assert FirstOpen(g, {a, b, c}, {a}, a, b);
    assert FirstOpen(g, {a, b, c}, {a, b}, b, c);
    assert [a, b, c, a][..3] == walk;
  }

  /** The printed closing step need not be an import.  With `a` first by path, `a -> b -> c -> a` is the one
      chain printed for this component, and `c` does not import `a`. */
  lemma ClosingStepCanBeMissing(a: File, b: File, c: File, cycle: seq<File>, chain: seq<File>)
    requires Precedes(a.path, b.path) && Precedes(a.path, c.path) && b != c
    requires Elems(cycle) == {a, b, c} && Prints(ThreeFiles(a, b, c), Elems(cycle), Earliest(cycle), chain)
    ensures IsScc(ThreeFiles(a, b, c), Elems(cycle))
    ensures chain == [a, b, c, a] && !Closes(ThreeFiles(a, b, c), chain)
  {
    PrecedesTotal(a.path, b.path);
    PrecedesTotal(a.path, c.path);
    PrecedesTotal(a.path, a.path);
    ThreeFilesAreOneComponent(a, b, c);
    WalkOfThree(a, b, c);
    assert a in Elems(cycle) && Earliest(cycle) in Elems(cycle);
    PrintsOne(ThreeFiles(a, b, c), {a, b, c}, a, chain, [a, b, c, a]);
  }
}
