/** The runtime import graph of a source tree: paths, reachability and strong components. */
module ImportGraph {

  /** A file by its path, as UTF-16 code units. */
  datatype File = File(path: seq<int>)

  /** Successors in iteration order.  A target that is not a key has no outgoing imports. */
  type Graph = map<File, seq<File>>

  /** `graph.get(v) ?? new Set()` */
  function Imports(g: Graph, v: File): seq<File> {
    if v in g then g[v] else []
  }

  ghost predicate Edge(g: Graph, v: File, w: File) {
    v in g && w in g[v]
  }

  ghost predicate IsPath(g: Graph, p: seq<File>) {
    |p| > 0 && forall i | 0 <= i < |p| - 1 :: Edge(g, p[i], p[i + 1])
  }

  ghost predicate Reach(g: Graph, x: File, y: File) {
    exists p :: IsPath(g, p) && p[0] == x && p[|p| - 1] == y
  }

  ghost predicate Mutual(g: Graph, x: File, y: File) {
    Reach(g, x, y) && Reach(g, y, x)
  }

  /** A strongly connected component: one whole class of mutual reachability. */
  ghost predicate IsScc(g: Graph, s: set<File>) {
    s != {} && forall x, y :: x in s ==> (y in s <==> Mutual(g, x, y))
  }

  ghost predicate Closed(g: Graph, s: set<File>) {
    forall x, y :: x in s && Edge(g, x, y) ==> y in s
  }

  function Files(g: Graph): (s: set<File>)
    ensures g.Keys <= s && Closed(g, s)
  {
    g.Keys + set v, w | v in g && w in g[v] :: w
  }

  ghost predicate Distinct(s: seq<File>) {
    forall i, j :: 0 <= i < j < |s| ==> s[i] != s[j]
  }

  lemma ReachSelf(g: Graph, x: File)
    ensures Reach(g, x, x)
  {
    assert IsPath(g, [x]);
  }

  lemma ReachEdge(g: Graph, x: File, y: File)
    requires Edge(g, x, y)
    ensures Reach(g, x, y)
  {
    assert IsPath(g, [x, y]) && [x, y][0] == x && [x, y][1] == y;
  }

  lemma JoinPaths(g: Graph, p: seq<File>, q: seq<File>)
    requires IsPath(g, p) && IsPath(g, q) && p[|p| - 1] == q[0]
    ensures IsPath(g, p + q[1..])
  {
  }

  lemma ReachTrans(g: Graph, x: File, y: File, z: File)
    requires Reach(g, x, y) && Reach(g, y, z)
    ensures Reach(g, x, z)
  {
    var p :| IsPath(g, p) && p[0] == x && p[|p| - 1] == y;
    var q :| IsPath(g, q) && q[0] == y && q[|q| - 1] == z;
    JoinPaths(g, p, q);
    var r := p + q[1..];
    assert r[0] == x && r[|r| - 1] == z;
  }

  /** Nothing leads out of a closed set. */
  lemma ReachClosed(g: Graph, s: set<File>, x: File, y: File)
    requires Closed(g, s) && x in s && Reach(g, x, y)
    ensures y in s
  {
    var p :| IsPath(g, p) && p[0] == x && p[|p| - 1] == y;
    var i := 0;
    while i < |p| - 1
      invariant 0 <= i < |p| && p[i] in s
    {
      assert Edge(g, p[i], p[i + 1]);
      i := i + 1;
    }
  }

  /** A file that reaches another one imports something, so it is a key of the graph. */
  lemma ReachFromKey(g: Graph, x: File, y: File)
    requires Reach(g, x, y) && x != y
    ensures x in g
  {
    var p :| IsPath(g, p) && p[0] == x && p[|p| - 1] == y;
    assert Edge(g, p[0], p[1]);
  }
}
