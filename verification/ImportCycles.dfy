/** Tarjan's strongly connected components, as the import-cycle gate runs it. */
module ImportCycles {
  import opened ImportGraph
  import opened Sizes

  ghost function Elems(s: seq<File>): set<File> {
    set x | x in s
  }

  // ----- What holds between steps, stated on the values of the search's variables -----

  /** From `x` the search's call chain is reached again, at a file found no later than `x`. */
  ghost predicate Anchored(g: Graph, index: map<File, nat>, gray: set<File>, x: File, y: File) {
    y in gray && x in index && y in index && index[y] <= index[x] && Reach(g, x, y)
  }

  ghost predicate HasAnchor(g: Graph, index: map<File, nat>, gray: set<File>, x: File) {
    exists y :: Anchored(g, index, gray, x, y)
  }

  /** The stack is in discovery order, older files reach newer ones, and every file on it reaches
      one whose call is still open (`gray`) and which is not newer. */
  ghost predicate StackOk(g: Graph, index: map<File, nat>, stack: seq<File>, gray: set<File>) {
    && (forall x | x in stack :: x in index)
    && (forall i, j | 0 <= i < j < |stack| :: index[stack[i]] < index[stack[j]])
    && (forall x | x in gray :: x in stack)
    && (forall x, y {:trigger Reach(g, x, y)} | x in stack && y in stack && index[x] <= index[y] :: Reach(g, x, y))
    && (forall x {:trigger HasAnchor(g, index, gray, x)} | x in stack :: HasAnchor(g, index, gray, x))
  }

  /** Files already assigned to a component never lead outside, and `sccs` is right about them. */
  ghost predicate DoneOk(g: Graph, done: set<File>, sccs: seq<seq<File>>) {
    && Closed(g, done)
    && (forall c | c in sccs :: |c| > 1 && Distinct(c) && Elems(c) <= done && IsScc(g, Elems(c)))
    && (forall i, j, x, y | 0 <= i < j < |sccs| && x in sccs[i] && y in sccs[j] :: !Reach(g, x, y))
    && (forall x, y {:trigger Mutual(g, x, y)} | x in done && y in done && x != y && Mutual(g, x, y) ::
          Reported(sccs, x))
  }

  ghost predicate Reported(sccs: seq<seq<File>>, x: File) {
    exists c :: c in sccs && x in c
  }

  /** Every import from `from` into `base` is already reflected in the low-link `low`. */
  ghost predicate LowCovers(g: Graph, index: map<File, nat>, low: nat, from: set<File>, base: seq<File>) {
    forall x, y | x in from && y in base && y in index && Edge(g, x, y) :: low <= index[y]
  }

  /** `low` is the index of a file still on the stack that `v` reaches, or `v` is done and off it. */
  ghost predicate Low(g: Graph, index: map<File, nat>, stack: seq<File>, v: File, low: nat) {
    v in index && low <= index[v] &&
    if v in stack then ReachesIndex(g, index, stack, v, low) else low == index[v]
  }

  ghost predicate ReachesIndex(g: Graph, index: map<File, nat>, stack: seq<File>, v: File, low: nat) {
    exists y :: y in stack && y in index && index[y] == low && Reach(g, v, y)
  }

  ghost predicate ImportSeen(index: map<File, nat>, base: seq<File>, low: nat, w: File) {
    w in index && (w in base ==> low <= index[w])
  }

  /** What the call for `v` knows once its first `i` imports are dealt with; `base` is the stack it
      started on and `low` its low-link. */
  ghost predicate SearchOk(g: Graph, index: map<File, nat>, stack: seq<File>, v: File, base: seq<File>,
                           low: nat, i: nat)
  {
    && base + [v] <= stack
    && (forall x | x in stack :: x in index)
    && v in index && low <= index[v] && ReachesIndex(g, index, stack, v, low)
    && LowCovers(g, index, low, Elems(stack[|base| + 1..]), base)
    && i <= |Imports(g, v)|
    && forall j | 0 <= j < i :: ImportSeen(index, base, low, Imports(g, v)[j])
  }

  ghost predicate Keeps(m: map<File, nat>, m': map<File, nat>) {
    forall x | x in m :: x in m' && m'[x] == m[x]
  }

  ghost function Reversed(s: seq<File>): (r: seq<File>)
    ensures |r| == |s| && forall i | 0 <= i < |s| :: r[i] == s[|s| - 1 - i]
  {
    if s == [] then [] else Reversed(s[1..]) + [s[0]]
  }

  // ----- The steps of the search, on those values -----

  lemma PushKeepsStack(g: Graph, index: map<File, nat>, stack: seq<File>, gray: set<File>, v: File, n: nat)
    requires StackOk(g, index, stack, gray) && v !in index
    requires forall x | x in stack :: index[x] < n && Reach(g, x, v)
    ensures StackOk(g, index[v := n], stack + [v], gray + {v})
  {
    hide Reach;
    ReachSelf(g, v);
    var index', stack', gray' := index[v := n], stack + [v], gray + {v};
    assert forall x :: x in stack' <==> x in stack || x == v;
    forall x | x in stack'
      ensures HasAnchor(g, index', gray', x)
    {
      if x == v {
        assert Anchored(g, index', gray', v, v);
      } else {
        assert HasAnchor(g, index, gray, x);
        var y :| Anchored(g, index, gray, x, y);
        assert Anchored(g, index', gray', x, y);
      }
    }
  }

  /** `v` finishes while an older file is still reachable: it stays on the stack. */
  lemma LeaveKeepsStack(g: Graph, index: map<File, nat>, stack: seq<File>, gray: set<File>, v: File, y: File)
    requires StackOk(g, index, stack, gray + {v}) && v in stack && y in stack
    requires index[y] < index[v] && Reach(g, v, y)
    ensures StackOk(g, index, stack, gray)
  {
    hide Reach;
    assert HasAnchor(g, index, gray + {v}, y);
    var z :| Anchored(g, index, gray + {v}, y, z);
    forall x | x in stack
      ensures HasAnchor(g, index, gray, x)
    {
      assert HasAnchor(g, index, gray + {v}, x);
      var w :| Anchored(g, index, gray + {v}, x, w);
      if w == v {
        ReachTrans(g, x, v, y);
        ReachTrans(g, x, y, z);
        assert Anchored(g, index, gray, x, z);
      } else {
        assert Anchored(g, index, gray, x, w);
      }
    }
  }

  lemma BelowIsOlder(g: Graph, index: map<File, nat>, base: seq<File>, tail: seq<File>, gray: set<File>, v: File,
                     x: File)
    requires StackOk(g, index, base + [v] + tail, gray) && x in base
    ensures x in base + [v] + tail && v in index && x in index && index[x] < index[v]
  {
    hide Reach;
    var stack := base + [v] + tail;
    assert stack[|base|] == v;
    var i :| 0 <= i < |base| && base[i] == x;
    assert stack[i] == x && index[stack[i]] < index[stack[|base|]];
  }

  lemma PopKeepsAnchor(g: Graph, index: map<File, nat>, base: seq<File>, tail: seq<File>, gray: set<File>, v: File,
                       x: File)
    requires StackOk(g, index, base + [v] + tail, gray + {v}) && x in base
    ensures HasAnchor(g, index, gray, x)
  {
    hide Reach;
    BelowIsOlder(g, index, base, tail, gray + {v}, v, x);
    assert HasAnchor(g, index, gray + {v}, x);
    var y :| Anchored(g, index, gray + {v}, x, y);
    assert Anchored(g, index, gray, x, y);
  }

  lemma PopKeepsOrder(g: Graph, index: map<File, nat>, base: seq<File>, rest: seq<File>, gray: set<File>)
    requires StackOk(g, index, base + rest, gray)
    ensures forall x | x in base :: x in base + rest && x in index
    ensures forall i, j | 0 <= i < j < |base| :: index[base[i]] < index[base[j]]
  {
    hide Reach;
    assert forall i | 0 <= i < |base| :: (base + rest)[i] == base[i];
  }

  lemma PopKeepsStack(g: Graph, index: map<File, nat>, base: seq<File>, tail: seq<File>, gray: set<File>, v: File)
    requires StackOk(g, index, base + [v] + tail, gray + {v}) && gray <= Elems(base)
    ensures StackOk(g, index, base, gray)
  {
    hide Reach, HasAnchor;
    forall x | x in base
      ensures HasAnchor(g, index, gray, x)
    {
      PopKeepsAnchor(g, index, base, tail, gray, v, x);
    }
    assert base + [v] + tail == base + ([v] + tail);
    PopKeepsOrder(g, index, base, [v] + tail, gray + {v});
  }

  /** When no import leaves `[v] + tail` except to finished files, it is a whole component. */
  lemma PopIsScc(g: Graph, index: map<File, nat>, base: seq<File>, tail: seq<File>, gray: set<File>, v: File,
                 done: set<File>)
    requires StackOk(g, index, base + [v] + tail, gray + {v}) && gray <= Elems(base)
    requires Closed(g, done) && done !! Elems([v] + tail)
    requires Closed(g, done + Elems([v] + tail))
    ensures IsScc(g, Elems([v] + tail))
  {
    hide Reach;
    var stack, s := base + [v] + tail, Elems([v] + tail);
    assert v in s;
    forall x | x in s
      ensures Mutual(g, v, x)
    {
      SplitStack(base, tail, v, x);
      assert index[v] <= index[x] && Reach(g, v, x);
      assert HasAnchor(g, index, gray + {v}, x);
      var y :| Anchored(g, index, gray + {v}, x, y);
      if y != v {
        SplitStackBase(base, tail, v, y);
        assert Reach(g, y, v);
        ReachTrans(g, x, y, v);
      }
    }
    forall x, y | x in s
      ensures y in s <==> Mutual(g, x, y)
    {
      if y in s {
        ReachTrans(g, x, v, y);
        ReachTrans(g, y, v, x);
      }
      if Mutual(g, x, y) {
        ReachClosed(g, done + s, x, y);
        if y in done {
          ReachClosed(g, done, y, x);
        }
      }
    }
  }

  lemma SplitStack(base: seq<File>, tail: seq<File>, v: File, x: File)
    requires x in [v] + tail
    ensures x in base + [v] + tail
    ensures exists j :: |base| <= j < |base + [v] + tail| && (base + [v] + tail)[j] == x
    ensures (base + [v] + tail)[|base|] == v
  {
    var j :| 0 <= j < |[v] + tail| && ([v] + tail)[j] == x;
    assert (base + [v] + tail)[|base| + j] == x;
  }

  lemma SplitStackBase(base: seq<File>, tail: seq<File>, v: File, y: File)
    requires y in Elems(base)
    ensures exists i :: 0 <= i < |base| && (base + [v] + tail)[i] == y
    ensures (base + [v] + tail)[|base|] == v
  {
    var i :| 0 <= i < |base| && base[i] == y;
    assert (base + [v] + tail)[i] == y;
  }

  /** Later components never come before the ones they reach: nothing finished reaches a new file. */
  lemma RecordKeepsOrder(g: Graph, done: set<File>, c: seq<File>, scc: seq<File>, x: File, y: File)
    requires Closed(g, done) && Elems(c) <= done && done !! Elems(scc)
    requires x in c && y in scc
    ensures !Reach(g, x, y)
  {
    assert x in Elems(c) && y in Elems(scc);
    if Reach(g, x, y) {
      ReachClosed(g, done, x, y);
    }
  }

  lemma RecordReports(g: Graph, done: set<File>, sccs: seq<seq<File>>, scc: seq<File>, x: File, y: File)
    requires DoneOk(g, done, sccs) && |scc| > 0 && IsScc(g, Elems(scc))
    requires x in done + Elems(scc) && x != y && Mutual(g, x, y)
    ensures Reported(if |scc| > 1 then sccs + [scc] else sccs, x)
  {
    hide Reach;
    if x in done {
      ReachClosed(g, done, x, y);
      assert Reported(sccs, x);
    } else {
      assert y in Elems(scc);
      assert |scc| > 1;
    }
  }

  /** Recording a finished component keeps everything true of the finished files. */
  lemma RecordKeepsDone(g: Graph, done: set<File>, sccs: seq<seq<File>>, scc: seq<File>)
    requires DoneOk(g, done, sccs) && |scc| > 0 && Distinct(scc)
    requires IsScc(g, Elems(scc)) && done !! Elems(scc) && Closed(g, done + Elems(scc))
    ensures DoneOk(g, done + Elems(scc), if |scc| > 1 then sccs + [scc] else sccs)
  {
    hide Reach;
    var done', sccs' := done + Elems(scc), if |scc| > 1 then sccs + [scc] else sccs;
    forall i, j, x, y | 0 <= i < j < |sccs'| && x in sccs'[i] && y in sccs'[j]
      ensures !Reach(g, x, y)
    {
      if j == |sccs| {
        RecordKeepsOrder(g, done, sccs[i], scc, x, y);
      }
    }
    forall x, y | x in done' && y in done' && x != y && Mutual(g, x, y)
      ensures Reported(sccs', x)
    {
      RecordReports(g, done, sccs, scc, x, y);
    }
  }

  lemma OpenSearch(g: Graph, index: map<File, nat>, stack: seq<File>, v: File, n: nat)
    requires v !in index && forall x | x in stack :: x in index
    ensures SearchOk(g, index[v := n], stack + [v], v, stack, n, 0)
  {
    hide Reach;
    ReachSelf(g, v);
    assert v in stack + [v];
    assert (stack + [v])[|stack| + 1..] == [];
  }

  /** Every file on the stack reaches the import about to be searched. */
  lemma StackReachesImport(g: Graph, index: map<File, nat>, stack: seq<File>, gray: set<File>, v: File, w: File)
    requires StackOk(g, index, stack, gray) && v in stack && Edge(g, v, w)
    requires forall y | y in gray && y in index :: index[y] <= index[v]
    ensures forall x | x in stack :: Reach(g, x, w)
  {
    hide Reach;
    ReachEdge(g, v, w);
    forall x | x in stack
      ensures Reach(g, x, w)
    {
      assert HasAnchor(g, index, gray, x);
      var y :| Anchored(g, index, gray, x, y);
      assert Reach(g, y, v);
      ReachTrans(g, x, y, v);
      ReachTrans(g, x, v, w);
    }
  }

  lemma GrayNotNewer(g: Graph, index: map<File, nat>, stack: seq<File>, gray: set<File>, v: File, base: seq<File>)
    requires StackOk(g, index, stack, gray) && base + [v] <= stack && gray <= Elems(base) + {v}
    ensures v in stack && forall y | y in gray :: y in index && index[y] <= index[v]
  {
    assert stack[|base|] == v;
    forall y | y in gray && y != v
      ensures y in index && index[y] <= index[v]
    {
      var k :| 0 <= k < |base| && base[k] == y;
      assert (base + [v])[k] == stack[k];
    }
  }

  lemma SeenOffStack(g: Graph, index: map<File, nat>, stack: seq<File>, v: File, base: seq<File>, low: nat, i: nat)
    requires SearchOk(g, index, stack, v, base, low, i) && i < |Imports(g, v)|
    requires Imports(g, v)[i] in index && Imports(g, v)[i] !in stack
    ensures SearchOk(g, index, stack, v, base, low, i + 1)
  {
    if Imports(g, v)[i] in base {
      PrefixMember(base, v, stack, Imports(g, v)[i]);
    }
  }

  lemma SeenOnStack(g: Graph, index: map<File, nat>, stack: seq<File>, v: File, base: seq<File>, low: nat, i: nat)
    requires SearchOk(g, index, stack, v, base, low, i) && i < |Imports(g, v)|
    requires Imports(g, v)[i] in stack
    ensures SearchOk(g, index, stack, v, base, Min(low, index[Imports(g, v)[i]]), i + 1)
  {
    hide Reach;
    ReachEdge(g, v, Imports(g, v)[i]);
  }

  /** The low-link after searching the import `w`: `low'` is `w`'s own. */
  lemma SearchedLow(g: Graph, index: map<File, nat>, stack: seq<File>, index': map<File, nat>, stack': seq<File>,
                    v: File, w: File, low: nat, low': nat)
    requires v in index && low <= index[v] && ReachesIndex(g, index, stack, v, low)
    requires stack <= stack' && Keeps(index, index') && Edge(g, v, w)
    requires w in index' && index[v] < index'[w] && Low(g, index', stack', w, low')
    ensures ReachesIndex(g, index', stack', v, Min(low, low'))
  {
    hide Reach;
    if low' < low {
      ReachEdge(g, v, w);
      var y :| y in stack' && y in index' && index'[y] == low' && Reach(g, w, y);
      ReachTrans(g, v, w, y);
    } else {
      var y :| y in stack && y in index && index[y] == low && Reach(g, v, y);
      assert y in stack';
    }
  }

  lemma SearchedCovers(g: Graph, index: map<File, nat>, stack: seq<File>, index': map<File, nat>, stack': seq<File>,
                       v: File, base: seq<File>, low: nat, low': nat)
    requires base + [v] <= stack <= stack' && Keeps(index, index') && forall x | x in stack :: x in index
    requires LowCovers(g, index, low, Elems(stack[|base| + 1..]), base)
    requires LowCovers(g, index', low', Elems(stack'[|stack|..]), stack)
    ensures LowCovers(g, index', Min(low, low'), Elems(stack'[|base| + 1..]), base)
  {
    hide Reach;
    assert stack'[|base| + 1..] == stack[|base| + 1..] + stack'[|stack|..];
    forall x, y | x in Elems(stack'[|base| + 1..]) && y in base && y in index' && Edge(g, x, y)
      ensures Min(low, low') <= index'[y]
    {
      PrefixMember(base, v, stack, y);
      assert y in index;
    }
  }

  lemma PrefixMember(base: seq<File>, v: File, stack: seq<File>, y: File)
    requires base + [v] <= stack && y in base
    ensures y in stack
  {
    var k :| 0 <= k < |base| && base[k] == y;
    assert (base + [v])[k] == stack[k];
  }

  lemma SearchedImport(g: Graph, index: map<File, nat>, stack: seq<File>, index': map<File, nat>, stack': seq<File>,
                       v: File, base: seq<File>, low: nat, i: nat, low': nat)
    requires SearchOk(g, index, stack, v, base, low, i) && i < |Imports(g, v)|
    requires Imports(g, v)[i] !in index && Imports(g, v)[i] in index' && index[v] < index'[Imports(g, v)[i]]
    requires stack <= stack' && Keeps(index, index') && forall x | x in stack' :: x in index'
    requires Low(g, index', stack', Imports(g, v)[i], low')
    requires LowCovers(g, index', low', Elems(stack'[|stack|..]), stack)
    ensures SearchOk(g, index', stack', v, base, Min(low, low'), i + 1)
  {
    hide Reach;
    var w := Imports(g, v)[i];
    SearchedLow(g, index, stack, index', stack', v, w, low, low');
    SearchedCovers(g, index, stack, index', stack', v, base, low, low');
    if w in base {
      PrefixMember(base, v, stack, w);
    }
    forall j | 0 <= j < i + 1
      ensures ImportSeen(index', base, Min(low, low'), Imports(g, v)[j])
    {
      if j < i {
        assert ImportSeen(index, base, low, Imports(g, v)[j]);
      }
    }
  }

  /** With all imports dealt with, `v`'s own imports are covered by its low-link too. */
  lemma CloseCovers(g: Graph, index: map<File, nat>, stack: seq<File>, v: File, base: seq<File>, low: nat)
    requires SearchOk(g, index, stack, v, base, low, |Imports(g, v)|)
    ensures LowCovers(g, index, low, Elems(stack[|base|..]), base)
  {
  }

  lemma StackIsIndexed(g: Graph, index: map<File, nat>, stack: seq<File>, gray: set<File>)
    requires StackOk(g, index, stack, gray)
    ensures Distinct(stack) && (forall x | x in stack :: x in index) && gray <= Elems(stack)
  {
  }

  lemma NothingToCover(g: Graph, index: map<File, nat>, low: nat, base: seq<File>)
    ensures LowCovers(g, index, low, Elems([]), base)
  {
  }

  lemma CloseLeaves(g: Graph, index: map<File, nat>, stack: seq<File>, gray: set<File>, v: File, low: nat)
    requires StackOk(g, index, stack, gray + {v}) && v in stack
    requires low < index[v] && ReachesIndex(g, index, stack, v, low)
    ensures StackOk(g, index, stack, gray)
  {
    hide Reach;
    var y :| y in stack && y in index && index[y] == low && Reach(g, v, y);
    LeaveKeepsStack(g, index, stack, gray, v, y);
  }

  /** `v`'s low-link is its own index: nothing above it on the stack leads below it. */
  lemma CloseIsClosed(g: Graph, index: map<File, nat>, base: seq<File>, tail: seq<File>, gray: set<File>, v: File,
                      x: File, y: File)
    requires StackOk(g, index, base + [v] + tail, gray + {v})
    requires LowCovers(g, index, index[v], Elems([v] + tail), base)
    requires x in [v] + tail && Edge(g, x, y) && y in index && y in base + [v] + tail
    ensures y in [v] + tail
  {
    hide Reach;
    if y !in [v] + tail {
      assert y in base;
      SplitStackBase(base, tail, v, y);
    }
  }

  lemma CloseLeadsToDone(g: Graph, index: map<File, nat>, base: seq<File>, tail: seq<File>, gray: set<File>, v: File)
    requires StackOk(g, index, base + [v] + tail, gray + {v})
    requires Closed(g, index.Keys - Elems(base + [v] + tail))
    requires LowCovers(g, index, index[v], Elems([v] + tail), base)
    requires forall x, y | x in [v] + tail && Edge(g, x, y) :: y in index
    ensures Closed(g, index.Keys - Elems(base + [v] + tail) + Elems([v] + tail))
  {
    hide Reach;
    forall x, y | x in [v] + tail && Edge(g, x, y) && y in base + [v] + tail
      ensures y in [v] + tail
    {
      CloseIsClosed(g, index, base, tail, gray, v, x, y);
    }
  }

  lemma DoneIsClosed(g: Graph, done: set<File>, sccs: seq<seq<File>>)
    requires DoneOk(g, done, sccs)
    ensures Closed(g, done)
  {
  }

  /** Everything `RecordKeepsDone` asks about the files popped with `v`. */
  ghost predicate Popped(g: Graph, done: set<File>, s: seq<File>) {
    s != [] && Distinct(s) && IsScc(g, Elems(s)) && done !! Elems(s) && Closed(g, done + Elems(s))
  }

  lemma CloseIsPopped(g: Graph, index: map<File, nat>, base: seq<File>, tail: seq<File>, gray: set<File>, v: File)
    requires StackOk(g, index, base + [v] + tail, gray + {v}) && gray <= Elems(base)
    requires Closed(g, index.Keys - Elems(base + [v] + tail))
    requires LowCovers(g, index, index[v], Elems([v] + tail), base)
    requires forall x, y | x in [v] + tail && Edge(g, x, y) :: y in index
    ensures Popped(g, index.Keys - Elems(base + [v] + tail), [v] + tail)
  {
    hide Reach;
    CloseLeadsToDone(g, index, base, tail, gray, v);
    assert base + [v] + tail == base + ([v] + tail);
    TailDistinct(g, index, base, [v] + tail, gray + {v});
    PopIsScc(g, index, base, tail, gray, v, index.Keys - Elems(base + [v] + tail));
  }

  lemma RecordPopped(g: Graph, index: map<File, nat>, base: seq<File>, s: seq<File>, sccs: seq<seq<File>>)
    requires DoneOk(g, index.Keys - Elems(base + s), sccs) && Popped(g, index.Keys - Elems(base + s), s)
    requires (forall x | x in s :: x in index && x !in base)
    ensures DoneOk(g, index.Keys - Elems(base), if |s| > 1 then sccs + [Reversed(s)] else sccs)
  {
    hide DoneOk, IsScc, Closed, Reversed;
    ReversedElems(s);
    DoneGrows(index, base, s);
    RecordKeepsDone(g, index.Keys - Elems(base + s), sccs, Reversed(s));
  }

  lemma DoneGrows(index: map<File, nat>, base: seq<File>, s: seq<File>)
    requires forall x | x in s :: x in index && x !in base
    ensures index.Keys - Elems(base + s) + Elems(s) == index.Keys - Elems(base)
  {
  }

  lemma TailDistinct(g: Graph, index: map<File, nat>, base: seq<File>, s: seq<File>, gray: set<File>)
    requires StackOk(g, index, base + s, gray)
    ensures Distinct(s) && forall x | x in s :: x !in base
    ensures forall x | x in s :: x in index
  {
    var stack := base + s;
    forall i, j | 0 <= i < |base| && 0 <= j < |s|
      ensures base[i] != s[j]
    {
      assert stack[i] == base[i] && stack[|base| + j] == s[j];
    }
    forall i, j | 0 <= i < j < |s|
      ensures s[i] != s[j]
    {
      assert stack[|base| + i] == s[i] && stack[|base| + j] == s[j];
    }
  }

  lemma ReversedElems(s: seq<File>)
    requires Distinct(s)
    ensures Distinct(Reversed(s)) && Elems(Reversed(s)) == Elems(s)
  {
    var r := Reversed(s);
    forall x | x in s
      ensures x in r
    {
      var i :| 0 <= i < |s| && s[i] == x;
      assert r[|s| - 1 - i] == x;
    }
  }

  // ----- The search itself -----

  /** The variables one run of the search shares between its nested calls. */
  class CycleFinder {
    const graph: Graph
    var index: map<File, nat>
    var lowlink: map<File, nat>
    var onStack: map<File, bool>
    var stack: seq<File>
    var sccs: seq<seq<File>>
    var counter: nat

    ghost predicate Valid(gray: set<File>)
      reads this
    {
      && index.Keys == lowlink.Keys == onStack.Keys <= Files(graph)
      && (forall x | x in index :: index[x] < counter && (onStack[x] <==> x in stack))
      && StackOk(graph, index, stack, gray)
      && DoneOk(graph, Done(), sccs)
      && (forall x, y | x in index && x !in gray && Edge(graph, x, y) :: y in index)
    }

    /** Files already assigned to a component. */
    ghost function Done(): set<File>
      reads this
    {
      index.Keys - Elems(stack)
    }

    constructor (graph: Graph)
      ensures this.graph == graph && Valid({}) && index == map[] && stack == [] && sccs == []
    {
      this.graph := graph;
      index, lowlink, onStack, stack, sccs, counter := map[], map[], map[], [], [], 0;
    }

    ghost predicate FlagsOk()
      reads this
    {
      && index.Keys == onStack.Keys && Distinct(stack)
      && (forall x | x in stack :: x in index)
      && (forall x | x in index :: onStack[x] <==> x in stack)
    }

    method PopTop() returns (w: File)
      requires FlagsOk() && stack != []
      modifies this`stack, this`onStack
      ensures FlagsOk() && stack == old(stack)[..|old(stack)| - 1] && w == old(stack)[|old(stack)| - 1]
    {
      w := stack[|stack| - 1];
      stack := stack[..|stack| - 1];
      onStack := onStack[w := false];
      assert old(stack) == stack + [w];
    }

    /** Takes the files above and including `v` off the stack. */
    method PopThrough(v: File, ghost base: seq<File>) returns (scc: seq<File>)
      requires FlagsOk() && base + [v] <= stack
      modifies this`stack, this`onStack
      ensures FlagsOk() && stack == base && scc == Reversed(old(stack)[|base|..])
    {
      ghost var whole := stack;
      DistinctAbove(whole, |base|, v);
      hide FlagsOk, Distinct, Reversed;
      var w := PopTop();
      scc := [w];
      ReversedGrows(whole, |whole| - 1);
      while w != v
        invariant FlagsOk() && |base| <= |stack| < |whole|
        invariant stack == whole[..|stack|] && w == whole[|stack|] && scc == Reversed(whole[|stack|..])
        decreases |stack|
      {
        w := PopTop();
        scc := scc + [w];
        ReversedGrows(whole, |stack|);
      }
    }

    /** `v`'s call is open: `base` is the stack it started on, its first `i` imports are dealt with. */
    ghost predicate Searching(v: File, base: seq<File>, gray: set<File>, i: nat)
      reads this
    {
      && Valid(gray + {v}) && v !in gray && gray <= Elems(base)
      && v in lowlink && SearchOk(graph, index, stack, v, base, lowlink[v], i)
    }

    method Open(v: File, ghost gray: set<File>)
      requires Valid(gray) && v in Files(graph) && v !in index
      requires forall x | x in stack :: Reach(graph, x, v)
      modifies this
      ensures Searching(v, old(stack), gray, 0) && sccs == old(sccs)
      ensures index == old(index)[v := old(counter)] && lowlink == old(lowlink)[v := old(counter)]
      ensures counter == old(counter) + 1
    {
      hide StackOk, DoneOk, Reach, LowCovers, ReachesIndex, SearchOk, HasAnchor;
      StackIsIndexed(graph, index, stack, gray);
      PushKeepsStack(graph, index, stack, gray, v, counter);
      OpenSearch(graph, index, stack, v, counter);
      index := index[v := counter];
      lowlink := lowlink[v := counter];
      counter := counter + 1;
      stack := stack + [v];
      onStack := onStack[v := true];
      assert Done() == old(Done());
    }

    /** What taking `v`'s component off the stack will leave. */
    lemma ComponentCloses(v: File, base: seq<File>, gray: set<File>, tail: seq<File>)
      requires Searching(v, base, gray, |Imports(graph, v)|) && lowlink[v] == index[v]
      requires tail == stack[|base| + 1..]
      ensures stack == base + [v] + tail && stack[|base|..] == [v] + tail && v !in base && FlagsOk()
      ensures StackOk(graph, index, base, gray)
      ensures DoneOk(graph, index.Keys - Elems(base),
                     if |[v] + tail| > 1 then sccs + [Reversed([v] + tail)] else sccs)
      ensures forall x, y | x in index && x !in gray && Edge(graph, x, y) :: y in index
    {
      hide StackOk, DoneOk, LowCovers, Popped, ReachesIndex, Reach, IsScc, ImportSeen, Edge;
      assert stack == base + [v] + tail && stack[|base|..] == [v] + tail && stack == base + ([v] + tail);
      CloseCovers(graph, index, stack, v, base, lowlink[v]);
      ImportsSeen(v, base, gray, tail);
      DoneIsClosed(graph, Done(), sccs);
      CloseIsPopped(graph, index, base, tail, gray, v);
      TailDistinct(graph, index, base, [v] + tail, gray + {v});
      RecordPopped(graph, index, base, [v] + tail, sccs);
      PopKeepsStack(graph, index, base, tail, gray, v);
      StackIsIndexed(graph, index, stack, gray + {v});
    }

    /** `v` is the oldest file its component reaches: take the component off the stack. */
    method CloseComponent(v: File, ghost base: seq<File>, ghost gray: set<File>)
      requires Searching(v, base, gray, |Imports(graph, v)|) && lowlink[v] == index[v]
      modifies this`stack, this`onStack, this`sccs
      ensures Valid(gray) && stack == base && v !in stack
    {
      hide StackOk, DoneOk, LowCovers, ReachesIndex, Reach, ImportSeen, Edge, Reversed;
      ComponentCloses(v, base, gray, stack[|base| + 1..]);
      var scc := PopThrough(v, base);
      if |scc| > 1 {
        sccs := sccs + [scc];
      }
    }

    lemma ImportsSeen(v: File, base: seq<File>, gray: set<File>, tail: seq<File>)
      requires Searching(v, base, gray, |Imports(graph, v)|) && stack == base + ([v] + tail)
      ensures forall x, y | x in [v] + tail && Edge(graph, x, y) :: y in index
      ensures forall x, y | x in index && x !in gray && Edge(graph, x, y) :: y in index
    {
      TailDistinct(graph, index, base, [v] + tail, gray + {v});
      forall y | Edge(graph, v, y)
        ensures y in index
      {
        var j :| 0 <= j < |Imports(graph, v)| && Imports(graph, v)[j] == y;
        assert ImportSeen(index, base, lowlink[v], Imports(graph, v)[j]);
      }
    }

    method Close(v: File, ghost base: seq<File>, ghost gray: set<File>)
      requires Searching(v, base, gray, |Imports(graph, v)|)
      modifies this`stack, this`onStack, this`sccs
      ensures Valid(gray) && base <= stack && Low(graph, index, stack, v, lowlink[v])
      ensures LowCovers(graph, index, lowlink[v], Elems(stack[|base|..]), base)
    {
      hide StackOk, DoneOk, LowCovers, ReachesIndex, Reach, ImportSeen;
      if lowlink[v] == index[v] {
        CloseComponent(v, base, gray);
        NothingToCover(graph, index, lowlink[v], base);
        assert stack[|base|..] == [];
      } else {
        assert stack[|base|] == v;
        CloseCovers(graph, index, stack, v, base, lowlink[v]);
        CloseLeaves(graph, index, stack, gray, v, lowlink[v]);
        assert stack == base + ([v] + stack[|base| + 1..]);
        ImportsSeen(v, base, gray, stack[|base| + 1..]);
      }
    }

    /** One turn of the loop over `v`'s imports. */
    method Follow(v: File, w: File, ghost base: seq<File>, ghost gray: set<File>, ghost i: nat)
      requires Searching(v, base, gray, i) && i < |Imports(graph, v)| && Imports(graph, v)[i] == w
      modifies this
      ensures Searching(v, base, gray, i + 1)
      ensures Keeps(old(index), index)
      ensures forall x | x in old(lowlink) && x != v :: x in lowlink && lowlink[x] == old(lowlink)[x]
      decreases Files(graph) - index.Keys, 1
    {
      hide StackOk, DoneOk, LowCovers, ReachesIndex, Reach, ImportSeen;
      if w !in index {
        ghost var index0, stack0, low0 := index, stack, lowlink[v];
        GrayNotNewer(graph, index, stack, gray + {v}, v, base);
        StackReachesImport(graph, index, stack, gray + {v}, v, w);
        StrongConnect(w, gray + {v});
        StackIsIndexed(graph, index, stack, gray + {v});
        SearchedImport(graph, index0, stack0, index, stack, v, base, low0, i, lowlink[w]);
        lowlink := lowlink[v := Min(lowlink[v], lowlink[w])];
      } else if onStack[w] {
        SeenOnStack(graph, index, stack, v, base, lowlink[v], i);
        lowlink := lowlink[v := Min(lowlink[v], index[w])];
      } else {
        SeenOffStack(graph, index, stack, v, base, lowlink[v], i);
      }
    }

    method StrongConnect(v: File, ghost gray: set<File>)
      requires Valid(gray) && v in Files(graph) && v !in index
      requires forall x | x in stack :: Reach(graph, x, v)
      modifies this
      ensures Valid(gray) && old(stack) <= stack && v in index && index[v] == old(counter)
      ensures Keeps(old(index), index) && Keeps(old(lowlink), lowlink)
      ensures Low(graph, index, stack, v, lowlink[v])
      ensures LowCovers(graph, index, lowlink[v], Elems(stack[|old(stack)|..]), old(stack))
      decreases Files(graph) - index.Keys, 0
    {
      hide StackOk, DoneOk, LowCovers, ReachesIndex, Reach, ImportSeen;
      ghost var base := stack;
      Open(v, gray);
      var imports := Imports(graph, v);
      for i := 0 to |imports|
        invariant Searching(v, base, gray, i)
        invariant Keeps(old(index), index) && Keeps(old(lowlink), lowlink) && index[v] == old(counter)
      {
        Follow(v, imports[i], base, gray, i);
      }
      Close(v, base, gray);
    }
  }

  lemma DistinctAbove(s: seq<File>, k: nat, v: File)
    requires Distinct(s) && k < |s| && s[k] == v
    ensures forall i | k < i < |s| :: s[i] != v
  {
  }

  lemma ReversedGrows(s: seq<File>, k: nat)
    requires k < |s|
    ensures s[..k + 1][..k] == s[..k] && Reversed(s[k..]) == Reversed(s[k + 1..]) + [s[k]]
    ensures Reversed([]) == []
  {
  }
}
