/** The per-file test runner: several workers drawing from one shared index. */
module TestPool {
  import opened Sizes

  /** How one test file turns out. */
  datatype Result = Passed | Failed | Unaffected

  datatype Worker = Ready | Running(file: nat) | Stopped

  /** `results` are the outcomes of the files, in order; `started` lists every run, in the order begun. */
  datatype State = State(next: nat, workers: seq<Worker>, passed: nat, failed: nat, unaffected: nat,
                         started: seq<nat>, finished: set<nat>)

  /** What one worker does next: draw an index (and stop when the files are used up), or finish its file. */
  datatype Step = Draw(w: nat) | Finish(w: nat)

  function Begin(workers: nat): State {
    State(0, seq(workers, _ => Ready), 0, 0, 0, [], {})
  }

  predicate Enabled(s: State, step: Step) {
    step.w < |s.workers| &&
    match step
    case Draw(w) => s.workers[w].Ready?
    case Finish(w) => s.workers[w].Running?
  }

  function Apply(results: seq<Result>, s: State, step: Step): State
    requires Enabled(s, step)
  {
    match step
    case Draw(w) =>
      if s.next >= |results| then s.(next := s.next + 1, workers := s.workers[w := Stopped])
      else s.(next := s.next + 1, workers := s.workers[w := Running(s.next)], started := s.started + [s.next])
    case Finish(w) =>
      var file := s.workers[w].file;
      var t := s.(workers := s.workers[w := Ready], finished := s.finished + {file});
      if file >= |results| then t
      else match results[file]
        case Passed => t.(passed := s.passed + 1)
        case Failed => t.(failed := s.failed + 1)
        case Unaffected => t.(unaffected := s.unaffected + 1)
  }

  function Drawn(results: seq<Result>, s: State): nat {
    if s.next < |results| then s.next else |results|
  }

  function With(results: seq<Result>, files: set<nat>, r: Result): set<nat> {
    set f | f in files && f < |results| && results[f] == r
  }

  ghost predicate IsRunning(s: State, f: nat) {
    exists w :: 0 <= w < |s.workers| && s.workers[w] == Running(f)
  }

  ghost predicate Inv(results: seq<Result>, s: State) {
    && s.started == seq(Drawn(results, s), i => i)
    && (forall w | 0 <= w < |s.workers| && s.workers[w].Running? ::
          s.workers[w].file < Drawn(results, s) && s.workers[w].file !in s.finished)
    && (forall v, w | 0 <= v < w < |s.workers| && s.workers[v].Running? && s.workers[w].Running? ::
          s.workers[v].file != s.workers[w].file)
    && (forall f | f in s.finished :: f < Drawn(results, s))
    && (forall f: nat {:trigger IsRunning(s, f)} | f < Drawn(results, s) :: f in s.finished || IsRunning(s, f))
    && s.passed == |With(results, s.finished, Passed)|
    && s.failed == |With(results, s.finished, Failed)|
    && s.unaffected == |With(results, s.finished, Unaffected)|
    && ((exists w :: 0 <= w < |s.workers| && s.workers[w].Stopped?) ==> s.next >= |results|)
  }

  lemma RunningKept(s: State, s': State, w: nat, f: nat)
    requires w < |s.workers| == |s'.workers| && s'.workers == s.workers[w := s'.workers[w]]
    requires s.workers[w] != Running(f) && s'.workers[w] != Running(f)
    ensures IsRunning(s', f) <==> IsRunning(s, f)
  {
    if IsRunning(s, f) {
      var v :| 0 <= v < |s.workers| && s.workers[v] == Running(f);
      assert s'.workers[v] == Running(f);
    }
    if IsRunning(s', f) {
      var v :| 0 <= v < |s'.workers| && s'.workers[v] == Running(f);
      assert s.workers[v] == Running(f);
    }
  }

  lemma DrawKeeps(results: seq<Result>, s: State, w: nat)
    requires Inv(results, s) && Enabled(s, Draw(w))
    ensures Inv(results, Apply(results, s, Draw(w)))
  {
    var s' := Apply(results, s, Draw(w));
    if s.next < |results| {
      assert s'.workers[w] == Running(s.next) && IsRunning(s', s.next);
      assert s.next !in s.finished;
    }
    forall f: nat | s.next >= |results| || f != s.next
      ensures IsRunning(s', f) <==> IsRunning(s, f)
    {
      RunningKept(s, s', w, f);
    }
  }

  lemma CountGrows(results: seq<Result>, finished: set<nat>, file: nat, r: Result)
    requires file !in finished && file < |results|
    ensures |With(results, finished + {file}, r)| == |With(results, finished, r)| + if results[file] == r then 1 else 0
  {
    if results[file] == r {
      assert With(results, finished + {file}, r) == With(results, finished, r) + {file};
    } else {
      assert With(results, finished + {file}, r) == With(results, finished, r);
    }
  }

  lemma FinishKeeps(results: seq<Result>, s: State, w: nat)
    requires Inv(results, s) && Enabled(s, Finish(w))
    ensures Inv(results, Apply(results, s, Finish(w)))
  {
    var s' := Apply(results, s, Finish(w));
    var file := s.workers[w].file;
    CountGrows(results, s.finished, file, Passed);
    CountGrows(results, s.finished, file, Failed);
    CountGrows(results, s.finished, file, Unaffected);
    forall f: nat | f != file
      ensures IsRunning(s', f) <==> IsRunning(s, f)
    {
      RunningKept(s, s', w, f);
    }
  }

  // ----- Whole runs -----

  ghost predicate Possible(results: seq<Result>, s: State, steps: seq<Step>)
    decreases |steps|
  {
    steps == [] || (Enabled(s, steps[0]) && Possible(results, Apply(results, s, steps[0]), steps[1..]))
  }

  ghost function After(results: seq<Result>, s: State, steps: seq<Step>): State
    requires Possible(results, s, steps)
    decreases |steps|
  {
    if steps == [] then s else After(results, Apply(results, s, steps[0]), steps[1..])
  }

  /** Work left: each file not yet drawn and each running file count two, each ready worker one. */
  function WorkerLeft(w: Worker): nat {
    match w
    case Ready => 1
    case Running(_) => 2
    case Stopped => 0
  }

  function WorkersLeft(workers: seq<Worker>): nat {
    if workers == [] then 0 else WorkersLeft(workers[..|workers| - 1]) + WorkerLeft(workers[|workers| - 1])
  }

  function Left(results: seq<Result>, s: State): nat {
    2 * (|results| - Drawn(results, s)) + WorkersLeft(s.workers)
  }

  lemma {:induction false} WorkerChange(workers: seq<Worker>, w: nat, to: Worker)
    requires w < |workers|
    ensures WorkersLeft(workers[w := to]) == WorkersLeft(workers) - WorkerLeft(workers[w]) + WorkerLeft(to)
  {
    var init := workers[..|workers| - 1];
    if w < |workers| - 1 {
      assert workers[w := to][..|workers| - 1] == init[w := to];
      WorkerChange(init, w, to);
    } else {
      assert workers[w := to][..|workers| - 1] == init;
    }
  }

  /** Every step uses up exactly one unit of work, so no interleaving goes on for ever. */
  lemma StepUsesOne(results: seq<Result>, s: State, step: Step)
    requires Inv(results, s) && Enabled(s, step)
    ensures Left(results, Apply(results, s, step)) == Left(results, s) - 1
  {
    WorkerChange(s.workers, step.w, Apply(results, s, step).workers[step.w]);
  }

  /** A pool that is not finished can always take a step. */
  lemma NeverStuck(s: State)
    requires exists w :: 0 <= w < |s.workers| && !s.workers[w].Stopped?
    ensures exists step :: Enabled(s, step)
  {
    var w :| 0 <= w < |s.workers| && !s.workers[w].Stopped?;
    assert Enabled(s, if s.workers[w].Ready? then Draw(w) else Finish(w));
  }

  lemma BeginOk(results: seq<Result>, workers: nat)
    ensures Inv(results, Begin(workers)) && Left(results, Begin(workers)) == 2 * |results| + workers
  {
    AllReady(Begin(workers).workers);
    forall r
      ensures With(results, {}, r) == {}
    {
    }
  }

  lemma {:induction false} AllReady(workers: seq<Worker>)
    requires forall w | 0 <= w < |workers| :: workers[w].Ready?
    ensures WorkersLeft(workers) == |workers|
  {
    if workers != [] {
      AllReady(workers[..|workers| - 1]);
    }
  }

  lemma {:induction false} RunKeeps(results: seq<Result>, s: State, steps: seq<Step>)
    requires Inv(results, s) && Possible(results, s, steps)
    ensures Inv(results, After(results, s, steps))
    ensures |After(results, s, steps).workers| == |s.workers|
    ensures Left(results, After(results, s, steps)) == Left(results, s) - |steps|
    decreases |steps|
  {
    if steps != [] {
      StepUsesOne(results, s, steps[0]);
      match steps[0]
      case Draw(w) => DrawKeeps(results, s, w);
      case Finish(w) => FinishKeeps(results, s, w);
    }
    if steps != [] {
      RunKeeps(results, Apply(results, s, steps[0]), steps[1..]);
    }
  }

  /** Never, in any interleaving, is a file run twice; and no run takes more than two steps a file and one
      a worker. */
  lemma EveryMoment(results: seq<Result>, workers: nat, steps: seq<Step>)
    requires Possible(results, Begin(workers), steps)
    ensures var s := After(results, Begin(workers), steps);
            && (forall i, j | 0 <= i < j < |s.started| :: s.started[i] != s.started[j])
            && |steps| <= 2 * |results| + workers
  {
    BeginOk(results, workers);
    RunKeeps(results, Begin(workers), steps);
  }

  function ExitCode(s: State): int {
    if s.failed == 0 then 0 else 1
  }

  /** When every worker has stopped, each file was run exactly once, the counters add up to the number of
      files, and the exit code is 0 exactly when no file failed. */
  lemma {:induction false} Finished(results: seq<Result>, workers: nat, steps: seq<Step>)
    requires workers > 0 && Possible(results, Begin(workers), steps)
    requires forall w | w in After(results, Begin(workers), steps).workers :: w.Stopped?
    ensures var s := After(results, Begin(workers), steps);
            && s.started == seq(|results|, i => i)
            && s.passed + s.failed + s.unaffected == |results|
            && s.passed == |set f | 0 <= f < |results| && results[f].Passed?|
            && s.failed == |set f | 0 <= f < |results| && results[f].Failed?|
            && ExitCode(s) == (if forall f | 0 <= f < |results| :: !results[f].Failed? then 0 else 1)
            && |steps| == 2 * |results| + workers
  {
    BeginOk(results, workers);
    RunKeeps(results, Begin(workers), steps);
    var s := After(results, Begin(workers), steps);
    assert s.workers[0] in s.workers;
    assert forall w | 0 <= w < |s.workers| :: s.workers[w] in s.workers;
    assert forall f: nat :: !IsRunning(s, f);
    AllStopped(s.workers);
    AllFinished(results, s);
  }

  lemma {:induction false} AllStopped(workers: seq<Worker>)
    requires forall w | 0 <= w < |workers| :: workers[w].Stopped?
    ensures WorkersLeft(workers) == 0
  {
    if workers != [] {
      AllStopped(workers[..|workers| - 1]);
    }
  }

  lemma AllFinished(results: seq<Result>, s: State)
    requires Inv(results, s) && s.next >= |results| && forall f: nat :: !IsRunning(s, f)
    ensures s.passed + s.failed + s.unaffected == |results|
    ensures s.failed == 0 <==> forall f | 0 <= f < |results| :: !results[f].Failed?
    ensures s.passed == |set f | 0 <= f < |results| && results[f].Passed?|
    ensures s.failed == |set f | 0 <= f < |results| && results[f].Failed?|
  {
    forall f: nat
      ensures f in s.finished <==> f < |results|
    {
      assert !IsRunning(s, f);
    }
    assert With(results, s.finished, Passed) == set f | 0 <= f < |results| && results[f].Passed?;
    assert With(results, s.finished, Failed) == set f | 0 <= f < |results| && results[f].Failed?;
    FilesCount(s.finished, |results|);
    EachOnce(results, s.finished);
    if f :| 0 <= f < |results| && results[f].Failed? {
      assert f in With(results, s.finished, Failed);
    }
    if s.failed != 0 {
      var f :| f in With(results, s.finished, Failed);
    }
  }

  /** Every finished file is counted under exactly one result. */
  lemma EachOnce(results: seq<Result>, finished: set<nat>)
    requires forall f | f in finished :: f < |results|
    ensures |With(results, finished, Passed)| + |With(results, finished, Failed)|
            + |With(results, finished, Unaffected)| == |finished|
  {
    var p, q := With(results, finished, Passed), With(results, finished, Failed);
    var u := With(results, finished, Unaffected);
    assert finished == p + q + u && p !! q && (p + q) !! u;
    hide With;
    SplitSize(finished, p + q, u);
    SplitSize(p + q, p, q);
  }

  lemma {:induction false} FilesCount(files: set<nat>, n: nat)
    requires forall f: nat :: f in files <==> f < n
    ensures |files| == n
  {
    if n == 0 {
      assert files == {};
    } else {
      FilesCount(files - {n - 1}, n - 1);
    }
  }
}
