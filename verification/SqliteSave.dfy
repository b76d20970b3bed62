/** Concurrent saves of one database file: export, write a temporary file, rename it into place. */
module SqliteSave {
  import opened JsText
  import Decimal

  const DOT: CodeUnit := 46
  const TMP: JsString := [46, 116, 109, 112] // ".tmp"

  /** What a path holds: one complete exported image, a write still in progress (or given up), or
      whatever was there before this process began. */
  datatype Content = Image(id: nat) | Partial | Earlier(id: nat)

  /** A save's progress.  `number` is the process-wide counter its temporary name carries. */
  datatype Save =
    | Waiting
    | Exported(number: nat, now: nat, image: nat)
    | Writing(number: nat, now: nat, image: nat)
    | Written(number: nat, now: nat, image: nat)
    | Done(number: nat, now: nat, image: nat)
    | Refused(number: nat, now: nat, image: nat) // its temporary file could not be opened
    | Failed(number: nat, now: nat, image: nat) // its write or its rename failed

  /** The process: its files, what the open database holds now, the counter, every image exported so far,
      and all saves started so far. */
  datatype State = State(files: map<JsString, Content>, current: nat, sequence: nat, exported: set<nat>,
                         saves: seq<Save>)

  datatype Step =
    | Begin
    | Mutate(image: nat)
    | OtherStore // another store of the process takes a number
    | Export(i: nat, now: nat)
    | FailOpen(i: nat)
    | StartWrite(i: nat)
    | FinishWrite(i: nat)
    | FailWrite(i: nat)
    | Rename(i: nat)
    | FailRename(i: nat)

  /** Where this process's saves go. */
  datatype Target = Target(path: JsString, pid: nat)

  function TempPath(t: Target, now: nat, number: nat): JsString {
    t.path + [DOT] + Decimal.Print(t.pid) + [DOT] + Decimal.Print(now) + [DOT] + Decimal.Print(number) + TMP
  }

  function TempOf(t: Target, s: Save): JsString
    requires !s.Waiting?
  {
    TempPath(t, s.now, s.number)
  }

  // ----- Temporary names -----

  /** What follows the last dot is determined by the whole. */
  lemma {:induction false} AfterLastDot(a: JsString, x: JsString, b: JsString, y: JsString)
    requires DOT !in x && DOT !in y && a + [DOT] + x == b + [DOT] + y
    ensures x == y
  {
    var s := a + [DOT] + x;
    assert s[|a|] == DOT && forall k | |a| < k < |s| :: s[k] == x[k - |a| - 1] && s[k] in x;
    var r := b + [DOT] + y;
    assert r[|b|] == DOT && forall k | |b| < k < |r| :: r[k] == y[k - |b| - 1] && r[k] in y;
    assert |a| == |b|;
    assert x == s[|a| + 1..] && y == r[|b| + 1..];
  }

  /** A numeral after the last dot is told apart from what is before it. */
  lemma LastPart(a: JsString, m: nat, b: JsString, n: nat)
    requires a + [DOT] + Decimal.Print(m) == b + [DOT] + Decimal.Print(n)
    ensures a == b && m == n
  {
    var x, y := Decimal.Print(m), Decimal.Print(n);
    AfterLastDot(a, x, b, y);
    Decimal.PrintInjective(m, n);
    var s := a + [DOT] + x;
    assert s[..|s| - |x| - 1] == a && (b + [DOT] + y)[..|s| - |x| - 1] == b;
  }

  /** A temporary name says whose it is: the database, the process, the moment and the number.  It stands beside
      its database. */
  lemma TempPathSaysWhose(t: Target, now: nat, number: nat, u: Target, now': nat, number': nat)
    ensures TempPath(t, now, number) == TempPath(u, now', number') <==>
            t.path == u.path && t.pid == u.pid && now == now' && number == number'
    ensures t.path + [DOT] <= TempPath(t, now, number)
    ensures TempPath(t, now, number)[|TempPath(t, now, number)| - 4..] == Ascii(".tmp")
  {
    if TempPath(t, now, number) == TempPath(u, now', number') {
      var p := t.path + [DOT] + Decimal.Print(t.pid) + [DOT] + Decimal.Print(now);
      var q := u.path + [DOT] + Decimal.Print(u.pid) + [DOT] + Decimal.Print(now');
      var s := TempPath(t, now, number);
      assert s == (p + [DOT] + Decimal.Print(number)) + TMP && s == (q + [DOT] + Decimal.Print(number')) + TMP;
      assert p + [DOT] + Decimal.Print(number) == s[..|s| - 4] == q + [DOT] + Decimal.Print(number');
      LastPart(p, number, q, number');
      LastPart(t.path + [DOT] + Decimal.Print(t.pid), now, u.path + [DOT] + Decimal.Print(u.pid), now');
      LastPart(t.path, t.pid, u.path, u.pid);
    }
    assert Ascii(".tmp") == TMP;
  }

  /** The counter alone keeps names apart: same process, same millisecond, even another database. */
  lemma TempPathsDiffer(t: Target, now: nat, number: nat, u: Target, now': nat, number': nat)
    requires number != number'
    ensures TempPath(t, now, number) != TempPath(u, now', number')
  {
    TempPathSaysWhose(t, now, number, u, now', number');
  }

  lemma TempIsNotTarget(t: Target, now: nat, number: nat)
    ensures TempPath(t, now, number) != t.path
  {
  }

  // ----- Steps -----

  predicate Enabled(s: State, step: Step) {
    match step
    case Begin => true
    case Mutate(_) => true
    case OtherStore => true
    case Export(i, _) => i < |s.saves| && s.saves[i].Waiting?
    case FailOpen(i) => i < |s.saves| && s.saves[i].Exported?
    case StartWrite(i) => i < |s.saves| && s.saves[i].Exported?
    case FinishWrite(i) => i < |s.saves| && s.saves[i].Writing?
    case FailWrite(i) => i < |s.saves| && s.saves[i].Writing?
    case Rename(i) => i < |s.saves| && s.saves[i].Written?
    case FailRename(i) => i < |s.saves| && s.saves[i].Written?
  }

  function Move(s: State, i: nat, save: Save, files: map<JsString, Content>): State
    requires i < |s.saves|
  {
    s.(saves := s.saves[i := save], files := files)
  }

  /** `rename(2)`: the source must be there, and takes the target's place in one step. */
  function Renamed(files: map<JsString, Content>, source: JsString, target: JsString): Option<map<JsString, Content>> {
    if source in files then Some((files - {source})[target := files[source]]) else None
  }

  function Apply(t: Target, s: State, step: Step): State
    requires Enabled(s, step)
  {
    match step
    case Begin => s.(saves := s.saves + [Waiting])
    case Mutate(image) => s.(current := image)
    case OtherStore => s.(sequence := s.sequence + 1)
    case Export(i, now) =>
      // One synchronous block: export, take a number, build the name.
      s.(exported := s.exported + {s.current}, sequence := s.sequence + 1,
         saves := s.saves[i := Exported(s.sequence + 1, now, s.current)])
    case FailOpen(i) =>
      var x := s.saves[i];
      Move(s, i, Refused(x.number, x.now, x.image), s.files)
    case StartWrite(i) =>
      var x := s.saves[i];
      Move(s, i, Writing(x.number, x.now, x.image), s.files[TempOf(t, x) := Partial])
    case FinishWrite(i) =>
      var x := s.saves[i];
      Move(s, i, Written(x.number, x.now, x.image), s.files[TempOf(t, x) := Image(x.image)])
    case FailWrite(i) =>
      var x := s.saves[i];
      Move(s, i, Failed(x.number, x.now, x.image), s.files)
    case Rename(i) =>
      var x := s.saves[i];
      (match Renamed(s.files, TempOf(t, x), t.path)
       case Some(files) => Move(s, i, Done(x.number, x.now, x.image), files)
       case None => Move(s, i, Failed(x.number, x.now, x.image), s.files))
    case FailRename(i) =>
      var x := s.saves[i];
      Move(s, i, Failed(x.number, x.now, x.image), s.files)
  }

  // ----- What holds at every step -----

  ghost predicate NumbersOk(s: State) {
    && (forall i | 0 <= i < |s.saves| && !s.saves[i].Waiting? :: s.saves[i].number <= s.sequence)
    && (forall i, j | 0 <= i < j < |s.saves| && !s.saves[i].Waiting? && !s.saves[j].Waiting? ::
          s.saves[i].number != s.saves[j].number)
    && (forall i | 0 <= i < |s.saves| && !s.saves[i].Waiting? :: s.saves[i].image in s.exported)
  }

  ghost predicate Unchanged(first: map<JsString, Content>, files: map<JsString, Content>, p: JsString) {
    (p in files <==> p in first) && (p in first ==> files[p] == first[p])
  }

  /** A save's temporary file is what its progress says it is. */
  ghost predicate TempOk(t: Target, first: map<JsString, Content>, files: map<JsString, Content>, x: Save) {
    && (x.Writing? ==> TempOf(t, x) in files)
    && (x.Written? ==> TempOf(t, x) in files && files[TempOf(t, x)] == Image(x.image))
    && (x.Done? ==> TempOf(t, x) !in files)
    && (x.Failed? ==> TempOf(t, x) in files)
    && (x.Exported? || x.Refused? ==> Unchanged(first, files, TempOf(t, x)))
  }

  ghost predicate IsTemp(t: Target, saves: seq<Save>, p: JsString) {
    exists i :: 0 <= i < |saves| && !saves[i].Waiting? && TempOf(t, saves[i]) == p
  }

  ghost predicate HoldsDone(t: Target, s: State) {
    t.path in s.files && exists x :: x in s.saves && x.Done? && s.files[t.path] == Image(x.image)
  }

  /** The database path is as it was at first while no save is done, and then holds the complete image of one
      that is. */
  ghost predicate TargetOk(t: Target, first: map<JsString, Content>, s: State) {
    if exists x :: x in s.saves && x.Done? then HoldsDone(t, s) else Unchanged(first, s.files, t.path)
  }

  ghost predicate Inv(t: Target, first: map<JsString, Content>, s: State) {
    && NumbersOk(s)
    && (forall i | 0 <= i < |s.saves| :: TempOk(t, first, s.files, s.saves[i]))
    && TargetOk(t, first, s)
    && (forall p | p != t.path && !IsTemp(t, s.saves, p) :: Unchanged(first, s.files, p))
  }

  lemma TempsDiffer(t: Target, s: State, i: nat, j: nat)
    requires NumbersOk(s) && i < |s.saves| && j < |s.saves| && i != j
    requires !s.saves[i].Waiting? && !s.saves[j].Waiting?
    ensures TempOf(t, s.saves[i]) != TempOf(t, s.saves[j])
  {
    assert s.saves[i].number != s.saves[j].number by {
      if i < j {
        assert s.saves[i].number != s.saves[j].number;
      } else {
        assert s.saves[j].number != s.saves[i].number;
      }
    }
    TempPathsDiffer(t, s.saves[i].now, s.saves[i].number, t, s.saves[j].now, s.saves[j].number);
  }

  lemma NumbersKeep(t: Target, s: State, step: Step)
    requires Enabled(s, step) && NumbersOk(s)
    ensures NumbersOk(Apply(t, s, step))
  {
  }

  /** Files other than the stepping save's own temporary file and the database stay as they are. */
  ghost predicate Touches(t: Target, s: State, s': State, i: nat)
    requires i < |s.saves| && !s.saves[i].Waiting?
  {
    && |s'.saves| == |s.saves|
    && (forall j | 0 <= j < |s.saves| && j != i :: s'.saves[j] == s.saves[j])
    && !s'.saves[i].Waiting? && s'.saves[i].number == s.saves[i].number && s'.saves[i].now == s.saves[i].now
    && (forall p | p != t.path && p != TempOf(t, s.saves[i]) :: Unchanged(s.files, s'.files, p))
  }

  lemma TouchKeeps(t: Target, first: map<JsString, Content>, s: State, s': State, i: nat)
    requires Inv(t, first, s) && NumbersOk(s') && i < |s.saves| && !s.saves[i].Waiting?
    requires Touches(t, s, s', i) && TempOk(t, first, s'.files, s'.saves[i]) && TargetOk(t, first, s')
    ensures Inv(t, first, s')
  {
    hide TempPath, TargetOk, NumbersOk;
    forall j | 0 <= j < |s'.saves|
      ensures TempOk(t, first, s'.files, s'.saves[j])
    {
      if j != i && !s.saves[j].Waiting? {
        TempsDiffer(t, s, i, j);
        TempIsNotTarget(t, s.saves[j].now, s.saves[j].number);
        assert TempOk(t, first, s.files, s.saves[j]);
        assert Unchanged(s.files, s'.files, TempOf(t, s.saves[j]));
      }
    }
    forall p | p != t.path && !IsTemp(t, s'.saves, p)
      ensures Unchanged(first, s'.files, p)
    {
      assert TempOf(t, s'.saves[i]) == TempOf(t, s.saves[i]);
      TempsKept(t, s, s', i, p);
      assert Unchanged(first, s.files, p) && Unchanged(s.files, s'.files, p);
    }
  }

  lemma TempsKept(t: Target, s: State, s': State, i: nat, p: JsString)
    requires i < |s.saves| && !s.saves[i].Waiting? && Touches(t, s, s', i)
    ensures IsTemp(t, s.saves, p) <==> IsTemp(t, s'.saves, p)
  {
  }

  /** The rename that ends a save finds that save's own complete image. */
  lemma RenameFindsOwnFile(t: Target, first: map<JsString, Content>, s: State, i: nat)
    requires Inv(t, first, s) && Enabled(s, Rename(i))
    ensures TempOf(t, s.saves[i]) in s.files && s.files[TempOf(t, s.saves[i])] == Image(s.saves[i].image)
    ensures Apply(t, s, Rename(i)).saves[i].Done? && t.path in Apply(t, s, Rename(i)).files
    ensures Apply(t, s, Rename(i)).files[t.path] == Image(s.saves[i].image)
  {
  }

  lemma StepKeeps(t: Target, first: map<JsString, Content>, s: State, step: Step)
    requires Inv(t, first, s) && Enabled(s, step)
    ensures Inv(t, first, Apply(t, s, step))
  {
    var s' := Apply(t, s, step);
    NumbersKeep(t, s, step);
    match step
    case Begin =>
      BeginKeeps(t, first, s);
    case Mutate(_) =>
    case OtherStore =>
    case Export(i, now) =>
      ExportKeeps(t, first, s, i, now);
    case FailOpen(i) =>
      FailKeeps(t, first, s, i, step);
    case StartWrite(i) =>
      WriteKeeps(t, first, s, i, step);
    case FinishWrite(i) =>
      WriteKeeps(t, first, s, i, step);
    case FailWrite(i) =>
      FailKeeps(t, first, s, i, step);
    case Rename(i) =>
      RenameKeeps(t, first, s, i);
    case FailRename(i) =>
      FailKeeps(t, first, s, i, step);
  }

  lemma FailKeeps(t: Target, first: map<JsString, Content>, s: State, i: nat, step: Step)
    requires Inv(t, first, s) && Enabled(s, step)
    requires step == FailOpen(i) || step == FailWrite(i) || step == FailRename(i)
    ensures Inv(t, first, Apply(t, s, step))
  {
    var s' := Apply(t, s, step);
    NumbersKeep(t, s, step);
    TargetKept(t, first, s, s');
    hide TempPath, NumbersOk, TargetOk;
    TouchKeeps(t, first, s, s', i);
  }

  lemma WriteKeeps(t: Target, first: map<JsString, Content>, s: State, i: nat, step: Step)
    requires Inv(t, first, s) && Enabled(s, step) && (step == StartWrite(i) || step == FinishWrite(i))
    ensures Inv(t, first, Apply(t, s, step))
  {
    NumbersKeep(t, s, step);
    TempIsNotTarget(t, s.saves[i].now, s.saves[i].number);
    hide TempPath, NumbersOk;
    var s' := Apply(t, s, step);
    TargetKept(t, first, s, s');
    assert Touches(t, s, s', i) && TempOk(t, first, s'.files, s'.saves[i]);
    hide TargetOk, Touches, TempOk, Apply;
    TouchKeeps(t, first, s, s', i);
  }

  /** A step that neither renames nor touches the database path. */
  lemma TargetKept(t: Target, first: map<JsString, Content>, s: State, s': State)
    requires TargetOk(t, first, s) && Unchanged(s.files, s'.files, t.path) && |s.saves| <= |s'.saves|
    requires forall j | 0 <= j < |s.saves| && (s.saves[j].Done? || s'.saves[j].Done?) :: s'.saves[j] == s.saves[j]
    requires forall j | |s.saves| <= j < |s'.saves| :: !s'.saves[j].Done?
    ensures TargetOk(t, first, s')
  {
    assert forall x: Save | x.Done? :: x in s.saves <==> x in s'.saves by {
      forall x: Save | x.Done? && x in s.saves
        ensures x in s'.saves
      {
        var j :| 0 <= j < |s.saves| && s.saves[j] == x;
        assert s'.saves[j] == x;
      }
    }
  }

  lemma RenameKeeps(t: Target, first: map<JsString, Content>, s: State, i: nat)
    requires Inv(t, first, s) && Enabled(s, Rename(i))
    ensures Inv(t, first, Apply(t, s, Rename(i)))
  {
    var s' := Apply(t, s, Rename(i));
    NumbersKeep(t, s, Rename(i));
    RenameFindsOwnFile(t, first, s, i);
    TempIsNotTarget(t, s.saves[i].now, s.saves[i].number);
    assert s.saves[i].image in s.exported;
    hide TempPath, NumbersOk;
    TouchKeeps(t, first, s, s', i);
  }

  lemma BeginKeeps(t: Target, first: map<JsString, Content>, s: State)
    requires Inv(t, first, s)
    ensures Inv(t, first, Apply(t, s, Begin))
  {
    var s' := Apply(t, s, Begin);
    NumbersKeep(t, s, Begin);
    TargetKept(t, first, s, s');
    hide TempPath, NumbersOk, TargetOk;
    forall p | IsTemp(t, s.saves, p)
      ensures IsTemp(t, s'.saves, p)
    {
      var j :| 0 <= j < |s.saves| && !s.saves[j].Waiting? && TempOf(t, s.saves[j]) == p;
      assert s'.saves[j] == s.saves[j];
    }
  }

  /** The name an export takes is no save's yet. */
  lemma NewName(t: Target, s: State, now: nat)
    requires NumbersOk(s)
    ensures !IsTemp(t, s.saves, TempPath(t, now, s.sequence + 1))
  {
    forall i | 0 <= i < |s.saves| && !s.saves[i].Waiting?
      ensures TempOf(t, s.saves[i]) != TempPath(t, now, s.sequence + 1)
    {
      TempPathsDiffer(t, s.saves[i].now, s.saves[i].number, t, now, s.sequence + 1);
    }
  }

  lemma ExportKeeps(t: Target, first: map<JsString, Content>, s: State, i: nat, now: nat)
    requires Inv(t, first, s) && Enabled(s, Export(i, now))
    ensures Inv(t, first, Apply(t, s, Export(i, now)))
  {
    var s' := Apply(t, s, Export(i, now));
    NumbersKeep(t, s, Export(i, now));
    NewName(t, s, now);
    TempIsNotTarget(t, now, s.sequence + 1);
    TargetKept(t, first, s, s');
    hide TempPath, NumbersOk, Unchanged, TargetOk;
    forall j | 0 <= j < |s'.saves|
      ensures TempOk(t, first, s'.files, s'.saves[j])
    {
      assert j != i ==> TempOk(t, first, s.files, s.saves[j]);
    }
    forall p | IsTemp(t, s.saves, p)
      ensures IsTemp(t, s'.saves, p)
    {
      var j :| 0 <= j < |s.saves| && !s.saves[j].Waiting? && TempOf(t, s.saves[j]) == p;
      assert s'.saves[j] == s.saves[j];
    }
  }

  // ----- Runs -----

  /** Any interleaving: at every step some enabled step is taken. */
  ghost predicate Possible(t: Target, s: State, steps: seq<Step>)
    decreases |steps|
  {
    steps == [] || (Enabled(s, steps[0]) && Possible(t, Apply(t, s, steps[0]), steps[1..]))
  }

  ghost function After(t: Target, s: State, steps: seq<Step>): State
    requires Possible(t, s, steps)
    decreases |steps|
  {
    if steps == [] then s else After(t, Apply(t, s, steps[0]), steps[1..])
  }

  lemma {:induction false} RunKeeps(t: Target, first: map<JsString, Content>, s: State, steps: seq<Step>)
    requires Inv(t, first, s) && Possible(t, s, steps)
    ensures Inv(t, first, After(t, s, steps))
    decreases |steps|
  {
    if steps != [] {
      StepKeeps(t, first, s, steps[0]);
      RunKeeps(t, first, Apply(t, s, steps[0]), steps[1..]);
    }
  }

  function Fresh(files: map<JsString, Content>, current: nat, sequence: nat): State {
    State(files, current, sequence, {}, [])
  }

  /** At every moment of every interleaving: temporary names are pairwise distinct, the database path is as it
      was while no save is done and then holds the complete exported image of one that is, and a save about to
      rename finds its own complete image. */
  lemma EveryMoment(t: Target, first: map<JsString, Content>, current: nat, sequence: nat, steps: seq<Step>)
    requires Possible(t, Fresh(first, current, sequence), steps)
    ensures var s := After(t, Fresh(first, current, sequence), steps);
            && TargetOk(t, first, s) && (forall x | x in s.saves && x.Done? :: x.image in s.exported)
            && (forall i, j | 0 <= i < j < |s.saves| && !s.saves[i].Waiting? && !s.saves[j].Waiting? ::
                  TempOf(t, s.saves[i]) != TempOf(t, s.saves[j]))
            && (forall i | 0 <= i < |s.saves| && s.saves[i].Written? ::
                  TempOf(t, s.saves[i]) in s.files && s.files[TempOf(t, s.saves[i])] == Image(s.saves[i].image))
  {
    RunKeeps(t, first, Fresh(first, current, sequence), steps);
    var s := After(t, Fresh(first, current, sequence), steps);
    forall i, j | 0 <= i < j < |s.saves| && !s.saves[i].Waiting? && !s.saves[j].Waiting?
      ensures TempOf(t, s.saves[i]) != TempOf(t, s.saves[j])
    {
      TempsDiffer(t, s, i, j);
    }
    forall i | 0 <= i < |s.saves| && s.saves[i].Written?
      ensures TempOf(t, s.saves[i]) in s.files && s.files[TempOf(t, s.saves[i])] == Image(s.saves[i].image)
    {
      RenameFindsOwnFile(t, first, s, i);
    }
  }

  /** The database held this image at some moment of the run. */
  ghost predicate Held(t: Target, s: State, steps: seq<Step>, image: nat)
    requires Possible(t, s, steps)
    decreases |steps|
  {
    s.current == image || (steps != [] && Held(t, Apply(t, s, steps[0]), steps[1..], image))
  }

  lemma {:induction false} ExportedWasHeld(t: Target, s: State, steps: seq<Step>, image: nat)
    requires Possible(t, s, steps) && image in After(t, s, steps).exported
    ensures image in s.exported || Held(t, s, steps, image)
    decreases |steps|
  {
    if steps != [] {
      ExportedWasHeld(t, Apply(t, s, steps[0]), steps[1..], image);
    }
  }

  /** Nothing is made up: what a finished save put in place is what the database held at some moment. */
  lemma DoneWasHeld(t: Target, first: map<JsString, Content>, current: nat, sequence: nat, steps: seq<Step>, x: Save)
    requires Possible(t, Fresh(first, current, sequence), steps)
    requires x in After(t, Fresh(first, current, sequence), steps).saves && x.Done?
    ensures Held(t, Fresh(first, current, sequence), steps, x.image)
  {
    RunKeeps(t, first, Fresh(first, current, sequence), steps);
    ExportedWasHeld(t, Fresh(first, current, sequence), steps, x.image);
  }

  /** A save nothing fails in can be carried through from any moment, and leaves what the database holds now. */
  lemma SaveLands(t: Target, s: State, now: nat)
    ensures var i := |s.saves|;
            var steps := [Begin, Export(i, now), StartWrite(i), FinishWrite(i), Rename(i)];
            && Possible(t, s, steps)
            && var r := After(t, s, steps);
               && |r.saves| == i + 1 && r.saves[..i] == s.saves && r.saves[i].Done?
               && t.path in r.files && r.files[t.path] == Image(s.current) && r.current == s.current
  {
    var i := |s.saves|;
    var a := Apply(t, s, Begin);
    var b := Apply(t, a, Export(i, now));
    TempIsNotTarget(t, now, b.sequence);
    hide TempPath;
    var c := Apply(t, b, StartWrite(i));
    var d := Apply(t, c, FinishWrite(i));
    var r := Apply(t, d, Rename(i));
    assert r.saves[..i] == s.saves;
    OneStep(t, d, Rename(i), []);
    OneStep(t, c, FinishWrite(i), [Rename(i)]);
    OneStep(t, b, StartWrite(i), [FinishWrite(i), Rename(i)]);
    OneStep(t, a, Export(i, now), [StartWrite(i), FinishWrite(i), Rename(i)]);
    OneStep(t, s, Begin, [Export(i, now), StartWrite(i), FinishWrite(i), Rename(i)]);
  }

  /** What else the process does never waits, and touches neither files nor saves. */
  lemma OthersGoOn(t: Target, s: State, image: nat)
    ensures Enabled(s, Mutate(image)) && Apply(t, s, Mutate(image)) == s.(current := image)
    ensures Enabled(s, OtherStore) && Apply(t, s, OtherStore).sequence > s.sequence
    ensures Apply(t, s, OtherStore) == s.(sequence := Apply(t, s, OtherStore).sequence)
  {
  }

  lemma OneStep(t: Target, s: State, step: Step, rest: seq<Step>)
    requires Enabled(s, step) && Possible(t, Apply(t, s, step), rest)
    ensures Possible(t, s, [step] + rest) && After(t, s, [step] + rest) == After(t, Apply(t, s, step), rest)
  {
    assert ([step] + rest)[1..] == rest;
  }

  /** A save that is over: done, given up before its file was opened, or failed after. */
  predicate Over(x: Save) {
    x.Waiting? || x.Done? || x.Refused? || x.Failed?
  }

  /** `p` is the temporary file of a save that failed to write it or to rename it. */
  ghost predicate OfFailed(t: Target, saves: seq<Save>, p: JsString) {
    exists x :: x in saves && x.Failed? && TempOf(t, x) == p
  }

  ghost predicate OfDone(t: Target, saves: seq<Save>, p: JsString) {
    exists x :: x in saves && x.Done? && TempOf(t, x) == p
  }

  lemma FileAtRest(t: Target, first: map<JsString, Content>, s: State, p: JsString)
    requires Inv(t, first, s) && p != t.path && forall x | x in s.saves :: Over(x)
    ensures OfFailed(t, s.saves, p) ==> p in s.files
    ensures OfDone(t, s.saves, p) ==> p !in s.files
    ensures !OfFailed(t, s.saves, p) && !OfDone(t, s.saves, p) ==> Unchanged(first, s.files, p)
  {
    assert forall x | x in s.saves :: TempOk(t, first, s.files, x);
    if IsTemp(t, s.saves, p) {
      var i :| 0 <= i < |s.saves| && !s.saves[i].Waiting? && TempOf(t, s.saves[i]) == p;
      assert s.saves[i] in s.saves;
    }
  }

  /** What is left once all saves are over: a temporary file for each save that failed to write or to rename,
      none for one that is done, and every other path but the database as it was. */
  lemma LeftBehind(t: Target, first: map<JsString, Content>, current: nat, sequence: nat, steps: seq<Step>)
    requires Possible(t, Fresh(first, current, sequence), steps)
    requires forall x | x in After(t, Fresh(first, current, sequence), steps).saves :: Over(x)
    ensures var s := After(t, Fresh(first, current, sequence), steps);
            forall p | p != t.path ::
              if OfFailed(t, s.saves, p) then p in s.files
              else if OfDone(t, s.saves, p) then p !in s.files
              else Unchanged(first, s.files, p)
  {
    RunKeeps(t, first, Fresh(first, current, sequence), steps);
    var s := After(t, Fresh(first, current, sequence), steps);
    forall p | p != t.path
      ensures if OfFailed(t, s.saves, p) then p in s.files
              else if OfDone(t, s.saves, p) then p !in s.files
              else Unchanged(first, s.files, p)
    {
      FileAtRest(t, first, s, p);
    }
  }

  /** The new files are exactly the temporary files of failed saves: nothing new is left behind exactly
      when no save failed after it had opened its file. */
  lemma StrayFiles(t: Target, first: map<JsString, Content>, current: nat, sequence: nat, steps: seq<Step>)
    requires Possible(t, Fresh(first, current, sequence), steps)
    requires forall x | x in After(t, Fresh(first, current, sequence), steps).saves :: Over(x)
    ensures var s := After(t, Fresh(first, current, sequence), steps);
            && (forall p | p != t.path && p !in first :: p in s.files <==> OfFailed(t, s.saves, p))
            && (forall x | x in s.saves && x.Failed? :: TempOf(t, x) != t.path && TempOf(t, x) in s.files)
  {
    RunKeeps(t, first, Fresh(first, current, sequence), steps);
    var s := After(t, Fresh(first, current, sequence), steps);
    forall p | p != t.path && p !in first
      ensures p in s.files <==> OfFailed(t, s.saves, p)
    {
      FileAtRest(t, first, s, p);
    }
    forall x | x in s.saves && x.Failed?
      ensures TempOf(t, x) != t.path && TempOf(t, x) in s.files
    {
      TempIsNotTarget(t, x.now, x.number);
      assert OfFailed(t, s.saves, TempOf(t, x));
      FileAtRest(t, first, s, TempOf(t, x));
    }
  }
}
