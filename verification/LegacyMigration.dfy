/** The consented migration from the legacy unit to the managed one. */
module LegacyMigration {
  import opened JsText

  /** A unit as systemd knows it by its name: its enablement link, and whether it runs. */
  datatype Unit = Unit(link: bool, running: bool)

  const IDLE: Unit := Unit(false, false)

  /** The host: units by name, unit files by path. */
  datatype Machine = Machine(units: map<JsString, Unit>, files: map<JsString, JsString>)

  const LEGACY_NAME: JsString := Ascii("goodvibes-daemon")
  const SERVICE: JsString := Ascii(".service")
  const PLIST: JsString := Ascii(".plist")
  const SLASH: CodeUnit := 47

  datatype Platform = Systemd | Launchd | Windows | Manual

  /** What the service manager says about the unit it manages. */
  datatype Status = Status(platform: Platform, path: JsString, serviceName: Option<JsString>, running: bool,
                           actionError: bool)

  datatype LegacyInfo = LegacyInfo(present: bool, active: bool, path: JsString)

  datatype Result = Result(ok: bool, exitCode: int) | Threw

  // ----- Which unit the manager is about to change -----

  /** The part of a path after its last slash. */
  function Basename(path: JsString): (b: JsString)
    ensures SLASH !in b
  {
    if path == [] then []
    else if SLASH in path[1..] || path[0] == SLASH then Basename(path[1..])
    else path
  }

  predicate EndsWith(s: JsString, suffix: JsString) {
    |suffix| <= |s| && s[|s| - |suffix|..] == suffix
  }

  function StripExtension(name: JsString): JsString {
    if EndsWith(name, SERVICE) then name[..|name| - |SERVICE|]
    else if EndsWith(name, PLIST) then name[..|name| - |PLIST|]
    else name
  }

  function ResolveManagedUnitName(s: Status): JsString {
    if s.serviceName.Some? && Trim(s.serviceName.value) != [] then Trim(s.serviceName.value)
    else StripExtension(Basename(s.path))
  }

  lemma {:induction false} BasenameOfFile(dir: JsString, name: JsString)
    requires SLASH !in name && name != []
    ensures Basename(dir + [SLASH] + name) == name
  {
    var path := dir + [SLASH] + name;
    if dir == [] {
      assert path[1..] == name;
    } else {
      assert path[1..] == dir[1..] + [SLASH] + name;
      assert path[1..][|dir| - 1] == SLASH;
      BasenameOfFile(dir[1..], name);
    }
  }

  /** Without a carried name, or with a blank one, a unit path names its unit. */
  lemma NameFromUnitPath(dir: JsString, name: JsString, s: Status)
    requires s.serviceName.Some? ==> AllSpace(s.serviceName.value)
    requires SLASH !in name
    requires s.path == dir + [SLASH] + (name + SERVICE) || s.path == dir + [SLASH] + (name + PLIST)
    ensures ResolveManagedUnitName(s) == name
  {
    if s.serviceName.Some? {
      TrimBlank(s.serviceName.value);
    }
    var extension := if s.path == dir + [SLASH] + (name + SERVICE) then SERVICE else PLIST;
    var file := name + extension;
    assert SLASH !in SERVICE && SLASH !in PLIST by {
      assert SERVICE == Ascii(".service") && PLIST == Ascii(".plist");
    }
    BasenameOfFile(dir, file);
    assert file[|file| - |extension|..] == extension && file[..|file| - |extension|] == name;
    if extension == PLIST {
      ExtensionsDiffer(file);
    }
  }

  lemma ExtensionsDiffer(file: JsString)
    requires EndsWith(file, PLIST)
    ensures !EndsWith(file, SERVICE)
  {
    assert PLIST[5] == 't' as int && SERVICE[7] == 'e' as int;
    assert file[|file| - 6..][5] == file[|file| - 1];
    assert |file| >= 8 ==> file[|file| - 8..][7] == file[|file| - 1];
  }

  /** A carried name that is not blank is the unit's name, without the space around it. */
  lemma NameIsCarried(s: Status, before: JsString, name: JsString, after: JsString)
    requires s.serviceName == Some(before + name + after) && AllSpace(before) && AllSpace(after)
    requires name != [] && !IsSpace(name[0]) && !IsSpace(name[|name| - 1])
    ensures ResolveManagedUnitName(s) == name
  {
    TrimPadded(before, name, after);
  }

  /** The unit or the unit file the manager would change is the legacy one. */
  predicate Collides(s: Status, legacy: LegacyInfo) {
    ResolveManagedUnitName(s) == LEGACY_NAME || s.path == legacy.path
  }

  // ----- What the actions do -----

  /** Every outcome the code does not decide.  An action that reports an error leaves its unit in any state
      and its file with any contents, or none; one that reports success did what it says. */
  datatype Choices = Choices(
    occupied: bool,
    definition: JsString,
    installError: bool, installed: Unit, written: Option<JsString>,
    startError: bool, started: Unit,
    statusAnswers: bool,
    uninstallError: bool, uninstalled: Unit, kept: Option<JsString>,
    stopStatus: Option<int>, afterStop: Unit,
    disableStatus: Option<int>, afterDisable: Unit,
    removeFails: bool)

  /** The new unit came up and was seen running. */
  predicate Healthy(c: Choices) {
    !c.installError && !c.startError && c.statusAnswers && c.started.running
  }

  function UnitOf(m: Machine, name: JsString): Unit {
    if name in m.units then m.units[name] else IDLE
  }

  function FileAt(m: Machine, path: JsString): Option<JsString> {
    if path in m.files then Some(m.files[path]) else None
  }

  function SetUnit(m: Machine, name: JsString, unit: Unit): Machine {
    m.(units := m.units[name := unit])
  }

  function SetFile(m: Machine, path: JsString, contents: Option<JsString>): Machine {
    m.(files := if contents.Some? then m.files[path := contents.value] else m.files - {path})
  }

  /** `manager.install()`: writes the unit file at its path and enables the unit of its name. */
  function Installed(m: Machine, s: Status, c: Choices): Machine {
    SetFile(SetUnit(m, ResolveManagedUnitName(s), c.installed), s.path,
            if c.installError then c.written else Some(c.definition))
  }

  function Started(m: Machine, s: Status, c: Choices): Machine {
    SetUnit(m, ResolveManagedUnitName(s), c.started)
  }

  function Uninstalled(m: Machine, s: Status, c: Choices): Machine {
    if c.uninstallError then SetFile(SetUnit(m, ResolveManagedUnitName(s), c.uninstalled), s.path, c.kept)
    else SetFile(SetUnit(m, ResolveManagedUnitName(s), IDLE), s.path, None)
  }

  /** `systemctl --user stop goodvibes-daemon.service` */
  function Stopped(m: Machine, c: Choices): Machine {
    SetUnit(m, LEGACY_NAME,
            if c.stopStatus == Some(0) then UnitOf(m, LEGACY_NAME).(running := false) else c.afterStop)
  }

  /** `systemctl --user disable goodvibes-daemon.service` */
  function Disabled(m: Machine, c: Choices): Machine {
    SetUnit(m, LEGACY_NAME,
            if c.disableStatus == Some(0) then UnitOf(m, LEGACY_NAME).(link := false) else c.afterDisable)
  }

  function Removed(m: Machine, legacy: LegacyInfo, c: Choices): Machine {
    if c.removeFails then m else SetFile(m, legacy.path, None)
  }

  /** The host at one moment, and whether the new unit has been seen running since it was last worked on. */
  datatype Moment = Moment(machine: Machine, seen: bool)

  /** What a run does to the host, or asks of it. */
  datatype Action = Looks | Installs | Starts | Uninstalls | Stops | Disables | RemovesFile | Reloads

  class Host {
    const platform: Platform
    const path: JsString
    const serviceName: Option<JsString>
    const choices: Choices
    var machine: Machine
    ghost var log: seq<Action>
    ghost var seen: bool
    ghost var history: seq<Moment>

    constructor (platform: Platform, path: JsString, serviceName: Option<JsString>, choices: Choices, machine: Machine)
      ensures this.platform == platform && this.path == path && this.serviceName == serviceName
      ensures this.choices == choices && this.machine == machine && history == [Moment(machine, seen)]
      ensures log == []
    {
      this.platform, this.path, this.serviceName, this.choices := platform, path, serviceName, choices;
      this.machine, seen, history, log := machine, false, [Moment(machine, false)], [];
    }

    function StatusNow(running: bool, actionError: bool): Status {
      Status(platform, path, serviceName, running, actionError)
    }

    /** The machine changes; `onNew` says that it is the new unit that does. */
    method Become(m: Machine, ghost action: Action, ghost onNew: bool)
      modifies this
      ensures machine == m && seen == (old(seen) && !onNew) && history == old(history) + [Moment(m, seen)]
      ensures log == old(log) + [action]
    {
      machine := m;
      seen := seen && !onNew;
      history := history + [Moment(m, seen)];
      log := log + [action];
    }

    method Install() returns (s: Status)
      modifies this
      ensures machine == Installed(old(machine), StatusNow(false, false), choices) && log == old(log) + [Installs]
      ensures !seen && history == old(history) + [Moment(machine, false)] && s == StatusNow(false, choices.installError)
    {
      Become(Installed(machine, StatusNow(false, false), choices), Installs, true);
      s := StatusNow(false, choices.installError);
    }

    method Start() returns (s: Status)
      modifies this
      ensures machine == Started(old(machine), StatusNow(false, false), choices) && log == old(log) + [Starts]
      ensures !seen && history == old(history) + [Moment(machine, false)] && s == StatusNow(false, choices.startError)
    {
      Become(Started(machine, StatusNow(false, false), choices), Starts, true);
      s := StatusNow(false, choices.startError);
    }

    /** A fresh look: it may fail to see a running unit, never see one that is not. */
    method CheckStatus() returns (s: Status)
      modifies this`seen, this`log
      ensures seen == s.running && log == old(log) + [Looks]
      ensures s == StatusNow(choices.statusAnswers
                             && UnitOf(machine, ResolveManagedUnitName(StatusNow(false, false))).running, false)
    {
      s := StatusNow(choices.statusAnswers
                     && UnitOf(machine, ResolveManagedUnitName(StatusNow(false, false))).running, false);
      seen := s.running;
      log := log + [Looks];
    }

    method Uninstall() returns (s: Status)
      modifies this
      ensures machine == Uninstalled(old(machine), StatusNow(false, false), choices) && log == old(log) + [Uninstalls]
      ensures !seen && history == old(history) + [Moment(machine, false)]
      ensures s == StatusNow(false, choices.uninstallError)
    {
      Become(Uninstalled(machine, StatusNow(false, false), choices), Uninstalls, true);
      s := StatusNow(false, choices.uninstallError);
    }

    method Stop() returns (status: Option<int>)
      modifies this
      ensures machine == Stopped(old(machine), choices) && log == old(log) + [Stops]
      ensures seen == old(seen) && history == old(history) + [Moment(machine, seen)]
      ensures status == choices.stopStatus
    {
      Become(Stopped(machine, choices), Stops, false);
      status := choices.stopStatus;
    }

    method Disable() returns (status: Option<int>)
      modifies this
      ensures machine == Disabled(old(machine), choices) && log == old(log) + [Disables]
      ensures seen == old(seen) && history == old(history) + [Moment(machine, seen)]
      ensures status == choices.disableStatus
    {
      Become(Disabled(machine, choices), Disables, false);
      status := choices.disableStatus;
    }

    method RemoveFile(legacy: LegacyInfo) returns (failed: bool)
      modifies this
      ensures machine == Removed(old(machine), legacy, choices) && log == old(log) + [RemovesFile]
      ensures seen == old(seen) && history == old(history) + [Moment(machine, seen)]
      ensures failed == choices.removeFails
    {
      Become(Removed(machine, legacy, choices), RemovesFile, false);
      failed := choices.removeFails;
    }

    method Reload()
      modifies this`log
      ensures log == old(log) + [Reloads]
    {
      log := log + [Reloads];
    }
  }

  // ----- The run -----

  /** Consent was given, and there is a legacy unit this tool can tell from its own. */
  predicate MayMutate(s: Status, legacy: LegacyInfo, confirm: bool) {
    legacy.present && s.platform.Systemd? && !Collides(s, legacy) && confirm
  }

  /** The fixed facts of one run. */
  datatype Run = Run(before: Machine, status: Status, legacy: LegacyInfo, confirm: bool, choices: Choices)

  function NewUnit(run: Run): JsString {
    ResolveManagedUnitName(run.status)
  }

  ghost predicate LegacyUntouched(run: Run, now: Machine) {
    && UnitOf(now, LEGACY_NAME) == UnitOf(run.before, LEGACY_NAME)
    && FileAt(now, run.legacy.path) == FileAt(run.before, run.legacy.path)
  }

  /** Every unit and every file but the new and the legacy one are as they were. */
  ghost predicate OthersUntouched(run: Run, now: Machine) {
    && (forall n | n != LEGACY_NAME && n != NewUnit(run) :: UnitOf(now, n) == UnitOf(run.before, n))
    && (forall p | p != run.legacy.path && p != run.status.path :: FileAt(now, p) == FileAt(run.before, p))
  }

  /** The new unit is installed and runs. */
  ghost predicate NewRuns(run: Run, now: Machine) {
    UnitOf(now, NewUnit(run)).running && FileAt(now, run.status.path) == Some(run.choices.definition)
  }

  /** What holds at every moment of a run. */
  ghost predicate Continuous(run: Run, at: Moment) {
    var now := at.machine;
    && (now != run.before ==> MayMutate(run.status, run.legacy, run.confirm))
    && (LegacyUntouched(run, now) || (at.seen && NewRuns(run, now) && Healthy(run.choices)))
    && (UnitOf(run.before, LEGACY_NAME).running ==>
          UnitOf(now, LEGACY_NAME).running || UnitOf(now, NewUnit(run)).running)
    && OthersUntouched(run, now)
  }

  ghost predicate AllContinuous(history: seq<Moment>, run: Run) {
    forall at | at in history :: Continuous(run, at)
  }

  lemma ContinuousGrows(history: seq<Moment>, run: Run, at: Moment)
    requires AllContinuous(history, run) && Continuous(run, at)
    ensures AllContinuous(history + [at], run)
  {
  }

  lemma BeginsContinuous(run: Run, seen: bool)
    ensures AllContinuous([Moment(run.before, seen)], run)
    ensures LegacyUntouched(run, run.before) && OthersUntouched(run, run.before)
  {
  }

  /** A host on which only the new unit has been worked on. */
  ghost predicate OnlyNew(run: Run, now: Machine) {
    MayMutate(run.status, run.legacy, run.confirm) && LegacyUntouched(run, now) && OthersUntouched(run, now)
  }

  lemma OnlyNewIsContinuous(run: Run, now: Machine, seen: bool)
    requires OnlyNew(run, now)
    ensures Continuous(run, Moment(now, seen))
  {
  }

  /** Working on the new unit leaves the legacy one alone: its name and its file are others'. */
  lemma NewStepsKeep(run: Run, now: Machine)
    requires OnlyNew(run, now)
    ensures OnlyNew(run, Installed(now, run.status, run.choices))
    ensures OnlyNew(run, Started(now, run.status, run.choices))
    ensures OnlyNew(run, Uninstalled(now, run.status, run.choices))
  {
  }

  /** A host on which the new unit runs from its file, seen running, while the legacy one is taken down. */
  ghost predicate NewUp(run: Run, now: Machine) {
    && MayMutate(run.status, run.legacy, run.confirm) && Healthy(run.choices) && OthersUntouched(run, now)
    && NewRuns(run, now)
  }

  lemma NewUpIsContinuous(run: Run, now: Machine)
    requires NewUp(run, now)
    ensures Continuous(run, Moment(now, true))
  {
  }

  /** Taking the legacy unit down leaves the new one up. */
  lemma RetireStepsKeep(run: Run, now: Machine)
    requires NewUp(run, now)
    ensures NewUp(run, Stopped(now, run.choices))
    ensures NewUp(run, Disabled(now, run.choices))
    ensures NewUp(run, Removed(now, run.legacy, run.choices))
  {
  }

  /** Each step of retiring the legacy unit does its part, whatever the others report. */
  lemma RetiredState(m: Machine, legacy: LegacyInfo, c: Choices)
    ensures var now := Removed(Disabled(Stopped(m, c), c), legacy, c);
            Retired(c, FileAt(m, legacy.path), UnitOf(now, LEGACY_NAME), FileAt(now, legacy.path))
  {
  }

  /** Under the legacy name, retiring the legacy unit would stop the unit that was just started. */
  lemma SameNameStopsTheNewUnit(m: Machine, s: Status, c: Choices)
    requires ResolveManagedUnitName(s) == LEGACY_NAME && c.stopStatus == Some(0)
    ensures !UnitOf(Stopped(Started(Installed(m, s, c), s, c), c), ResolveManagedUnitName(s)).running
  {
  }

  /** At the legacy path, installing would overwrite the legacy file, and retiring it delete the new one. */
  lemma SamePathLosesTheFile(m: Machine, s: Status, legacy: LegacyInfo, c: Choices)
    requires s.path == legacy.path && !c.installError && !c.removeFails
    ensures FileAt(Installed(m, s, c), legacy.path) == Some(c.definition)
    ensures FileAt(Removed(Started(Installed(m, s, c), s, c), legacy, c), s.path) == None
  {
  }

  /** What the legacy unit and its file become: not running if the stop worked, not enabled if the disable
      worked, without its file if that could be removed, each on its own. */
  ghost predicate Retired(c: Choices, file: Option<JsString>, after: Unit, fileAfter: Option<JsString>) {
    && (c.disableStatus == Some(0) ==>
          !after.link && after.running == if c.stopStatus == Some(0) then false else c.afterStop.running)
    && (c.disableStatus != Some(0) ==> after == c.afterDisable)
    && fileAfter == if c.removeFails then file else None
  }

  /** The new unit is up and was seen running: now, and only now, the legacy one is retired. */
  method RetireLegacy(host: Host, legacy: LegacyInfo, ghost run: Run)
    requires run.status == host.StatusNow(false, false) && run.legacy == legacy && run.choices == host.choices
    requires AllContinuous(host.history, run) && NewUp(run, host.machine) && host.seen
    modifies host
    ensures AllContinuous(host.history, run) && NewUp(run, host.machine)
    ensures Retired(host.choices, FileAt(old(host.machine), legacy.path), UnitOf(host.machine, LEGACY_NAME),
                    FileAt(host.machine, legacy.path))
    ensures host.log == old(host.log) + [Stops, Disables, RemovesFile, Reloads]
  {
    hide AllContinuous, Continuous, NewUp, Stopped, Disabled, Removed, Retired;
    ghost var m, history := host.machine, host.history;
    RetireStepsKeep(run, host.machine);
    var _ := host.Stop();
    NewUpIsContinuous(run, host.machine);
    ContinuousGrows(history, run, Moment(host.machine, true));
    history := host.history;
    RetireStepsKeep(run, host.machine);
    var _ := host.Disable();
    NewUpIsContinuous(run, host.machine);
    ContinuousGrows(history, run, Moment(host.machine, true));
    history := host.history;
    RetireStepsKeep(run, host.machine);
    var _ := host.RemoveFile(legacy);
    NewUpIsContinuous(run, host.machine);
    ContinuousGrows(history, run, Moment(host.machine, true));
    host.Reload();
    RetiredState(m, legacy, host.choices);
  }

  /** What a run that was allowed to change the host leaves: the new unit up and the legacy one retired, or the
      new unit rolled back and the legacy one untouched. */
  ghost predicate Settled(run: Run, now: Machine, ok: bool) {
    var c := run.choices;
    if ok then
      && NewUp(run, now)
      && Retired(c, FileAt(run.before, run.legacy.path), UnitOf(now, LEGACY_NAME), FileAt(now, run.legacy.path))
    else
      && LegacyUntouched(run, now)
      && (c.installError ==> UnitOf(now, NewUnit(run)) == c.installed && FileAt(now, run.status.path) == c.written)
      && (!c.installError && c.uninstallError ==>
            UnitOf(now, NewUnit(run)) == c.uninstalled && FileAt(now, run.status.path) == c.kept)
      && (!c.installError && !c.uninstallError ==>
            UnitOf(now, NewUnit(run)) == IDLE && FileAt(now, run.status.path) == None)
  }

  /** What a consented run does, in order. */
  ghost predicate Acts(c: Choices, log: seq<Action>) {
    if c.installError then log == [Looks, Installs]
    else if Healthy(c) then log == [Looks, Installs, Starts, Looks, Stops, Disables, RemovesFile, Reloads]
    else log == [Looks, Installs, Starts, Looks, Uninstalls]
  }

  lemma SameLegacy(run: Run, now: Machine)
    requires LegacyUntouched(run, now)
    ensures UnitOf(now, LEGACY_NAME) == UnitOf(run.before, LEGACY_NAME)
    ensures FileAt(now, run.legacy.path) == FileAt(run.before, run.legacy.path)
  {
  }

  lemma NewIsUp(run: Run, now: Machine)
    requires OnlyNew(run, now) && Healthy(run.choices) && UnitOf(now, NewUnit(run)) == run.choices.started
    requires FileAt(now, run.status.path) == Some(run.choices.definition)
    ensures NewUp(run, now)
  {
  }

  /** The new unit's file and unit after each step on it. */
  lemma NewStepsDo(run: Run, now: Machine)
    ensures UnitOf(Installed(now, run.status, run.choices), NewUnit(run)) == run.choices.installed
    ensures FileAt(Installed(now, run.status, run.choices), run.status.path) ==
            if run.choices.installError then run.choices.written else Some(run.choices.definition)
    ensures UnitOf(Started(now, run.status, run.choices), NewUnit(run)) == run.choices.started
    ensures FileAt(Started(now, run.status, run.choices), run.status.path) == FileAt(now, run.status.path)
    ensures var gone := Uninstalled(now, run.status, run.choices);
            && UnitOf(gone, NewUnit(run)) == (if run.choices.uninstallError then run.choices.uninstalled else IDLE)
            && FileAt(gone, run.status.path) == if run.choices.uninstallError then run.choices.kept else None
  {
  }

  /** A step on the new unit, as the run's history sees it. */
  lemma StepOnNew(run: Run, history: seq<Moment>, now: Machine)
    requires AllContinuous(history, run) && OnlyNew(run, now)
    ensures AllContinuous(history + [Moment(now, false)], run) && LegacyUntouched(run, now)
  {
    OnlyNewIsContinuous(run, now, false);
    ContinuousGrows(history, run, Moment(now, false));
  }

  /** The consented part: new up, then old down; a new unit that does not come up is rolled back. */
  method Migrate(host: Host, legacy: LegacyInfo, ghost run: Run) returns (r: Result)
    requires run == Run(host.machine, host.StatusNow(false, false), legacy, true, host.choices)
    requires AllContinuous(host.history, run) && MayMutate(run.status, legacy, true) && host.log == [Looks]
    modifies host
    ensures !r.Threw? && (r.exitCode == if r.ok then 0 else 1) && AllContinuous(host.history, run)
    ensures r.ok <==> Healthy(host.choices)
    ensures Settled(run, host.machine, r.ok) && Acts(host.choices, host.log)
  {
    hide AllContinuous, Collides, ResolveManagedUnitName, Installed, Started, Uninstalled, OthersUntouched,
         LegacyUntouched, Retired;
    BeginsContinuous(run, host.seen);
    ghost var m, history := host.machine, host.history;
    var installed := host.Install();
    NewStepsKeep(run, m);
    NewStepsDo(run, m);
    StepOnNew(run, history, host.machine);
    if installed.actionError {
      return Result(false, 1);
    }
    m, history := host.machine, host.history;
    var started := host.Start();
    NewStepsKeep(run, m);
    NewStepsDo(run, m);
    StepOnNew(run, history, host.machine);
    var health := host.CheckStatus();
    if started.actionError || !health.running {
      SameUnit(installed, run.status, legacy);
      if Collides(installed, legacy) {
        return Threw;
      }
      m, history := host.machine, host.history;
      var _ := host.Uninstall();
      NewStepsKeep(run, m);
      NewStepsDo(run, m);
      StepOnNew(run, history, host.machine);
      return Result(false, 1);
    }
    NewIsUp(run, host.machine);
    SameLegacy(run, host.machine);
    RetireLegacy(host, legacy, run);
    return Result(true, 0);
  }

  /** Which unit a status names does not depend on what the unit is doing. */
  lemma SameUnit(a: Status, b: Status, legacy: LegacyInfo)
    requires a.path == b.path && a.serviceName == b.serviceName
    ensures Collides(a, legacy) <==> Collides(b, legacy)
  {
  }

  /** Nothing is stopped, disabled or removed before the new unit was seen running; whatever fails, a
      host that had a daemon keeps one; and without consent, or on a collision of name or file, nothing
      changes. */
  method RunLegacyDaemonMigration(host: Host, legacy: LegacyInfo, confirm: bool) returns (r: Result)
    requires host.history == [Moment(host.machine, host.seen)] && host.log == []
    modifies host
    ensures !r.Threw? && (r.exitCode == if r.ok then 0 else 1)
    ensures var c := host.choices;
            var run := Run(old(host.machine), host.StatusNow(false, false), legacy, confirm, c);
            var ours := legacy.present && host.platform.Systemd?
                        && ResolveManagedUnitName(run.status) != LEGACY_NAME && host.path != legacy.path;
            var healthy := !c.installError && !c.startError && c.statusAnswers && c.started.running;
            && (r.ok <==> if !legacy.present then !c.occupied else ours && (confirm ==> healthy))
            && (forall at | at in host.history :: Continuous(run, at))
            && (if ours && confirm then Settled(run, host.machine, r.ok) && Acts(c, host.log)
                else host.machine == old(host.machine) && host.log == [Looks])
  {
    hide Settled, Acts, ResolveManagedUnitName;
    ghost var run := Run(host.machine, host.StatusNow(false, false), legacy, confirm, host.choices);
    BeginsContinuous(run, host.seen);
    var current := host.CheckStatus();
    SameUnit(current, run.status, legacy);
    if !legacy.present {
      return if host.choices.occupied then Result(false, 1) else Result(true, 0);
    }
    if !current.platform.Systemd? {
      return Result(false, 1);
    }
    if Collides(current, legacy) {
      return Result(false, 1);
    }
    if !confirm {
      return Result(true, 0);
    }
    if Collides(current, legacy) {
      return Threw;
    }
    r := Migrate(host, legacy, run);
  }
}
