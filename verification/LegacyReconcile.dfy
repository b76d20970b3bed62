/** The unattended startup pass that retires a redundant, installer-made legacy unit. */
module LegacyReconcile {
  import opened JsText
  import opened ServiceHost

  datatype Reason =
    | NoLegacyUnit | CanonicalNotActive | CanonicalPidNotAlive | SelfSupervised | LegacyStateUnknown
    | LegacyRunning | EndpointUnserved | MarkerUnreadable | HandWritten | DisableFailed | DisableTimeout | Retired

  datatype Action = Removed | Notice | Noop | Failed

  datatype Outcome = Outcome(action: Action, reason: Reason)

  /** What the pass learns outside systemctl: whether the configured endpoint answers (None: none is
      configured), whether its own cgroup can be read, whether the unit file carries the installer's
      marker (None: unreadable), and whether the file can be deleted. */
  datatype Surroundings = Surroundings(endpoint: Option<bool>, cgroupReadable: bool, marker: Option<bool>,
                                       removable: bool)

  predicate Answered(p: Pass, i: nat) {
    !Skipped(p, i) && p.oracle.behaviour(i).Answers?
  }

  predicate Alive(w: World, pid: nat) {
    pid > 0 && pid in w.live
  }

  /** What the guards ask of the host itself: a live canonical daemon beside a legacy unit whose main process
      is gone and was not this one. */
  predicate Redundant(w: World) {
    && w.legacyFile && w.canonicalActive && Alive(w, w.canonicalMain)
    && !Alive(w, w.legacyMain) && !(w.legacyMain > 0 && w.legacyMain == w.own)
  }

  /** This process can see that it runs in the legacy unit's cgroup. */
  predicate SeesItself(w: World, e: Surroundings) {
    e.cgroupReadable && w.own in w.underLegacy
  }

  /** Every guard of the pass, as facts about the host. */
  predicate Guarded(p: Pass, w: World, e: Surroundings) {
    && Answered(p, 0) && Answered(p, 1) && Answered(p, 2) && Redundant(w) && !SeesItself(w, e)
    && (e.endpoint.Some? ==> e.endpoint.value) && e.marker.Some? && e.marker.value
  }

  /** The run reaches a disable that stops the unit. */
  predicate StopsUnit(p: Pass, w: World, e: Surroundings) {
    && Guarded(p, w, e) && !Skipped(p, 3)
    && (p.oracle.behaviour(3).Answers? || p.oracle.behaviour(3).stops)
  }

  /** The disable took effect for certain: it said so, or it timed out and the link is seen to be gone. */
  predicate ConfirmedDisabled(p: Pass, w: World) {
    || Answered(p, 3)
    || (!Skipped(p, 3) && p.oracle.behaviour(3).TimesOut? && Answered(p, 4)
        && !Effect(w, DisableNow, p.oracle.behaviour(3)).legacyLink)
  }

  /** The canonical daemon is confirmed: its unit is active and its main process is alive. */
  predicate Confirmed(p: Pass, w: World) {
    w.legacyFile && Answered(p, 0) && w.canonicalActive && Answered(p, 1) && Alive(w, w.canonicalMain)
  }

  /** This process is seen to run under the legacy unit, as its main process or by its cgroup. */
  predicate UnderLegacy(p: Pass, w: World, e: Surroundings) {
    (Answered(p, 2) && w.legacyMain > 0 && w.legacyMain == w.own) || SeesItself(w, e)
  }

  /** The legacy unit is known to be stopped, and not to run this process. */
  predicate KnownStopped(p: Pass, w: World, e: Surroundings) {
    Confirmed(p, w) && !UnderLegacy(p, w, e) && Answered(p, 2) && !Alive(w, w.legacyMain)
  }

  /** What a reason says of the host and of how the calls turned out. */
  ghost predicate Explains(p: Pass, w: World, e: Surroundings, reason: Reason) {
    match reason
    case NoLegacyUnit => !w.legacyFile
    case CanonicalNotActive => w.legacyFile && !(Answered(p, 0) && w.canonicalActive)
    case CanonicalPidNotAlive =>
      w.legacyFile && Answered(p, 0) && w.canonicalActive && !(Answered(p, 1) && Alive(w, w.canonicalMain))
    case SelfSupervised => Confirmed(p, w) && UnderLegacy(p, w, e)
    case LegacyStateUnknown => Confirmed(p, w) && !UnderLegacy(p, w, e) && !Answered(p, 2)
    case LegacyRunning => Confirmed(p, w) && !UnderLegacy(p, w, e) && Answered(p, 2) && Alive(w, w.legacyMain)
    case EndpointUnserved => KnownStopped(p, w, e) && e.endpoint.Some? && !e.endpoint.value
    case MarkerUnreadable => KnownStopped(p, w, e) && (e.endpoint.Some? ==> e.endpoint.value) && e.marker.None?
    case HandWritten =>
      KnownStopped(p, w, e) && (e.endpoint.Some? ==> e.endpoint.value) && e.marker.Some? && !e.marker.value
    case DisableFailed => Guarded(p, w, e) && !Skipped(p, 3) && p.oracle.behaviour(3).Fails?
    case DisableTimeout =>
      Guarded(p, w, e) && (Skipped(p, 3) || p.oracle.behaviour(3).TimesOut?) && !ConfirmedDisabled(p, w)
    case Retired => Guarded(p, w, e) && ConfirmedDisabled(p, w)
  }

  /** Each run has one reason: the facts behind the reasons exclude each other. */
  lemma OneReason(p: Pass, w: World, e: Surroundings, a: Reason, b: Reason)
    requires Explains(p, w, e, a) && Explains(p, w, e, b)
    ensures a == b
  {
    hide Skipped, Effect;
  }

  /** The action that goes with a reason. */
  predicate Fits(o: Outcome) {
    && (o.action.Removed? <==> o.reason.Retired?)
    && (o.action.Failed? <==> o.reason.DisableFailed? || o.reason.DisableTimeout?)
    && (o.action.Notice? <==> o.reason.MarkerUnreadable? || o.reason.HandWritten?)
  }

  /** The systemctl calls a run that ends for this reason makes, in order. */
  ghost predicate Asks(p: Pass, reason: Reason, asked: seq<Command>) {
    var looks := [IsActiveCanonical, ShowCanonicalPid, ShowLegacyPid];
    match reason
    case NoLegacyUnit => asked == []
    case CanonicalNotActive => asked == looks[..1]
    case CanonicalPidNotAlive => asked == looks[..2]
    case DisableFailed => asked == looks + [DisableNow]
    case DisableTimeout => asked == looks + [DisableNow, IsEnabled]
    case Retired =>
      asked == looks + if Answered(p, 3) then [DisableNow, DaemonReload] else [DisableNow, IsEnabled, DaemonReload]
    case _ => asked == looks
  }

  /** What must hold of the host at every moment of a pass that began at `w`. */
  ghost predicate Safe(w: World, e: Surroundings, now: World) {
    && (Alive(w, w.legacyMain) ==> now == w)
    && (now != w ==> w.canonicalActive && Alive(w, w.canonicalMain))
    && (forall pid | pid in w.live && pid !in now.live ::
          pid in w.underLegacy && Redundant(w) && !SeesItself(w, e))
    && (w.legacyFile && !now.legacyFile ==> !now.legacyLink)
  }

  ghost predicate Issued(log: seq<Call>, c: Command) {
    exists i :: 0 <= i < |log| && log[i].command == c
  }

  lemma WordsSurviveTrim()
    ensures Trim(ACTIVE + [NEWLINE]) == ACTIVE && Trim(INACTIVE + [NEWLINE]) == INACTIVE
    ensures Trim(ENABLED + [NEWLINE]) == ENABLED && Trim(DISABLED + [NEWLINE]) == DISABLED
    ensures Trim(NOT_FOUND + [NEWLINE]) == NOT_FOUND
    ensures ACTIVE != INACTIVE && ENABLED != DISABLED && ENABLED != NOT_FOUND
  {
    TrimLine(ACTIVE);
    TrimLine(INACTIVE);
    TrimLine(ENABLED);
    TrimLine(DISABLED);
    TrimLine(NOT_FOUND);
    assert |ACTIVE| != |INACTIVE| && |ENABLED| != |DISABLED| && |ENABLED| != |NOT_FOUND|;
  }

  /** What call `i` of a pass replies on a host. */
  ghost function ReplyAt(p: Pass, w: World, c: Command, i: nat): Reply {
    if Skipped(p, i) then Reply(None, []) else ReplyTo(w, c, p.oracle.behaviour(i))
  }

  /** A probe passes exactly when the call answered and the unit is active. */
  lemma ActiveProbe(p: Pass, w: World, i: nat)
    ensures var r := ReplyAt(p, w, IsActiveCanonical, i);
            r.status == Some(0) && Trim(r.stdout) == ACTIVE <==> Answered(p, i) && w.canonicalActive
  {
    hide Skipped, Trim;
    WordsSurviveTrim();
  }

  lemma PidProbe(p: Pass, w: World, c: Command, i: nat)
    requires c.ShowCanonicalPid? || c.ShowLegacyPid?
    ensures var pid := if c.ShowCanonicalPid? then w.canonicalMain else w.legacyMain;
            && (ReplyAt(p, w, c, i).status == Some(0) <==> Answered(p, i))
            && ParseMainPid(ReplyAt(p, w, c, i)) == if Answered(p, i) && pid > 0 then Some(pid) else None
  {
    hide Skipped, Trim;
    ParsePrinted(if c.ShowCanonicalPid? then w.canonicalMain else w.legacyMain);
  }

  predicate SaysDisabled(r: Reply) {
    r.status.Some? && (Trim(r.stdout) == DISABLED || Trim(r.stdout) == NOT_FOUND)
  }

  /** Only a finished, truthful look can confirm that the link is gone. */
  lemma EnabledProbe(p: Pass, w: World, i: nat)
    ensures SaysDisabled(ReplyAt(p, w, IsEnabled, i)) <==> Answered(p, i) && !w.legacyLink
  {
    hide Skipped, Trim;
    WordsSurviveTrim();
    TrimBlank([]);
  }

  /** The pass so far has only looked: the host is as it was, and no disable was asked for. */
  ghost predicate OnlyLooked(host: DeadlineRunner, w: World)
    reads host
  {
    host.Valid() && (forall now | now in host.history :: now == w) && !Issued(host.log, DisableNow)
  }

  lemma LookedOn(log: seq<Call>, log': seq<Call>, c: Command)
    requires !Issued(log, DisableNow) && !c.DisableNow?
    requires log' == log || (|log'| == |log| + 1 && log'[..|log|] == log && log'[|log|].command == c)
    ensures !Issued(log', DisableNow)
  {
  }

  method Look(host: DeadlineRunner, c: Command) returns (r: Reply)
    requires OnlyLooked(host, host.world) && !c.DisableNow?
    modifies host
    ensures OnlyLooked(host, old(host.world)) && host.world == old(host.world) && host.calls == old(host.calls) + 1
    ensures host.asked == old(host.asked) + [c]
    ensures r == ReplyAt(host.pass, host.world, c, old(host.calls))
  {
    ghost var log := host.log;
    r := host.Run(c);
    LookedOn(log, host.log, c);
  }

  /** A run that only looked, and refused for a reason the facts bear out. */
  ghost predicate Refused(p: Pass, w: World, e: Surroundings, asked: seq<Command>, o: Outcome) {
    Explains(p, w, e, o.reason) && Fits(o) && Asks(p, o.reason, asked) && (o.action.Noop? || o.action.Notice?)
  }

  /** Guards 1 and 2: is the canonical daemon there? */
  method ConfirmCanonical(host: DeadlineRunner, e: Surroundings) returns (refusal: Option<Outcome>)
    requires OnlyLooked(host, host.world) && host.calls == 0 && host.asked == []
    modifies host
    ensures OnlyLooked(host, old(host.world)) && host.world == old(host.world)
    ensures refusal.None? ==>
              Confirmed(host.pass, host.world) && host.calls == 2 && host.asked == [IsActiveCanonical, ShowCanonicalPid]
    ensures refusal.Some? ==>
              !Confirmed(host.pass, host.world) && Refused(host.pass, host.world, e, host.asked, refusal.value)
  {
    hide ReplyAt, ParseMainPid, Trim, Answered, ConfirmedDisabled;
    ghost var p, w := host.pass, host.world;
    if !host.world.legacyFile {
      return Some(Outcome(Noop, NoLegacyUnit));
    }
    var probe := Look(host, IsActiveCanonical);
    ActiveProbe(p, w, 0);
    if !(probe.status == Some(0) && Trim(probe.stdout) == ACTIVE) {
      return Some(Outcome(Noop, CanonicalNotActive));
    }
    var canonicalReply := Look(host, ShowCanonicalPid);
    var canonicalPid := ParseMainPid(canonicalReply);
    PidProbe(p, w, ShowCanonicalPid, 1);
    if canonicalPid.None? || canonicalPid.value !in host.world.live {
      return Some(Outcome(Noop, CanonicalPidNotAlive));
    }
    return None;
  }

  /** Guards 3 and 4: is the legacy unit stopped, and not this process's own? */
  method ConfirmLegacyStopped(host: DeadlineRunner, e: Surroundings) returns (refusal: Option<Outcome>)
    requires OnlyLooked(host, host.world) && Confirmed(host.pass, host.world) && host.calls == 2
    requires host.asked == [IsActiveCanonical, ShowCanonicalPid]
    modifies host
    ensures OnlyLooked(host, old(host.world)) && host.world == old(host.world) && host.calls == 3
    ensures host.asked == [IsActiveCanonical, ShowCanonicalPid, ShowLegacyPid]
    ensures refusal.None? ==> KnownStopped(host.pass, host.world, e)
    ensures refusal.Some? ==>
              !KnownStopped(host.pass, host.world, e) && Refused(host.pass, host.world, e, host.asked, refusal.value)
  {
    hide ReplyAt, ParseMainPid, Trim, Answered, ConfirmedDisabled, Confirmed;
    ghost var p, w := host.pass, host.world;
    var legacyReply := Look(host, ShowLegacyPid);
    var legacyPid := ParseMainPid(legacyReply);
    PidProbe(p, w, ShowLegacyPid, 2);
    if legacyPid == Some(host.world.own) || (e.cgroupReadable && host.world.own in host.world.underLegacy) {
      return Some(Outcome(Noop, SelfSupervised));
    }
    if legacyReply.status != Some(0) {
      return Some(Outcome(Noop, LegacyStateUnknown));
    }
    if legacyPid.Some? && legacyPid.value in host.world.live {
      return Some(Outcome(Noop, LegacyRunning));
    }
    return None;
  }

  /** Guard 5 and the marker check. */
  method ConfirmRetirable(e: Surroundings) returns (refusal: Option<Outcome>)
    ensures refusal.None? <==> (e.endpoint.Some? ==> e.endpoint.value) && e.marker.Some? && e.marker.value
    ensures refusal.Some? ==>
              forall p, w | KnownStopped(p, w, e) ::
                Refused(p, w, e, [IsActiveCanonical, ShowCanonicalPid, ShowLegacyPid], refusal.value)
  {
    hide KnownStopped, ConfirmedDisabled, Guarded, Confirmed, UnderLegacy;
    if e.endpoint.Some? && !e.endpoint.value {
      return Some(Outcome(Noop, EndpointUnserved));
    }
    if e.marker.None? {
      return Some(Outcome(Notice, MarkerUnreadable));
    }
    if !e.marker.value {
      return Some(Outcome(Notice, HandWritten));
    }
    return None;
  }

  /** Guards 1 to 5 and the marker check: the refusal they end in, or None when all of them pass. */
  method Guards(host: DeadlineRunner, e: Surroundings) returns (refusal: Option<Outcome>)
    requires OnlyLooked(host, host.world) && host.calls == 0 && host.asked == []
    modifies host
    ensures OnlyLooked(host, old(host.world)) && host.world == old(host.world)
    ensures refusal.None? <==> Guarded(host.pass, host.world, e)
    ensures refusal.None? ==>
              host.calls == 3 && host.asked == [IsActiveCanonical, ShowCanonicalPid, ShowLegacyPid]
    ensures refusal.Some? ==> Refused(host.pass, host.world, e, host.asked, refusal.value)
  {
    GuardedIsKnown(host.pass, host.world, e);
    hide Refused, KnownStopped, Confirmed, Guarded;
    refusal := ConfirmCanonical(host, e);
    if refusal.None? {
      refusal := ConfirmLegacyStopped(host, e);
      if refusal.None? {
        refusal := ConfirmRetirable(e);
      }
    }
  }

  lemma GuardedIsKnown(p: Pass, w: World, e: Surroundings)
    ensures Guarded(p, w, e) <==>
            KnownStopped(p, w, e) && (e.endpoint.Some? ==> e.endpoint.value) && e.marker.Some? && e.marker.value
    ensures KnownStopped(p, w, e) ==> Confirmed(p, w)
  {
  }

  ghost predicate AllSafe(history: seq<World>, w: World, e: Surroundings) {
    forall now | now in history :: Safe(w, e, now)
  }

  lemma SafeGrows(history: seq<World>, w: World, e: Surroundings, now: World)
    requires AllSafe(history, w, e) && Safe(w, e, now)
    ensures AllSafe(history + [now], w, e)
  {
  }

  lemma UnchangedIsSafe(history: seq<World>, w: World, e: Surroundings)
    requires forall now | now in history :: now == w
    ensures AllSafe(history, w, e)
  {
  }

  /** With the guards passed, a disable is safe however it turns out, and so is removing the file once
      the link is gone. */
  lemma DisableIsSafe(p: Pass, w: World, e: Surroundings, b: Behaviour)
    requires Guarded(p, w, e)
    ensures w.legacyFile && Safe(w, e, Effect(w, DisableNow, b))
    ensures !Effect(w, DisableNow, b).legacyLink ==> Safe(w, e, Effect(w, DisableNow, b).(legacyFile := false))
  {
  }

  lemma IssuedBy(log: seq<Call>, log': seq<Call>, c: Command)
    requires |log'| == |log| + 1 && log'[..|log|] == log && log'[|log|].command == c
    ensures Issued(log', DisableNow) <==> c.DisableNow? || Issued(log, DisableNow)
  {
  }

  /** The run so far kept the host safe. */
  ghost predicate SafeSoFar(host: DeadlineRunner, w: World, e: Surroundings)
    reads host
  {
    host.Valid() && AllSafe(host.history, w, e) && Safe(w, e, host.world)
  }

  /** A step that neither disables nor removes anything. */
  method Note(host: DeadlineRunner, c: Command, ghost w: World, e: Surroundings) returns (r: Reply)
    requires SafeSoFar(host, w, e) && !c.DisableNow?
    modifies host
    ensures SafeSoFar(host, w, e) && host.world == old(host.world)
    ensures Issued(host.log, DisableNow) <==> Issued(old(host.log), DisableNow)
    ensures host.calls == old(host.calls) + 1 && host.asked == old(host.asked) + [c]
    ensures r == ReplyAt(host.pass, host.world, c, old(host.calls))
  {
    hide Safe, AllSafe, Issued, ReplyTo, Skipped;
    ghost var log, history := host.log, host.history;
    r := host.Run(c);
    if host.log != log {
      IssuedBy(log, host.log, c);
    }
    SafeGrows(history, w, e, host.world);
  }

  method RemoveFile(host: DeadlineRunner, e: Surroundings, ghost w: World)
    requires SafeSoFar(host, w, e) && Safe(w, e, host.world.(legacyFile := false))
    modifies host
    ensures SafeSoFar(host, w, e)
    ensures host.world == old(host.world).(legacyFile := old(host.world.legacyFile) && !e.removable)
    ensures host.log == old(host.log) && host.asked == old(host.asked)
  {
    hide Safe, AllSafe;
    ghost var history := host.history;
    host.RemoveLegacyFile(e.removable);
    SafeGrows(history, w, e, host.world);
  }

  /** The host once the disable was issued, or skipped. */
  ghost function DisabledHost(p: Pass, w: World): World {
    if Skipped(p, 3) then w else Effect(w, DisableNow, p.oracle.behaviour(3))
  }

  /** The host after a run: disabled, and without the file if it was retired and could be removed. */
  ghost function WorldAfter(p: Pass, w: World, r: Outcome, e: Surroundings): World {
    if r.action.Removed? && e.removable then DisabledHost(p, w).(legacyFile := false) else DisabledHost(p, w)
  }

  method Disable(host: DeadlineRunner, e: Surroundings) returns (disable: Reply)
    requires OnlyLooked(host, host.world) && host.calls == 3 && Guarded(host.pass, host.world, e)
    modifies host
    ensures SafeSoFar(host, old(host.world), e) && host.calls == 4 && host.asked == old(host.asked) + [DisableNow]
    ensures Issued(host.log, DisableNow) <==> !Skipped(host.pass, 3)
    ensures host.world == DisabledHost(host.pass, old(host.world))
    ensures disable.status == Some(0) <==> Answered(host.pass, 3)
    ensures disable.status.None? <==> Skipped(host.pass, 3) || host.pass.oracle.behaviour(3).TimesOut?
    ensures Answered(host.pass, 3) ==> !host.world.legacyLink
    ensures !Skipped(host.pass, 3) && !host.world.legacyLink ==>
              Safe(old(host.world), e, host.world.(legacyFile := false))
  {
    hide Safe, AllSafe, Issued, ReplyTo, Effect, Guarded, Skipped;
    ghost var p, w, b := host.pass, host.world, host.pass.oracle.behaviour(3);
    ghost var log, history := host.log, host.history;
    UnchangedIsSafe(history, w, e);
    UntouchedIsSafe(w, e);
    DisableIsSafe(p, w, e, b);
    DisableFacts(w, b);
    disable := host.Run(DisableNow);
    if host.log != log {
      IssuedBy(log, host.log, DisableNow);
      SafeGrows(history, w, e, host.world);
    }
  }

  /** Removing the unit file, and telling systemd. */
  method RemoveAndReload(host: DeadlineRunner, e: Surroundings, ghost w: World)
    requires SafeSoFar(host, w, e) && Safe(w, e, host.world.(legacyFile := false))
    modifies host
    ensures SafeSoFar(host, w, e) && host.asked == old(host.asked) + [DaemonReload]
    ensures Issued(host.log, DisableNow) <==> Issued(old(host.log), DisableNow)
    ensures host.world == if e.removable then old(host.world).(legacyFile := false) else old(host.world)
  {
    hide Safe, AllSafe, Issued, ReplyAt;
    RemoveFile(host, e, w);
    var _ := Note(host, DaemonReload, w, e);
  }

  /** The destructive half: disable, look again if the disable timed out, and only then remove. */
  method Retire(host: DeadlineRunner, e: Surroundings) returns (r: Outcome)
    requires OnlyLooked(host, host.world) && host.calls == 3 && Guarded(host.pass, host.world, e)
    requires host.asked == [IsActiveCanonical, ShowCanonicalPid, ShowLegacyPid]
    modifies host
    ensures SafeSoFar(host, old(host.world), e)
    ensures Issued(host.log, DisableNow) <==> !Skipped(host.pass, 3)
    ensures r.action == if ConfirmedDisabled(host.pass, old(host.world)) then Removed else Failed
    ensures host.world == WorldAfter(host.pass, old(host.world), r, e)
    ensures Explains(host.pass, old(host.world), e, r.reason) && Fits(r) && Asks(host.pass, r.reason, host.asked)
  {
    hide SafeSoFar, Safe, Issued, Effect, Guarded, Skipped, SaysDisabled, ReplyAt;
    ghost var p, w := host.pass, host.world;
    ConfirmedBySecondLook(p, w, e);
    var disable := Disable(host, e);
    if disable.status != Some(0) {
      if disable.status.None? {
        EnabledProbe(p, host.world, 4);
        var reinspect := Note(host, IsEnabled, w, e);
        if SaysDisabled(reinspect) {
          RemoveAndReload(host, e, w);
          return Outcome(Removed, Retired);
        }
        return Outcome(Failed, DisableTimeout);
      }
      return Outcome(Failed, DisableFailed);
    }
    RemoveAndReload(host, e, w);
    return Outcome(Removed, Retired);
  }

  /** When the disable did not answer, a second look that sees no link confirms it: a skipped disable is never
      confirmed, because the look is skipped as well. */
  lemma ConfirmedBySecondLook(p: Pass, w: World, e: Surroundings)
    requires Guarded(p, w, e)
    ensures Answered(p, 4) ==> !Skipped(p, 3)
    ensures !Answered(p, 3) ==>
              (ConfirmedDisabled(p, w) <==>
                 (Skipped(p, 3) || p.oracle.behaviour(3).TimesOut?) && Answered(p, 4) && !DisabledHost(p, w).legacyLink)
  {
    hide Effect;
    SkippedStaysAt(p);
  }

  /** What a retirement leaves on the host. */
  lemma RetirementLeaves(p: Pass, w: World, r: Outcome, e: Surroundings)
    requires Guarded(p, w, e)
    ensures var now := WorldAfter(p, w, r, e);
            && (now.legacyFile <==> !(r.action.Removed? && e.removable))
            && now.live == LiveAfter(p, w, e)
  {
    DisableFacts(w, p.oracle.behaviour(3));
    DisableEnds(p, w, e);
    hide Effect, Skipped;
    assert forall pid :: pid in WorldAfter(p, w, r, e).live <==> pid in LiveAfter(p, w, e);
  }

  lemma UntouchedIsSafe(w: World, e: Surroundings)
    ensures Safe(w, e, w)
  {
  }

  /** A disable that answered leaves no link; the reply tells the three outcomes apart. */
  lemma DisableFacts(w: World, b: Behaviour)
    ensures Effect(w, DisableNow, b).legacyFile == w.legacyFile
    ensures b.Answers? ==> !Effect(w, DisableNow, b).legacyLink
    ensures forall now :: ReplyTo(now, DisableNow, b).status == (if b.Answers? then Some(0)
                          else if b.Fails? then Some(b.code + 1) else None)
  {
  }

  /** Which processes a disable ends, the guards having passed. */
  lemma DisableEnds(p: Pass, w: World, e: Surroundings)
    requires Guarded(p, w, e)
    ensures var after := Effect(w, DisableNow, p.oracle.behaviour(3));
            && after.live <= w.live
            && (!Skipped(p, 3) ==> forall pid | pid in w.live ::
                  pid !in after.live <==> StopsUnit(p, w, e) && pid in w.underLegacy)
  {
  }

  lemma SkippedStaysAt(p: Pass)
    ensures Skipped(p, 3) ==> Skipped(p, 4)
  {
  }

  /** The whole pass.  At every moment of every run: a legacy daemon whose main process is alive is never
      touched, nothing happens without a live canonical daemon, and a removed unit file leaves no enablement
      link behind.  The processes a run ends are those of the legacy cgroup, exactly when it stops the unit. */
  method ReconcileRedundantLegacyUnit(host: DeadlineRunner, e: Surroundings) returns (r: Outcome)
    requires host.Valid() && host.calls == 0 && host.log == [] && host.asked == [] && host.history == [host.world]
    modifies host
    ensures host.Valid()
    ensures forall now | now in host.history :: Safe(old(host.world), e, now)
    ensures Issued(host.log, DisableNow) <==> Guarded(host.pass, old(host.world), e) && !Skipped(host.pass, 3)
    ensures r.action.Removed? <==>
            Guarded(host.pass, old(host.world), e) && ConfirmedDisabled(host.pass, old(host.world))
    ensures host.world.legacyFile <==> old(host.world.legacyFile) && !(r.action.Removed? && e.removable)
    ensures r.action.Noop? || r.action.Notice? ==> host.world == old(host.world) && !Issued(host.log, DisableNow)
    ensures host.world.live == LiveAfter(host.pass, old(host.world), e)
    ensures Explains(host.pass, old(host.world), e, r.reason) && Fits(r) && Asks(host.pass, r.reason, host.asked)
    ensures r.action.Removed? || r.action.Failed? ==> host.world == WorldAfter(host.pass, old(host.world), r, e)
  {
    hide Safe, ReplyTo, Effect, Skipped, ConfirmedDisabled, Explains, Asks, DisabledHost;
    ghost var w := host.world;
    var refusal := Guards(host, e);
    if refusal.Some? {
      UntouchedIsSafe(w, e);
      return refusal.value;
    }
    r := Retire(host, e);
    RetirementLeaves(host.pass, w, r, e);
  }

  // ----- Which processes a run ends -----

  /** The processes alive when the run is over. */
  function LiveAfter(p: Pass, w: World, e: Surroundings): set<nat> {
    if StopsUnit(p, w, e) then w.live - w.underLegacy else w.live
  }

  /** A run during which every call answers at once. */
  const PROMPT: Pass := Pass(Oracle((i: nat) => Answers, (i: nat) => 0, (i: nat) => 0), 1, 1)

  lemma {:induction false} PromptNeverSkips(i: nat)
    ensures Reached(PROMPT, i) == 0 && !Skipped(PROMPT, i)
  {
    if i > 0 {
      PromptNeverSkips(i - 1);
    }
  }

  /** No run ends a process of this host, however systemctl behaves and whatever else the pass learns:
      exactly when the guards stop every run there, or the legacy cgroup holds no live process. */
  lemma NoProcessAtRisk(w: World, readable: bool)
    ensures (forall p: Pass, e: Surroundings | e.cgroupReadable == readable :: LiveAfter(p, w, e) == w.live)
       <==> !Redundant(w) || (readable && w.own in w.underLegacy) || w.live !! w.underLegacy
  {
    if Redundant(w) && !(readable && w.own in w.underLegacy) && !(w.live !! w.underLegacy) {
      var e := Surroundings(None, readable, Some(true), true);
      PromptNeverSkips(0);
      PromptNeverSkips(1);
      PromptNeverSkips(2);
      PromptNeverSkips(3);
      assert StopsUnit(PROMPT, w, e);
      assert LiveAfter(PROMPT, w, e) != w.live;
    }
  }

  /** The process the pass runs in is at risk exactly when it runs under a dead legacy unit, beside a live
      canonical daemon, and cannot read its cgroup. */
  lemma OwnProcessAtRisk(w: World)
    requires w.own in w.live
    ensures (exists p: Pass, e: Surroundings :: w.own !in LiveAfter(p, w, e))
       <==> Redundant(w) && w.own in w.underLegacy
    ensures forall p: Pass, e: Surroundings :: w.own !in LiveAfter(p, w, e) ==> !e.cgroupReadable
  {
    if Redundant(w) && w.own in w.underLegacy {
      var e := Surroundings(None, false, Some(true), true);
      PromptNeverSkips(0);
      PromptNeverSkips(1);
      PromptNeverSkips(2);
      PromptNeverSkips(3);
      assert StopsUnit(PROMPT, w, e);
      assert w.own !in LiveAfter(PROMPT, w, e);
    }
  }

  /** A live process of the legacy unit other than its main one is ended: the guards look at the main process
      only. */
  lemma WorkerOfDeadMainIsEnded(worker: nat, own: nat, canonical: nat)
    requires worker > 0 && canonical > 0 && worker != own && worker != canonical && own != canonical
    ensures var w := World(true, true, 0, {worker}, true, canonical, {worker, own, canonical}, own);
            LiveAfter(PROMPT, w, Surroundings(None, true, Some(true), true)) == {own, canonical}
  {
    PromptNeverSkips(0);
    PromptNeverSkips(1);
    PromptNeverSkips(2);
    PromptNeverSkips(3);
  }
}
