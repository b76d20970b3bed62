/** A host with two daemon units, and a systemctl that may fail or time out at any call. */
module ServiceHost {
  import opened JsText
  import opened Sizes
  import Decimal

  /** What systemd and the process table hold: the legacy unit's file, enablement link, main process (0 when
      stopped) and the processes in its cgroup, the canonical unit, the live processes, and the process this
      code runs in. */
  datatype World = World(legacyFile: bool, legacyLink: bool, legacyMain: nat, underLegacy: set<nat>,
                         canonicalActive: bool, canonicalMain: nat,
                         live: set<nat>, own: nat)

  datatype Command = IsActiveCanonical | ShowCanonicalPid | ShowLegacyPid | DisableNow | IsEnabled | DaemonReload

  /** How one call turns out.  A call that fails or times out may have done part of its work. */
  datatype Behaviour =
    | Answers
    | Fails(code: nat, dropsLink: bool, stops: bool)
    | TimesOut(noise: JsString, dropsLink: bool, stops: bool)

  /** `status` is None when the call did not finish. */
  datatype Reply = Reply(status: Option<int>, stdout: JsString)

  const ACTIVE: JsString := Ascii("active")
  const INACTIVE: JsString := Ascii("inactive")
  const ENABLED: JsString := Ascii("enabled")
  const DISABLED: JsString := Ascii("disabled")
  const NOT_FOUND: JsString := Ascii("not-found")

  function DigitPrefix(s: JsString): (p: JsString)
    ensures p <= s && (p != [] ==> Decimal.AllDigits(p))
  {
    if s == [] || !Decimal.IsDigit(s[0]) then []
    else
      assert s == [s[0]] + s[1..];
      [s[0]] + DigitPrefix(s[1..])
  }

  lemma {:induction false} DigitPrefixWhole(s: JsString)
    requires Decimal.AllDigits(s)
    ensures DigitPrefix(s) == s
  {
    assert s == [s[0]] + s[1..];
    if |s| > 1 {
      DigitPrefixWhole(s[1..]);
    }
  }

  /** `Number.parseInt(s, 10)`; None is NaN. */
  function ParseInt(s: JsString): Option<int> {
    var t := TrimStart(s);
    var negative := t != [] && t[0] == 45;
    var digits := DigitPrefix(if t != [] && (t[0] == 45 || t[0] == 43) then t[1..] else t);
    if digits == [] then None
    else
      var n: int := Decimal.Value(digits);
      Some(if negative then -n else n)
  }

  /** A positive pid, or None for a failed query, an unreadable reply and a stopped unit alike. */
  function ParseMainPid(r: Reply): (pid: Option<nat>)
    ensures pid.Some? ==> r.status == Some(0) && pid.value > 0
  {
    if r.status != Some(0) then None
    else
      var parsed := ParseInt(Trim(r.stdout));
      if parsed.Some? && parsed.value > 0 then Some(parsed.value) else None
  }

  lemma ParseDigits(s: JsString)
    requires Decimal.AllDigits(s)
    ensures s != [] && ParseInt(s) == Some(Decimal.Value(s)) && !IsSpace(s[0]) && !IsSpace(s[|s| - 1])
  {
    DigitPrefixWhole(s);
    assert Decimal.IsDigit(s[0]) && Decimal.IsDigit(s[|s| - 1]);
    assert TrimStart(s) == s;
  }

  /** A numeral may carry a sign. */
  lemma ParseSigned(sign: CodeUnit, s: JsString)
    requires Decimal.AllDigits(s) && (sign == 45 || sign == 43)
    ensures var n: int := Decimal.Value(s);
            ParseInt([sign] + s) == Some(if sign == 45 then -n else n)
  {
    DigitPrefixWhole(s);
    hide DigitPrefix, Decimal.Value, Decimal.AllDigits;
    assert ([sign] + s)[0] == sign && ([sign] + s)[1..] == s;
    assert TrimStart([sign] + s) == [sign] + s;
  }

  /** A truthful reply is read as the pid it names. */
  lemma ParsePrinted(pid: nat)
    ensures ParseMainPid(Reply(Some(0), Decimal.Print(pid) + [NEWLINE])) == if pid > 0 then Some(pid) else None
  {
    hide Trim, ParseInt, Decimal.Print, Decimal.Value, Decimal.AllDigits;
    var s := Decimal.Print(pid);
    ParseDigits(s);
    TrimLine(s);
    Decimal.ValueOfPrint(pid);
  }

  /** Stopping the legacy unit ends its main process and every other process in its cgroup. */
  function Stopped(w: World): World {
    w.(legacyMain := 0, underLegacy := {},
       live := w.live - w.underLegacy - (if w.legacyMain > 0 then {w.legacyMain} else {}))
  }

  function Disabled(w: World, dropsLink: bool, stops: bool): World {
    var u := if stops then Stopped(w) else w;
    if dropsLink then u.(legacyLink := false) else u
  }

  /** What one systemctl call does to the host. */
  function Effect(w: World, c: Command, b: Behaviour): World {
    if !c.DisableNow? then w
    else match b
      case Answers => Disabled(w, true, true)
      case Fails(_, dropsLink, stops) => Disabled(w, dropsLink, stops)
      case TimesOut(_, dropsLink, stops) => Disabled(w, dropsLink, stops)
  }

  /** What one call replies: the truth about the host as it then is, or nothing usable. */
  function ReplyTo(w: World, c: Command, b: Behaviour): Reply {
    match b
    case TimesOut(noise, _, _) => Reply(None, noise)
    case Fails(code, _, _) => Reply(Some(code + 1), [])
    case Answers =>
      match c
      case IsActiveCanonical =>
        if w.canonicalActive then Reply(Some(0), ACTIVE + [NEWLINE]) else Reply(Some(3), INACTIVE + [NEWLINE])
      case ShowCanonicalPid => Reply(Some(0), Decimal.Print(w.canonicalMain) + [NEWLINE])
      case ShowLegacyPid => Reply(Some(0), Decimal.Print(w.legacyMain) + [NEWLINE])
      case IsEnabled =>
        if w.legacyLink then Reply(Some(0), ENABLED + [NEWLINE])
        else if w.legacyFile then Reply(Some(1), DISABLED + [NEWLINE])
        else Reply(Some(4), NOT_FOUND + [NEWLINE])
      case DisableNow => Reply(Some(0), [])
      case DaemonReload => Reply(Some(0), [])
  }

  /** Everything about a run the code does not decide: how each call turns out, the time that passes
      before it, and the time it takes. */
  datatype Oracle = Oracle(behaviour: nat -> Behaviour, gap: nat -> nat, duration: nat -> nat)

  /** One pass: its oracle, the timeout of each call, and the budget of all calls together. */
  datatype Pass = Pass(oracle: Oracle, perCall: nat, deadline: int)

  /** Time elapsed since the pass began when call `i` is reached, and when it is over. */
  function Reached(p: Pass, i: nat): (t: nat)
    decreases i, 0
  {
    (if i == 0 then 0 else Over(p, i - 1)) + p.oracle.gap(i)
  }

  function Over(p: Pass, i: nat): (t: nat)
    ensures t >= Reached(p, i)
    decreases i, 1
  {
    Ends(p, Reached(p, i), i)
  }

  /** When call `i` is over if it is reached at `now`: it gets what is left of the budget, and no more. */
  function Ends(p: Pass, now: nat, i: nat): (t: nat)
    ensures t >= now && (now < p.deadline ==> t <= p.deadline)
  {
    if now >= p.deadline then now else now + Min(p.oracle.duration(i), Min(p.perCall, p.deadline - now))
  }

  predicate Skipped(p: Pass, i: nat) {
    Reached(p, i) >= p.deadline
  }

  /** Once one call is skipped for lack of time, every later one is. */
  lemma {:induction false} SkippedStays(p: Pass, i: nat, j: nat)
    requires i <= j && Skipped(p, i)
    ensures Skipped(p, j)
    decreases j
  {
    hide Reached, Over;
    if i < j {
      SkippedStays(p, i, j - 1);
      NextReached(p, j);
    }
  }

  /** Time only moves forward from one call to the next. */
  lemma NextReached(p: Pass, i: nat)
    requires i > 0
    ensures Reached(p, i - 1) <= Reached(p, i)
  {
  }

  /** A call that is not skipped ends within the budget, however slow the calls before it were. */
  lemma CallEndsInTime(p: Pass, i: nat)
    requires !Skipped(p, i)
    ensures Over(p, i) <= p.deadline
  {
  }

  /** The clock at one call, and after it. */
  lemma ClockStep(p: Pass, i: nat)
    ensures Reached(p, i) == (if i == 0 then 0 else Over(p, i - 1)) + p.oracle.gap(i)
    ensures Over(p, i) ==
            Reached(p, i) + if Skipped(p, i) then 0
            else Min(p.oracle.duration(i), Min(p.perCall, p.deadline - Reached(p, i)))
    ensures i > 0 && Skipped(p, i - 1) ==> Skipped(p, i)
  {
  }

  datatype Call = Call(command: Command, began: nat, ended: nat)

  /** The runner of one pass: every call shares one time budget. */
  class DeadlineRunner {
    const pass: Pass
    var world: World
    var elapsed: nat
    var calls: nat
    var hit: bool
    ghost var log: seq<Call>
    /** Every command of the pass, in order, also those that were skipped. */
    ghost var asked: seq<Command>
    ghost var history: seq<World>

    ghost predicate Valid()
      reads this
    {
      && elapsed == (if calls == 0 then 0 else Over(pass, calls - 1))
      && (hit <==> calls > 0 && Skipped(pass, calls - 1))
      && (forall c | c in log :: c.began <= c.ended <= pass.deadline && c.ended <= c.began + pass.perCall)
      && |history| > 0 && history[|history| - 1] == world
    }

    constructor (pass: Pass, world: World)
      ensures Valid() && this.pass == pass
      ensures this.world == world && calls == 0 && log == [] && asked == [] && history == [world]
    {
      this.pass, this.world := pass, world;
      elapsed, calls, hit, log, asked, history := 0, 0, false, [], [], [world];
    }

    ghost function Skips(i: nat): bool {
      Skipped(pass, i)
    }

    method Run(c: Command) returns (r: Reply)
      requires Valid()
      modifies this
      ensures Valid() && calls == old(calls) + 1 && asked == old(asked) + [c]
      ensures if Skips(old(calls)) then
                r == Reply(None, []) && world == old(world) && log == old(log) && history == old(history)
              else
                && r == ReplyTo(world, c, pass.oracle.behaviour(old(calls)))
                && world == Effect(old(world), c, pass.oracle.behaviour(old(calls)))
                && history == old(history) + [world]
                && |log| == |old(log)| + 1 && log[..|old(log)|] == old(log) && log[|old(log)|].command == c
      ensures old(hit) ==> Skips(old(calls))
    {
      hide Effect, ReplyTo, Reached, Over;
      ClockStep(pass, calls);
      elapsed := elapsed + pass.oracle.gap(calls);
      var remaining := pass.deadline - elapsed;
      if remaining <= 0 {
        hit := true;
        r := Reply(None, []);
      } else {
        var began := elapsed;
        elapsed := elapsed + Min(pass.oracle.duration(calls), Min(pass.perCall, remaining));
        world := Effect(world, c, pass.oracle.behaviour(calls));
        r := ReplyTo(world, c, pass.oracle.behaviour(calls));
        log := log + [Call(c, began, elapsed)];
        history := history + [world];
      }
      calls := calls + 1;
      asked := asked + [c];
    }

    /** `rmSync` of the legacy unit file; it may throw. */
    method RemoveLegacyFile(succeeds: bool)
      requires Valid()
      modifies this`world, this`history
      ensures Valid() && world == if succeeds then old(world).(legacyFile := false) else old(world)
      ensures history == old(history) + [world]
    {
      hide Reached, Over;
      if succeeds {
        world := world.(legacyFile := false);
      }
      history := history + [world];
    }
  }
}
