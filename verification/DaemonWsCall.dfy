/** One verb call over a WebSocket: however its events arrive, it is answered once. */
module DaemonWsCall {
  import opened JsText

  /** A frame as the call reads it. */
  datatype Frame =
    | Auth(ok: bool)
    | ErrorFrame(message: Option<string>)
    | Response(id: string, ok: bool, status: int, body: string, error: Option<string>)
    | OtherFrame
    | Unreadable

  datatype Event = Opened | Received(frame: Frame) | Errored | Closed | TimedOut

  datatype Outcome =
    | Answer(body: string)
    | TokenRefused
    | Refused(message: Option<string>)
    | UnknownVerb
    | Unreachable
    | ClosedEarly
    | NoAnswer

  datatype Sent = SentAuth | SentCall(id: string)

  /** The outcome an event decides, if it decides one. */
  function Verdict(callId: string, e: Event): Option<Outcome> {
    match e
    case Opened => None
    case Errored => Some(Unreachable)
    case Closed => Some(ClosedEarly)
    case TimedOut => Some(NoAnswer)
    case Received(f) =>
      match f
      case Auth(ok) => if ok then None else Some(TokenRefused)
      case ErrorFrame(message) => Some(Refused(message))
      case OtherFrame => None
      case Unreadable => None
      case Response(id, ok, status, body, error) =>
        if id != callId then None
        else if ok then Some(Answer(body))
        else if status == 404 then Some(UnknownVerb)
        else Some(Refused(error))
  }

  /** What an event makes the call send. */
  function Sends(callId: string, e: Event): seq<Sent> {
    if e.Opened? then [SentAuth]
    else if e.Received? && e.frame.Auth? && e.frame.ok then [SentCall(callId)]
    else []
  }

  /** The first verdict of a run. */
  function FirstVerdict(callId: string, events: seq<Event>): Option<Outcome> {
    if events == [] then None
    else if Verdict(callId, events[0]).Some? then Verdict(callId, events[0])
    else FirstVerdict(callId, events[1..])
  }

  function AllSends(callId: string, events: seq<Event>): seq<Sent> {
    if events == [] then [] else AllSends(callId, events[..|events| - 1]) + Sends(callId, events[|events| - 1])
  }

  /** One more event decides only what nothing before it decided. */
  lemma {:induction false} VerdictSettles(callId: string, events: seq<Event>, e: Event)
    ensures FirstVerdict(callId, events + [e]) ==
            if FirstVerdict(callId, events).Some? then FirstVerdict(callId, events) else Verdict(callId, e)
  {
    if events == [] {
      assert [e][1..] == [];
    } else {
      assert (events + [e])[1..] == events[1..] + [e];
      VerdictSettles(callId, events[1..], e);
    }
  }

  /** A run is decided exactly when one of its events decides. */
  lemma {:induction false} DecidedByAnEvent(callId: string, events: seq<Event>)
    ensures FirstVerdict(callId, events).Some? <==> exists i :: 0 <= i < |events| && Verdict(callId, events[i]).Some?
    ensures FirstVerdict(callId, events).Some? ==>
              exists i :: 0 <= i < |events| && FirstVerdict(callId, events) == Verdict(callId, events[i])
                          && forall j | 0 <= j < i :: Verdict(callId, events[j]).None?
  {
    if events != [] && Verdict(callId, events[0]).None? {
      var rest := events[1..];
      DecidedByAnEvent(callId, rest);
      assert forall i | 0 < i < |events| :: events[i] == rest[i - 1];
      if FirstVerdict(callId, rest).Some? {
        var i :| 0 <= i < |rest| && FirstVerdict(callId, rest) == Verdict(callId, rest[i])
                 && forall j | 0 <= j < i :: Verdict(callId, rest[j]).None?;
        assert events[i + 1] == rest[i];
      }
    }
  }

  /** A call frame goes out only in answer to an accepted auth frame, and carries this call's id. */
  lemma {:induction false} CallNeedsAuth(callId: string, events: seq<Event>, id: string)
    ensures SentCall(id) in AllSends(callId, events) <==>
            id == callId && exists i :: 0 <= i < |events| && events[i] == Received(Auth(true))
  {
    if events != [] {
      var init, last := events[..|events| - 1], events[|events| - 1];
      CallNeedsAuth(callId, init, id);
      assert forall i | 0 <= i < |init| :: events[i] == init[i];
      if SentCall(id) in Sends(callId, last) {
        assert events[|events| - 1] == Received(Auth(true));
      }
    }
  }

  class VerbCall {
    const callId: string
    var settled: bool
    var timerSet: bool
    var closed: bool
    var sent: seq<Sent>
    /** Every outcome handed to the caller, in order. */
    var resolved: seq<Outcome>
    ghost var seen: seq<Event>

    ghost predicate Valid()
      reads this
    {
      && (settled <==> FirstVerdict(callId, seen).Some?)
      && resolved == (if settled then [FirstVerdict(callId, seen).value] else [])
      && sent == AllSends(callId, seen)
      && (settled ==> !timerSet && closed)
    }

    constructor (callId: string)
      ensures Valid() && this.callId == callId && seen == [] && !settled && timerSet
    {
      this.callId := callId;
      settled, timerSet, closed, sent, resolved, seen := false, true, false, [], [], [];
    }

    /** Settles the call.  `close()` may call `onclose` back before it returns, as often as `reentry` says,
        and may throw; the caller's outcome is handed over only after that. */
    method Finish(outcome: Outcome, reentry: nat)
      modifies this
      ensures seen == old(seen) && sent == old(sent)
      ensures settled
      ensures old(settled) ==> resolved == old(resolved) && timerSet == old(timerSet) && closed == old(closed)
      ensures !old(settled) ==> resolved == old(resolved) + [outcome] && !timerSet && closed
      decreases reentry, 0
    {
      if settled {
        return;
      }
      settled := true;
      timerSet := false;
      closed := true;
      if reentry > 0 {
        OnCloseDuringFinish(reentry - 1);
      }
      resolved := resolved + [outcome];
    }

    /** `onclose` called from inside `close()`. */
    method OnCloseDuringFinish(reentry: nat)
      requires settled
      modifies this
      ensures settled && resolved == old(resolved) && seen == old(seen) && sent == old(sent)
      ensures timerSet == old(timerSet) && closed == old(closed)
      decreases reentry, 1
    {
      Finish(ClosedEarly, reentry);
    }

    /** The event is seen, before its handler runs. */
    ghost predicate Handling(e: Event, was: seq<Event>)
      reads this
    {
      && seen == was + [e]
      && (settled <==> FirstVerdict(callId, was).Some?)
      && resolved == (if settled then [FirstVerdict(callId, was).value] else [])
      && sent == AllSends(callId, was)
      && (settled ==> !timerSet && closed)
    }

    method OnOpen(ghost was: seq<Event>)
      requires Handling(Opened, was)
      modifies this
      ensures Valid() && seen == old(seen)
    {
      VerdictSettles(callId, was, Opened);
      assert seen[..|seen| - 1] == was;
      sent := sent + [SentAuth];
    }

    method OnMessage(frame: Frame, reentry: nat, ghost was: seq<Event>)
      requires Handling(Received(frame), was)
      modifies this
      ensures Valid() && seen == old(seen)
    {
      VerdictSettles(callId, was, Received(frame));
      assert seen[..|seen| - 1] == was;
      if frame.Unreadable? {
        return;
      }
      if frame.Auth? {
        if frame.ok {
          sent := sent + [SentCall(callId)];
          return;
        }
        Finish(TokenRefused, reentry);
        return;
      }
      if frame.ErrorFrame? {
        Finish(Refused(frame.message), reentry);
        return;
      }
      if !frame.Response? || frame.id != callId {
        return;
      }
      if frame.ok {
        Finish(Answer(frame.body), reentry);
        return;
      }
      if frame.status == 404 {
        Finish(UnknownVerb, reentry);
        return;
      }
      Finish(Refused(frame.error), reentry);
    }

    /** `onerror`, `onclose` and the timer. */
    method OnEnd(e: Event, outcome: Outcome, reentry: nat, ghost was: seq<Event>)
      requires Handling(e, was)
      requires (e.Errored? && outcome == Unreachable) || (e.Closed? && outcome == ClosedEarly)
               || (e.TimedOut? && outcome == NoAnswer)
      modifies this
      ensures Valid() && seen == old(seen)
    {
      VerdictSettles(callId, was, e);
      assert seen[..|seen| - 1] == was;
      Finish(outcome, reentry);
    }

    /** One event, with every callback it sets off.  `Valid` holds after any sequence of them: the caller has
        been answered at most once, by the first event that decided, and has been answered if one did. */
    method Handle(e: Event, reentry: nat)
      requires Valid()
      modifies this
      ensures Valid() && seen == old(seen) + [e]
    {
      ghost var was := seen;
      seen := seen + [e];
      match e
      case Opened => OnOpen(was);
      case Received(frame) => OnMessage(frame, reentry, was);
      case Errored => OnEnd(e, Unreachable, reentry, was);
      case Closed => OnEnd(e, ClosedEarly, reentry, was);
      case TimedOut => OnEnd(e, NoAnswer, reentry, was);
    }
  }
}
