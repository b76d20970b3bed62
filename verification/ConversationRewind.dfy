/** Rewinding live conversations to a turn, and undoing and redoing those rewinds. */
module ConversationRewind {
  import opened JsText

  datatype Message = Message(text: string)

  /** One truncation: the conversation it cut, and its contents on either side. */
  datatype Snapshot<C> = Snapshot(conv: C, before: seq<Message>, after: seq<Message>)

  datatype Anchor = Anchor(session: string, turn: string)

  /** The message count recorded for a session's turn, where one was recorded. */
  type Turns = map<(string, string), nat>

  /** What the port can see: every conversation's contents, which one is live in which session, the turns
      recorded, and the snapshots taken so far. */
  datatype State<C(==)> = State(contents: map<C, seq<Message>>, live: map<string, C>, turns: Turns,
                                snapshots: map<string, Snapshot<C>>)

  datatype Op<C> =
    | Rewind(anchor: Anchor, id: string)
    | RestoreBefore(id: string)
    | RestoreAfter(id: string)
    | Write(conv: C, messages: seq<Message>)
    | Register(session: string, conv: C)
    | Unregister(session: string)
    | Record(anchor: Anchor, count: Option<nat>) // a turn completes, or its record is dropped

  /** How many of `total` messages a rewind to the anchor keeps. */
  function Keep(turns: Turns, anchor: Anchor, total: nat): (keep: nat)
    ensures keep <= total
  {
    if anchor.turn != "" && (anchor.session, anchor.turn) in turns && turns[(anchor.session, anchor.turn)] < total
    then turns[(anchor.session, anchor.turn)] else total
  }

  /** The turn was recorded at a length `total` is past: that is how far back a rewind to it goes. */
  ghost predicate RecordedBelow(turns: Turns, anchor: Anchor, total: nat, count: nat) {
    && anchor.turn != "" && (anchor.session, anchor.turn) in turns
    && turns[(anchor.session, anchor.turn)] == count < total
  }

  lemma KeepGoesBack(turns: Turns, anchor: Anchor, total: nat)
    ensures forall c: nat | RecordedBelow(turns, anchor, total, c) :: Keep(turns, anchor, total) == c
    ensures Keep(turns, anchor, total) < total ==>
              RecordedBelow(turns, anchor, total, Keep(turns, anchor, total))
  {
  }

  function Set<C>(s: State<C>, conv: C, messages: seq<Message>): State<C> {
    s.(contents := s.contents[conv := messages])
  }

  /** The anchor's session is held by a live conversation. */
  predicate Live<C>(s: State<C>, anchor: Anchor) {
    anchor.session in s.live && s.live[anchor.session] in s.contents
  }

  /** What a rewind to the anchor cuts, and both sides of the cut. */
  function Cut<C>(s: State<C>, anchor: Anchor): Snapshot<C>
    requires Live(s, anchor)
  {
    var before := s.contents[s.live[anchor.session]];
    Snapshot(s.live[anchor.session], before, before[..Keep(s.turns, anchor, |before|)])
  }

  function Apply<C>(s: State<C>, op: Op<C>): State<C> {
    match op
    case Rewind(anchor, id) =>
      if !Live(s, anchor) then s
      else
        var cut := Cut(s, anchor);
        Set(s, cut.conv, cut.after).(snapshots := s.snapshots[id := cut])
    case RestoreBefore(id) =>
      if id in s.snapshots then Set(s, s.snapshots[id].conv, s.snapshots[id].before) else s
    case RestoreAfter(id) =>
      if id in s.snapshots then Set(s, s.snapshots[id].conv, s.snapshots[id].after) else s
    case Write(conv, messages) => if conv in s.contents then Set(s, conv, messages) else s
    case Register(session, conv) =>
      if session != "" && conv in s.contents then s.(live := s.live[session := conv]) else s
    case Unregister(session) => s.(live := s.live - {session})
    case Record(anchor, count) => s.(turns := Recorded(s.turns, anchor, count))
  }

  function Recorded(turns: Turns, anchor: Anchor, count: Option<nat>): Turns {
    if count.Some? then turns[(anchor.session, anchor.turn) := count.value]
    else turns - {(anchor.session, anchor.turn)}
  }

  function ApplyAll<C>(s: State<C>, ops: seq<Op<C>>): State<C> {
    if ops == [] then s else Apply(ApplyAll(s, ops[..|ops| - 1]), ops[|ops| - 1])
  }

  // ----- The objects -----

  class Conversation {
    var messages: seq<Message>
    var history: seq<Message>

    method FromJson(json: seq<Message>)
      modifies this`messages
      ensures messages == json
    {
      messages := json;
    }

    method RebuildHistory()
      modifies this`history
      ensures history == messages
    {
      history := messages;
    }

    method RemoveMessagesAfter(count: nat)
      modifies this`messages
      ensures messages == if count < |old(messages)| then old(messages)[..count] else old(messages)
    {
      if count < |messages| {
        messages := messages[..count];
      }
    }
  }

  datatype Preview = Preview(toDrop: nat, remaining: nat) | Unavailable

  class RewindPort {
    var turns: Turns
    var live: map<string, Conversation>
    var snapshots: map<string, Snapshot<Conversation>>
    ghost var conversations: set<Conversation>

    ghost predicate Valid()
      reads this
    {
      && (forall k | k in live :: live[k] in conversations)
      && (forall id | id in snapshots :: snapshots[id].conv in conversations)
    }

    ghost function View(): State<Conversation>
      reads this, conversations
    {
      State(map c | c in conversations :: c.messages, live, turns, snapshots)
    }

    constructor (turns: Turns)
      ensures Valid() && this.turns == turns && live == map[] && snapshots == map[] && conversations == {}
    {
      this.turns := turns;
      live, snapshots, conversations := map[], map[], {};
    }

    method ShowPreview(anchor: Anchor) returns (p: Preview)
      requires Valid()
      ensures p.Unavailable? <==> anchor.session !in live
      ensures anchor.session in live ==>
                && p.toDrop + p.remaining == |live[anchor.session].messages|
                && p.remaining == |Apply(View(), Rewind(anchor, "")).contents[live[anchor.session]]|
      ensures anchor.session in live ==>
                var total := |live[anchor.session].messages|;
                && (forall c: nat | RecordedBelow(turns, anchor, total, c) :: p.remaining == c)
                && (p.toDrop > 0 ==> exists c: nat :: RecordedBelow(turns, anchor, total, c))
    {
      if anchor.session !in live {
        return Unavailable;
      }
      var total := |live[anchor.session].messages|;
      var keep := Keep(turns, anchor, total);
      KeepGoesBack(turns, anchor, total);
      hide RecordedBelow, Keep;
      p := Preview(total - keep, keep);
    }

    /** Truncates the live conversation and remembers both sides of the cut. */
    method DoRewind(anchor: Anchor, id: string) returns (dropped: Option<nat>)
      requires Valid()
      modifies this`snapshots, conversations
      ensures Valid() && View() == Apply(old(View()), Rewind(anchor, id))
      ensures dropped.None? <==> anchor.session !in live
      ensures anchor.session in live ==>
                && dropped.value == |old(live[anchor.session].messages)| - |live[anchor.session].messages|
                && live[anchor.session].history == live[anchor.session].messages
      ensures anchor.session in live ==>
                var was, now := old(live[anchor.session].messages), live[anchor.session].messages;
                && (forall c: nat | RecordedBelow(turns, anchor, |was|, c) :: now == was[..c])
                && (now != was ==> exists c: nat :: RecordedBelow(turns, anchor, |was|, c))
    {
      if anchor.session !in live {
        return None;
      }
      var conv := live[anchor.session];
      var total := |conv.messages|;
      var keep := Keep(turns, anchor, total);
      KeepGoesBack(turns, anchor, total);
      hide RecordedBelow, Keep;
      var before := conv.messages;
      conv.RemoveMessagesAfter(keep);
      conv.RebuildHistory();
      var after := conv.messages;
      assert before[..|before|] == before;
      snapshots := snapshots[id := Snapshot(conv, before, after)];
      return Some(total - keep);
    }

    method Restore(id: string, which: bool) returns (found: bool)
      requires Valid()
      modifies conversations
      ensures Valid() && View() == Apply(old(View()), if which then RestoreBefore(id) else RestoreAfter(id))
      ensures found <==> id in snapshots
      ensures found ==> snapshots[id].conv.history == snapshots[id].conv.messages
    {
      if id !in snapshots {
        return false;
      }
      var s := snapshots[id];
      s.conv.FromJson(if which then s.before else s.after);
      s.conv.RebuildHistory();
      return true;
    }

    method RegisterSession(session: string, conv: Conversation)
      requires Valid() && conv in conversations
      modifies this`live
      ensures Valid() && View() == Apply(old(View()), Register(session, conv))
    {
      if session != "" {
        live := live[session := conv];
      }
    }

    /** The process that holds the conversation adds to it, or edits it. */
    method WriteMessages(conv: Conversation, messages: seq<Message>)
      requires Valid() && conv in conversations
      modifies conv
      ensures Valid() && View() == Apply(old(View()), Write(conv, messages)) && conv.messages == messages
    {
      conv.messages := messages;
    }

    method RecordTurn(anchor: Anchor, count: Option<nat>)
      requires Valid()
      modifies this`turns
      ensures Valid() && View() == Apply(old(View()), Record(anchor, count))
      ensures turns == if count.Some? then old(turns)[(anchor.session, anchor.turn) := count.value]
                       else old(turns) - {(anchor.session, anchor.turn)}
    {
      turns := Recorded(turns, anchor, count);
    }

    method UnregisterSession(session: string)
      requires Valid()
      modifies this`live
      ensures Valid() && View() == Apply(old(View()), Unregister(session))
    {
      live := live - {session};
    }
  }

  // ----- Whole histories -----

  /** A snapshot id is random; nothing later in the history draws the same one. */
  ghost predicate Draws<C>(ops: seq<Op<C>>, id: string) {
    exists k :: 0 <= k < |ops| && ops[k].Rewind? && ops[k].id == id
  }

  lemma DrawsGrows<C>(ops: seq<Op<C>>, id: string)
    requires ops != [] && !Draws(ops, id)
    ensures !Draws(ops[..|ops| - 1], id) && (ops[|ops| - 1].Rewind? ==> ops[|ops| - 1].id != id)
  {
  }

  /** Whatever happens afterwards, a snapshot stays as it was taken. */
  lemma {:induction false} SnapshotStays<C>(s: State<C>, ops: seq<Op<C>>, id: string)
    requires id in s.snapshots && !Draws(ops, id)
    ensures id in ApplyAll(s, ops).snapshots && ApplyAll(s, ops).snapshots[id] == s.snapshots[id]
  {
    if ops != [] {
      DrawsGrows(ops, id);
      SnapshotStays(s, ops[..|ops| - 1], id);
    }
  }

  /** Undo and redo are exact: after any history of appends, edits, completed turns, other rewinds, restores
      and session changes, restoring a rewind's snapshot gives the very conversation it cut the contents it had just
      before, or just after, and changes no other conversation. */
  lemma RestoreIsExact<C>(s: State<C>, anchor: Anchor, id: string, ops: seq<Op<C>>)
    requires Live(s, anchor) && !Draws(ops, id)
    ensures var conv := s.live[anchor.session];
            var cut := Apply(s, Rewind(anchor, id));
            var now := ApplyAll(cut, ops);
            && Apply(now, RestoreBefore(id)).contents == now.contents[conv := s.contents[conv]]
            && Apply(now, RestoreAfter(id)).contents == now.contents[conv := cut.contents[conv]]
  {
    SnapshotStays(Apply(s, Rewind(anchor, id)), ops, id);
  }

  /** Nothing in the history records this turn again, or drops its record. */
  ghost predicate KeepsRecord<C>(ops: seq<Op<C>>, anchor: Anchor) {
    forall k | 0 <= k < |ops| && ops[k].Record? :: ops[k].anchor != anchor
  }

  lemma {:induction false} RecordStays<C>(s: State<C>, ops: seq<Op<C>>, anchor: Anchor)
    requires KeepsRecord(ops, anchor) && (anchor.session, anchor.turn) in s.turns
    ensures (anchor.session, anchor.turn) in ApplyAll(s, ops).turns
    ensures ApplyAll(s, ops).turns[(anchor.session, anchor.turn)] == s.turns[(anchor.session, anchor.turn)]
  {
    if ops != [] {
      var init, last := ops[..|ops| - 1], ops[|ops| - 1];
      assert forall k | 0 <= k < |init| :: init[k] == ops[k];
      RecordStays(s, init, anchor);
      assert last.Record? ==> ops[|ops| - 1].anchor != anchor;
    }
  }

  /** A rewind goes back to the turn: when a turn is recorded as it completes and the conversation has only
      been added to since, whatever else happened, rewinding to it gives the contents it had then. */
  lemma RewindGoesBack<C>(s: State<C>, anchor: Anchor, id: string, ops: seq<Op<C>>)
    requires anchor.turn != "" && Live(s, anchor) && KeepsRecord(ops, anchor)
    requires var conv := s.live[anchor.session];
             var now := ApplyAll(Apply(s, Record(anchor, Some(|s.contents[conv]|))), ops);
             Live(now, anchor) && now.live[anchor.session] == conv && s.contents[conv] <= now.contents[conv]
    ensures var conv := s.live[anchor.session];
            var now := ApplyAll(Apply(s, Record(anchor, Some(|s.contents[conv]|))), ops);
            Apply(now, Rewind(anchor, id)).contents[conv] == s.contents[conv]
  {
    var conv := s.live[anchor.session];
    var recorded := Apply(s, Record(anchor, Some(|s.contents[conv]|)));
    RecordStays(recorded, ops, anchor);
    var now := ApplyAll(recorded, ops);
    assert Keep(now.turns, anchor, |now.contents[conv]|) == |s.contents[conv]|;
  }

  // ----- Ids that are drawn again -----

  /** The operation is a rewind that draws `id` and finds its session live, so it stores a snapshot. */
  predicate Stores<C>(s: State<C>, op: Op<C>, id: string) {
    op.Rewind? && op.id == id && Live(s, op.anchor)
  }

  /** The state before the last operation of a history that stores a snapshot under `id`, and its anchor. */
  function LastStore<C>(s: State<C>, ops: seq<Op<C>>, id: string): (r: Option<(State<C>, Anchor)>)
    ensures r.Some? ==> Live(r.value.0, r.value.1)
  {
    if ops == [] then None
    else
      var init, last := ops[..|ops| - 1], ops[|ops| - 1];
      if Stores(ApplyAll(s, init), last, id) then Some((ApplyAll(s, init), last.anchor))
      else LastStore(s, init, id)
  }

  /** Operation `k` of the history stores a snapshot under `id`. */
  ghost predicate StoresAt<C>(s: State<C>, ops: seq<Op<C>>, k: nat, id: string) {
    k < |ops| && Stores(ApplyAll(s, ops[..k]), ops[k], id)
  }

  lemma StoresInInit<C>(s: State<C>, ops: seq<Op<C>>, k: nat, id: string)
    requires k + 1 < |ops|
    ensures StoresAt(s, ops, k, id) <==> StoresAt(s, ops[..|ops| - 1], k, id)
  {
    assert ops[..|ops| - 1][..k] == ops[..k];
  }

  /** It is one of the history's rewinds, and none after it stores a snapshot under `id`. */
  lemma {:induction false} LastStoreIsLast<C>(s: State<C>, ops: seq<Op<C>>, id: string)
      returns (k: nat)
    ensures LastStore(s, ops, id).Some? ==>
              StoresAt(s, ops, k, id)
              && LastStore(s, ops, id).value == (ApplyAll(s, ops[..k]), ops[k].anchor)
    ensures forall j: nat | StoresAt(s, ops, j, id) :: LastStore(s, ops, id).Some? && j <= k
  {
    hide ApplyAll, Stores;
    k := 0;
    if ops != [] {
      var init := ops[..|ops| - 1];
      if Stores(ApplyAll(s, init), ops[|ops| - 1], id) {
        k := |ops| - 1;
      } else {
        k := LastStoreIsLast(s, init, id);
        forall j: nat | StoresAt(s, ops, j, id)
          ensures LastStore(s, ops, id).Some? && j <= k
        {
          assert j < |ops| - 1;
          StoresInInit(s, ops, j, id);
        }
        if LastStore(s, ops, id).Some? {
          StoresInInit(s, ops, k, id);
          assert init[..k] == ops[..k];
        }
      }
    }
  }

  /** One operation replaces the snapshot under `id` exactly when it stores one there. */
  lemma SnapshotStep<C>(s: State<C>, op: Op<C>, id: string)
    ensures Stores(s, op, id) ==>
              id in Apply(s, op).snapshots && Apply(s, op).snapshots[id] == Cut(s, op.anchor)
    ensures !Stores(s, op, id) ==> Holds(Apply(s, op), id) == Holds(s, id)
    ensures s.contents.Keys <= Apply(s, op).contents.Keys
  {
  }

  function Holds<C>(s: State<C>, id: string): Option<Snapshot<C>> {
    if id in s.snapshots then Some(s.snapshots[id]) else None
  }

  /** The snapshot a history leaves under `id` is that of its last store, or the one it began with. */
  lemma {:induction false} SnapshotIsLastStore<C>(s: State<C>, ops: seq<Op<C>>, id: string)
    ensures Holds(ApplyAll(s, ops), id) ==
            match LastStore(s, ops, id)
            case None => Holds(s, id)
            case Some(found) => Some(Cut(found.0, found.1))
    ensures s.contents.Keys <= ApplyAll(s, ops).contents.Keys
  {
    hide Apply, Stores, Cut;
    if ops != [] {
      var init := ops[..|ops| - 1];
      SnapshotIsLastStore(s, init, id);
      SnapshotStep(ApplyAll(s, init), ops[|ops| - 1], id);
    }
  }

  /** Whatever stands in the conversation by now, the operation puts `messages` there and changes no other. */
  ghost predicate Resets<C>(now: State<C>, op: Op<C>, conv: C, messages: seq<Message>) {
    forall m: seq<Message> :: Apply(Set(now, conv, m), op).contents == now.contents[conv := messages]
  }

  function Side<C>(cut: Snapshot<C>, op: Op<C>): seq<Message> {
    if op.RestoreBefore? then cut.before else cut.after
  }

  lemma ResetsBySnapshot<C>(now: State<C>, op: Op<C>, id: string, conv: C, messages: seq<Message>)
    requires op == RestoreBefore(id) || op == RestoreAfter(id)
    ensures Resets(now, op, conv, messages) <==>
            id in now.snapshots && now.snapshots[id].conv == conv && Side(now.snapshots[id], op) == messages
  {
    if Resets(now, op, conv, messages) {
      var other := messages + [Message("")];
      var contents := Apply(Set(now, conv, other), op).contents;
      assert contents == now.contents[conv := messages] && contents[conv] == messages != other;
    }
  }

  /** A rewind can be undone after a history exactly when no later rewind of a live session stored a snapshot
      under its id, or the last one that did cut the same conversation with the same contents; and it can be
      redone exactly when the last one left the same conversation with the same contents. */
  lemma UndoableExactly<C>(s: State<C>, anchor: Anchor, id: string, ops: seq<Op<C>>)
    requires Live(s, anchor)
    ensures var mine := Cut(s, anchor);
            var cut := Apply(s, Rewind(anchor, id));
            var now := ApplyAll(cut, ops);
            var last := LastStore(cut, ops, id);
            && (Resets(now, RestoreBefore(id), mine.conv, mine.before) <==>
                  last.Some? ==> var its := Cut(last.value.0, last.value.1);
                                 its.conv == mine.conv && its.before == mine.before)
            && (Resets(now, RestoreAfter(id), mine.conv, mine.after) <==>
                  last.Some? ==> var its := Cut(last.value.0, last.value.1);
                                 its.conv == mine.conv && its.after == mine.after)
  {
    var mine := Cut(s, anchor);
    var cut := Apply(s, Rewind(anchor, id));
    SnapshotIsLastStore(cut, ops, id);
    ResetsBySnapshot(ApplyAll(cut, ops), RestoreBefore(id), id, mine.conv, mine.before);
    ResetsBySnapshot(ApplyAll(cut, ops), RestoreAfter(id), id, mine.conv, mine.after);
    SnapshotStep(s, Rewind(anchor, id), id);
    hide Apply, ApplyAll, LastStore, Resets, Cut;
  }

  /** Undoing at once takes a rewind back altogether; redoing applies it again. */
  lemma UndoRedo<C>(s: State<C>, anchor: Anchor, id: string)
    requires Live(s, anchor)
    ensures var cut := Apply(s, Rewind(anchor, id));
            && Apply(cut, RestoreBefore(id)).contents == s.contents
            && Apply(Apply(cut, RestoreBefore(id)), RestoreAfter(id)).contents == cut.contents
  {
    RestoreIsExact(s, anchor, id, []);
    var conv := s.live[anchor.session];
    assert s.contents[conv := s.contents[conv]] == s.contents;
  }
}
