/** What a listing tells of every provider beside the items: its standing, and its share of page and mirror. */
module InboxProviders {
  import opened JsText
  import opened InboxFeed

  datatype PollState = PollReady | PollEmpty | Unavailable

  /** What the poller holds of one provider. */
  datatype PollStatus = PollStatus(id: string, state: PollState, polled: bool, configured: Option<bool>,
                                   lastPolledAt: Option<int>, error: Option<string>)

  datatype WireState = Ready | Empty | Unconfigured | Failing | Pending

  datatype WireStatus = WireStatus(provider: string, state: WireState, itemCount: nat, storedCount: nat,
                                   configured: Option<bool>, lastSyncAt: Option<int>, syncing: bool,
                                   error: Option<string>)

  /** A configured provider whose last sync failed. */
  predicate Fails(status: PollStatus) {
    status.polled && status.state.Unavailable? && status.configured != Some(false)
  }

  function StateOf(status: PollStatus, storedCount: nat): WireState {
    if !status.polled then Pending
    else if status.state.Unavailable? then if status.configured == Some(false) then Unconfigured else Failing
    else if storedCount > 0 then Ready else Empty
  }

  function CountAt(counts: map<string, nat>, provider: string): nat {
    if provider in counts then counts[provider] else 0
  }

  /** How many of the items are the provider's. */
  function CountOf(items: seq<Item>, provider: string): (n: nat) {
    if items == [] then 0
    else CountOf(items[..|items| - 1], provider) + if items[|items| - 1].provider == provider then 1 else 0
  }

  method CountByProvider(items: seq<Item>) returns (counts: map<string, nat>)
    ensures forall p :: CountAt(counts, p) == CountOf(items, p)
  {
    counts := map[];
    for i := 0 to |items|
      invariant forall p :: CountAt(counts, p) == CountOf(items[..i], p)
    {
      assert items[..i + 1][..i] == items[..i];
      counts := counts[items[i].provider := CountAt(counts, items[i].provider) + 1];
    }
    assert items[..|items|] == items;
  }

  /** The entry of a provider the node has an adapter for. */
  predicate Tells(w: WireStatus, status: PollStatus, running: set<string>, storedCount: nat, itemCount: nat) {
    && w.provider == status.id && w.storedCount == storedCount && w.itemCount == itemCount
    && (w.syncing <==> status.id in running)
    && w.configured == status.configured && w.lastSyncAt == status.lastPolledAt
    && (w.state.Pending? <==> !status.polled)
    && (w.state.Failing? <==> status.polled && status.state.Unavailable? && status.configured != Some(false))
    && (w.state.Unconfigured? <==> status.polled && status.state.Unavailable? && status.configured == Some(false))
    && (w.state.Ready? <==> status.polled && !status.state.Unavailable? && storedCount > 0)
    && (w.state.Empty? <==> status.polled && !status.state.Unavailable? && storedCount == 0)
    && w.error == if w.state.Failing? then status.error else None
  }

  /** The entry of a requested provider the node has no adapter for. */
  predicate TellsUnknown(w: WireStatus, id: string, storedCount: nat) {
    w == WireStatus(id, Unconfigured, 0, storedCount, Some(false), None, false, None)
  }

  predicate Knows(known: seq<PollStatus>, id: string) {
    exists i :: 0 <= i < |known| && known[i].id == id
  }

  /** `requested.filter((id) => !reported.has(id))` */
  function UnknownOf(known: seq<PollStatus>, requested: seq<string>): (r: seq<string>)
    ensures forall id :: id in r <==> id in requested && !Knows(known, id)
  {
    if requested == [] then []
    else
      var init, last := requested[..|requested| - 1], requested[|requested| - 1];
      assert requested == init + [last];
      UnknownOf(known, init) + if Knows(known, last) then [] else [last]
  }

  method UnknownRequested(known: seq<PollStatus>, requested: seq<string>) returns (unknown: seq<string>)
    ensures unknown == UnknownOf(known, requested)
  {
    var reported := set status | status in known :: status.id;
    unknown := [];
    for i := 0 to |requested|
      invariant unknown == UnknownOf(known, requested[..i])
    {
      assert requested[..i + 1][..i] == requested[..i];
      IdsAreKnown(known, requested[i]);
      if requested[i] !in reported {
        unknown := unknown + [requested[i]];
      }
    }
    assert requested[..|requested|] == requested;
  }

  lemma IdsAreKnown(known: seq<PollStatus>, id: string)
    ensures Knows(known, id) <==> id in set status | status in known :: status.id
  {
    if Knows(known, id) {
      var i :| 0 <= i < |known| && known[i].id == id;
      assert known[i] in known;
    }
  }

  method DescribeProviders(known: seq<PollStatus>, running: set<string>, requested: seq<string>,
                           stored: map<string, nat>, onPage: map<string, nat>) returns (out: seq<WireStatus>)
    ensures var unknown := UnknownOf(known, requested);
            && |out| == |known| + |unknown|
            && (forall i | 0 <= i < |known| ::
                  Tells(out[i], known[i], running, CountAt(stored, known[i].id), CountAt(onPage, known[i].id)))
            && (forall i | 0 <= i < |unknown| ::
                  TellsUnknown(out[|known| + i], unknown[i], CountAt(stored, unknown[i])))
  {
    var unknown := UnknownRequested(known, requested);
    out := [];
    for i := 0 to |known|
      invariant |out| == i
      invariant forall j | 0 <= j < i ::
                  Tells(out[j], known[j], running, CountAt(stored, known[j].id), CountAt(onPage, known[j].id))
    {
      var status := known[i];
      var storedCount := CountAt(stored, status.id);
      var state := StateOf(status, storedCount);
      out := out + [WireStatus(status.id, state, CountAt(onPage, status.id), storedCount, status.configured,
                               status.lastPolledAt, status.id in running,
                               if state.Failing? then status.error else None)];
    }
    for i := 0 to |unknown|
      invariant |out| == |known| + i
      invariant forall j | 0 <= j < |known| ::
                  Tells(out[j], known[j], running, CountAt(stored, known[j].id), CountAt(onPage, known[j].id))
      invariant forall j | 0 <= j < i :: TellsUnknown(out[|known| + j], unknown[j], CountAt(stored, unknown[j]))
    {
      var storedCount := CountAt(stored, unknown[i]);
      out := out + [WireStatus(unknown[i], Unconfigured, 0, storedCount, Some(false), None, false, None)];
    }
  }

  // ----- What the counts account for -----

  function SumOfItems(out: seq<WireStatus>): (n: nat) {
    if out == [] then 0 else SumOfItems(out[..|out| - 1]) + out[|out| - 1].itemCount
  }

  /** The entries of one listing: the known providers with their share of the page, then unknown ones with 0. */
  ghost predicate Accounts(out: seq<WireStatus>, known: seq<PollStatus>, items: seq<Item>) {
    && |known| <= |out|
    && (forall i | 0 <= i < |known| :: out[i].itemCount == CountOf(items, known[i].id))
    && (forall i | |known| <= i < |out| :: out[i].itemCount == 0)
  }

  predicate DistinctIds(known: seq<PollStatus>) {
    forall i, j | 0 <= i < j < |known| :: known[i].id != known[j].id
  }

  /** How many items come from one of the providers. */
  function CountKnown(items: seq<Item>, known: seq<PollStatus>): (n: nat) {
    if items == [] then 0
    else CountKnown(items[..|items| - 1], known) + if Knows(known, items[|items| - 1].provider) then 1 else 0
  }

  lemma {:induction false} OneMoreProvider(items: seq<Item>, known: seq<PollStatus>)
    requires known != [] && DistinctIds(known)
    ensures CountKnown(items, known) ==
            CountKnown(items, known[..|known| - 1]) + CountOf(items, known[|known| - 1].id)
  {
    if items != [] {
      OneMoreProvider(items[..|items| - 1], known);
      var p, init := items[|items| - 1].provider, known[..|known| - 1];
      assert Knows(known, p) <==> Knows(init, p) || known[|known| - 1].id == p;
      assert forall i | 0 <= i < |init| :: known[i].id != known[|known| - 1].id;
    }
  }

  lemma {:induction false} NobodyKnown(items: seq<Item>)
    ensures CountKnown(items, []) == 0
  {
    if items != [] {
      NobodyKnown(items[..|items| - 1]);
    }
  }

  lemma {:induction false} SumIsKnown(out: seq<WireStatus>, known: seq<PollStatus>, items: seq<Item>)
    requires Accounts(out, known, items) && DistinctIds(known)
    ensures SumOfItems(out) == CountKnown(items, known)
  {
    if out == [] {
      assert known == [];
      NobodyKnown(items);
    } else if |known| < |out| {
      SumIsKnown(out[..|out| - 1], known, items);
    } else {
      SumIsKnown(out[..|out| - 1], known[..|known| - 1], items);
      OneMoreProvider(items, known);
    }
  }

  lemma {:induction false} AllKnown(items: seq<Item>, known: seq<PollStatus>)
    ensures CountKnown(items, known) <= |items|
    ensures CountKnown(items, known) == |items| <==> forall x | x in items :: Knows(known, x.provider)
  {
    if items != [] {
      var init, last := items[..|items| - 1], items[|items| - 1];
      AllKnown(init, known);
      assert items == init + [last];
    }
  }

  /** What the item counts of entries add up to. */
  lemma CountsAddUp(out: seq<WireStatus>, known: seq<PollStatus>, items: seq<Item>)
    requires Accounts(out, known, items) && DistinctIds(known)
    ensures SumOfItems(out) <= |items|
    ensures SumOfItems(out) == |items| <==> forall x | x in items :: Knows(known, x.provider)
  {
    SumIsKnown(out, known, items);
    AllKnown(items, known);
  }
}
