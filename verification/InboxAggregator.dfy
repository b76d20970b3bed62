/** The listing verb over the mirror: its bounds, its page and its two cursors. */
module InboxAggregator {
  import opened JsText
  import opened InboxFeed
  import opened InboxStore
  import opened InboxPaging
  import opened InboxProviders
  import Decimal
  import PageCursor

  const DEFAULT_LIMIT: nat := 50
  const MAX_LIMIT: nat := 500

  datatype WireItem = WireItem(id: RowId, provider: string, kind: Kind, sender: string, subject: Option<string>,
                               bodyPreview: string, receivedAt: int, unread: bool, routeId: Option<string>)

  datatype Answer = Answer(items: seq<WireItem>, total: nat, truncated: bool, hasMore: bool,
                           cursor: Option<JsString>, nextCursor: Option<JsString>,
                           providers: seq<WireStatus>, partial: bool)

  /** One source of parameters.  A number that is missing or an empty string is None. */
  datatype Params = Params(provider: Option<string>, limit: Option<Number>, since: Option<Number>,
                           cursor: Option<JsString>)

  /** The first candidate that is not empty. */
  function FirstString<T(==)>(a: Option<seq<T>>, b: Option<seq<T>>): (r: Option<seq<T>>)
    ensures r.Some? ==> r.value != [] && (r == a || r == b)
    ensures r.None? ==> (a.Some? ==> a.value == []) && (b.Some? ==> b.value == [])
    ensures a.Some? && a.value != [] ==> r == a
  {
    if a.Some? && a.value != [] then a else if b.Some? && b.value != [] then b else None
  }

  /** The first candidate that is a finite number. */
  function FirstNumber(a: Option<Number>, b: Option<Number>): (r: Option<real>)
    ensures r.Some? ==> a == Some(Finite(r.value)) || b == Some(Finite(r.value))
    ensures r.None? ==> (a.Some? ==> a.value.NotFinite?) && (b.Some? ==> b.value.NotFinite?)
    ensures a.Some? && a.value.Finite? ==> r == Some(a.value.value)
  {
    if a.Some? && a.value.Finite? then Some(a.value.value)
    else if b.Some? && b.value.Finite? then Some(b.value.value)
    else None
  }

  function Distance(a: int, b: int): int {
    if a < b then b - a else a - b
  }

  /** The page size nearest to the one asked for that is allowed. */
  function PageSize(asked: Option<real>): (n: nat)
    ensures 1 <= n <= 500 && (asked.None? ==> n == 50)
    ensures asked.Some? ==>
              forall k | 1 <= k <= 500 :: Distance(n, asked.value.Floor) <= Distance(k, asked.value.Floor)
  {
    if asked.None? then DEFAULT_LIMIT
    else if asked.value.Floor < 1 then 1
    else if asked.value.Floor > MAX_LIMIT then MAX_LIMIT
    else asked.value.Floor
  }

  /** The listing asked for, query string before body: the page size nearest to the one asked for that is
      allowed, and the place the cursor names.  It is refused exactly for a non-empty cursor that does not
      decode. */
  function NormalizeQuery(query: Params, body: Params, other: JsString -> Number): (r: Option<(Filter, Option<Key>)>)
    ensures var cursor := FirstString(query.cursor, body.cursor);
            && (r.None? <==> cursor.Some? && Resume(cursor, other).BadCursor?)
            && (r.Some? ==> Resume(cursor, other) == From(r.value.1) && (cursor.None? ==> r.value.1.None?))
    ensures r.Some? ==>
              var limit := FirstNumber(query.limit, body.limit);
              && 1 <= r.value.0.limit <= 500 && (limit.None? ==> r.value.0.limit == 50)
              && (limit.Some? ==> forall n | 1 <= n <= 500 ::
                    Distance(r.value.0.limit, limit.value.Floor) <= Distance(n, limit.value.Floor))
    ensures r.Some? ==>
              forall x: Item :: Selects(Matching(r.value.0.providers, r.value.0.since), x) <==>
                var provider := FirstString(query.provider, body.provider);
                var since := FirstNumber(query.since, body.since);
                && (provider.Some? ==> x.provider == provider.value)
                && (since.Some? && since.value >= 0.0 ==> x.receivedAt as real > since.value)
  {
    var provider := FirstString(query.provider, body.provider);
    var limit := FirstNumber(query.limit, body.limit);
    var since := FirstNumber(query.since, body.since);
    var n := PageSize(limit);
    var newer := if since.Some? && since.value >= 0.0 then Some(Finite(since.value.Floor as real)) else None;
    match Resume(FirstString(query.cursor, body.cursor), other)
    case BadCursor => None
    case From(place) => Some((Filter(if provider.Some? then [provider.value] else [], newer, n), place))
  }

  function ToWireItem(item: Item): WireItem {
    WireItem(item.id, item.provider, item.kind, item.fromDigest,
             if item.subjectPreview == "" then None else Some(item.subjectPreview),
             item.bodyPreview, item.receivedAt, item.unread, item.routeId)
  }

  function ToWireItems(items: seq<Item>): (r: seq<WireItem>)
    ensures Shows(r, items)
  {
    seq(|items|, i requires 0 <= i < |items| => ToWireItem(items[i]))
  }

  /** A page as a client reads it, row by row and field by field: the sender as its digest only, the subject
      where there is one. */
  predicate Shows(wire: seq<WireItem>, items: seq<Item>) {
    && |wire| == |items|
    && forall i | 0 <= i < |wire| ::
         var w, x := wire[i], items[i];
         && w.id == x.id && w.provider == x.provider && w.kind == x.kind && w.sender == x.fromDigest
         && w.subject == (if x.subjectPreview != "" then Some(x.subjectPreview) else None)
         && w.bodyPreview == x.bodyPreview && w.receivedAt == x.receivedAt && w.unread == x.unread
         && w.routeId == x.routeId
  }

  /** Fetching one row more than the page tells exactly whether the store holds more. */
  lemma FetchIsPage(m: Table, f: Filter, after: Option<Key>)
    ensures var fetched := Limit(FeedOrder(Select(m, QueryAfter(f, after))), f.limit + 1);
            var items := if |fetched| > f.limit then fetched[..f.limit] else fetched;
            && (|fetched| > f.limit <==> |Select(m, QueryAfter(f, after))| > f.limit)
            && PageAt(m, f, after) == Page(items,
                 if |fetched| > f.limit && items != [] then Some(KeyOf(items[|items| - 1])) else None)
  {
    hide Select, FeedOrder;
    FeedOrderSize(Select(m, QueryAfter(f, after)));
  }

  lemma {:induction false} FeedOrderSize(m: Table)
    ensures |FeedOrder(m)| == |m|
  {
    FeedOrderSorts(m);
  }

  /** The greatest receivedAt among the rows, or 0 when there are none. */
  ghost predicate IsGreatest(m: Table, n: int) {
    && (forall k | k in m :: m[k].receivedAt <= n)
    && (if m == map[] then n == 0 else exists k :: k in m && m[k].receivedAt == n)
  }

  /** The later of `since` and the greatest receivedAt. */
  function NextSince(since: Option<Number>, greatest: int): int {
    var from := if since.Some? && since.value.Finite? then since.value.value.Floor else 0;
    if from < greatest then greatest else from
  }

  /** `String(n)`: whole numbers a JavaScript number holds exactly are printed plainly, others by `large`. */
  function PrintNumber(n: nat, large: nat -> JsString): JsString {
    if n < PageCursor.TWO_53 then Decimal.Print(n) else large(n)
  }

  /** The watermark a client feeds back as `since`. */
  function FreshCursor(since: Option<Number>, greatest: int, large: nat -> JsString): Option<JsString> {
    if NextSince(since, greatest) > 0 then Some(PrintNumber(NextSince(since, greatest), large)) else None
  }

  /** There is a watermark exactly when `since` or a row is after the epoch; it names the later of the two. */
  ghost predicate Freshens(cursor: Option<JsString>, since: Option<Number>, greatest: int, large: nat -> JsString) {
    && (cursor.Some? <==> greatest > 0 || (since.Some? && since.value.Finite? && since.value.value.Floor > 0))
    && (cursor.Some? ==>
          exists n: nat :: cursor.value == PrintNumber(n, large) && n >= greatest
            && (since.Some? && since.value.Finite? ==> n >= since.value.value.Floor)
            && (n == greatest || (since.Some? && since.value.Finite? && n == since.value.value.Floor)))
  }

  lemma FreshCursorFreshens(since: Option<Number>, greatest: int, large: nat -> JsString)
    ensures Freshens(FreshCursor(since, greatest, large), since, greatest, large)
  {
    if NextSince(since, greatest) > 0 {
      var n: nat := NextSince(since, greatest);
      assert FreshCursor(since, greatest, large).value == PrintNumber(n, large);
    }
  }

  ghost function StoredCount(m: Table, f: Filter, provider: string): nat {
    |Select(Select(m, Matching(f.providers, f.since)), Matching([provider], None))|
  }

  /** One entry for each provider the poller knows, in its order, then one for each requested one it does not. */
  ghost predicate Describes(out: seq<WireStatus>, known: seq<PollStatus>, running: set<string>, m: Table, f: Filter,
                            onPage: seq<Item>)
  {
    var unknown := UnknownOf(known, f.providers);
    && |out| == |known| + |unknown|
    && (forall i | 0 <= i < |known| ::
          Tells(out[i], known[i], running, StoredCount(m, f, known[i].id), CountOf(onPage, known[i].id)))
    && (forall i | 0 <= i < |unknown| ::
          TellsUnknown(out[|known| + i], unknown[i], StoredCount(m, f, unknown[i])))
  }

  /** What the store's counts by provider are, absent providers included. */
  lemma CountsAreStored(m: Table, f: Filter, counts: map<string, nat>, p: string)
    requires p in counts ==> counts[p] == StoredCount(m, f, p)
    requires forall k | k in m && Selects(Matching(f.providers, f.since), m[k]) :: m[k].provider in counts
    ensures CountAt(counts, p) == StoredCount(m, f, p)
  {
    if p !in counts {
      assert Select(Select(m, Matching(f.providers, f.since)), Matching([p], None)) == map[];
    }
  }

  lemma UnknownEntry(out: seq<WireStatus>, known: seq<PollStatus>, running: set<string>, m: Table, f: Filter,
                     onPage: seq<Item>, i: nat)
    requires Describes(out, known, running, m, f, onPage) && |known| + i < |out|
    ensures out[|known| + i].itemCount == 0 && out[|known| + i].state.Unconfigured?
  {
    hide Tells, StoredCount;
    var unknown := UnknownOf(known, f.providers);
    assert TellsUnknown(out[|known| + i], unknown[i], StoredCount(m, f, unknown[i]));
  }

  /** The item counts of a listing never exceed the page, and add up to it exactly when the node has an adapter for
      every provider on the page. */
  lemma ListingAccounts(out: seq<WireStatus>, known: seq<PollStatus>, running: set<string>, m: Table, f: Filter,
                        onPage: seq<Item>)
    requires Describes(out, known, running, m, f, onPage) && DistinctIds(known)
    ensures SumOfItems(out) <= |onPage|
    ensures SumOfItems(out) == |onPage| <==> forall x | x in onPage :: Knows(known, x.provider)
  {
    forall i | |known| <= i < |out|
      ensures out[i].itemCount == 0
    {
      UnknownEntry(out, known, running, m, f, onPage, i - |known|);
    }
    CountsAddUp(out, known, onPage);
  }

  /** Every provider that was asked for is told of. */
  lemma NoProviderMissing(out: seq<WireStatus>, known: seq<PollStatus>, running: set<string>, m: Table, f: Filter,
                          onPage: seq<Item>, id: string)
    requires Describes(out, known, running, m, f, onPage) && (Knows(known, id) || id in f.providers)
    ensures exists i :: 0 <= i < |out| && out[i].provider == id
  {
    if Knows(known, id) {
      var i :| 0 <= i < |known| && known[i].id == id;
      assert out[i].provider == id;
    } else {
      var unknown := UnknownOf(known, f.providers);
      assert id in unknown;
      var i :| 0 <= i < |unknown| && unknown[i] == id;
      assert out[|known| + i].provider == id;
    }
  }

  predicate AnyFailing(out: seq<WireStatus>) {
    exists i :: 0 <= i < |out| && out[i].state.Failing?
  }

  lemma PartialIsFailure(out: seq<WireStatus>, known: seq<PollStatus>, running: set<string>, m: Table, f: Filter,
                         onPage: seq<Item>)
    requires Describes(out, known, running, m, f, onPage)
    ensures AnyFailing(out) <==> exists status :: status in known && Fails(status)
  {
    if AnyFailing(out) {
      var i :| 0 <= i < |out| && out[i].state.Failing?;
      if i >= |known| {
        UnknownEntry(out, known, running, m, f, onPage, i - |known|);
      }
      assert Tells(out[i], known[i], running, StoredCount(m, f, known[i].id), CountOf(onPage, known[i].id));
      assert known[i] in known;
    }
    if status :| status in known && Fails(status) {
      var i :| 0 <= i < |known| && known[i] == status;
      assert out[i].state.Failing?;
    }
  }

  /** The poller's answers are `known`, for the providers asked for, and `running`. */
  method AggregateInbox(store: InboxCursorStore, known: seq<PollStatus>, running: set<string>, f: Filter,
                        after: Option<Key>, large: nat -> JsString) returns (out: Answer)
    requires IssuableTable(store.items) && f.limit > 0
    ensures Shows(out.items, PageAt(store.items, f, after).items)
    ensures out.truncated == out.hasMore == (|Select(store.items, QueryAfter(f, after))| > f.limit)
    ensures out.total == |Select(store.items, Matching(f.providers, f.since))|
    ensures out.hasMore <==> out.nextCursor.Some?
    ensures out.hasMore ==> forall other :: Resume(out.nextCursor, other) == From(PageAt(store.items, f, after).last)
    ensures exists n :: IsGreatest(Select(store.items, Matching(f.providers, None)), n)
                        && Freshens(out.cursor, f.since, n, large)
    ensures Describes(out.providers, known, running, store.items, f, PageAt(store.items, f, after).items)
    ensures out.partial <==> exists status :: status in known && Fails(status)
  {
    hide Select, PageAt, FeedOrder, Limit, IssueCursor, IssuableTable, Issuable, Resume, Decimal.Print;
    hide Before, Selects, InFeedOrder, FreshCursor, IsGreatest, Shows, Describes, Freshens;
    var q := QueryAfter(f, after);
    var fetched := store.ListItems(q, f.limit + 1);
    ListingIsHead(store.items, q, f.limit + 1, fetched);
    var hasMore := |fetched| > f.limit;
    var pageItems := if hasMore then fetched[..f.limit] else fetched;
    var total := store.CountItems(f.providers, f.since);
    var stored := store.CountItemsByProvider(f.providers, f.since);
    var statuses := Statuses(known, running, store.items, f, stored, pageItems);
    PartialIsFailure(statuses, known, running, store.items, f, pageItems);
    var watermark := store.MaxReceivedAt(f.providers);
    FetchIsPage(store.items, f, after);
    LastIssuable(store.items, f, after);
    WatermarkIsGreatest(store.items, Matching(f.providers, None), watermark);
    FreshCursorFreshens(f.since, watermark, large);
    var nextCursor := None;
    if hasMore && pageItems != [] {
      var last := KeyOf(pageItems[|pageItems| - 1]);
      nextCursor := Some(IssueCursor(last));
      forall other
        ensures Resume(nextCursor, other) == From(Some(last))
      {
        ResumeIssued(last, other);
      }
    }
    out := Answer(ToWireItems(pageItems), total, hasMore, hasMore, FreshCursor(f.since, watermark, large), nextCursor,
                  statuses, AnyFailing(statuses));
  }

  method Statuses(known: seq<PollStatus>, running: set<string>, ghost m: Table, f: Filter, stored: map<string, nat>,
                  onPage: seq<Item>) returns (out: seq<WireStatus>)
    requires forall p | p in stored :: stored[p] == StoredCount(m, f, p)
    requires forall k | k in m && Selects(Matching(f.providers, f.since), m[k]) :: m[k].provider in stored
    ensures Describes(out, known, running, m, f, onPage)
  {
    hide Select, Selects, Tells, TellsUnknown;
    var counts := CountByProvider(onPage);
    out := DescribeProviders(known, running, f.providers, stored, counts);
    forall p
      ensures CountAt(stored, p) == StoredCount(m, f, p)
    {
      CountsAreStored(m, f, stored, p);
    }
  }

  /** What the store lists is the head of the matching feed. */
  lemma ListingIsHead(items: Table, q: Query, n: nat, r: seq<Item>)
    requires InFeedOrder(r) && forall x | x in r :: x.id in items && items[x.id] == x && Selects(q, x)
    requires |r| == if |Select(items, q)| < n then |Select(items, q)| else n
    requires forall k, x | k in items && Selects(q, items[k]) && items[k] !in r && x in r ::
               Before(KeyOf(x), KeyOf(items[k]))
    ensures r == Limit(FeedOrder(Select(items, q)), n)
  {
    hide Before, Selects, InFeedOrder;
    FirstRowsAreHead(Select(items, q), n, r);
  }

  lemma WatermarkIsGreatest(items: Table, q: Query, n: int)
    requires Select(items, q) == map[] ==> n == 0
    requires forall k | k in Select(items, q) :: items[k].receivedAt <= n
    requires Select(items, q) != map[] ==> exists k :: k in Select(items, q) && items[k].receivedAt == n
    ensures IsGreatest(Select(items, q), n)
  {
  }

  /** Fed back as `since`, the freshness cursor selects exactly what this listing would and what arrived after
      everything it knew of; so none of the rows it knew of. */
  lemma FreshCursorSkipsTheKnown(m: Table, f: Filter, n: int, x: Item, large: nat -> JsString)
    requires IsGreatest(Select(m, Matching(f.providers, None)), n) && 0 < NextSince(f.since, n) < PageCursor.TWO_53
    ensures FreshCursor(f.since, n, large).Some? && Decimal.AllDigits(FreshCursor(f.since, n, large).value)
    ensures var later := Some(Finite(Decimal.Value(FreshCursor(f.since, n, large).value) as real));
            && (Selects(Matching(f.providers, later), x) <==>
                  Selects(Matching(f.providers, f.since), x) && x.receivedAt > n)
            && (x.id in m && m[x.id] == x ==> !Selects(Matching(f.providers, later), x))
  {
    Decimal.ValueOfPrint(NextSince(f.since, n));
    if x.id in m && m[x.id] == x && Selects(Matching(f.providers, None), x) {
      assert x.id in Select(m, Matching(f.providers, None));
    }
  }
}
