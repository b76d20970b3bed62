/** The persistent inbox mirror: reads, upserts, watermarks, retention and the sweep timer. */
module InboxStore {
  import opened JsText
  import opened Lexicographic
  import opened Sizes
  import opened InboxFeed
  import opened InboxUpsert

  datatype After = After(receivedAt: Number, id: RowId)

  /** An empty provider list is no provider filter. */
  datatype Query = Query(providers: seq<string>, since: Option<Number>, after: Option<After>)

  /** The WHERE clause a query builds. */
  predicate Selects(q: Query, item: Item) {
    && (q.providers == [] || item.provider in q.providers)
    && (q.since.Some? && q.since.value.Finite? ==> item.receivedAt > q.since.value.value.Floor)
    && (q.after.Some? && q.after.value.receivedAt.Finite? ==>
          var at := q.after.value.receivedAt.value.Floor;
          item.receivedAt < at || (item.receivedAt == at && Precedes(q.after.value.id.text, item.id.text)))
  }

  function Select(m: Table, q: Query): (r: Table) {
    map k | k in m && Selects(q, m[k]) :: m[k]
  }

  function Matching(providers: seq<string>, since: Option<Number>): Query {
    Query(providers, since, None)
  }

  /** The keyset clause is exactly "later in the feed than the cursor row". */
  lemma AfterIsFeedOrder(providers: seq<string>, since: Option<Number>, receivedAt: real, id: RowId, item: Item)
    ensures Selects(Query(providers, since, Some(After(Finite(receivedAt), id))), item)
       <==> Selects(Matching(providers, since), item) && Before(Key(receivedAt.Floor, id), KeyOf(item))
  {
  }

  datatype SweepSummary = SweepSummary(at: int, expired: int, capped: int, remaining: nat)

  datatype Upserted = Inserted(count: nat) | Threw

  class InboxCursorStore {
    const itemTtlMs: int
    const itemCap: int
    const sweepIntervalMs: int
    var items: Table
    var cursors: map<string, int>
    var dirty: bool
    var closed: bool
    var sweepTimer: bool

    /** A closed store has no timer left that nobody could clear. */
    predicate Valid()
      reads this
    {
      closed ==> !sweepTimer
    }

    constructor (itemTtlMs: int, itemCap: int, sweepIntervalMs: int)
      ensures Valid() && items == map[] && cursors == map[] && !dirty && !closed && !sweepTimer
      ensures this.itemTtlMs == itemTtlMs && this.itemCap == itemCap && this.sweepIntervalMs == sweepIntervalMs
    {
      this.itemTtlMs, this.itemCap, this.sweepIntervalMs := itemTtlMs, itemCap, sweepIntervalMs;
      items, cursors, dirty, closed, sweepTimer := map[], map[], false, false, false;
    }

    // ----- Reads -----

    /** The first `limit` rows in feed order among those the clauses let through. */
    method ListItems(q: Query, limit: int) returns (r: seq<Item>)
      ensures InFeedOrder(r) && forall x | x in r :: x.id in items && items[x.id] == x && Selects(q, x)
      ensures |r| == if limit < 0 then 0 else if |Select(items, q)| < limit then |Select(items, q)| else limit
      ensures forall k, x | k in items && Selects(q, items[k]) && items[k] !in r && x in r ::
                Before(KeyOf(x), KeyOf(items[k]))
    {
      hide Taken, Before, InFeedOrder, Selects;
      ghost var rows := Select(items, q);
      var left := Select(items, q);
      r := [];
      TakesNone(rows);
      while |r| < limit && left != map[]
        invariant Taken(rows, left, r) && (r == [] || |r| <= limit)
        decreases |left|
      {
        TakesNext(rows, left, r);
        var id := First(left);
        r := r + [left[id]];
        left := left - {id};
      }
      TakenEnough(rows, left, r, if limit < 0 then 0 else limit);
    }

    method CountItems(providers: seq<string>, since: Option<Number>) returns (n: nat)
      ensures n == |Select(items, Matching(providers, since))|
    {
      n := |Select(items, Matching(providers, since))|;
    }

    method CountItemsByProvider(providers: seq<string>, since: Option<Number>) returns (out: map<string, nat>)
      ensures forall p | p in out ::
                out[p] == |Select(Select(items, Matching(providers, since)), Matching([p], None))| > 0
      ensures forall k | k in items && Selects(Matching(providers, since), items[k]) :: items[k].provider in out
    {
      var rows := Select(items, Matching(providers, since));
      var names := set k | k in rows :: rows[k].provider;
      out := map p | p in names :: |Select(rows, Matching([p], None))|;
      forall p | p in out
        ensures out[p] > 0
      {
        var k :| k in rows && rows[k].provider == p;
        assert k in Select(rows, Matching([p], None));
      }
    }

    /** The receivedAt at the head of the feed, or 0. */
    method MaxReceivedAt(providers: seq<string>) returns (n: int)
      ensures Select(items, Matching(providers, None)) == map[] ==> n == 0
      ensures forall k | k in Select(items, Matching(providers, None)) :: items[k].receivedAt <= n
      ensures Select(items, Matching(providers, None)) != map[] ==>
              exists k :: k in Select(items, Matching(providers, None)) && items[k].receivedAt == n
    {
      var rows := Select(items, Matching(providers, None));
      if rows == map[] {
        return 0;
      }
      n := rows[First(rows)].receivedAt;
      assert IsFirst(rows, First(rows));
    }

    method GetCursor(provider: string) returns (n: int)
      ensures n == Watermark(cursors, provider)
    {
      n := if provider in cursors then cursors[provider] else 0;
    }

    // ----- Writes -----

    /** The statements of one batch, up to the one that throws, if one does. */
    method RunStatements(batch: seq<Item>, existing: set<RowId>, faultAt: Option<nat>) returns (r: Upserted)
      requires existing == Known(items, batch)
      modifies this`items
      ensures r.Inserted? <==> faultAt.None? || faultAt.value >= |batch|
      ensures r.Inserted? ==> items == PutAll(old(items), batch) && r.count == |items| - |old(items)|
    {
      hide Put, PutAll, Ids, Known;
      PutNone(items);
      ghost var begin := items;
      var inserted := 0;
      var seen: set<RowId> := {};
      for i := 0 to |batch|
        invariant items == PutAll(begin, batch[..i]) && seen == Ids(batch[..i])
        invariant |items| == |begin| + inserted
        invariant faultAt.Some? ==> i <= faultAt.value
      {
        var item := batch[i];
        if item.id !in existing && item.id !in seen {
          inserted := inserted + 1;
        }
        SeenStep(batch, i);
        seen := seen + {item.id};
        if faultAt == Some(i) {
          return Threw;
        }
        PutStep(begin, batch, i, items);
        items := Put(items, item);
      }
      assert batch[..|batch|] == batch;
      return Inserted(inserted);
    }

    /** One poll's items in one transaction. */
    method UpsertItems(batch: seq<Item>, faultAt: Option<nat>) returns (r: Upserted)
      modifies this`items, this`dirty
      ensures r.Inserted? <==> batch == [] || faultAt.None? || faultAt.value >= |batch|
      ensures r.Inserted? ==> items == PutAll(old(items), batch) && r.count == |items| - |old(items)|
      ensures r.Threw? ==> items == old(items) && dirty == old(dirty)
      ensures r.Inserted? ==> dirty == (old(dirty) || batch != [])
    {
      if batch == [] {
        return Inserted(0);
      }
      var begin := items;
      r := RunStatements(batch, Known(items, batch), faultAt);
      if r.Threw? {
        items := begin;
        return;
      }
      dirty := true;
    }

    method AdvanceCursor(provider: string, candidate: Number)
      modifies this`cursors, this`dirty
      ensures Watermark(cursors, provider) >= Watermark(old(cursors), provider)
      ensures candidate.Finite? ==> Watermark(cursors, provider) >= candidate.value.Floor
      ensures Watermark(cursors, provider) == Watermark(old(cursors), provider)
              || (candidate.Finite? && Watermark(cursors, provider) == candidate.value.Floor)
      ensures forall p | p != provider :: Watermark(cursors, p) == Watermark(old(cursors), p)
      ensures cursors != old(cursors) ==> dirty
      ensures dirty == (old(dirty) || (candidate.Finite? && (candidate.value.Floor > Watermark(old(cursors), provider)
                                                             || Watermark(old(cursors), provider) == 0)))
    {
      if candidate.NotFinite? {
        return;
      }
      var current := GetCursor(provider);
      var next := if current < candidate.value.Floor then candidate.value.Floor else current;
      if next == current && current != 0 {
        return;
      }
      cursors := RaiseTo(cursors, provider, next);
      dirty := true;
    }

    // ----- Retention -----

    /** Deletes rows strictly older than `cutoff`, within the providers given (all when none are). */
    method PruneOlderThan(cutoff: Number, providers: seq<string>) returns (removed: int)
      modifies this`items, this`dirty
      ensures forall k | k in old(items) ::
                k in items <==> cutoff.NotFinite? || old(items)[k].receivedAt >= cutoff.value.Floor
                                || (providers != [] && old(items)[k].provider !in providers)
      ensures items.Keys <= old(items).Keys && forall k | k in items :: items[k] == old(items)[k]
      ensures removed == |old(items)| - |items| && dirty == (old(dirty) || removed > 0)
    {
      if cutoff.NotFinite? {
        return 0;
      }
      var before := CountItems(providers, None);
      var at := cutoff.value.Floor;
      var m := items;
      items := map k | k in m && !(m[k].receivedAt < at && Selects(Matching(providers, None), m[k])) :: m[k];
      var after := CountItems(providers, None);
      removed := before as int - after;
      PrunedCount(m, items, Matching(providers, None));
      if removed > 0 {
        dirty := true;
      }
    }

    method EnforceItemCap() returns (removed: int)
      modifies this`items, this`dirty
      ensures items == Newest(old(items), itemCap)
      ensures removed == |old(items)| - |items| >= 0 && dirty == (old(dirty) || removed > 0)
    {
      AllRows(items);
      NewestSize(items, itemCap);
      var before := CountItems([], None);
      if before <= itemCap {
        return 0;
      }
      items := Newest(items, itemCap);
      AllRows(items);
      var after := CountItems([], None);
      removed := before as int - after;
      if removed > 0 {
        dirty := true;
      }
    }

    /** One retention pass at time `at`. */
    method SweepRetention(at: int) returns (r: SweepSummary)
      modifies this`items, this`dirty
      ensures items == Swept(old(items), at - itemTtlMs, itemCap)
      ensures r.at == at && r.remaining == |items| && r.expired >= 0 && r.capped >= 0
      ensures r.expired == |old(items)| - |Unexpired(old(items), at - itemTtlMs)|
      ensures |old(items)| == r.expired + r.capped + r.remaining
      ensures dirty == (old(dirty) || r.expired + r.capped > 0)
    {
      var expired := PruneOlderThan(Finite((at - itemTtlMs) as real), []);
      assert items == Unexpired(old(items), at - itemTtlMs);
      var capped := EnforceItemCap();
      AllRows(items);
      var remaining := CountItems([], None);
      SubsetSize(Unexpired(old(items), at - itemTtlMs).Keys, old(items).Keys);
      r := SweepSummary(at, expired, capped, remaining);
    }

    // ----- The timer's life -----

    /** The last step of `init()`, which two awaits separate from its first. */
    method StartSweepTimer()
      requires Valid()
      modifies this`sweepTimer
      ensures Valid() && sweepTimer == (old(sweepTimer) || (!closed && sweepIntervalMs > 0))
    {
      if closed || sweepTimer || sweepIntervalMs <= 0 {
        return;
      }
      sweepTimer := true;
    }

    /** Persists what changed since the last flush; `saves` is whether the write succeeds. */
    method Flush(saves: bool) returns (ok: bool)
      modifies this`dirty
      ensures ok == (saves || !old(dirty)) && dirty == (old(dirty) && !saves)
    {
      if !dirty {
        return true;
      }
      if saves {
        dirty := false;
      }
      return saves;
    }

    /** Whenever it comes, also while `init()` is still in flight: no timer is or can be left behind. */
    method Close(saves: bool)
      requires Valid()
      modifies this`closed, this`sweepTimer, this`dirty
      ensures Valid() && closed && !sweepTimer
      ensures dirty == (old(dirty) && (old(closed) || !saves))
    {
      if closed {
        return;
      }
      closed := true;
      sweepTimer := false;
      var _ := Flush(saves);
    }
  }

  function Watermark(cursors: map<string, int>, provider: string): int {
    if provider in cursors then cursors[provider] else 0
  }

  /** INSERT ... ON CONFLICT(provider) DO UPDATE SET nextSince = MAX(old, new). */
  function RaiseTo(cursors: map<string, int>, provider: string, next: int): (r: map<string, int>) {
    cursors[provider := if provider in cursors && next < cursors[provider] then cursors[provider] else next]
  }

  /** SELECT id FROM items WHERE id IN (the batch's ids). */
  function Known(m: Table, batch: seq<Item>): set<RowId> {
    set item | item in batch && item.id in m :: item.id
  }

  lemma KnownIds(m: Table, batch: seq<Item>, item: Item)
    requires item in batch
    ensures item.id in Known(m, batch) <==> item.id in m
  {
  }

  lemma PutNone(m: Table)
    ensures PutAll(m, []) == m && Ids([]) == {}
  {
  }

  /** One statement: the row is new exactly when neither the probe nor the batch so far named its id. */
  lemma PutStep(begin: Table, batch: seq<Item>, i: nat, m: Table)
    requires i < |batch| && m == PutAll(begin, batch[..i])
    ensures Put(m, batch[i]) == PutAll(begin, batch[..i + 1])
    ensures |Put(m, batch[i])| == |m| +
            if batch[i].id !in Known(begin, batch) && batch[i].id !in Ids(batch[..i]) then 1 else 0
  {
    PutAllKeys(begin, batch[..i]);
    KnownIds(begin, batch, batch[i]);
    PutNext(begin, batch, i);
    PutSize(m, batch[i]);
  }

  lemma SeenStep(batch: seq<Item>, i: nat)
    requires i < |batch|
    ensures Ids(batch[..i + 1]) == Ids(batch[..i]) + {batch[i].id}
  {
  }

  lemma PutNext(m: Table, batch: seq<Item>, i: nat)
    requires i < |batch|
    ensures PutAll(m, batch[..i + 1]) == Put(PutAll(m, batch[..i]), batch[i])
    ensures Ids(batch[..i + 1]) == Ids(batch[..i]) + {batch[i].id}
  {
    assert batch[..i + 1][..i] == batch[..i];
    IdsGrow(batch[..i + 1]);
  }

  lemma PutSize(m: Table, item: Item)
    ensures |Put(m, item)| == |m| + if item.id in m then 0 else 1
  {
  }

  lemma AllRows(m: Table)
    ensures Select(m, Matching([], None)) == m
  {
  }

  lemma NewestSize(m: Table, cap: int)
    ensures |m| <= cap ==> Newest(m, cap) == m
    ensures |Newest(m, cap)| <= |m|
  {
    FeedOrderSorts(m);
    SubsetSize(Newest(m, cap).Keys, m.Keys);
  }

  /** The rows a scoped delete removed, counted within its scope, are the rows the table lost. */
  lemma PrunedCount(m: Table, r: Table, scope: Query)
    requires r.Keys <= m.Keys && forall k | k in r :: r[k] == m[k]
    requires forall k | k in m && k !in r :: Selects(scope, m[k])
    ensures |Select(m, scope)| - |Select(r, scope)| == |m| - |r| >= 0
  {
    hide Selects;
    var gone := m.Keys - r.Keys;
    assert |m| == |r| + |gone| by {
      SplitSize(m.Keys, r.Keys, gone);
    }
    assert |Select(m, scope)| == |Select(r, scope)| + |gone| by {
      PrunedScope(m, r, scope);
      SplitSize(Select(m, scope).Keys, Select(r, scope).Keys, gone);
    }
  }

  lemma PrunedScope(m: Table, r: Table, scope: Query)
    requires r.Keys <= m.Keys && forall k | k in r :: r[k] == m[k]
    requires forall k | k in m && k !in r :: Selects(scope, m[k])
    ensures Select(m, scope).Keys == Select(r, scope).Keys + (m.Keys - r.Keys)
  {
  }
}
