/** What a batch of polled items does to the mirror. */
module InboxUpsert {
  import opened JsText
  import opened InboxFeed

  function Coalesce(a: Option<string>, b: Option<string>): Option<string> {
    if a.Some? then a else b
  }

  /** INSERT ... ON CONFLICT(id) DO UPDATE: everything is overwritten but a route that is not restated. */
  function Put(m: Table, item: Item): (r: Table) {
    m[item.id := item.(routeId := Coalesce(item.routeId, if item.id in m then m[item.id].routeId else None))]
  }

  /** The statements of one batch, left to right. */
  function PutAll(m: Table, batch: seq<Item>): (r: Table) {
    if batch == [] then m else Put(PutAll(m, batch[..|batch| - 1]), batch[|batch| - 1])
  }

  function Ids(batch: seq<Item>): set<RowId> {
    set item | item in batch :: item.id
  }

  /** The last item of the batch with this id. */
  function LastOf(batch: seq<Item>, id: RowId): (item: Item)
    requires id in Ids(batch)
    ensures item in batch && item.id == id
  {
    var last := batch[|batch| - 1];
    if last.id == id then last
    else
      assert batch == batch[..|batch| - 1] + [last];
      LastOf(batch[..|batch| - 1], id)
  }

  /** The last route the batch states for this id, or else the one it had. */
  function LastRoute(batch: seq<Item>, id: RowId, had: Option<string>): Option<string> {
    if batch == [] then had
    else
      var last := batch[|batch| - 1];
      if last.id == id && last.routeId.Some? then last.routeId
      else LastRoute(batch[..|batch| - 1], id, had)
  }

  ghost function RouteIn(m: Table, id: RowId): Option<string> {
    if id in m then m[id].routeId else None
  }

  /** A batch row by row: untouched rows stay, touched rows hold the last item's fields and the last
      route that was ever stated. */
  lemma {:induction false} PutAllRow(m: Table, batch: seq<Item>, id: RowId)
    ensures id in PutAll(m, batch) <==> id in m || id in Ids(batch)
    ensures id !in Ids(batch) && id in m ==> PutAll(m, batch)[id] == m[id]
    ensures id in Ids(batch) ==>
            PutAll(m, batch)[id] == LastOf(batch, id).(routeId := LastRoute(batch, id, RouteIn(m, id)))
    ensures RouteIn(PutAll(m, batch), id) == LastRoute(batch, id, RouteIn(m, id))
  {
    if batch != [] {
      var init, last := batch[..|batch| - 1], batch[|batch| - 1];
      IdsGrow(batch);
      PutAllRow(m, init, id);
      hide Ids;
      var before := PutAll(m, init);
      if last.id != id {
        assert id in PutAll(m, batch) <==> id in before;
      }
    }
  }

  lemma IdsGrow(batch: seq<Item>)
    requires batch != []
    ensures Ids(batch) == Ids(batch[..|batch| - 1]) + {batch[|batch| - 1].id}
  {
  }

  lemma {:induction false} RouteSettles(batch: seq<Item>, id: RowId, had: Option<string>)
    ensures LastRoute(batch, id, LastRoute(batch, id, had)) == LastRoute(batch, id, had)
  {
    if batch != [] {
      var init, last := batch[..|batch| - 1], batch[|batch| - 1];
      if !(last.id == id && last.routeId.Some?) {
        RouteSettles(init, id, had);
      }
    }
  }

  /** Delivering the same batch again changes nothing. */
  lemma PutAllTwice(m: Table, batch: seq<Item>)
    ensures PutAll(PutAll(m, batch), batch) == PutAll(m, batch)
  {
    var once := PutAll(m, batch);
    forall id
      ensures id in PutAll(once, batch) <==> id in once
      ensures id in once ==> PutAll(once, batch)[id] == once[id]
    {
      PutAllRow(m, batch, id);
      PutAllRow(once, batch, id);
      RouteSettles(batch, id, RouteIn(m, id));
    }
  }

  lemma {:induction false} PutAllKeys(m: Table, batch: seq<Item>)
    ensures PutAll(m, batch).Keys == m.Keys + Ids(batch)
  {
    forall id
      ensures id in PutAll(m, batch) <==> id in m || id in Ids(batch)
    {
      PutAllRow(m, batch, id);
    }
  }
}
