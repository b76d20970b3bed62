/** Walking the inbox page by page while other work changes the table between the pages. */
module InboxPaging {
  import opened JsText
  import opened Unicode
  import opened InboxFeed
  import opened InboxStore
  import PageCursor

  /** What a listing keeps fixed from page to page. */
  datatype Filter = Filter(providers: seq<string>, since: Option<Number>, limit: nat)

  datatype Page = Page(items: seq<Item>, last: Option<Key>)

  function QueryAfter(f: Filter, after: Option<Key>): Query {
    Query(f.providers, f.since,
          match after
          case None => None
          case Some(k) => Some(After(Finite(k.receivedAt as real), k.id)))
  }

  /** One page: one row more than the limit is fetched, and tells whether there is a next page. */
  function PageAt(m: Table, f: Filter, after: Option<Key>): Page {
    var fetched := Limit(FeedOrder(Select(m, QueryAfter(f, after))), f.limit + 1);
    var items := if |fetched| > f.limit then fetched[..f.limit] else fetched;
    Page(items, if |fetched| > f.limit && items != [] then Some(KeyOf(items[|items| - 1])) else None)
  }

  /** A key whose receivedAt a JavaScript number holds, from the epoch on, and whose id is not empty. */
  predicate Issuable(k: Key) {
    0 <= k.receivedAt < PageCursor.TWO_53 && k.id.text != []
  }

  function IssueCursor(k: Key): (cursor: JsString)
    requires Issuable(k)
  {
    PageCursor.Encode(k.receivedAt, FromText(k.id.text))
  }

  datatype Resumed = From(after: Option<Key>) | BadCursor

  /** The place a caller's cursor resumes from. */
  function Resume(cursor: Option<JsString>, other: JsString -> Number): Resumed {
    if cursor.None? then From(None)
    else
      match PageCursor.Decode(cursor.value, other)
      case Refused => BadCursor
      case Issued(p) => From(Some(Key(p.receivedAt, RowId(ToText(p.id)))))
  }

  /** A cursor resumes exactly at the row it was issued for. */
  lemma ResumeIssued(k: Key, other: JsString -> Number)
    requires Issuable(k)
    ensures Resume(Some(IssueCursor(k)), other) == From(Some(k))
  {
    FromTextWellFormed(k.id.text);
    PageCursor.RoundTrip(k.receivedAt, FromText(k.id.text), other);
    assert FromText(k.id.text) != [];
  }

  ghost predicate IssuableTable(m: Table) {
    forall k | k in m :: Issuable(KeyOf(m[k]))
  }

  // ----- One page -----

  ghost predicate Behind(after: Option<Key>, k: Key) {
    after.Some? ==> Before(after.value, k)
  }

  /** The rows a page is cut from: the ones behind the cursor, in feed order. */
  lemma PageRows(m: Table, f: Filter, after: Option<Key>) returns (rows: seq<Item>)
    ensures rows == FeedOrder(Select(m, QueryAfter(f, after))) && InFeedOrder(rows)
    ensures forall x | x in rows :: x.id in m && m[x.id] == x && Behind(after, KeyOf(x))
                                    && Selects(Matching(f.providers, f.since), x)
    ensures forall k | k in m && Behind(after, KeyOf(m[k])) && Selects(Matching(f.providers, f.since), m[k]) ::
              m[k] in rows
    ensures PageAt(m, f, after).items == rows[..if |rows| < f.limit then |rows| else f.limit]
    ensures PageAt(m, f, after).last ==
            if |rows| > f.limit > 0 then Some(KeyOf(rows[f.limit - 1])) else None
  {
    hide Before, Selects, FeedOrder;
    var q := QueryAfter(f, after);
    rows := FeedOrder(Select(m, q));
    FeedOrderSorts(Select(m, q));
    forall k | k in m
      ensures Selects(q, m[k]) <==> Behind(after, KeyOf(m[k])) && Selects(Matching(f.providers, f.since), m[k])
    {
      BehindIsSelected(f, after, m[k]);
    }
  }

  lemma BehindIsSelected(f: Filter, after: Option<Key>, x: Item)
    ensures Selects(QueryAfter(f, after), x)
       <==> Behind(after, KeyOf(x)) && Selects(Matching(f.providers, f.since), x)
  {
  }

  // ----- A walk -----

  /** The rows a caller collects who reads a page from each table in turn, handing back every cursor. */
  ghost function Walk(tables: seq<Table>, f: Filter, cursor: Option<JsString>, other: JsString -> Number): seq<Item>
    requires forall m | m in tables :: IssuableTable(m)
  {
    if tables == [] || Resume(cursor, other).BadCursor? then []
    else
      var page := PageAt(tables[0], f, Resume(cursor, other).after);
      page.items + if page.last.None? then [] else
        LastIssuable(tables[0], f, Resume(cursor, other).after);
        Walk(tables[1..], f, Some(IssueCursor(page.last.value)), other)
  }

  /** The walk reached a page that said there is no more. */
  ghost predicate Completes(tables: seq<Table>, f: Filter, cursor: Option<JsString>, other: JsString -> Number)
    requires forall m | m in tables :: IssuableTable(m)
  {
    tables != [] && Resume(cursor, other).From? &&
    var page := PageAt(tables[0], f, Resume(cursor, other).after);
    page.last.Some? ==>
      (LastIssuable(tables[0], f, Resume(cursor, other).after);
       Completes(tables[1..], f, Some(IssueCursor(page.last.value)), other))
  }

  lemma LastIssuable(m: Table, f: Filter, after: Option<Key>)
    requires IssuableTable(m)
    ensures PageAt(m, f, after).last.Some? ==> Issuable(PageAt(m, f, after).last.value)
  {
    var rows := PageRows(m, f, after);
    if |rows| > f.limit > 0 {
      assert rows[f.limit - 1] in rows;
    }
  }

  /** The row is in the table, unmoved, and matches the filter. */
  ghost predicate Holds(m: Table, f: Filter, k: Key) {
    k.id in m && KeyOf(m[k.id]) == k && Selects(Matching(f.providers, f.since), m[k.id])
  }

  ghost predicate Lists(s: seq<Item>, k: Key) {
    exists i :: 0 <= i < |s| && KeyOf(s[i]) == k
  }

  /** A page and rows behind its last one advance together, and stay behind the page's own start. */
  lemma PageThenRest(m: Table, f: Filter, after: Option<Key>, rest: seq<Item>)
    requires PageAt(m, f, after).last.Some? && InFeedOrder(rest)
    requires forall x | x in rest :: Before(PageAt(m, f, after).last.value, KeyOf(x))
    ensures InFeedOrder(PageAt(m, f, after).items + rest)
    ensures forall x | x in PageAt(m, f, after).items + rest :: Behind(after, KeyOf(x))
  {
    hide Before, Selects, PageAt;
    var page := PageAt(m, f, after);
    var rows := PageRows(m, f, after);
    assert page.items[|page.items| - 1] in rows;
    JoinInOrder(page.items, rest);
    forall x | x in page.items + rest
      ensures Behind(after, KeyOf(x))
    {
      if x in page.items {
        assert x in rows;
      } else if after.Some? {
        BeforeTrans(after.value, page.last.value, KeyOf(x));
      }
    }
  }

  lemma PageAdvances(m: Table, f: Filter, after: Option<Key>)
    ensures InFeedOrder(PageAt(m, f, after).items)
    ensures forall x | x in PageAt(m, f, after).items :: Behind(after, KeyOf(x))
  {
    hide Before, Selects, PageAt;
    var rows := PageRows(m, f, after);
  }

  /** Positions strictly advance along the whole walk, whatever happened to the tables between pages. */
  lemma {:induction false} WalkAdvances(tables: seq<Table>, f: Filter, cursor: Option<JsString>,
                                        other: JsString -> Number)
    requires forall m | m in tables :: IssuableTable(m)
    ensures InFeedOrder(Walk(tables, f, cursor, other))
    ensures Resume(cursor, other).From? ==>
            forall x | x in Walk(tables, f, cursor, other) :: Behind(Resume(cursor, other).after, KeyOf(x))
  {
    hide Before, Selects, PageAt, InFeedOrder, Issuable, IssueCursor;
    NothingInOrder();
    if tables != [] && Resume(cursor, other).From? {
      var after := Resume(cursor, other).after;
      var page := PageAt(tables[0], f, after);
      PageAdvances(tables[0], f, after);
      if page.last.Some? {
        LastIssuable(tables[0], f, after);
        ResumeIssued(page.last.value, other);
        var next := Some(IssueCursor(page.last.value));
        WalkAdvances(tables[1..], f, next, other);
        PageThenRest(tables[0], f, after, Walk(tables[1..], f, next, other));
      } else {
        assert page.items + [] == page.items;
      }
    }
  }

  lemma NothingInOrder()
    ensures InFeedOrder([])
  {
  }

  lemma JoinInOrder(a: seq<Item>, b: seq<Item>)
    requires InFeedOrder(a) && InFeedOrder(b) && a != []
    requires forall x | x in b :: Before(KeyOf(a[|a| - 1]), KeyOf(x))
    ensures InFeedOrder(a + b)
  {
    var s := a + b;
    forall i, j | 0 <= i < j < |s|
      ensures Before(KeyOf(s[i]), KeyOf(s[j]))
    {
      if i < |a| <= j {
        assert s[j] in b;
        if i < |a| - 1 {
          BeforeTrans(KeyOf(a[i]), KeyOf(a[|a| - 1]), KeyOf(s[j]));
        }
      }
    }
  }

  /** A row that is behind a page's start is on the page or behind its last row. */
  lemma OnPageOrBehind(m: Table, f: Filter, after: Option<Key>, k: Key)
    requires Holds(m, f, k) && Behind(after, k) && f.limit > 0
    ensures Lists(PageAt(m, f, after).items, k)
         || (PageAt(m, f, after).last.Some? && Before(PageAt(m, f, after).last.value, k))
  {
    var rows := PageRows(m, f, after);
    assert m[k.id] in rows;
    var i :| 0 <= i < |rows| && rows[i] == m[k.id];
    if i < f.limit {
      assert KeyOf(PageAt(m, f, after).items[i]) == k;
    } else {
      assert Before(KeyOf(rows[f.limit - 1]), KeyOf(rows[i]));
    }
  }

  /** A completed walk lists every row that stayed where it was, whatever happened to the others. */
  lemma {:induction false} WalkFinds(tables: seq<Table>, f: Filter, cursor: Option<JsString>,
                                     other: JsString -> Number, k: Key)
    requires forall m | m in tables :: IssuableTable(m)
    requires f.limit > 0 && Completes(tables, f, cursor, other) && Behind(Resume(cursor, other).after, k)
    requires forall m | m in tables :: Holds(m, f, k)
    ensures Lists(Walk(tables, f, cursor, other), k)
  {
    hide Before, Selects, PageAt, Lists, Issuable, IssueCursor;
    var after := Resume(cursor, other).after;
    var page := PageAt(tables[0], f, after);
    OnPageOrBehind(tables[0], f, after, k);
    if Lists(page.items, k) {
      var rest := Walk(tables, f, cursor, other)[|page.items|..];
      assert Walk(tables, f, cursor, other) == page.items + rest;
      ListsEither(page.items, rest, k);
    } else {
      LastIssuable(tables[0], f, after);
      ResumeIssued(page.last.value, other);
      var next := Some(IssueCursor(page.last.value));
      WalkFinds(tables[1..], f, next, other, k);
      ListsEither(page.items, Walk(tables[1..], f, next, other), k);
    }
  }

  lemma ListsEither(a: seq<Item>, b: seq<Item>, k: Key)
    requires Lists(a, k) || Lists(b, k)
    ensures Lists(a + b, k)
  {
    if Lists(a, k) {
      var i :| 0 <= i < |a| && KeyOf(a[i]) == k;
      assert KeyOf((a + b)[i]) == k;
    } else {
      var i :| 0 <= i < |b| && KeyOf(b[i]) == k;
      assert KeyOf((a + b)[|a| + i]) == k;
    }
  }

  /** Paging from the top to the end sees each row that stays in place exactly once. */
  lemma EachRowOnce(tables: seq<Table>, f: Filter, other: JsString -> Number, k: Key)
    requires forall m | m in tables :: IssuableTable(m)
    requires f.limit > 0 && Completes(tables, f, None, other)
    requires forall m | m in tables :: Holds(m, f, k)
    ensures Lists(Walk(tables, f, None, other), k)
    ensures forall i, j | 0 <= i < j < |Walk(tables, f, None, other)| ::
              KeyOf(Walk(tables, f, None, other)[i]) != KeyOf(Walk(tables, f, None, other)[j])
  {
    WalkFinds(tables, f, None, other, k);
    WalkAdvances(tables, f, None, other);
    var w := Walk(tables, f, None, other);
    forall i, j | 0 <= i < j < |w|
      ensures KeyOf(w[i]) != KeyOf(w[j])
    {
      BeforeTotal(KeyOf(w[i]), KeyOf(w[i]));
    }
  }

  /** Nothing is made up: every collected row was in one of the tables and matched the filter. */
  lemma {:induction false} WalkIsReal(tables: seq<Table>, f: Filter, cursor: Option<JsString>,
                                      other: JsString -> Number)
    requires forall m | m in tables :: IssuableTable(m)
    ensures forall x | x in Walk(tables, f, cursor, other) ::
              Selects(Matching(f.providers, f.since), x) && InSome(tables, x)
  {
    hide Before, Selects, PageAt, Issuable, IssueCursor;
    if tables != [] && Resume(cursor, other).From? {
      var after := Resume(cursor, other).after;
      var page := PageAt(tables[0], f, after);
      PageIsReal(tables, f, after);
      if page.last.Some? {
        LastIssuable(tables[0], f, after);
        WalkIsReal(tables[1..], f, Some(IssueCursor(page.last.value)), other);
        forall x | InSome(tables[1..], x)
          ensures InSome(tables, x)
        {
        }
      }
    }
  }

  ghost predicate InSome(tables: seq<Table>, x: Item) {
    exists m :: m in tables && x.id in m && m[x.id] == x
  }

  lemma PageIsReal(tables: seq<Table>, f: Filter, after: Option<Key>)
    requires tables != []
    ensures forall x | x in PageAt(tables[0], f, after).items ::
              Selects(Matching(f.providers, f.since), x) && InSome(tables, x)
  {
    hide Before, Selects, PageAt;
    var rows := PageRows(tables[0], f, after);
    forall x | x in PageAt(tables[0], f, after).items
      ensures x in rows && InSome(tables, x)
    {
      assert tables[0] in tables;
    }
  }

  /** How many matching rows are behind a place. */
  ghost function RowsBehind(m: Table, f: Filter, after: Option<Key>): nat {
    |Select(m, QueryAfter(f, after))|
  }

  lemma TailIsBehind(rows: seq<Item>, n: nat, k: Key)
    requires InFeedOrder(rows) && 0 < n < |rows| && k == KeyOf(rows[n - 1])
    ensures InFeedOrder(rows[n..])
    ensures forall x | x in rows :: x in rows[n..] <==> Before(k, KeyOf(x))
  {
    forall x | x in rows
      ensures x in rows[n..] <==> Before(k, KeyOf(x))
    {
      var i :| 0 <= i < |rows| && rows[i] == x;
      if i >= n {
        assert rows[n..][i - n] == x;
      } else {
        BeforeTotal(KeyOf(x), k);
        assert i < n - 1 ==> Before(KeyOf(rows[i]), KeyOf(rows[n - 1]));
        forall j | n <= j < |rows|
          ensures rows[j] != x
        {
          BeforeTotal(KeyOf(rows[i]), KeyOf(rows[j]));
        }
      }
    }
  }

  /** A page that is not the last leaves as many rows behind it as it did not take. */
  lemma RowsLeft(m: Table, f: Filter, after: Option<Key>)
    requires PageAt(m, f, after).last.Some?
    ensures RowsBehind(m, f, after) > f.limit > 0
    ensures RowsBehind(m, f, PageAt(m, f, after).last) == RowsBehind(m, f, after) - f.limit
  {
    hide Before, Selects, PageAt, InFeedOrder, FeedOrder;
    var rows := PageRows(m, f, after);
    var last := PageAt(m, f, after).last;
    FeedOrderSorts(Select(m, QueryAfter(f, after)));
    TailIsBehind(rows, f.limit, last.value);
    assert rows[f.limit - 1] in rows;
    var rest := Select(m, QueryAfter(f, last));
    forall k | k in m
      ensures k in rest <==> m[k] in rows[f.limit..]
    {
      BehindIsSelected(f, last, m[k]);
      if k in rest && after.Some? {
        BeforeTrans(after.value, last.value, KeyOf(m[k]));
      }
    }
    FeedOrderIsUnique(rest, rows[f.limit..]);
    FeedOrderSorts(rest);
  }

  lemma LastPage(m: Table, f: Filter, after: Option<Key>)
    requires f.limit > 0
    ensures PageAt(m, f, after).last.Some? <==> RowsBehind(m, f, after) > f.limit
  {
    hide PageAt, FeedOrder, Selects;
    var rows := PageRows(m, f, after);
    FeedOrderSorts(Select(m, QueryAfter(f, after)));
  }

  /** How many rows so many full pages hold. */
  function Room(pages: nat, limit: nat): nat {
    pages * limit
  }

  lemma OnePageLess(pages: nat, limit: nat)
    requires pages > 0
    ensures Room(pages, limit) == limit + Room(pages - 1, limit) && Room(0, limit) == 0
  {
  }

  lemma TablesLeft(tables: seq<Table>, m: Table)
    requires tables != [] && forall t | t in tables :: t == m
    ensures tables[0] == m && (forall t | t in tables[1..] :: t == m) && |tables[1..]| == |tables| - 1
  {
    assert tables[0] in tables;
    assert forall t | t in tables[1..] :: t in tables;
  }

  lemma CompletesNowhere(f: Filter, cursor: Option<JsString>, other: JsString -> Number)
    ensures !Completes([], f, cursor, other)
  {
  }

  lemma CompletesStep(tables: seq<Table>, f: Filter, cursor: Option<JsString>, other: JsString -> Number)
    requires tables != [] && Resume(cursor, other).From? && forall m | m in tables :: IssuableTable(m)
    ensures var last := PageAt(tables[0], f, Resume(cursor, other).after).last;
            Completes(tables, f, cursor, other) <==>
            (last.Some? ==> Issuable(last.value) && Completes(tables[1..], f, Some(IssueCursor(last.value)), other))
  {
    LastIssuable(tables[0], f, Resume(cursor, other).after);
  }

  /** Over a table nobody changes, a walk completes exactly when its pages, at least one, hold all the rows
      there are behind its start. */
  lemma {:induction false} QuietWalkCompletes(tables: seq<Table>, f: Filter, cursor: Option<JsString>,
                                              other: JsString -> Number, m: Table)
    requires IssuableTable(m) && f.limit > 0 && (forall t | t in tables :: t == m) && Resume(cursor, other).From?
    ensures Completes(tables, f, cursor, other) <==>
            tables != [] && RowsBehind(m, f, Resume(cursor, other).after) <= Room(|tables|, f.limit)
  {
    hide Before, Selects, PageAt, Issuable, IssuableTable, IssueCursor, RowsBehind, Room, Resume, Completes;
    if tables == [] {
      CompletesNowhere(f, cursor, other);
    } else {
      var after := Resume(cursor, other).after;
      var page := PageAt(m, f, after);
      TablesLeft(tables, m);
      LastPage(m, f, after);
      CompletesStep(tables, f, cursor, other);
      OnePageLess(|tables|, f.limit);
      if page.last.Some? {
        LastIssuable(m, f, after);
        ResumeIssued(page.last.value, other);
        RowsLeft(m, f, after);
        QuietWalkCompletes(tables[1..], f, Some(IssueCursor(page.last.value)), other, m);
      }
    }
  }

  /** Over a table nobody changes, a walk of enough pages is the listing itself. */
  lemma QuietWalkIsListing(tables: seq<Table>, f: Filter, other: JsString -> Number, m: Table)
    requires IssuableTable(m) && f.limit > 0 && forall t | t in tables :: t == m
    requires tables != [] && |Select(m, Matching(f.providers, f.since))| <= Room(|tables|, f.limit)
    ensures Walk(tables, f, None, other) == FeedOrder(Select(m, Matching(f.providers, f.since)))
  {
    QuietWalkCompletes(tables, f, None, other, m);
    var listing := Select(m, Matching(f.providers, f.since));
    WalkAdvances(tables, f, None, other);
    WalkIsReal(tables, f, None, other);
    TablesLeft(tables, m);
    forall k | k in listing
      ensures listing[k] in Walk(tables, f, None, other)
    {
      WalkFinds(tables, f, None, other, KeyOf(m[k]));
      ListedRow(tables, m, f, other, k);
    }
    hide Walk, Selects, Completes;
    FeedOrderIsUnique(listing, Walk(tables, f, None, other));
  }

  lemma ListedRow(tables: seq<Table>, m: Table, f: Filter, other: JsString -> Number, k: RowId)
    requires IssuableTable(m) && (forall t | t in tables :: t == m) && k in m
    requires Lists(Walk(tables, f, None, other), KeyOf(m[k]))
    ensures m[k] in Walk(tables, f, None, other)
  {
    WalkIsReal(tables, f, None, other);
    hide Selects;
    var w := Walk(tables, f, None, other);
    var i :| 0 <= i < |w| && KeyOf(w[i]) == KeyOf(m[k]);
    assert w[i] in w && InSome(tables, w[i]);
  }
}
