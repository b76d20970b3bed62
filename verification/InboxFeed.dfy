/** The inbox mirror's rows, their feed order, and what upserts and retention do to a table. */
module InboxFeed {
  import opened JsText
  import opened Lexicographic
  import opened Sizes
  import opened Unicode

  /** A primary key: text as stored. */
  datatype RowId = RowId(text: Text)

  datatype Kind = Dm | Thread | Mention | Reaction

  datatype Item = Item(id: RowId, provider: string, kind: Kind, fromDigest: string, subjectPreview: string,
                       bodyPreview: string, routeId: Option<string>, receivedAt: int, unread: bool)

  /** A place in the feed's total order. */
  datatype Key = Key(receivedAt: int, id: RowId)

  function KeyOf(item: Item): Key {
    Key(item.receivedAt, item.id)
  }

  /** Newest first; rows received together by ascending id. */
  predicate Before(a: Key, b: Key) {
    a.receivedAt > b.receivedAt || (a.receivedAt == b.receivedAt && Precedes(a.id.text, b.id.text))
  }

  lemma BeforeTotal(a: Key, b: Key)
    ensures a == b || Before(a, b) || Before(b, a)
    ensures !(Before(a, b) && Before(b, a)) && !Before(a, a)
  {
    PrecedesTotal(a.id.text, b.id.text);
  }

  lemma BeforeTrans(a: Key, b: Key, c: Key)
    requires Before(a, b) && Before(b, c)
    ensures Before(a, c)
  {
    if a.receivedAt == b.receivedAt == c.receivedAt {
      PrecedesTrans(a.id.text, b.id.text, c.id.text);
    }
  }

  /** Rows by primary key. */
  type Table = m: map<RowId, Item> | forall k | k in m :: m[k].id == k

  // ----- ORDER BY receivedAt DESC, id ASC -----

  predicate IsFirst(m: Table, id: RowId) {
    id in m && forall k | k in m :: k == id || Before(KeyOf(m[id]), KeyOf(m[k]))
  }

  lemma {:induction false} FirstExists(m: Table)
    requires m != map[]
    ensures exists id :: IsFirst(m, id)
    decreases |m|
  {
    var x :| x in m;
    var rest: Table := m - {x};
    if rest == map[] {
      assert forall k | k in m :: k == x;
      assert IsFirst(m, x);
    } else {
      FirstExists(rest);
      var y :| IsFirst(rest, y);
      BeforeTotal(KeyOf(m[x]), KeyOf(m[y]));
      if Before(KeyOf(m[y]), KeyOf(m[x])) {
        assert IsFirst(m, y);
      } else {
        forall k | k in m && k != x
          ensures Before(KeyOf(m[x]), KeyOf(m[k]))
        {
          assert k in rest;
          if k != y {
            BeforeTrans(KeyOf(m[x]), KeyOf(m[y]), KeyOf(m[k]));
          }
        }
        assert IsFirst(m, x);
      }
    }
  }

  lemma FirstIsUnique(m: Table)
    ensures forall a, b | IsFirst(m, a) && IsFirst(m, b) :: a == b
  {
    forall a, b | IsFirst(m, a) && IsFirst(m, b)
      ensures a == b
    {
      BeforeTotal(KeyOf(m[a]), KeyOf(m[b]));
    }
  }

  function First(m: Table): (id: RowId)
    requires m != map[]
    ensures IsFirst(m, id)
  {
    FirstExists(m);
    FirstIsUnique(m);
    var id :| IsFirst(m, id);
    id
  }

  function FeedOrder(m: Table): (s: seq<Item>)
    decreases |m|
  {
    if m == map[] then [] else [m[First(m)]] + FeedOrder(m - {First(m)})
  }

  ghost predicate InFeedOrder(s: seq<Item>) {
    forall i, j | 0 <= i < j < |s| :: Before(KeyOf(s[i]), KeyOf(s[j]))
  }

  ghost predicate RowsOf(s: seq<Item>, m: Table) {
    && (forall x | x in s :: x.id in m && m[x.id] == x)
    && (forall k | k in m :: m[k] in s)
  }

  lemma {:induction false} FeedOrderSorts(m: Table)
    ensures InFeedOrder(FeedOrder(m)) && RowsOf(FeedOrder(m), m) && |FeedOrder(m)| == |m|
    decreases |m|
  {
    hide Before, InFeedOrder, RowsOf;
    if m == map[] {
      NothingSorts();
    } else {
      var rest: Table := m - {First(m)};
      FeedOrderSorts(rest);
      FirstSorts(m, First(m), FeedOrder(rest));
      FirstCompletes(m, First(m), FeedOrder(rest));
    }
  }

  lemma NothingSorts()
    ensures InFeedOrder([]) && RowsOf([], map[])
  {
  }

  lemma FirstSorts(m: Table, id: RowId, t: seq<Item>)
    requires IsFirst(m, id) && InFeedOrder(t) && RowsOf(t, m - {id})
    ensures InFeedOrder([m[id]] + t)
  {
  }

  lemma FirstCompletes(m: Table, id: RowId, t: seq<Item>)
    requires id in m && RowsOf(t, m - {id})
    ensures RowsOf([m[id]] + t, m)
  {
    forall k | k in m
      ensures m[k] in [m[id]] + t
    {
      if k != id {
        assert k in m - {id} && m[k] == (m - {id})[k];
      }
    }
  }

  lemma NoRows(s: seq<Item>)
    requires RowsOf(s, map[])
    ensures s == []
  {
    HeadIsIn(s);
  }

  lemma HeadIsIn(s: seq<Item>)
    ensures s == [] || s[0] in s
  {
  }

  lemma HeadIsFirst(m: Table, s: seq<Item>)
    requires InFeedOrder(s) && RowsOf(s, m) && m != map[]
    ensures s != [] && s[0] == m[First(m)] && s[0] !in s[1..]
  {
    var id := First(m);
    assert m[id] in s && s[0] in s;
    BeforeTotal(KeyOf(s[0]), KeyOf(m[id]));
    BeforeTotal(KeyOf(s[0]), KeyOf(s[0]));
  }

  /** The order leaves no choice: any sorted listing of a table's rows is the feed. */
  lemma {:induction false} FeedOrderIsUnique(m: Table, s: seq<Item>)
    requires InFeedOrder(s) && RowsOf(s, m)
    ensures s == FeedOrder(m)
    decreases |m|
  {
    hide Before, InFeedOrder, RowsOf;
    if m == map[] {
      NoRows(s);
    } else {
      HeadIsFirst(m, s);
      TailInOrder(s);
      var rest: Table := m - {First(m)};
      assert s == [s[0]] + s[1..];
      TailRows(m, s, First(m));
      FeedOrderIsUnique(rest, s[1..]);
    }
  }

  lemma TailRows(m: Table, s: seq<Item>, id: RowId)
    requires RowsOf(s, m) && s != [] && id in m && s[0] == m[id] && s[0] !in s[1..]
    ensures RowsOf(s[1..], m - {id})
  {
  }

  lemma TailInOrder(s: seq<Item>)
    requires InFeedOrder(s) && s != []
    ensures InFeedOrder(s[1..])
  {
  }

  // ----- LIMIT, retention -----

  /** A negative LIMIT is no limit. */
  function Limit<T>(s: seq<T>, n: int): seq<T> {
    if n < 0 || |s| <= n then s else s[..n]
  }

  /** The first `n` rows in feed order, all of them when there are fewer. */
  ghost predicate FirstRows(m: Table, n: nat, r: seq<Item>) {
    && InFeedOrder(r) && |r| == (if |m| < n then |m| else n)
    && (forall x | x in r :: x.id in m && m[x.id] == x)
    && (forall k, x | k in m && m[k] !in r && x in r :: Before(KeyOf(x), KeyOf(m[k])))
  }

  lemma FirstRowsStart(m: Table, n: nat, r: seq<Item>)
    requires FirstRows(m, n, r) && n > 0 && m != map[]
    ensures r != [] && r[0] == m[First(m)] && FirstRows(m - {First(m)}, n - 1, r[1..])
  {
    var id := First(m);
    assert r[0] in r;
    BeforeTotal(KeyOf(r[0]), KeyOf(m[id]));
    forall x | x in r[1..]
      ensures x != r[0]
    {
      BeforeTotal(KeyOf(x), KeyOf(x));
    }
    assert r == [r[0]] + r[1..];
  }

  lemma LimitStep(x: Item, t: seq<Item>, n: nat)
    requires n > 0
    ensures Limit([x] + t, n) == [x] + Limit(t, n - 1)
  {
  }

  /** There is one such listing: the head of the feed. */
  lemma {:induction false} FirstRowsAreHead(m: Table, n: nat, r: seq<Item>)
    requires FirstRows(m, n, r)
    ensures r == Limit(FeedOrder(m), n)
    decreases |m|
  {
    FeedOrderStep(m);
    hide Before, InFeedOrder, FeedOrder;
    if n > 0 && m != map[] {
      FirstRowsStart(m, n, r);
      hide FirstRows, Limit;
      var rest: Table := m - {First(m)};
      FirstRowsAreHead(rest, n - 1, r[1..]);
      LimitStep(m[First(m)], FeedOrder(rest), n);
      assert r == [r[0]] + r[1..];
    }
  }

  /** `r` is the head of the feed so far, `left` the rows still to come. */
  ghost predicate Taken(m: Table, left: Table, r: seq<Item>) {
    && InFeedOrder(r) && |r| + |left| == |m|
    && (forall x | x in r :: x.id in m && m[x.id] == x)
    && (forall k | k in left :: k in m && left[k] == m[k])
    && (forall k | k in m :: k in left || m[k] in r)
    && (forall k, x | k in left && x in r :: Before(KeyOf(x), KeyOf(left[k])))
  }

  lemma TakesNext(m: Table, left: Table, r: seq<Item>)
    requires Taken(m, left, r) && left != map[]
    ensures Taken(m, left - {First(left)}, r + [left[First(left)]])
  {
    hide Before;
    var x := left[First(left)];
    forall k | k in m
      ensures k in left - {First(left)} || m[k] in r + [x]
    {
    }
    assert |left - {First(left)}| == |left| - 1;
  }

  lemma TakesNone(m: Table)
    ensures Taken(m, m, [])
  {
  }

  lemma TakenEnough(m: Table, left: Table, r: seq<Item>, n: nat)
    requires Taken(m, left, r) && |r| <= n && (|r| == n || left == map[])
    ensures FirstRows(m, n, r)
  {
  }

  function Unexpired(m: Table, cutoff: int): (r: Table) {
    map k | k in m && m[k].receivedAt >= cutoff :: m[k]
  }

  /** The rows the count cap keeps. */
  function Newest(m: Table, cap: int): (r: Table) {
    var kept := set x | x in Limit(FeedOrder(m), cap) :: x.id;
    map k | k in m && k in kept :: m[k]
  }

  function Swept(m: Table, cutoff: int, cap: int): (r: Table) {
    Newest(Unexpired(m, cutoff), cap)
  }

  /** The rows ahead of a place in the feed. */
  ghost function Ahead(m: Table, key: Key): set<RowId> {
    set k | k in m && Before(KeyOf(m[k]), key)
  }

  lemma FirstIsAhead(m: Table, x: Item)
    requires m != map[] && x.id in m && m[x.id] == x && x.id != First(m)
    ensures |Ahead(m, KeyOf(x))| == |Ahead(m - {First(m)}, KeyOf(x))| + 1
  {
    assert Ahead(m, KeyOf(x)) == Ahead(m - {First(m)}, KeyOf(x)) + {First(m)};
  }

  lemma NothingAheadOfFirst(m: Table)
    requires m != map[]
    ensures Ahead(m, KeyOf(m[First(m)])) == {}
  {
    var x := m[First(m)];
    forall k | k in m
      ensures !Before(KeyOf(m[k]), KeyOf(x))
    {
      BeforeTotal(KeyOf(m[k]), KeyOf(x));
    }
  }

  /** The row at place `i` of the feed has exactly `i` rows ahead of it. */
  lemma {:induction false} AheadOfPlace(m: Table, i: nat)
    requires i < |FeedOrder(m)|
    ensures FeedOrder(m)[i].id in m && m[FeedOrder(m)[i].id] == FeedOrder(m)[i]
    ensures |Ahead(m, KeyOf(FeedOrder(m)[i]))| == i
    decreases |m|
  {
    var id := First(m);
    var rest: Table := m - {id};
    FeedOrderStep(m);
    hide Before, Ahead, FeedOrder;
    if i == 0 {
      NothingAheadOfFirst(m);
    } else {
      AheadOfPlace(rest, i - 1);
      var x := FeedOrder(rest)[i - 1];
      assert FeedOrder(m)[i] == x;
      FirstIsAhead(m, x);
    }
  }

  lemma FeedOrderStep(m: Table)
    ensures m == map[] ==> FeedOrder(m) == []
    ensures m != map[] ==> FeedOrder(m) == [m[First(m)]] + FeedOrder(m - {First(m)})
  {
  }

  lemma NewestByPlace(m: Table, cap: nat, k: RowId)
    requires k in m
    ensures k in Newest(m, cap) <==> |Ahead(m, KeyOf(m[k]))| < cap
  {
    FeedOrderSorts(m);
    var s := FeedOrder(m);
    var i :| 0 <= i < |s| && s[i] == m[k];
    AheadOfPlace(m, i);
    if i < cap {
      assert Limit(s, cap)[i] == m[k];
    } else {
      forall x | x in s[..cap]
        ensures x.id != k
      {
        var j :| 0 <= j < cap && s[..cap][j] == x;
        AheadOfPlace(m, j);
        assert s[j] in s;
      }
    }
  }

  /** A row survives a sweep exactly when it is not too old and fewer than `cap` rows are ahead of it. */
  lemma SweptByPlace(m: Table, cutoff: int, cap: nat, k: RowId)
    requires k in m
    ensures k in Swept(m, cutoff, cap) <==> m[k].receivedAt >= cutoff && |Ahead(m, KeyOf(m[k]))| < cap
  {
    if m[k].receivedAt >= cutoff {
      assert Ahead(Unexpired(m, cutoff), KeyOf(m[k])) == Ahead(m, KeyOf(m[k]));
      NewestByPlace(Unexpired(m, cutoff), cap, k);
    }
  }

  /** A negative cap only applies the age rule. */
  lemma SweptUncapped(m: Table, cutoff: int, cap: int)
    requires cap < 0
    ensures Swept(m, cutoff, cap) == Unexpired(m, cutoff)
  {
    FeedOrderSorts(Unexpired(m, cutoff));
  }

  lemma AheadShrinks(m: Table, a: Key, b: Key)
    requires Before(a, b)
    ensures |Ahead(m, a)| <= |Ahead(m, b)|
  {
    forall k | k in Ahead(m, a)
      ensures k in Ahead(m, b)
    {
      BeforeTrans(KeyOf(m[k]), a, b);
    }
    SubsetSize(Ahead(m, a), Ahead(m, b));
  }

  lemma AheadOfSurvivor(m: Table, cutoff: int, cap: nat, k: RowId)
    requires k in Swept(m, cutoff, cap)
    ensures Ahead(Swept(m, cutoff, cap), KeyOf(m[k])) == Ahead(m, KeyOf(m[k]))
  {
    SweptByPlace(m, cutoff, cap, k);
    forall j | j in Ahead(m, KeyOf(m[k]))
      ensures j in Swept(m, cutoff, cap)
    {
      SweptByPlace(m, cutoff, cap, j);
      AheadShrinks(m, KeyOf(m[j]), KeyOf(m[k]));
    }
  }

  lemma SurvivesBoth(m: Table, cutoff1: int, cutoff2: int, cap: nat, k: RowId)
    requires k in m
    ensures k in Swept(Swept(m, cutoff1, cap), cutoff2, cap)
       <==> k in Swept(m, if cutoff1 < cutoff2 then cutoff2 else cutoff1, cap)
  {
    var once := Swept(m, cutoff1, cap);
    SweptByPlace(m, cutoff1, cap, k);
    SweptByPlace(m, if cutoff1 < cutoff2 then cutoff2 else cutoff1, cap, k);
    if k in once {
      SweptByPlace(once, cutoff2, cap, k);
      AheadOfSurvivor(m, cutoff1, cap, k);
    }
  }

  lemma SweptKeepsRows(m: Table, cutoff: int, cap: int)
    ensures Swept(m, cutoff, cap).Keys <= m.Keys
    ensures forall k | k in Swept(m, cutoff, cap) :: Swept(m, cutoff, cap)[k] == m[k]
  {
  }

  /** Two sweeps, at any two times and in either order, leave what one sweep at the later time leaves.
      With equal times: a repeated sweep reclaims nothing. */
  lemma SweepsConverge(m: Table, cutoff1: int, cutoff2: int, cap: int)
    ensures Swept(Swept(m, cutoff1, cap), cutoff2, cap)
         == Swept(m, if cutoff1 < cutoff2 then cutoff2 else cutoff1, cap)
  {
    var later := if cutoff1 < cutoff2 then cutoff2 else cutoff1;
    var once := Swept(m, cutoff1, cap);
    if cap < 0 {
      SweptUncapped(m, cutoff1, cap);
      SweptUncapped(once, cutoff2, cap);
      SweptUncapped(m, later, cap);
      hide Swept;
    } else {
      hide Swept, Unexpired, Before;
      SweptKeepsRows(m, cutoff1, cap);
      SweptKeepsRows(once, cutoff2, cap);
      SweptKeepsRows(m, later, cap);
      forall k | k in m
        ensures k in Swept(once, cutoff2, cap) <==> k in Swept(m, later, cap)
      {
        SurvivesBoth(m, cutoff1, cutoff2, cap, k);
      }
      assert Swept(once, cutoff2, cap).Keys == Swept(m, later, cap).Keys;
    }
  }

  /** The survivors are the head of the feed, in feed order: the first `cap` rows that have not expired. */
  lemma SweptIsFeedHead(m: Table, cutoff: int, cap: nat)
    ensures FeedOrder(Swept(m, cutoff, cap)) == Limit(FeedOrder(Unexpired(m, cutoff)), cap)
    ensures FeedOrder(Swept(m, cutoff, cap)) <= FeedOrder(m)
  {
    UnexpiredIsFeedHead(m, cutoff);
    NewestIsFeedHead(Unexpired(m, cutoff), cap);
  }

  lemma NewestIsFeedHead(m: Table, cap: nat)
    ensures FeedOrder(Newest(m, cap)) == Limit(FeedOrder(m), cap)
  {
    FeedOrderSorts(m);
    var s := Limit(FeedOrder(m), cap);
    assert s <= FeedOrder(m);
    forall x | x in s
      ensures x.id in Newest(m, cap) && Newest(m, cap)[x.id] == x
    {
      assert x in FeedOrder(m);
    }
    forall k | k in Newest(m, cap)
      ensures m[k] in s
    {
      var x :| x in s && x.id == k;
      assert x in FeedOrder(m);
    }
    FeedOrderIsUnique(Newest(m, cap), s);
  }

  /** In feed order the rows that have not expired come first. */
  lemma FreshPrefix(s: seq<Item>, cutoff: int) returns (n: nat)
    requires InFeedOrder(s)
    ensures n <= |s| && forall i | 0 <= i < |s| :: s[i].receivedAt >= cutoff <==> i < n
  {
    n := 0;
    while n < |s| && s[n].receivedAt >= cutoff
      invariant 0 <= n <= |s|
      invariant forall i | 0 <= i < n :: s[i].receivedAt >= cutoff
    {
      n := n + 1;
    }
    forall i | n <= i < |s|
      ensures s[i].receivedAt < cutoff
    {
      assert i == n || Before(KeyOf(s[n]), KeyOf(s[i]));
    }
  }

  lemma UnexpiredIsFeedHead(m: Table, cutoff: int)
    ensures FeedOrder(Unexpired(m, cutoff)) <= FeedOrder(m)
  {
    hide Before, InFeedOrder;
    FeedOrderSorts(m);
    var s := FeedOrder(m);
    var n := FreshPrefix(s, cutoff);
    var u := Unexpired(m, cutoff);
    forall x | x in s[..n]
      ensures x.id in u && u[x.id] == x
    {
      var i :| 0 <= i < n && s[..n][i] == x;
      assert s[i] in s;
    }
    forall k | k in u
      ensures u[k] in s[..n]
    {
      assert m[k] in s;
      var i :| 0 <= i < |s| && s[i] == m[k];
      assert s[..n][i] == m[k];
    }
    HeadInOrder(s, n);
    FeedOrderIsUnique(u, s[..n]);
  }

  lemma HeadInOrder(s: seq<Item>, n: nat)
    requires InFeedOrder(s) && n <= |s|
    ensures InFeedOrder(s[..n])
  {
  }
}
