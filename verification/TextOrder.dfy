/** The order of text: by its scalars here, by its UTF-8 bytes in SQLite.  They agree. */
module TextOrder {
  import opened JsText
  import opened Unicode
  import opened Lexicographic

  lemma {:induction false} CommonStart(p: seq<int>, a: seq<int>, b: seq<int>)
    ensures Precedes(p + a, p + b) <==> Precedes(a, b)
  {
    if p == [] {
      assert p + a == a && p + b == b;
    } else {
      assert (p + a)[1..] == p[1..] + a && (p + b)[1..] == p[1..] + b;
      CommonStart(p[1..], a, b);
    }
  }

  /** Where the encodings of two scalars first differ. */
  lemma FirstDifference(c: Scalar, d: Scalar) returns (k: nat)
    requires c < d
    ensures var x, y := EncodeScalar(c), EncodeScalar(d);
            k < |x| && k < |y| && x[..k] == y[..k] && x[k] < y[k]
  {
    var x, y := EncodeScalar(c), EncodeScalar(d);
    k := 0;
    if x[0] == y[0] {
      SameLead(c, d);
      k := if x[1] != y[1] then 1 else if x[2] != y[2] then 2 else 3;
    } else {
      LeadsAscend(c, d);
    }
  }

  /** The lead byte never falls as scalars grow. */
  lemma LeadsAscend(c: Scalar, d: Scalar)
    requires c <= d
    ensures EncodeScalar(c)[0] <= EncodeScalar(d)[0]
  {
  }

  /** Under one lead byte the encodings are equally long, and their continuation bytes are digits. */
  lemma SameLead(c: Scalar, d: Scalar)
    requires c < d && EncodeScalar(c)[0] == EncodeScalar(d)[0]
    ensures var x, y := EncodeScalar(c), EncodeScalar(d);
            && |x| == |y| > 1
            && (x[1] < y[1] || (x[1] == y[1] && |x| > 2
                  && (x[2] < y[2] || (x[2] == y[2] && |x| > 3 && x[3] < y[3]))))
  {
    if c < 0x800 {
    } else if c < 0x10000 {
      assert c / 4096 == c / 64 / 64 && d / 4096 == d / 64 / 64;
    } else {
      assert c / 4096 == c / 64 / 64 && d / 4096 == d / 64 / 64;
      assert c / 262144 == c / 64 / 64 / 64 && d / 262144 == d / 64 / 64 / 64;
    }
  }

  lemma ScalarsAscend(c: Scalar, d: Scalar, s: seq<Byte>, t: seq<Byte>)
    requires c < d
    ensures Precedes(EncodeScalar(c) + s, EncodeScalar(d) + t)
  {
    hide EncodeScalar;
    var k := FirstDifference(c, d);
    var x, y := EncodeScalar(c), EncodeScalar(d);
    assert (x + s)[..k] == x[..k] && (y + t)[..k] == y[..k];
    DecidedAt(x + s, y + t, k);
  }

  /** Ordering text by its UTF-8 bytes is ordering it by its scalars. */
  lemma {:induction false} BytesOrderAsScalars(a: Text, b: Text)
    ensures Precedes(EncodeUtf8(a), EncodeUtf8(b)) <==> Precedes(a, b)
  {
    hide EncodeScalar;
    if a != [] && b != [] {
      var s, t := EncodeUtf8(a[1..]), EncodeUtf8(b[1..]);
      if a[0] < b[0] {
        ScalarsAscend(a[0], b[0], s, t);
      } else if a[0] > b[0] {
        ScalarsAscend(b[0], a[0], t, s);
        PrecedesTotal(EncodeUtf8(a), EncodeUtf8(b));
      } else {
        CommonStart(EncodeScalar(a[0]), s, t);
        BytesOrderAsScalars(a[1..], b[1..]);
      }
    }
  }
}
