/** Dictionary order on sequences of numbers: a strict total order. */
module Lexicographic {

  predicate Precedes(a: seq<int>, b: seq<int>) {
    if a == [] || b == [] then |a| < |b|
    else if a[0] == b[0] then Precedes(a[1..], b[1..])
    else a[0] < b[0]
  }

  lemma {:induction false} PrecedesTotal(a: seq<int>, b: seq<int>)
    ensures a == b || Precedes(a, b) || Precedes(b, a)
    ensures !(Precedes(a, b) && Precedes(b, a)) && !Precedes(a, a)
  {
    if a != [] {
      PrecedesTotal(a[1..], a[1..]);
      if b != [] {
        PrecedesTotal(a[1..], b[1..]);
        assert a == [a[0]] + a[1..] && b == [b[0]] + b[1..];
      }
    }
  }

  lemma {:induction false} PrecedesTrans(a: seq<int>, b: seq<int>, c: seq<int>)
    requires Precedes(a, b) && Precedes(b, c)
    ensures Precedes(a, c)
  {
    if a != [] && a[0] == b[0] == c[0] {
      PrecedesTrans(a[1..], b[1..], c[1..]);
    }
  }

  /** `a` and `b` first differ at `k`, where `a` is smaller or ends. */
  ghost predicate DiffersAt(a: seq<int>, b: seq<int>, k: nat) {
    k <= |a| && k < |b| && a[..k] == b[..k] && (k < |a| ==> a[k] < b[k])
  }

  /** The first difference decides. */
  lemma {:induction false} DecidedAt(a: seq<int>, b: seq<int>, k: nat)
    requires DiffersAt(a, b, k)
    ensures Precedes(a, b)
  {
    if k > 0 {
      assert a[0] == a[..k][0] && b[0] == b[..k][0];
      assert a[1..][..k - 1] == a[..k][1..] && b[1..][..k - 1] == b[..k][1..];
      DecidedAt(a[1..], b[1..], k - 1);
    }
  }

  /** The order is the one a dictionary uses: what comes first is smaller where the two first differ, or the
      beginning of the other. */
  lemma {:induction false} PrecedesAtDifference(a: seq<int>, b: seq<int>)
    ensures Precedes(a, b) <==> exists k: nat :: DiffersAt(a, b, k)
  {
    if k: nat :| DiffersAt(a, b, k) {
      DecidedAt(a, b, k);
    }
    if Precedes(a, b) {
      if a == [] || a[0] != b[0] {
        assert DiffersAt(a, b, 0);
      } else {
        PrecedesAtDifference(a[1..], b[1..]);
        var k: nat :| DiffersAt(a[1..], b[1..], k);
        assert a[..k + 1] == [a[0]] + a[1..][..k] && b[..k + 1] == [b[0]] + b[1..][..k];
        assert DiffersAt(a, b, k + 1);
      }
    }
  }
}
