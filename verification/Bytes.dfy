// Byte strings with the order of Buffer.compare, which the allowlist tree
// sorts leaves and pairs by.
module Bytes {
  type Byte = x: int | 0 <= x < 256
  type Bytes = seq<Byte>

  type Hash = h: Bytes | |h| == 32 witness seq(32, _ => 0)
  type Address = a: Bytes | |a| == 20 witness seq(20, _ => 0)

  function Zeros(n: nat): Bytes {
    seq(n, _ => 0)
  }

  // Lexicographic; a proper prefix comes first.
  function Compare(a: Bytes, b: Bytes): int {
    if a == [] then (if b == [] then 0 else -1)
    else if b == [] then 1
    else if a[0] < b[0] then -1
    else if a[0] > b[0] then 1
    else Compare(a[1..], b[1..])
  }

  // Buffer.compare is a total order whose zero is equality.
  lemma {:induction false} CompareOrders(a: Bytes, b: Bytes)
    ensures Compare(a, b) == 0 <==> a == b
    ensures Compare(b, a) == -Compare(a, b)
  {
    if a == [] || b == [] || a[0] != b[0] {
    } else {
      CompareOrders(a[1..], b[1..]);
      assert a == [a[0]] + a[1..] && b == [b[0]] + b[1..];
    }
  }

  lemma {:induction false} CompareTransitive(a: Bytes, b: Bytes, c: Bytes)
    requires Compare(a, b) <= 0 && Compare(b, c) <= 0
    ensures Compare(a, c) <= 0
  {
    if a == [] || b == [] || c == [] || a[0] != b[0] || b[0] != c[0] {
    } else {
      CompareTransitive(a[1..], b[1..], c[1..]);
    }
  }

  // ---- The order in bytes ----

  // Up to position k the two agree; there the first ends, or has the smaller byte.
  ghost predicate DiffersBelowAt(a: Bytes, b: Bytes, k: nat) {
    && k <= |a| && k < |b| && a[..k] == b[..k]
    && (k == |a| || a[k] < b[k])
  }

  ghost predicate IsBelow(a: Bytes, b: Bytes) {
    exists k: nat :: DiffersBelowAt(a, b, k)
  }

  lemma BelowTail(a: Bytes, b: Bytes)
    requires a != [] && b != [] && a[0] == b[0]
    ensures IsBelow(a, b) <==> IsBelow(a[1..], b[1..])
  {
    if IsBelow(a, b) {
      var k: nat :| DiffersBelowAt(a, b, k);
      assert k > 0;
      assert a[1..][..k - 1] == a[..k][1..] && b[1..][..k - 1] == b[..k][1..];
      assert DiffersBelowAt(a[1..], b[1..], k - 1);
    }
    if IsBelow(a[1..], b[1..]) {
      var k: nat :| DiffersBelowAt(a[1..], b[1..], k);
      assert a[..k + 1] == [a[0]] + a[1..][..k] && b[..k + 1] == [b[0]] + b[1..][..k];
      assert DiffersBelowAt(a, b, k + 1);
    }
  }

  lemma SameHead(a: Bytes, b: Bytes, k: nat)
    requires 0 < k <= |a| && k <= |b| && a[..k] == b[..k]
    ensures a[0] == b[0]
  {
    assert a[..k][0] == a[0] && b[..k][0] == b[0];
  }

  lemma BelowHead(a: Bytes, b: Bytes)
    requires a == [] || b == [] || a[0] != b[0]
    ensures IsBelow(a, b) <==> b != [] && (a == [] || a[0] < b[0])
  {
    if b != [] && (a == [] || a[0] < b[0]) {
      assert DiffersBelowAt(a, b, 0);
    }
    if IsBelow(a, b) {
      var k: nat :| DiffersBelowAt(a, b, k);
      if k > 0 { SameHead(a, b, k); }
    }
  }

  // The comparison is negative if and only if the first differing byte is smaller
  // in the first string, or that string is a proper prefix.
  lemma {:induction false} CompareIsBelow(a: Bytes, b: Bytes)
    ensures Compare(a, b) < 0 <==> IsBelow(a, b)
  {
    if a == [] || b == [] || a[0] != b[0] {
      BelowHead(a, b);
    } else {
      CompareIsBelow(a[1..], b[1..]);
      BelowTail(a, b);
    }
  }

  // Said of the bytes: whatever comes before and after, the smaller byte decides.
  lemma SmallerByteDecides(p: Bytes, x: Byte, s: Bytes, y: Byte, t: Bytes)
    requires x < y
    ensures Compare(p + [x] + s, p + [y] + t) < 0 && Compare(p + [y] + t, p + [x] + s) > 0
    ensures Compare(p, p + [x] + s) < 0
  {
    var a, b := p + [x] + s, p + [y] + t;
    assert a[..|p|] == p == b[..|p|];
    assert DiffersBelowAt(a, b, |p|) && DiffersBelowAt(p, a, |p|);
    CompareIsBelow(a, b);
    CompareIsBelow(p, a);
    CompareOrders(a, b);
  }
}
