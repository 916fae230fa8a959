// Sequence facts used by several modules.
module Seqs {
  lemma Associative<T>(a: seq<T>, b: seq<T>, c: seq<T>)
    ensures a + (b + c) == (a + b) + c
  {
  }

  function Map<A, B>(f: A -> B, s: seq<A>): (r: seq<B>)
    ensures |r| == |s|
    ensures forall i :: 0 <= i < |s| ==> r[i] == f(s[i])
  {
    seq(|s|, i requires 0 <= i < |s| => f(s[i]))
  }

  ghost predicate Distinct<T>(s: seq<T>) {
    forall i, j :: 0 <= i < j < |s| ==> s[i] != s[j]
  }

  function RemoveAt<T>(s: seq<T>, k: nat): seq<T>
    requires k < |s|
  {
    s[..k] + s[k + 1..]
  }

  lemma RemoveAtMultiset<T>(s: seq<T>, k: nat)
    requires k < |s|
    ensures multiset(RemoveAt(s, k)) == multiset(s) - multiset{s[k]}
  {
    assert s == s[..k] + [s[k]] + s[k + 1..];
  }

  lemma PermutationSplit<T>(xs: seq<T>, ys: seq<T>) returns (k: nat)
    requires xs != [] && multiset(xs) == multiset(ys)
    ensures k < |ys| && ys[k] == xs[0] && multiset(xs[1..]) == multiset(RemoveAt(ys, k))
  {
    assert xs[0] in multiset(ys);
    k :| 0 <= k < |ys| && ys[k] == xs[0];
    RemoveAtMultiset(ys, k);
    RemoveAtMultiset(xs, 0);
    assert RemoveAt(xs, 0) == xs[1..];
  }

  lemma {:induction false} MapOfPermutation<A, B>(f: A -> B, xs: seq<A>, ys: seq<A>)
    requires multiset(xs) == multiset(ys)
    ensures multiset(Map(f, xs)) == multiset(Map(f, ys))
  {
    assert |multiset(ys)| == |multiset(xs)|;
    if xs == [] {
    } else {
      var k := PermutationSplit(xs, ys);
      MapOfPermutation(f, xs[1..], RemoveAt(ys, k));
      assert Map(f, ys) == Map(f, ys[..k]) + [f(xs[0])] + Map(f, ys[k + 1..]);
      assert Map(f, RemoveAt(ys, k)) == Map(f, ys[..k]) + Map(f, ys[k + 1..]);
      assert Map(f, xs) == [f(xs[0])] + Map(f, xs[1..]);
    }
  }

  lemma {:induction false} DistinctCount<T>(s: seq<T>, x: T)
    requires Distinct(s)
    ensures multiset(s)[x] == if x in s then 1 else 0
  {
    if s == [] {
    } else {
      DistinctCount(s[1..], x);
      assert s == [s[0]] + s[1..];
      assert s[0] !in s[1..];
    }
  }

  lemma RepeatCounts<T>(s: seq<T>, i: nat, j: nat)
    requires i < j < |s| && s[i] == s[j]
    ensures multiset(s)[s[i]] >= 2
  {
    assert s == s[..j] + s[j..];
    assert s[i] in s[..j] && s[j] in s[j..];
    assert s[..j][i] == s[i] && s[j..][0] == s[j];
  }

  lemma PermutationIsDistinct<T>(xs: seq<T>, ys: seq<T>)
    requires multiset(xs) == multiset(ys) && Distinct(ys)
    ensures Distinct(xs)
  {
    forall i, j | 0 <= i < j < |xs| ensures xs[i] != xs[j] {
      if xs[i] == xs[j] {
        RepeatCounts(xs, i, j);
        DistinctCount(ys, xs[i]);
      }
    }
  }

  // Two repetition-free sequences with the same elements are permutations.
  lemma DistinctIsPermutation<T>(xs: seq<T>, ys: seq<T>)
    requires Distinct(xs) && Distinct(ys)
    requires forall x :: x in xs <==> x in ys
    ensures multiset(xs) == multiset(ys)
  {
    forall x ensures multiset(xs)[x] == multiset(ys)[x] {
      DistinctCount(xs, x);
      DistinctCount(ys, x);
    }
  }

  // The images of the elements that pass a test, in order.
  function Select<A, B>(keep: A -> bool, f: A -> B, s: seq<A>): seq<B> {
    if s == [] then []
    else (if keep(s[0]) then [f(s[0])] else []) + Select(keep, f, s[1..])
  }

  lemma {:induction false} SelectConcat<A, B>(keep: A -> bool, f: A -> B, a: seq<A>, b: seq<A>)
    ensures Select(keep, f, a + b) == Select(keep, f, a) + Select(keep, f, b)
  {
    if a == [] {
      assert a + b == b;
    } else {
      assert (a + b)[0] == a[0] && (a + b)[1..] == a[1..] + b;
      SelectConcat(keep, f, a[1..], b);
      var first := if keep(a[0]) then [f(a[0])] else [];
      assert first + (Select(keep, f, a[1..]) + Select(keep, f, b)) == Select(keep, f, a) + Select(keep, f, b);
    }
  }

  lemma SelectNext<A, B>(keep: A -> bool, f: A -> B, s: seq<A>, i: nat)
    requires i < |s|
    ensures Select(keep, f, s[..i + 1]) == Select(keep, f, s[..i]) + (if keep(s[i]) then [f(s[i])] else [])
  {
    assert s[..i + 1] == s[..i] + [s[i]];
    SelectConcat(keep, f, s[..i], [s[i]]);
  }
}
