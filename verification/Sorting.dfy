/** What the library sorts promise: some ordered permutation, ties in any order. */
module Sorting {

  ghost predicate TotalPreorder<T(!new)>(leq: (T, T) -> bool) {
    && (forall a, b :: leq(a, b) || leq(b, a))
    && (forall a, b, c :: leq(a, b) && leq(b, c) ==> leq(a, c))
  }

  ghost predicate Antisymmetric<T(!new)>(leq: (T, T) -> bool) {
    forall a, b :: leq(a, b) && leq(b, a) ==> a == b
  }

  ghost predicate Sorted<T>(s: seq<T>, leq: (T, T) -> bool) {
    forall i, j :: 0 <= i < j < |s| ==> leq(s[i], s[j])
  }

  /** The library sort.  Callers may only rely on the contract, which leaves ties open. */
  method Sort<T(!new)>(s: seq<T>, leq: (T, T) -> bool) returns (r: seq<T>)
    requires TotalPreorder(leq)
    ensures multiset(r) == multiset(s) && Sorted(r, leq)
  {
    r := [];
    for i := 0 to |s|
      invariant multiset(r) == multiset(s[..i]) && Sorted(r, leq)
    {
      ghost var before := r;
      r := Insert(r, s[i], leq);
      assert s[..i + 1] == s[..i] + [s[i]];
    }
    assert s[..|s|] == s;
  }

  method Insert<T(!new)>(s: seq<T>, x: T, leq: (T, T) -> bool) returns (r: seq<T>)
    requires TotalPreorder(leq) && Sorted(s, leq)
    ensures multiset(r) == multiset(s) + multiset{x} && Sorted(r, leq)
  {
    var k := 0;
    while k < |s| && leq(s[k], x)
      invariant 0 <= k <= |s| && forall i :: 0 <= i < k ==> leq(s[i], x)
    {
      k := k + 1;
    }
    r := s[..k] + [x] + s[k..];
    SortedInsert(s, k, x, leq);
  }

  lemma SortedInsert<T(!new)>(s: seq<T>, k: nat, x: T, leq: (T, T) -> bool)
    requires TotalPreorder(leq) && Sorted(s, leq) && k <= |s|
    requires forall i :: 0 <= i < k ==> leq(s[i], x)
    requires k < |s| ==> !leq(s[k], x)
    ensures var r := s[..k] + [x] + s[k..];
            multiset(r) == multiset(s) + multiset{x} && Sorted(r, leq)
  {
    assert s == s[..k] + s[k..];
    var r := s[..k] + [x] + s[k..];
    forall i, j | 0 <= i < j < |r|
      ensures leq(r[i], r[j])
    {
      InsertedOrder(s, k, x, leq, i, j);
    }
  }

  lemma InsertedOrder<T(!new)>(s: seq<T>, k: nat, x: T, leq: (T, T) -> bool, i: nat, j: nat)
    requires TotalPreorder(leq) && Sorted(s, leq) && i < j <= |s| && k <= |s|
    requires forall i :: 0 <= i < k ==> leq(s[i], x)
    requires k < |s| ==> !leq(s[k], x)
    ensures var r := s[..k] + [x] + s[k..]; leq(r[i], r[j])
  {
    var r := s[..k] + [x] + s[k..];
    var a := if i < k then s[i] else if i == k then x else s[i - 1];
    var b := if j < k then s[j] else if j == k then x else s[j - 1];
    assert r[i] == a && r[j] == b;
    if i == k {
      assert leq(x, s[k]);
      assert j - 1 == k || leq(s[k], s[j - 1]);
    }
  }

  lemma SortedTail<T(!new)>(s: seq<T>, leq: (T, T) -> bool)
    requires Sorted(s, leq) && s != []
    ensures Sorted(s[1..], leq)
    ensures multiset(s) == multiset{s[0]} + multiset(s[1..])
  {
    assert s == [s[0]] + s[1..];
  }

  lemma HeadsEqual<T(!new)>(a: seq<T>, b: seq<T>, leq: (T, T) -> bool)
    requires TotalPreorder(leq) && Antisymmetric(leq)
    requires Sorted(a, leq) && Sorted(b, leq) && multiset(a) == multiset(b)
    requires a != [] && b != []
    ensures a[0] == b[0]
  {
    HeadIsLeast(a, b, leq);
    HeadIsLeast(b, a, leq);
  }

  lemma HeadIsLeast<T(!new)>(a: seq<T>, b: seq<T>, leq: (T, T) -> bool)
    requires TotalPreorder(leq) && Sorted(a, leq) && multiset(a) == multiset(b)
    requires a != [] && b != []
    ensures leq(a[0], b[0])
  {
    assert b[0] in multiset(b);
    var i :| 0 <= i < |a| && a[i] == b[0];
    assert leq(a[0], a[0]);
  }

  /** An order without ties leaves the sort no choice. */
  lemma {:induction false} SortedUnique<T(!new)>(a: seq<T>, b: seq<T>, leq: (T, T) -> bool)
    requires TotalPreorder(leq) && Antisymmetric(leq)
    requires Sorted(a, leq) && Sorted(b, leq) && multiset(a) == multiset(b)
    ensures a == b
  {
    hide TotalPreorder, Antisymmetric, Sorted;
    SameLength(a, b);
    if a != [] {
      HeadsEqual(a, b, leq);
      SortedTail(a, leq);
      SortedTail(b, leq);
      SameTails(a, b);
      SortedUnique(a[1..], b[1..], leq);
      assert a == [a[0]] + a[1..] && b == [b[0]] + b[1..];
    }
  }

  lemma SameTails<T>(a: seq<T>, b: seq<T>)
    requires multiset(a) == multiset(b) && a != [] && b != [] && a[0] == b[0]
    ensures multiset(a[1..]) == multiset(b[1..])
  {
    assert a == [a[0]] + a[1..] && b == [b[0]] + b[1..];
    assert multiset(a[1..]) == multiset(a) - multiset{a[0]};
  }

  lemma SameLength<T>(a: seq<T>, b: seq<T>)
    requires multiset(a) == multiset(b)
    ensures |a| == |b|
  {
    assert |multiset(a)| == |a|;
  }

  /** Apply a function to every element. */
  function Map<A, B>(f: A -> B, s: seq<A>): (r: seq<B>)
    ensures |r| == |s| && forall i :: 0 <= i < |s| ==> r[i] == f(s[i])
  {
    seq(|s|, i requires 0 <= i < |s| => f(s[i]))
  }

  lemma MapConcat<A, B>(f: A -> B, s: seq<A>, t: seq<A>)
    ensures Map(f, s + t) == Map(f, s) + Map(f, t)
  {
  }

  lemma TakeOut<A>(t: seq<A>, x: A) returns (a: seq<A>, b: seq<A>)
    requires x in multiset(t)
    ensures t == a + [x] + b && multiset(a + b) == multiset(t) - multiset{x}
  {
    var k :| 0 <= k < |t| && t[k] == x;
    a, b := t[..k], t[k + 1..];
    assert t == a + [x] + b;
  }

  lemma {:induction false} MapBag<A, B>(f: A -> B, s: seq<A>, t: seq<A>)
    requires multiset(s) == multiset(t)
    ensures multiset(Map(f, s)) == multiset(Map(f, t))
  {
    SameLength(s, t);
    if s == [] {
      assert t == [];
    } else {
      var x := s[0];
      assert s == [x] + s[1..];
      assert x in multiset(s);
      var a, b := TakeOut(t, x);
      MapBag(f, s[1..], a + b);
      hide Map;
      MapConcat(f, [x], s[1..]);
      MapConcat(f, a + [x], b);
      MapConcat(f, a, [x]);
      MapConcat(f, a, b);
    }
  }

  // No element twice.
  ghost predicate Distinct<A>(s: seq<A>) {
    forall i, j :: 0 <= i < j < |s| ==> s[i] != s[j]
  }

  lemma {:induction false} DistinctBag<A>(s: seq<A>)
    requires Distinct(s)
    ensures forall x :: multiset(s)[x] <= 1
  {
    if s != [] {
      DistinctBag(s[1..]);
      assert s == [s[0]] + s[1..];
      assert s[0] !in multiset(s[1..]) by {
        assert s[0] !in s[1..];
      }
    }
  }

  lemma BagDistinct<A>(s: seq<A>)
    requires forall x :: multiset(s)[x] <= 1
    ensures Distinct(s)
  {
    forall i, j | 0 <= i < j < |s|
      ensures s[i] != s[j]
    {
      assert s == s[..i] + [s[i]] + s[i + 1..j] + [s[j]] + s[j + 1..];
      assert multiset(s)[s[i]] >= multiset([s[i]])[s[i]] + multiset([s[j]])[s[i]];
    }
  }
}
