/** Cutting, splitting and joining strings, and their byte order. */
module Strings {

  /** The first position of `c`, or the length. */
  function Index(s: string, c: char): (i: nat)
    ensures i <= |s| && (i < |s| ==> s[i] == c) && c !in s[..i]
  {
    if s == [] || s[0] == c then 0
    else
      var i := 1 + Index(s[1..], c);
      assert s[..i] == [s[0]] + s[1..][..i - 1];
      i
  }

  lemma {:induction false} IndexAfter(a: string, c: char, b: string)
    requires c !in a
    ensures Index(a + [c] + b, c) == |a|
  {
    if a != "" {
      IndexAfter(a[1..], c, b);
      assert (a + [c] + b)[1..] == a[1..] + [c] + b;
    }
  }

  /** `strings.Split` at a single character. */
  function Split(s: string, c: char): (parts: seq<string>)
    ensures parts != [] && forall i :: 0 <= i < |parts| ==> c !in parts[i]
  {
    var i := Index(s, c);
    if i == |s| then
      assert s[..i] == s;
      [s]
    else [s[..i]] + Split(s[i + 1..], c)
  }

  /** `strings.Join` with a single character. */
  function Join(parts: seq<string>, c: char): string {
    if parts == [] then ""
    else if |parts| == 1 then parts[0]
    else parts[0] + [c] + Join(parts[1..], c)
  }

  /** Splitting undoes joining, for parts without the separator. */
  lemma {:induction false} SplitJoin(parts: seq<string>, c: char)
    requires parts != [] && forall i :: 0 <= i < |parts| ==> c !in parts[i]
    ensures Split(Join(parts, c), c) == parts
  {
    if |parts| == 1 {
      var i := Index(parts[0], c);
      assert i == |parts[0]|;
    } else {
      var rest := Join(parts[1..], c);
      IndexAfter(parts[0], c, rest);
      var s := Join(parts, c);
      assert s == parts[0] + [c] + rest;
      assert s[..|parts[0]|] == parts[0] && s[|parts[0]| + 1..] == rest;
      SplitJoin(parts[1..], c);
    }
  }

  lemma {:induction false} JoinAppend(a: seq<string>, b: seq<string>, c: char)
    requires a != [] && b != []
    ensures Join(a + b, c) == Join(a, c) + [c] + Join(b, c)
  {
    if |a| == 1 {
      assert (a + b)[1..] == b;
    } else {
      JoinAppend(a[1..], b, c);
      assert (a + b)[1..] == a[1..] + b;
    }
  }

  /** Byte order, as `<=` on Go strings. */
  predicate LessEq(a: string, b: string) {
    a == "" || (b != "" && (a[0] < b[0] || (a[0] == b[0] && LessEq(a[1..], b[1..]))))
  }

  // At position `i` the strings differ for the first time, in favour of `a`.
  predicate DifferAt(a: string, b: string, i: nat) {
    i < |a| && i < |b| && a[i] < b[i] && forall k :: 0 <= k < i ==> a[k] == b[k]
  }

  // `a` is a beginning of `b`, or the first difference is in favour of `a`.
  ghost predicate FirstDifference(a: string, b: string) {
    a <= b || exists i: nat :: DifferAt(a, b, i)
  }

  lemma DifferTail(a: string, b: string, i: nat)
    requires a != "" && b != "" && a[0] == b[0]
    ensures DifferAt(a[1..], b[1..], i) <==> DifferAt(a, b, i + 1)
  {
    if DifferAt(a[1..], b[1..], i) {
      assert forall k :: 0 < k <= i ==> a[k] == a[1..][k - 1] && b[k] == b[1..][k - 1];
    }
    if DifferAt(a, b, i + 1) {
      assert forall k :: 0 <= k < i ==> a[1..][k] == a[k + 1] && b[1..][k] == b[k + 1];
    }
  }

  // The first characters decide, or else the rest does.
  lemma DifferenceStep(a: string, b: string)
    requires a != "" && b != ""
    ensures FirstDifference(a, b) <==> a[0] < b[0] || (a[0] == b[0] && FirstDifference(a[1..], b[1..]))
  {
    assert a == [a[0]] + a[1..] && b == [b[0]] + b[1..];
    if a[0] == b[0] {
      if i: nat :| DifferAt(a, b, i) {
        DifferTail(a, b, i - 1);
      }
      if i: nat :| DifferAt(a[1..], b[1..], i) {
        DifferTail(a, b, i);
      }
    } else if a[0] < b[0] {
      assert DifferAt(a, b, 0);
    }
  }

  /** Byte order is decided by the first difference. */
  lemma {:induction false} LessEqExactly(a: string, b: string)
    ensures LessEq(a, b) <==> FirstDifference(a, b)
  {
    if a != "" && b != "" {
      LessEqExactly(a[1..], b[1..]);
      DifferenceStep(a, b);
    }
  }

  lemma {:induction false} LessEqTotal(a: string, b: string)
    ensures LessEq(a, b) || LessEq(b, a)
    ensures LessEq(a, b) && LessEq(b, a) ==> a == b
  {
    if a != "" && b != "" && a[0] == b[0] {
      LessEqTotal(a[1..], b[1..]);
      assert a == [a[0]] + a[1..] && b == [b[0]] + b[1..];
    }
  }

  lemma {:induction false} LessEqTransitive(a: string, b: string, c: string)
    requires LessEq(a, b) && LessEq(b, c)
    ensures LessEq(a, c)
  {
    if a != "" && a[0] == b[0] == c[0] {
      LessEqTransitive(a[1..], b[1..], c[1..]);
    }
  }

  /** Strings of one length order by their beginnings first. */
  lemma {:induction false} LessEqAppend(a: string, b: string, x: string, y: string)
    requires |a| == |b|
    ensures LessEq(a + x, b + y) <==> (if a == b then LessEq(x, y) else LessEq(a, b))
  {
    if a == "" {
      assert a + x == x && b + y == y;
    } else {
      assert (a + x)[1..] == a[1..] + x && (b + y)[1..] == b[1..] + y;
      assert a == [a[0]] + a[1..] && b == [b[0]] + b[1..];
      LessEqAppend(a[1..], b[1..], x, y);
    }
  }
}
