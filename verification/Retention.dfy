/**
 Rotation counts the backups of a directory, not of a key: what is left of the
 retention of one key when several keys share a directory.
 */
module Retention {
  import opened Base
  import opened Sorting
  import opened Rotation
  import opened Outside

  /** How many of the files are among `own`, the backups of one key. */
  function CountOwn(names: seq<string>, own: set<string>): (n: nat)
    ensures n <= |names|
  {
    if names == [] then 0 else (if names[0] in own then 1 else 0) + CountOwn(names[1..], own)
  }

  lemma {:induction false} CountOwnAppend(a: seq<string>, b: seq<string>, own: set<string>)
    ensures CountOwn(a + b, own) == CountOwn(a, own) + CountOwn(b, own)
  {
    if a == [] {
      assert a + b == b;
    } else {
      assert (a + b)[1..] == a[1..] + b;
      CountOwnAppend(a[1..], b, own);
    }
  }

  lemma {:induction false} CountOwnBounds(names: seq<string>, own: set<string>)
    ensures CountOwn(names, own) == |names| <==> forall n :: n in names ==> n in own
    ensures CountOwn(names, own) == 0 <==> forall n :: n in names ==> n !in own
  {
    if names != [] {
      CountOwnBounds(names[1..], own);
      assert forall n :: n in names <==> n == names[0] || n in names[1..];
    }
  }

  /** The age limit alone. */
  function AgeOnly(policy: Policy): Policy {
    Policy(0, policy.maxAge)
  }

  // Under this ordering rotation keeps as many backups of the key as the count
  // allows, or all that are not over age.
  ghost predicate KeepsQuota(order: seq<string>, policy: Policy, now: int, own: set<string>) {
    var times := Times(order);
    CountOwn(order[..Kept(times, policy, now)], own)
    >= Min(policy.maxCount, CountOwn(order[..Kept(times, AgeOnly(policy), now)], own))
  }

  // What is not over age is a beginning of the list, and the count cuts it short.
  lemma KeptOfFresh(order: seq<string>, policy: Policy, now: int)
    requires Sorted(order, AtLeastAsNew) && policy.maxCount > 0
    ensures var k, a := Kept(Times(order), policy, now), Kept(Times(order), AgeOnly(policy), now);
            && k == Min(policy.maxCount, a)
            && forall i :: 0 <= i < |order| ==> (i < a <==> !TooOld(policy, now, TimeOf(order[i])))
  {
    hide TimeOf, Sorted, AtLeastAsNew, Age;
    var times := Times(order);
    var k, a := Kept(times, policy, now), Kept(times, AgeOnly(policy), now);
    if k < |order| {
      assert Doomed(policy, now, k, times[k]);
    }
    if a < |order| {
      assert Doomed(AgeOnly(policy), now, a, times[a]);
    }
    forall i | 0 <= i < |order| ensures i < a <==> !TooOld(policy, now, TimeOf(order[i])) {
      assert i < a ==> !Doomed(AgeOnly(policy), now, i, times[i]);
      if i >= a {
        OlderIsTooOld(order, policy, now, a, i);
      }
    }
    if k > 0 {
      assert !Doomed(policy, now, k - 1, times[k - 1]);
    }
  }

  lemma OlderIsTooOld(order: seq<string>, policy: Policy, now: int, a: nat, i: nat)
    requires Sorted(order, AtLeastAsNew) && a <= i < |order| && TooOld(policy, now, TimeOf(order[a]))
    ensures TooOld(policy, now, TimeOf(order[i]))
  {
    hide TimeOf;
    assert a == i || AtLeastAsNew(order[a], order[i]);
  }

  // Under one ordering: the key loses nothing to others exactly if the count cuts
  // nothing, or keeps only its files, or cuts none of its files.
  lemma QuotaInOrder(order: seq<string>, policy: Policy, now: int, own: set<string>)
    requires Sorted(order, AtLeastAsNew) && policy.maxCount > 0
    ensures var m, a := policy.maxCount, Kept(Times(order), AgeOnly(policy), now);
            KeepsQuota(order, policy, now, own)
            <==> a <= m || (forall n :: n in order[..m] ==> n in own) || (forall n :: n in order[m..a] ==> n !in own)
  {
    hide Kept, TimeOf, Sorted, CountOwn, TooOld;
    KeptOfFresh(order, policy, now);
    var m, a := policy.maxCount, Kept(Times(order), AgeOnly(policy), now);
    if a > m {
      assert order[..a] == order[..m] + order[m..a];
      CountOwnAppend(order[..m], order[m..a], own);
      CountOwnBounds(order[..m], own);
      CountOwnBounds(order[m..a], own);
    }
  }

  // Among files of one second a sort may put any of them first.
  lemma MoveFirst(order: seq<string>, b: nat, i: nat, files: map<Path, Bytes>, dir: string)
    returns (order': seq<string>)
    requires NewestFirst(order, files, dir) && b <= i < |order|
    requires forall k :: b <= k <= i ==> TimeOf(order[k]) == TimeOf(order[i])
    ensures NewestFirst(order', files, dir) && |order'| == |order| && order'[b] == order[i]
    ensures forall k :: i < k < |order| ==> order'[k] == order[k]
  {
    hide TimeOf, Eligible;
    order' := order[..b] + [order[i]] + order[b..i] + order[i + 1..];
    forall j, k | 0 <= j < k < |order'|
      ensures AtLeastAsNew(order'[j], order'[k]) && order'[j] != order'[k]
    {
      var j', k' := MovedUp(b, i, j), MovedUp(b, i, k);
      assert order'[j] == order[j'] && order'[k] == order[k'];
      assert j' < k' ==> AtLeastAsNew(order[j'], order[k']);
    }
    forall n ensures n in order' <==> n in order {
      assert order == order[..b] + order[b..i] + [order[i]] + order[i + 1..];
    }
  }

  function MovedUp(b: nat, i: nat, k: nat): nat {
    if k == b && b <= i then i else if b < k <= i then k - 1 else k
  }

  // The positions a file may have: between the files that are newer and those that are as new.
  lemma PlaceOf(order: seq<string>, i: nat)
    requires Sorted(order, AtLeastAsNew) && i < |order|
    ensures var ts := TimeOf(order[i]);
            && CountAsNew(Times(order), ts + 1) <= i < CountAsNew(Times(order), ts)
            && forall k :: CountAsNew(Times(order), ts + 1) <= k < CountAsNew(Times(order), ts) ==> TimeOf(order[k]) == ts
  {
    hide TimeOf;
    SortedTimes(order);
    CountIsPrefix(Times(order), TimeOf(order[i]));
    CountIsPrefix(Times(order), TimeOf(order[i]) + 1);
    forall k | CountAsNew(Times(order), TimeOf(order[i]) + 1) <= k < CountAsNew(Times(order), TimeOf(order[i]))
      ensures TimeOf(order[k]) == TimeOf(order[i])
    {
      assert Times(order)[k] == TimeOf(order[k]);
    }
  }

  // Every file of another key that is not over age is outdone by `maxCount` newer ones.
  ghost predicate OthersOutdone(order: seq<string>, policy: Policy, now: int, own: set<string>) {
    forall f :: f in order && f !in own && !TooOld(policy, now, TimeOf(f)) ==>
      CountAsNew(Times(order), TimeOf(f) + 1) >= policy.maxCount
  }

  // Every file of this key that is not over age is among the `maxCount` newest.
  ghost predicate OwnAmongNewest(order: seq<string>, policy: Policy, now: int, own: set<string>) {
    forall f :: f in order && f in own && !TooOld(policy, now, TimeOf(f)) ==>
      CountAsNew(Times(order), TimeOf(f)) <= policy.maxCount
  }

  lemma QuotaHolds(order: seq<string>, policy: Policy, now: int, own: set<string>)
    requires Sorted(order, AtLeastAsNew) && policy.maxCount > 0
    requires OthersOutdone(order, policy, now, own) || OwnAmongNewest(order, policy, now, own)
    ensures KeepsQuota(order, policy, now, own)
  {
    hide TimeOf, Sorted, AtLeastAsNew, Kept, KeepsQuota, TooOld;
    QuotaInOrder(order, policy, now, own);
    KeptOfFresh(order, policy, now);
    var m, a := policy.maxCount, Kept(Times(order), AgeOnly(policy), now);
    if a > m {
      if OthersOutdone(order, policy, now, own) {
        forall n | n in order[..m] ensures n in own {
          var i :| 0 <= i < m && order[i] == n;
          PlaceOf(order, i);
        }
      } else {
        forall n | n in order[m..a] ensures n !in own {
          var i :| m <= i < a && order[i] == n;
          PlaceOf(order, i);
        }
      }
    }
  }

  // A file of another key that may be kept and one of this key that may go: some sort does both.
  lemma QuotaBreaks(files: map<Path, Bytes>, dir: string, policy: Policy, now: int, order: seq<string>,
                    own: set<string>, f: string, g: string) returns (order': seq<string>)
    requires NewestFirst(order, files, dir) && policy.maxCount > 0
    requires f in order && f !in own && CountAsNew(Times(order), TimeOf(f) + 1) < policy.maxCount
    requires g in order && g in own && CountAsNew(Times(order), TimeOf(g)) > policy.maxCount
    requires !TooOld(policy, now, TimeOf(g))
    ensures NewestFirst(order', files, dir) && !KeepsQuota(order', policy, now, own)
  {
    hide TimeOf, Sorted, AtLeastAsNew, KeepsQuota, TooOld, CountAsNew, Eligible, Distinct;
    var c := CountAsNew(Times(order), TimeOf(g));
    var j := IndexOf(order, g);
    PlaceOf(order, j);
    var mid := MoveLast(order, j, c, files, dir);
    SameListing(order, mid, files, dir);
    order' := PutAhead(files, dir, mid, f, c - 1);
    QuotaBroken(order', policy, now, own, CountAsNew(Times(order), TimeOf(f) + 1), c - 1);
  }

  // Moves a file as far ahead as a sort may, leaving the last file of some second where it is.
  lemma PutAhead(files: map<Path, Bytes>, dir: string, order: seq<string>, f: string, last: nat)
    returns (order': seq<string>)
    requires NewestFirst(order, files, dir) && f in order && last < |order| && order[last] != f
    requires last + 1 == CountAsNew(Times(order), TimeOf(order[last]))
    requires CountAsNew(Times(order), TimeOf(f) + 1) <= last
    ensures NewestFirst(order', files, dir) && |order'| == |order|
    ensures order'[CountAsNew(Times(order), TimeOf(f) + 1)] == f && order'[last] == order[last]
  {
    hide TimeOf, Sorted, AtLeastAsNew, CountAsNew, Eligible, Distinct;
    var i := IndexOf(order, f);
    PlaceOf(order, i);
    if i > last {
      NotBehind(order, i, last);
    }
    order' := MoveFirst(order, CountAsNew(Times(order), TimeOf(f) + 1), i, files, dir);
  }

  lemma QuotaBroken(order: seq<string>, policy: Policy, now: int, own: set<string>, b: nat, last: nat)
    requires Sorted(order, AtLeastAsNew) && b < policy.maxCount <= last < |order|
    requires order[b] !in own && order[last] in own && !TooOld(policy, now, TimeOf(order[last]))
    ensures !KeepsQuota(order, policy, now, own)
  {
    hide TimeOf, Sorted, AtLeastAsNew, KeepsQuota, TooOld, Kept;
    var m, a := policy.maxCount, Kept(Times(order), AgeOnly(policy), now);
    QuotaInOrder(order, policy, now, own);
    KeptOfFresh(order, policy, now);
    assert order[..m][b] == order[b] && order[m..a][last - m] == order[last];
  }

  // A file among the first `maxCount` of its second is not behind the last one of an older position.
  lemma NotBehind(order: seq<string>, i: nat, last: nat)
    requires Sorted(order, AtLeastAsNew) && last < i < |order|
    requires last + 1 == CountAsNew(Times(order), TimeOf(order[last]))
    ensures CountAsNew(Times(order), TimeOf(order[i]) + 1) > last
  {
    hide TimeOf;
    SortedTimes(order);
    CountIsPrefix(Times(order), TimeOf(order[last]));
    CountIsPrefix(Times(order), TimeOf(order[i]) + 1);
    assert Times(order)[i] == TimeOf(order[i]) && Times(order)[last] == TimeOf(order[last]);
  }

  /**
   Keys that share a directory share its count.  A key keeps `maxCount` of its
   backups, or all that are not over age if they are fewer, under every
   consistent sort exactly if no backup of another key may be among the
   `maxCount` newest, or all its own backups always are.
   */
  lemma QuotaExactly(files: map<Path, Bytes>, dir: string, policy: Policy, now: int, order: seq<string>, own: set<string>)
    requires NewestFirst(order, files, dir) && policy.maxCount > 0
    ensures (forall o :: NewestFirst(o, files, dir) ==> KeepsQuota(o, policy, now, own))
            <==> OthersOutdone(order, policy, now, own) || OwnAmongNewest(order, policy, now, own)
  {
    hide TimeOf, KeepsQuota, TooOld, CountAsNew, Eligible, Sorted;
    if OthersOutdone(order, policy, now, own) || OwnAmongNewest(order, policy, now, own) {
      forall o | NewestFirst(o, files, dir) ensures KeepsQuota(o, policy, now, own) {
        SameListing(order, o, files, dir);
        QuotaHolds(o, policy, now, own);
      }
    } else {
      var f :| f in order && f !in own && !TooOld(policy, now, TimeOf(f))
               && CountAsNew(Times(order), TimeOf(f) + 1) < policy.maxCount;
      var g :| g in order && g in own && !TooOld(policy, now, TimeOf(g))
               && CountAsNew(Times(order), TimeOf(g)) > policy.maxCount;
      var o := QuotaBreaks(files, dir, policy, now, order, own, f, g);
    }
  }
}
