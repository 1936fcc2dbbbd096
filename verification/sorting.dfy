/**
 * Collections.sort on a list, as used by Cup (dice by face) and by
 * Cup.getSortedTrueBids (bids by Bid.compareTo): a sorted permutation of the
 * input under a total preorder given as `leq`.
 */
module Sorting {

  ghost predicate TotalPreorder<T(!new)>(leq: (T, T) -> bool) {
    && (forall a, b :: leq(a, b) || leq(b, a))
    && (forall a, b, c :: leq(a, b) && leq(b, c) ==> leq(a, c))
  }

  predicate SortedBy<T>(s: seq<T>, leq: (T, T) -> bool) {
    forall i, j :: 0 <= i < j < |s| ==> leq(s[i], s[j])
  }

  /** `leq` identifies no two different elements of `s`. */
  ghost predicate AntisymmetricOn<T>(s: seq<T>, leq: (T, T) -> bool) {
    forall a, b :: a in s && b in s && leq(a, b) && leq(b, a) ==> a == b
  }

  /** Places `x` after every element of the sorted `s` that is not greater than it. */
  method Insert<T(!new)>(s: seq<T>, x: T, leq: (T, T) -> bool) returns (r: seq<T>)
    requires TotalPreorder(leq)
    requires SortedBy(s, leq)
    ensures SortedBy(r, leq)
    ensures multiset(r) == multiset(s) + multiset{x}
  {
    var j := |s|;
    while j > 0 && !leq(s[j - 1], x)
      invariant 0 <= j <= |s|
      invariant forall k :: j <= k < |s| ==> !leq(s[k], x)
    {
      j := j - 1;
    }
    r := s[..j] + [x] + s[j..];
    InsertSorted(s, x, j, leq);
    assert s == s[..j] + s[j..];
  }

  /** `x` fits at position j of the sorted `s` when it is not below s[j - 1] and below all from j on. */
  lemma InsertSorted<T(!new)>(s: seq<T>, x: T, j: nat, leq: (T, T) -> bool)
    requires TotalPreorder(leq) && SortedBy(s, leq) && j <= |s|
    requires j > 0 ==> leq(s[j - 1], x)
    requires forall k :: j <= k < |s| ==> !leq(s[k], x)
    ensures SortedBy(s[..j] + [x] + s[j..], leq)
  {
    var r := s[..j] + [x] + s[j..];
    forall p, q | 0 <= p < q < |r|
      ensures leq(r[p], r[q])
    {
      if q < j {
        assert r[p] == s[p] && r[q] == s[q];
      } else if q == j {
        assert r[p] == s[p];
        if p < j - 1 {
          assert leq(s[p], s[j - 1]);
        }
      } else if p == j {
        assert r[q] == s[q - 1] && !leq(s[q - 1], x);
      } else if p < j {
        assert r[p] == s[p] && r[q] == s[q - 1];
      } else {
        assert r[p] == s[p - 1] && r[q] == s[q - 1];
      }
    }
  }

  /** Insertion sort: stable, like the merge sort behind Collections.sort. */
  method SortBy<T(!new)>(s: seq<T>, leq: (T, T) -> bool) returns (r: seq<T>)
    requires TotalPreorder(leq)
    ensures SortedBy(r, leq)
    ensures multiset(r) == multiset(s)
  {
    r := [];
    for i := 0 to |s|
      invariant SortedBy(r, leq)
      invariant multiset(r) == multiset(s[..i])
    {
      assert s[..i + 1] == s[..i] + [s[i]];
      r := Insert(r, s[i], leq);
    }
    assert s[..|s|] == s;
  }

  /**
   * A sorted permutation is unique once `leq` tells apart all the elements
   * involved: every stable or unstable sort yields the same list.
   */
  lemma {:induction false} SortedPermutationUnique<T>(a: seq<T>, b: seq<T>, leq: (T, T) -> bool)
    requires SortedBy(a, leq) && SortedBy(b, leq)
    requires multiset(a) == multiset(b)
    requires AntisymmetricOn(a, leq)
    ensures a == b
    decreases |a|
  {
    assert |b| == |multiset(b)| == |multiset(a)| == |a|;
    if a != [] {
      HeadsEqual(a, b, leq);
      TailsPermuted(a, b);
      AntisymmetricOnTail(a, leq);
      SortedPermutationUnique(a[1..], b[1..], leq);
      assert a == [a[0]] + a[1..];
      assert b == [b[0]] + b[1..];
    }
  }

  lemma HeadsEqual<T>(a: seq<T>, b: seq<T>, leq: (T, T) -> bool)
    requires SortedBy(a, leq) && SortedBy(b, leq)
    requires multiset(a) == multiset(b) && |a| > 0
    requires AntisymmetricOn(a, leq)
    ensures |b| > 0 && a[0] == b[0]
  {
    assert a[0] in multiset(b);
    var m :| 0 <= m < |b| && b[m] == a[0];
    assert b[0] in multiset(a);
    var m' :| 0 <= m' < |a| && a[m'] == b[0];
  }

  lemma TailsPermuted<T>(a: seq<T>, b: seq<T>)
    requires multiset(a) == multiset(b) && |a| > 0 && |b| > 0 && a[0] == b[0]
    ensures multiset(a[1..]) == multiset(b[1..])
  {
    assert a == [a[0]] + a[1..];
    assert b == [b[0]] + b[1..];
    assert multiset(a[1..]) == multiset(a) - multiset{a[0]};
    assert multiset(b[1..]) == multiset(b) - multiset{b[0]};
  }

  lemma AntisymmetricOnTail<T>(a: seq<T>, leq: (T, T) -> bool)
    requires AntisymmetricOn(a, leq) && |a| > 0
    ensures AntisymmetricOn(a[1..], leq)
  {
    forall x, y | x in a[1..] && y in a[1..] && leq(x, y) && leq(y, x)
      ensures x == y
    {
      assert x in a && y in a;
    }
  }
}
