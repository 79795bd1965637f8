/**
 * Python's `sorted(xs, key=f)`: a stable sort by a key whose comparison is
 * a total preorder. Here `leq(a, b)` says that the key of `a` is not greater
 * than the key of `b`; two elements are peers when each is `leq` the other.
 * The sort is computed by insertion; any stable sort gives the same list
 * (SortUnique).
 */
module Sorting {

  ghost predicate TotalPreorder<T(!new)>(leq: (T, T) -> bool) {
    && (forall a, b :: leq(a, b) || leq(b, a))
    && (forall a, b, c :: leq(a, b) && leq(b, c) ==> leq(a, c))
  }

  ghost predicate SortedBy<T>(s: seq<T>, leq: (T, T) -> bool) {
    forall i, j :: 0 <= i < j < |s| ==> leq(s[i], s[j])
  }

  /** The elements of `s` that are peers of `x`, in their order in `s`. */
  function Peers<T>(s: seq<T>, x: T, leq: (T, T) -> bool): seq<T>
    decreases |s|
  {
    if s == [] then []
    else (if leq(s[0], x) && leq(x, s[0]) then [s[0]] else []) + Peers(s[1..], x, leq)
  }

  /** Every element of Peers(s, x) is an element of `s` and a peer of `x`. */
  lemma {:induction false} PeersMembers<T>(s: seq<T>, x: T, leq: (T, T) -> bool, y: T)
    requires y in Peers(s, x, leq)
    ensures y in s && leq(y, x) && leq(x, y)
    decreases |s|
  {
    if !(leq(s[0], x) && leq(x, s[0]) && y == s[0]) {
      PeersMembers(s[1..], x, leq, y);
    }
  }

  /** Inserts `x` before the first element of `s` that it is `leq` to. */
  function Insert<T>(x: T, s: seq<T>, leq: (T, T) -> bool): (r: seq<T>)
    ensures |r| == |s| + 1
    ensures multiset(r) == multiset(s) + multiset{x}
    decreases |s|
  {
    if s == [] then [x]
    else if leq(x, s[0]) then [x] + s
    else
      assert s == [s[0]] + s[1..];
      [s[0]] + Insert(x, s[1..], leq)
  }

  /** An element that is `leq` every element of a sorted list can go in front of it. */
  lemma SortedCons<T>(y: T, r: seq<T>, leq: (T, T) -> bool)
    requires SortedBy(r, leq)
    requires forall j :: 0 <= j < |r| ==> leq(y, r[j])
    ensures SortedBy([y] + r, leq)
  {
    var yr := [y] + r;
    forall i, j | 0 <= i < j < |yr| ensures leq(yr[i], yr[j]) {
      if i > 0 {
        assert yr[i] == r[i - 1] && yr[j] == r[j - 1];
      }
    }
  }

  lemma {:induction false} InsertSorted<T(!new)>(x: T, s: seq<T>, leq: (T, T) -> bool)
    requires TotalPreorder(leq) && SortedBy(s, leq)
    ensures SortedBy(Insert(x, s, leq), leq)
    decreases |s|
  {
    if s == [] {
    } else if leq(x, s[0]) {
      SortedCons(x, s, leq);
    } else {
      var rest := Insert(x, s[1..], leq);
      InsertSorted(x, s[1..], leq);
      forall j | 0 <= j < |rest| ensures leq(s[0], rest[j]) {
        assert rest[j] in multiset(rest);
      }
      SortedCons(s[0], rest, leq);
    }
  }

  /** Two elements that are not peers are not both peers of `z`. */
  lemma NotBothPeers<T(!new)>(x: T, h: T, z: T, leq: (T, T) -> bool)
    requires TotalPreorder(leq) && !leq(x, h)
    ensures !(leq(x, z) && leq(z, x) && leq(h, z) && leq(z, h))
  {
  }

  lemma PeersCons<T>(t: T, s: seq<T>, z: T, leq: (T, T) -> bool)
    ensures Peers([t] + s, z, leq) == (if leq(t, z) && leq(z, t) then [t] else []) + Peers(s, z, leq)
  {
    assert ([t] + s)[1..] == s;
  }

  /** The step of InsertStable where `x` goes behind the first element `h`. */
  lemma PeersBehind<T>(x: T, h: T, t: seq<T>, rest: seq<T>, z: T, leq: (T, T) -> bool)
    requires !(leq(x, z) && leq(z, x) && leq(h, z) && leq(z, h))
    requires Peers(rest, z, leq) == (if leq(x, z) && leq(z, x) then [x] else []) + Peers(t, z, leq)
    ensures Peers([h] + rest, z, leq) == (if leq(x, z) && leq(z, x) then [x] else []) + Peers([h] + t, z, leq)
  {
    PeersCons(h, rest, z, leq);
    PeersCons(h, t, z, leq);
  }

  /** Inserting puts `x` in front of its peers and keeps every peer group's order. */
  lemma {:induction false} InsertStable<T(!new)>(x: T, s: seq<T>, z: T, leq: (T, T) -> bool)
    requires TotalPreorder(leq)
    ensures Peers(Insert(x, s, leq), z, leq) ==
            (if leq(x, z) && leq(z, x) then [x] else []) + Peers(s, z, leq)
    decreases |s|
  {
    if s == [] {
    } else if leq(x, s[0]) {
      assert ([x] + s)[1..] == s;
    } else {
      var h, t := s[0], s[1..];
      InsertStable(x, t, z, leq);
      NotBothPeers(x, h, z, leq);
      PeersBehind(x, h, t, Insert(x, t, leq), z, leq);
      assert s == [h] + t;
    }
  }

  /** Inserting the first element into the sorted rest sorts the whole list. */
  lemma SortStep<T(!new)>(s: seq<T>, rest: seq<T>, leq: (T, T) -> bool)
    requires TotalPreorder(leq) && s != []
    requires SortedBy(rest, leq) && multiset(rest) == multiset(s[1..])
    ensures SortedBy(Insert(s[0], rest, leq), leq)
    ensures multiset(Insert(s[0], rest, leq)) == multiset(s)
  {
    InsertSorted(s[0], rest, leq);
    assert s == [s[0]] + s[1..];
  }

  /** `sorted(s, key=...)`: the same elements, in non-decreasing order. */
  function Sort<T(!new)>(s: seq<T>, leq: (T, T) -> bool): (r: seq<T>)
    requires TotalPreorder(leq)
    ensures multiset(r) == multiset(s) && |r| == |s|
    ensures SortedBy(r, leq)
    decreases |s|
  {
    if s == [] then []
    else
      var rest := Sort(s[1..], leq);
      SortStep(s, rest, leq);
      Insert(s[0], rest, leq)
  }

  /** The sort is stable: every peer group keeps its input order. */
  lemma {:induction false} SortStable<T(!new)>(s: seq<T>, z: T, leq: (T, T) -> bool)
    requires TotalPreorder(leq)
    ensures Peers(Sort(s, leq), z, leq) == Peers(s, z, leq)
    decreases |s|
  {
    if s != [] {
      SortStable(s[1..], z, leq);
      InsertStable(s[0], Sort(s[1..], leq), z, leq);
    }
  }

  /** In a sorted list, a peer of `z` is preceded only by elements `leq` to `z`. */
  lemma SortedHeadBelowPeers<T(!new)>(s: seq<T>, z: T, leq: (T, T) -> bool)
    requires TotalPreorder(leq) && SortedBy(s, leq) && Peers(s, z, leq) != []
    ensures leq(s[0], z)
  {
    var p := Peers(s, z, leq);
    PeersMembers(s, z, leq, p[0]);
    var j :| 0 <= j < |s| && s[j] == p[0];
    assert j == 0 || leq(s[0], s[j]);
  }

  lemma PeersHead<T(!new)>(s: seq<T>, z: T, leq: (T, T) -> bool)
    requires TotalPreorder(leq) && s != [] && leq(s[0], z) && leq(z, s[0])
    ensures Peers(s, z, leq) != [] && Peers(s, z, leq)[0] == s[0]
    ensures Peers(s[1..], z, leq) == Peers(s, z, leq)[1..]
  {
  }

  /** Lists with the same first element and the same peers of `z` keep them after that element. */
  lemma PeersTails<T>(a: seq<T>, b: seq<T>, z: T, leq: (T, T) -> bool)
    requires a != [] && b != [] && a[0] == b[0]
    requires Peers(a, z, leq) == Peers(b, z, leq)
    ensures Peers(a[1..], z, leq) == Peers(b[1..], z, leq)
  {
    if leq(a[0], z) && leq(z, a[0]) {
      assert Peers(a, z, leq) == [a[0]] + Peers(a[1..], z, leq);
      assert Peers(b, z, leq) == [b[0]] + Peers(b[1..], z, leq);
      assert Peers(a[1..], z, leq) == Peers(a, z, leq)[1..];
    } else {
      assert Peers(a, z, leq) == Peers(a[1..], z, leq);
    }
  }

  /** Two sorted lists with the same peer groups are equal. */
  lemma {:induction false} SortedPeersEqual<T(!new)>(a: seq<T>, b: seq<T>, leq: (T, T) -> bool)
    requires TotalPreorder(leq) && SortedBy(a, leq) && SortedBy(b, leq)
    requires forall z :: Peers(a, z, leq) == Peers(b, z, leq)
    ensures a == b
    decreases |a|
  {
    if a == [] || b == [] {
      if a != [] {
        PeersHead(a, a[0], leq);
      } else if b != [] {
        PeersHead(b, b[0], leq);
      }
    } else {
      PeersHead(a, a[0], leq);
      SortedHeadBelowPeers(b, a[0], leq);
      PeersHead(b, b[0], leq);
      SortedHeadBelowPeers(a, b[0], leq);
      PeersHead(b, a[0], leq);
      assert a[0] == b[0];
      forall z ensures Peers(a[1..], z, leq) == Peers(b[1..], z, leq) {
        PeersTails(a, b, z, leq);
      }
      SortedPeersEqual(a[1..], b[1..], leq);
      assert a == [a[0]] + a[1..] && b == [b[0]] + b[1..];
    }
  }

  /**
   * Sortedness and stability determine the result: any sorted arrangement
   * with the peer groups of `s` in input order is Sort(s).
   */
  lemma SortUnique<T(!new)>(s: seq<T>, r: seq<T>, leq: (T, T) -> bool)
    requires TotalPreorder(leq) && SortedBy(r, leq)
    requires forall z :: Peers(r, z, leq) == Peers(s, z, leq)
    ensures r == Sort(s, leq)
  {
    forall z ensures Peers(r, z, leq) == Peers(Sort(s, leq), z, leq) {
      SortStable(s, z, leq);
    }
    SortedPeersEqual(r, Sort(s, leq), leq);
  }
}
