/**
 * Python's list.sort and sorted() with a key: a stable sort. A key comparison is
 * passed as `le`, with le(a, b) meaning "a may come before b"; a descending sort
 * (reverse=True) passes the flipped comparison. Python guarantees that reverse=True
 * keeps equal keys in their original order, so both directions are the same stable sort.
 */
module Sorting {

  /** Total and transitive: the order a sort key induces. */
  ghost predicate TotalPreorder<T(!new)>(le: (T, T) -> bool) {
    && (forall a, b :: le(a, b) || le(b, a))
    && (forall a, b, c :: le(a, b) && le(b, c) ==> le(a, c))
  }

  ghost predicate Sorted<T(!new)>(s: seq<T>, le: (T, T) -> bool) {
    forall i, j :: 0 <= i < j < |s| ==> le(s[i], s[j])
  }

  /** Equal keys: neither element has to come first. */
  predicate Tied<T(!new)>(a: T, b: T, le: (T, T) -> bool) {
    le(a, b) && le(b, a)
  }

  /** Places x after every element of s that may come before it. */
  function Insert<T(!new)>(x: T, s: seq<T>, le: (T, T) -> bool): (r: seq<T>)
    ensures multiset(r) == multiset(s) + multiset{x}
    ensures |r| == |s| + 1
  {
    if s == [] then [x]
    else if le(s[0], x) then
      assert s == [s[0]] + s[1..];
      [s[0]] + Insert(x, s[1..], le)
    else [x] + s
  }

  /** Insertion sort, taking the elements in their input order. */
  function StableSort<T(!new)>(s: seq<T>, le: (T, T) -> bool): (r: seq<T>)
    ensures multiset(r) == multiset(s)
    ensures |r| == |s|
  {
    if s == [] then []
    else
      assert s == s[..|s| - 1] + [s[|s| - 1]];
      Insert(s[|s| - 1], StableSort(s[..|s| - 1], le), le)
  }

  lemma {:induction false} InsertSorted<T(!new)>(x: T, s: seq<T>, le: (T, T) -> bool)
    requires TotalPreorder(le) && Sorted(s, le)
    ensures Sorted(Insert(x, s, le), le)
  {
    if s == [] {
    } else if le(s[0], x) {
      var t := Insert(x, s[1..], le);
      TailSorted(s, le);
      InsertSorted(x, s[1..], le);
      InsertMembers(x, s[1..], le);
      forall y | y in t ensures le(s[0], y) {
        if y != x {
          assert y in s;
          SortedHeadFirst(s, le, y);
        }
      }
      ConsSorted(s[0], t, le);
    } else {
      forall y | y in s ensures le(x, y) {
        SortedHeadFirst(s, le, y);
      }
      ConsSorted(x, s, le);
    }
  }

  /** Insert adds x and nothing else. */
  lemma {:induction false} InsertMembers<T(!new)>(x: T, s: seq<T>, le: (T, T) -> bool)
    ensures forall y <- Insert(x, s, le) :: y == x || y in s
  {
    if s != [] && le(s[0], x) {
      InsertMembers(x, s[1..], le);
      assert forall y <- s[1..] :: y in s;
    }
  }

  /** An element that may come before every element of a sorted sequence may head it. */
  lemma ConsSorted<T(!new)>(h: T, t: seq<T>, le: (T, T) -> bool)
    requires Sorted(t, le) && forall y <- t :: le(h, y)
    ensures Sorted([h] + t, le)
  {
    var r := [h] + t;
    forall i, j | 0 <= i < j < |r| ensures le(r[i], r[j]) {
      assert r[j] == t[j - 1] && r[j] in t;
      if i > 0 {
        assert r[i] == t[i - 1];
      }
    }
  }

  /** The sort's output is ordered by `le`. */
  lemma {:induction false} SortSorted<T(!new)>(s: seq<T>, le: (T, T) -> bool)
    requires TotalPreorder(le)
    ensures Sorted(StableSort(s, le), le)
  {
    if s != [] {
      SortSorted(s[..|s| - 1], le);
      InsertSorted(s[|s| - 1], StableSort(s[..|s| - 1], le), le);
    }
  }

  /** The elements of s tied with k, in their order in s. */
  ghost function Peers<T(!new)>(s: seq<T>, k: T, le: (T, T) -> bool): seq<T>
  {
    if s == [] then [] else (if Tied(s[0], k, le) then [s[0]] else []) + Peers(s[1..], k, le)
  }

  lemma {:induction false} PeersAppend<T(!new)>(a: seq<T>, b: seq<T>, k: T, le: (T, T) -> bool)
    ensures Peers(a + b, k, le) == Peers(a, k, le) + Peers(b, k, le)
  {
    ConcatParts(a, b);
    if a != [] {
      var head := if Tied(a[0], k, le) then [a[0]] else [];
      calc {
        Peers(a + b, k, le);
        head + Peers(a[1..] + b, k, le);
        { PeersAppend(a[1..], b, k, le); }
        head + (Peers(a[1..], k, le) + Peers(b, k, le));
        { ConcatAssociative(head, Peers(a[1..], k, le), Peers(b, k, le)); }
        (head + Peers(a[1..], k, le)) + Peers(b, k, le);
        Peers(a, k, le) + Peers(b, k, le);
      }
    }
  }

  /** The head and tail of a concatenation. */
  lemma ConcatParts<T>(a: seq<T>, b: seq<T>)
    ensures a == [] ==> a + b == b
    ensures a != [] ==> (a + b)[0] == a[0] && (a + b)[1..] == a[1..] + b
  {
    if a == [] {
      assert a + b == b;
    } else {
      assert (a + b)[1..] == a[1..] + b;
    }
  }

  lemma {:induction false} InsertPeers<T(!new)>(x: T, s: seq<T>, k: T, le: (T, T) -> bool)
    requires TotalPreorder(le) && Sorted(s, le)
    ensures Peers(Insert(x, s, le), k, le) == Peers(s, k, le) + Peers([x], k, le)
    decreases |s|, 1
  {
    if s == [] {
      assert Insert(x, s, le) == [x];
    } else if le(s[0], x) {
      InsertPeersBehind(x, s, k, le);
    } else {
      InsertPeersBefore(x, s, k, le);
    }
  }

  lemma {:induction false} InsertPeersBehind<T(!new)>(x: T, s: seq<T>, k: T, le: (T, T) -> bool)
    requires TotalPreorder(le) && Sorted(s, le) && s != [] && le(s[0], x)
    ensures Peers(Insert(x, s, le), k, le) == Peers(s, k, le) + Peers([x], k, le)
    decreases |s|, 0
  {
    var t := Insert(x, s[1..], le);
    var p0, px := Peers([s[0]], k, le), Peers([x], k, le);
    calc {
      Peers(Insert(x, s, le), k, le);
      { assert Insert(x, s, le) == [s[0]] + t; }
      Peers([s[0]] + t, k, le);
      { PeersAppend([s[0]], t, k, le); }
      p0 + Peers(t, k, le);
      { TailSorted(s, le); InsertPeers(x, s[1..], k, le); }
      p0 + (Peers(s[1..], k, le) + px);
      { ConcatAssociative(p0, Peers(s[1..], k, le), px); }
      (p0 + Peers(s[1..], k, le)) + px;
      { PeersAppend([s[0]], s[1..], k, le); }
      Peers([s[0]] + s[1..], k, le) + px;
      { assert [s[0]] + s[1..] == s; }
      Peers(s, k, le) + px;
    }
  }

  lemma ConcatAssociative<T>(a: seq<T>, b: seq<T>, c: seq<T>)
    ensures a + (b + c) == (a + b) + c
  {
  }

  lemma InsertPeersBefore<T(!new)>(x: T, s: seq<T>, k: T, le: (T, T) -> bool)
    requires TotalPreorder(le) && Sorted(s, le) && s != [] && !le(s[0], x)
    ensures Peers(Insert(x, s, le), k, le) == Peers(s, k, le) + Peers([x], k, le)
  {
    assert Insert(x, s, le) == [x] + s;
    PeersAppend([x], s, k, le);
    if Tied(x, k, le) {
      NoPeersAbove(x, s, k, le);
      assert Peers(s, k, le) + Peers([x], k, le) == Peers([x], k, le) + Peers(s, k, le);
    } else {
      assert Peers([x], k, le) == [] + Peers([], k, le) == [];
      assert Peers(s, k, le) + Peers([x], k, le) == Peers([x], k, le) + Peers(s, k, le);
    }
  }

  /** When x sorts strictly before the head of a sorted s, no element of s is tied with x's peers. */
  lemma {:induction false} NoPeersAbove<T(!new)>(x: T, s: seq<T>, k: T, le: (T, T) -> bool)
    requires TotalPreorder(le) && Sorted(s, le)
    requires s != [] && !le(s[0], x) && Tied(x, k, le)
    ensures Peers(s, k, le) == []
  {
    assert !Tied(s[0], k, le);
    if |s| > 1 {
      assert le(s[0], s[1]);
      assert !le(s[1], x);
      TailSorted(s, le);
      NoPeersAbove(x, s[1..], k, le);
    }
  }

  /** Stability: elements with equal keys keep their input order. */
  lemma {:induction false} SortStable<T(!new)>(s: seq<T>, k: T, le: (T, T) -> bool)
    requires TotalPreorder(le)
    ensures Peers(StableSort(s, le), k, le) == Peers(s, k, le)
  {
    if s != [] {
      var init, last := s[..|s| - 1], s[|s| - 1];
      SortStable(init, k, le);
      SortSorted(init, le);
      InsertPeers(last, StableSort(init, le), k, le);
      SplitLast(s);
      PeersAppend(init, [last], k, le);
    }
  }

  lemma SplitLast<T>(s: seq<T>)
    requires s != []
    ensures s == s[..|s| - 1] + [s[|s| - 1]]
  {
  }

  /** The first element of a sorted sequence comes before every element. */
  lemma SortedHeadFirst<T(!new)>(s: seq<T>, le: (T, T) -> bool, x: T)
    requires TotalPreorder(le) && Sorted(s, le) && x in s
    ensures le(s[0], x)
  {
    var i :| 0 <= i < |s| && s[i] == x;
    if i == 0 {
      assert le(x, x) || le(x, x);
    }
  }

  /**
   * Two sorted arrangements of the same elements are equal when tied elements are
   * equal: the order in which the elements arrived does not matter.
   */
  lemma {:induction false} SortedUnique<T(!new)>(a: seq<T>, b: seq<T>, le: (T, T) -> bool)
    requires TotalPreorder(le) && Sorted(a, le) && Sorted(b, le)
    requires multiset(a) == multiset(b)
    requires forall x, y :: x in a && y in a && Tied(x, y, le) ==> x == y
    ensures a == b
  {
    SameLength(a, b);
    if a != [] {
      SameHead(a, b, le);
      SameTail(a, b);
      TailSorted(a, le);
      TailSorted(b, le);
      TieFreeTail(a, le);
      SortedUnique(a[1..], b[1..], le);
      ConsEqual(a, b);
    }
  }

  lemma SameLength<T>(a: seq<T>, b: seq<T>)
    requires multiset(a) == multiset(b)
    ensures |a| == |b|
  {
    assert |a| == |multiset(a)| && |b| == |multiset(b)|;
  }

  lemma SameTail<T>(a: seq<T>, b: seq<T>)
    requires a != [] && b != [] && a[0] == b[0] && multiset(a) == multiset(b)
    ensures multiset(a[1..]) == multiset(b[1..])
  {
    MultisetTail(a);
    MultisetTail(b);
  }

  lemma TieFreeTail<T(!new)>(a: seq<T>, le: (T, T) -> bool)
    requires a != [] && forall x, y :: x in a && y in a && Tied(x, y, le) ==> x == y
    ensures forall x, y :: x in a[1..] && y in a[1..] && Tied(x, y, le) ==> x == y
  {
    assert forall x <- a[1..] :: x in a;
  }

  lemma ConsEqual<T>(a: seq<T>, b: seq<T>)
    requires a != [] && b != [] && a[0] == b[0] && a[1..] == b[1..]
    ensures a == b
  {
    assert a == [a[0]] + a[1..] && b == [b[0]] + b[1..];
  }

  lemma SameHead<T(!new)>(a: seq<T>, b: seq<T>, le: (T, T) -> bool)
    requires TotalPreorder(le) && Sorted(a, le) && Sorted(b, le)
    requires multiset(a) == multiset(b) && a != [] && b != []
    requires forall x, y :: x in a && y in a && Tied(x, y, le) ==> x == y
    ensures a[0] == b[0]
  {
    assert b[0] in multiset(a) && a[0] in multiset(b);
    SortedHeadFirst(a, le, b[0]);
    SortedHeadFirst(b, le, a[0]);
    assert a[0] in a && b[0] in a;
    assert Tied(a[0], b[0], le);
  }

  lemma MultisetTail<T>(a: seq<T>)
    requires a != []
    ensures multiset(a[1..]) == multiset(a) - multiset{a[0]}
  {
    assert a == [a[0]] + a[1..];
  }

  lemma TailSorted<T(!new)>(s: seq<T>, le: (T, T) -> bool)
    requires Sorted(s, le) && s != []
    ensures Sorted(s[1..], le)
  {
    forall i, j | 0 <= i < j < |s[1..]| ensures le(s[1..][i], s[1..][j]) {
      assert s[1..][i] == s[i + 1] && s[1..][j] == s[j + 1];
    }
  }

  /** Python's string comparison: lexicographic by code point, a prefix first. */
  predicate StrLe(a: string, b: string) {
    |a| == 0 || (|b| > 0 && (a[0] < b[0] || (a[0] == b[0] && StrLe(a[1..], b[1..]))))
  }

  lemma {:induction false} StrLeTotal(a: string, b: string)
    ensures StrLe(a, b) || StrLe(b, a)
  {
    if |a| > 0 && |b| > 0 && a[0] == b[0] {
      StrLeTotal(a[1..], b[1..]);
    }
  }

  lemma {:induction false} StrLeTransitive(a: string, b: string, c: string)
    requires StrLe(a, b) && StrLe(b, c)
    ensures StrLe(a, c)
  {
    if |a| > 0 && a[0] == b[0] && b[0] == c[0] {
      StrLeTransitive(a[1..], b[1..], c[1..]);
    }
  }

  /** Distinct strings never tie. */
  lemma {:induction false} StrLeAntisymmetric(a: string, b: string)
    requires StrLe(a, b) && StrLe(b, a)
    ensures a == b
  {
    if |a| > 0 {
      StrLeAntisymmetric(a[1..], b[1..]);
      assert a == [a[0]] + a[1..] && b == [b[0]] + b[1..];
    }
  }

  lemma StrLeIsTotalPreorder()
    ensures TotalPreorder(StrLe)
  {
    forall a, b ensures StrLe(a, b) || StrLe(b, a) { StrLeTotal(a, b); }
    forall a, b, c | StrLe(a, b) && StrLe(b, c) ensures StrLe(a, c) { StrLeTransitive(a, b, c); }
  }

  /** [f(x) for x in s]. */
  function Map<A, B>(s: seq<A>, f: A -> B): (r: seq<B>)
    ensures |r| == |s| && forall i :: 0 <= i < |s| ==> r[i] == f(s[i])
  {
    if s == [] then [] else [f(s[0])] + Map(s[1..], f)
  }

  lemma MapIndexwise<A, B>(s: seq<A>, f: A -> B, r: seq<B>)
    requires |r| == |s| && forall i :: 0 <= i < |s| ==> r[i] == f(s[i])
    ensures r == Map(s, f)
  {
  }

  lemma MapAppend<A, B>(a: seq<A>, b: seq<A>, f: A -> B)
    ensures Map(a + b, f) == Map(a, f) + Map(b, f)
  {
    assert forall i :: 0 <= i < |a + b| ==> Map(a + b, f)[i] == (Map(a, f) + Map(b, f))[i];
  }

  /** Mapping two permutations of each other gives two permutations of each other. */
  lemma {:induction false} MapPermutation<A, B>(a: seq<A>, b: seq<A>, f: A -> B)
    requires multiset(a) == multiset(b)
    ensures multiset(Map(a, f)) == multiset(Map(b, f))
  {
    if a == [] {
      assert |b| == |multiset(b)| == 0;
    } else {
      var x := a[0];
      assert x in multiset(b);
      var j :| 0 <= j < |b| && b[j] == x;
      var rest := b[..j] + b[j + 1..];
      MultisetTail(a);
      MultisetRemove(b, j);
      MapPermutation(a[1..], rest, f);
      MapRemove(b, j, f);
      assert Map(a, f) == [f(x)] + Map(a[1..], f);
    }
  }

  lemma MultisetRemove<T>(s: seq<T>, j: nat)
    requires j < |s|
    ensures multiset(s[..j] + s[j + 1..]) == multiset(s) - multiset{s[j]}
  {
    assert s == s[..j] + [s[j]] + s[j + 1..];
  }

  lemma MapRemove<A, B>(s: seq<A>, j: nat, f: A -> B)
    requires j < |s|
    ensures multiset(Map(s, f)) == multiset(Map(s[..j] + s[j + 1..], f)) + multiset{f(s[j])}
  {
    SplitAt(s, j);
    MapMiddle(s[..j], s[j], s[j + 1..], f);
  }

  lemma SplitAt<T>(s: seq<T>, j: nat)
    requires j < |s|
    ensures s == s[..j] + [s[j]] + s[j + 1..]
  {
  }

  lemma MapMiddle<A, B>(front: seq<A>, x: A, back: seq<A>, f: A -> B)
    ensures multiset(Map(front + [x] + back, f)) == multiset(Map(front + back, f)) + multiset{f(x)}
  {
    var fx := f(x);
    MapAppend(front + [x], back, f);
    MapAppend(front, [x], f);
    MapAppend(front, back, f);
    assert Map([x], f) == [fx];
    var mf, mb := Map(front, f), Map(back, f);
    calc {
      multiset(Map(front + [x] + back, f));
      multiset((mf + [fx]) + mb);
      multiset(mf) + multiset{fx} + multiset(mb);
      multiset(mf + mb) + multiset{fx};
    }
  }
}
