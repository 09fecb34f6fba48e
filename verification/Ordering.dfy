/** Stable sorting by a two-level key.

Every ordering in the engine is a number with an identifier as tie-break: wall time and
worker id, access time and hash, negated score and worker id. `SortBy` is the library
sort those orderings are given to; it keeps equal keys in their original order. */
module Ordering {
  datatype Rank = Rank(primary: real, tie: int)

  predicate Precedes(a: Rank, b: Rank) {
    a.primary < b.primary || (a.primary == b.primary && a.tie <= b.tie)
  }

  predicate SortedBy<T>(key: T -> Rank, s: seq<T>) {
    forall i, j :: 0 <= i < j < |s| ==> Precedes(key(s[i]), key(s[j]))
  }

  function Insert<T>(key: T -> Rank, x: T, s: seq<T>): (r: seq<T>)
    ensures |r| == |s| + 1
  {
    if s == [] || Precedes(key(x), key(s[0])) then [x] + s else [s[0]] + Insert(key, x, s[1..])
  }

  function SortBy<T>(key: T -> Rank, s: seq<T>): (r: seq<T>)
    ensures |r| == |s|
  {
    if s == [] then [] else Insert(key, s[0], SortBy(key, s[1..]))
  }

  lemma {:induction false} InsertKeeps<T>(key: T -> Rank, x: T, s: seq<T>)
    requires SortedBy(key, s)
    ensures SortedBy(key, Insert(key, x, s))
    ensures multiset(Insert(key, x, s)) == multiset{x} + multiset(s)
  {
    if s == [] || Precedes(key(x), key(s[0])) {
    } else {
      assert s == [s[0]] + s[1..];
      InsertKeeps(key, x, s[1..]);
      var r := Insert(key, x, s[1..]);
      forall j | 0 <= j < |r| ensures Precedes(key(s[0]), key(r[j])) {
        assert r[j] in multiset(r);
        assert r[j] == x || r[j] in s[1..];
      }
    }
  }

  // The sort returns the same elements in order, whatever the input.
  lemma {:induction false} SortBySorts<T>(key: T -> Rank, s: seq<T>)
    ensures SortedBy(key, SortBy(key, s))
    ensures multiset(SortBy(key, s)) == multiset(s)
  {
    if s != [] {
      assert s == [s[0]] + s[1..];
      SortBySorts(key, s[1..]);
      InsertKeeps(key, s[0], SortBy(key, s[1..]));
    }
  }

  // The elements with a given key, in their order.
  function Tied<T>(key: T -> Rank, k: Rank, s: seq<T>): seq<T> {
    if s == [] then [] else (if key(s[0]) == k then [s[0]] else []) + Tied(key, k, s[1..])
  }

  lemma {:induction false} InsertStable<T>(key: T -> Rank, x: T, s: seq<T>, k: Rank)
    requires SortedBy(key, s)
    ensures Tied(key, k, Insert(key, x, s)) == (if key(x) == k then [x] else []) + Tied(key, k, s)
  {
    if s == [] || Precedes(key(x), key(s[0])) {
      assert ([x] + s)[1..] == s;
    } else {
      InsertStable(key, x, s[1..], k);
      var r := Insert(key, x, s[1..]);
      assert ([s[0]] + r)[1..] == r;
      assert key(x) != key(s[0]);
    }
  }

  // Elements with equal keys keep the order they came in.
  lemma {:induction false} SortByStable<T>(key: T -> Rank, s: seq<T>, k: Rank)
    ensures Tied(key, k, SortBy(key, s)) == Tied(key, k, s)
  {
    if s != [] {
      SortByStable(key, s[1..], k);
      SortBySorts(key, s[1..]);
      InsertStable(key, s[0], SortBy(key, s[1..]), k);
    }
  }

  // No two elements share a key.
  ghost predicate NoTies<T>(key: T -> Rank, a: seq<T>) {
    forall x, y :: x in a && y in a && key(x) == key(y) ==> x == y
  }

  lemma SameHead<T>(key: T -> Rank, a: seq<T>, b: seq<T>)
    requires a != [] && b != [] && SortedBy(key, a) && SortedBy(key, b)
    requires multiset(a) == multiset(b)
    requires NoTies(key, a)
    ensures a[0] == b[0]
  {
    assert a[0] in multiset(b) && b[0] in multiset(a);
    assert Precedes(key(a[0]), key(b[0])) && Precedes(key(b[0]), key(a[0]));
  }

  lemma SameTail<T>(a: seq<T>, b: seq<T>)
    requires a != [] && b != [] && a[0] == b[0] && multiset(a) == multiset(b)
    ensures multiset(a[1..]) == multiset(b[1..])
  {
    assert a == [a[0]] + a[1..] && b == [b[0]] + b[1..];
    assert multiset(a[1..]) == multiset(a) - multiset{a[0]};
  }

  lemma NoTiesInTail<T>(key: T -> Rank, a: seq<T>)
    requires a != [] && NoTies(key, a)
    ensures NoTies(key, a[1..])
  {
    assert forall x :: x in a[1..] ==> x in a;
  }

  // Two ordered arrangements of the same elements coincide when no two elements tie.
  lemma {:induction false} SortedUnique<T>(key: T -> Rank, a: seq<T>, b: seq<T>)
    requires SortedBy(key, a) && SortedBy(key, b)
    requires multiset(a) == multiset(b)
    requires NoTies(key, a)
    ensures a == b
  {
    if a == [] {
      assert |multiset(b)| == 0;
    } else {
      assert |multiset(b)| == |multiset(a)| > 0;
      SameHead(key, a, b);
      SameTail(a, b);
      NoTiesInTail(key, a);
      SortedUnique(key, a[1..], b[1..]);
      assert a == [a[0]] + a[1..] && b == [b[0]] + b[1..];
    }
  }

  function Keys<T>(key: T -> Rank, s: seq<T>): (r: seq<Rank>)
    ensures |r| == |s| && forall i :: 0 <= i < |s| ==> r[i] == key(s[i])
  {
    seq(|s|, i requires 0 <= i < |s| => key(s[i]))
  }

  function Without<T>(s: seq<T>, j: nat): seq<T>
    requires j < |s|
  {
    s[..j] + s[j + 1..]
  }

  lemma WithoutOne<T>(s: seq<T>, j: nat)
    requires j < |s|
    ensures multiset(s) == multiset(Without(s, j)) + multiset{s[j]}
    ensures multiset(Without(s, j)) == multiset(s) - multiset{s[j]}
  {
    assert s == s[..j] + [s[j]] + s[j + 1..];
  }

  lemma KeysWithout<T>(key: T -> Rank, s: seq<T>, j: nat)
    requires j < |s|
    ensures multiset(Keys(key, s)) == multiset(Keys(key, Without(s, j))) + multiset{key(s[j])}
  {
    WithoutOne(Keys(key, s), j);
    assert Without(Keys(key, s), j) == Keys(key, Without(s, j));
  }

  lemma {:induction false} KeysPermute<T>(key: T -> Rank, a: seq<T>, b: seq<T>)
    requires multiset(a) == multiset(b)
    ensures multiset(Keys(key, a)) == multiset(Keys(key, b))
  {
    if a == [] {
      assert |multiset(b)| == 0;
    } else {
      assert a[0] in multiset(b);
      var j :| 0 <= j < |b| && b[j] == a[0];
      WithoutOne(b, j);
      WithoutOne(a, 0);
      KeysPermute(key, Without(a, 0), Without(b, j));
      KeysWithout(key, a, 0);
      KeysWithout(key, b, j);
    }
  }

  // Ties may be broken either way, but the sequence of keys is the same.
  lemma SortedKeysUnique<T>(key: T -> Rank, a: seq<T>, b: seq<T>)
    requires SortedBy(key, a) && SortedBy(key, b)
    requires multiset(a) == multiset(b)
    ensures Keys(key, a) == Keys(key, b)
  {
    KeysPermute(key, a, b);
    var id := (r: Rank) => r;
    assert SortedBy(id, Keys(key, a)) && SortedBy(id, Keys(key, b));
    SortedUnique(id, Keys(key, a), Keys(key, b));
  }

  predicate Distinct<T(==)>(s: seq<T>) {
    forall i, j :: 0 <= i < j < |s| ==> s[i] != s[j]
  }

  lemma {:induction false} DistinctCountsOnce<T>(s: seq<T>, x: T)
    requires Distinct(s)
    ensures multiset(s)[x] == if x in s then 1 else 0
  {
    if s != [] {
      assert s == [s[0]] + s[1..];
      DistinctCountsOnce(s[1..], x);
      assert s[0] !in s[1..];
    }
  }

  // Two duplicate-free lists of the same elements are permutations of each other.
  lemma DistinctPermutation<T>(a: seq<T>, b: seq<T>)
    requires Distinct(a) && Distinct(b)
    requires forall x :: x in a <==> x in b
    ensures multiset(a) == multiset(b)
  {
    forall x ensures multiset(a)[x] == multiset(b)[x] {
      DistinctCountsOnce(a, x);
      DistinctCountsOnce(b, x);
    }
  }

  lemma PermutationDistinct<T>(a: seq<T>, b: seq<T>)
    requires multiset(a) == multiset(b) && Distinct(a)
    ensures Distinct(b)
  {
    forall i, j | 0 <= i < j < |b| ensures b[i] != b[j] {
      DistinctCountsOnce(a, b[i]);
      WithoutOne(b, j);
      assert Without(b, j)[i] == b[i];
      assert b[i] in multiset(Without(b, j));
    }
  }

  function Elements<T(==)>(s: seq<T>): set<T> {
    set x | x in s
  }
}
