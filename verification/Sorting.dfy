/** Sorting and de-duplication: `sort.Slice`, `sortedUnique`, `uniqueIDs` and `mapKeys`. */
module Sorting {
  import opened Prelude

  ghost predicate SortedBy<T>(s: seq<T>, key: T -> int) {
    forall i, j :: 0 <= i < j < |s| ==> key(s[i]) <= key(s[j])
  }

  /** Elements of `s` with the same key are the same element. */
  ghost predicate KeyDetermines<T>(s: seq<T>, key: T -> int) {
    forall x, y :: x in s && y in s && key(x) == key(y) ==> x == y
  }

  ghost predicate Ascending(s: seq<int>) {
    forall i, j :: 0 <= i < j < |s| ==> s[i] < s[j]
  }

  function InsertBy<T>(x: T, s: seq<T>, key: T -> int): seq<T> {
    if s == [] || key(x) <= key(s[0]) then [x] + s else [s[0]] + InsertBy(x, s[1..], key)
  }

  function SortBy<T>(s: seq<T>, key: T -> int): seq<T> {
    if s == [] then [] else InsertBy(s[0], SortBy(s[1..], key), key)
  }

  lemma {:induction false} InsertByAdds<T>(x: T, s: seq<T>, key: T -> int)
    ensures multiset(InsertBy(x, s, key)) == multiset{x} + multiset(s)
  {
    if s != [] && key(x) > key(s[0]) {
      InsertByAdds(x, s[1..], key);
      assert s == [s[0]] + s[1..];
    }
  }

  lemma {:induction false} InsertBySorts<T>(x: T, s: seq<T>, key: T -> int)
    requires SortedBy(s, key)
    ensures SortedBy(InsertBy(x, s, key), key)
  {
    var r := InsertBy(x, s, key);
    if s != [] && key(x) > key(s[0]) {
      var rest := InsertBy(x, s[1..], key);
      InsertBySorts(x, s[1..], key);
      InsertByAdds(x, s[1..], key);
      forall j | 0 <= j < |rest| ensures key(s[0]) <= key(rest[j]) {
        assert rest[j] in multiset(rest);
        if rest[j] != x {
          assert rest[j] in s[1..];
          var k :| 0 <= k < |s[1..]| && s[1..][k] == rest[j];
          assert key(s[0]) <= key(s[k + 1]);
        }
      }
      forall i, j | 0 <= i < j < |r| ensures key(r[i]) <= key(r[j]) {
        assert r[j] == rest[j - 1];
        if i > 0 { assert r[i] == rest[i - 1]; }
      }
    } else {
      forall i, j | 0 <= i < j < |r| ensures key(r[i]) <= key(r[j]) {
        assert r[j] == s[j - 1];
        if i > 0 { assert r[i] == s[i - 1]; } else if j > 1 { assert key(s[0]) <= key(s[j - 1]); }
      }
    }
  }

  lemma {:induction false} SortBySorts<T>(s: seq<T>, key: T -> int)
    ensures SortedBy(SortBy(s, key), key)
    ensures multiset(SortBy(s, key)) == multiset(s)
  {
    if s != [] {
      SortBySorts(s[1..], key);
      InsertByAdds(s[0], SortBy(s[1..], key), key);
      InsertBySorts(s[0], SortBy(s[1..], key), key);
      assert s == [s[0]] + s[1..];
    }
  }

  /** Sorting has one answer as soon as equal keys mean equal elements, however the sort treats ties. */
  lemma {:induction false} SortedPermutationUnique<T>(a: seq<T>, b: seq<T>, key: T -> int)
    requires multiset(a) == multiset(b)
    requires SortedBy(a, key) && SortedBy(b, key)
    requires KeyDetermines(a, key)
    ensures a == b
  {
    assert |multiset(a)| == |a| && |multiset(b)| == |b|;
    if a != [] {
      SameHead(a, b, key);
      assert a == [a[0]] + a[1..] && b == [b[0]] + b[1..];
      assert multiset(a[1..]) == multiset(a) - multiset{a[0]};
      assert multiset(b[1..]) == multiset(b) - multiset{b[0]};
      TailFacts(a, key);
      TailFacts(b, key);
      SortedPermutationUnique(a[1..], b[1..], key);
    }
  }

  lemma SameHead<T>(a: seq<T>, b: seq<T>, key: T -> int)
    requires a != [] && b != [] && multiset(a) == multiset(b)
    requires SortedBy(a, key) && SortedBy(b, key)
    requires KeyDetermines(a, key)
    ensures a[0] == b[0]
  {
    assert a[0] in multiset(b) && b[0] in multiset(a);
    var i :| 0 <= i < |b| && b[i] == a[0];
    var j :| 0 <= j < |a| && a[j] == b[0];
    assert key(b[0]) <= key(b[i]) && key(a[0]) <= key(a[j]);
  }

  lemma TailFacts<T>(s: seq<T>, key: T -> int)
    requires s != []
    ensures SortedBy(s, key) ==> SortedBy(s[1..], key)
    ensures KeyDetermines(s, key) ==> KeyDetermines(s[1..], key)
  {
  }

  /** A strictly increasing list is determined by its elements. */
  lemma {:induction false} AscendingUnique(a: seq<int>, b: seq<int>)
    requires Ascending(a) && Ascending(b)
    requires forall x :: x in a <==> x in b
    ensures a == b
  {
    assert b != [] ==> b[0] in b;
    if a == [] {
    } else {
      var first := a[0];
      assert first in a;
      assert first in b;
      assert b[0] in b;
      assert b[0] in a;
      AscendingTail(a);
      AscendingTail(b);
      forall x ensures x in a[1..] <==> x in b[1..] {
        assert x in a[1..] <==> x in a && x != a[0];
      }
      AscendingUnique(a[1..], b[1..]);
      assert a == [a[0]] + a[1..] && b == [b[0]] + b[1..];
    }
  }

  lemma AscendingTail(s: seq<int>)
    requires s != [] && Ascending(s)
    ensures Ascending(s[1..])
    ensures forall x :: x in s[1..] <==> x in s && x != s[0]
    ensures forall x :: x in s ==> s[0] <= x
  {
  }

  function InsertAscending(x: int, s: seq<int>): (r: seq<int>)
    requires Ascending(s)
    ensures Ascending(r)
    ensures forall y :: y in r <==> y == x || y in s
  {
    if s == [] || x < s[0] then [x] + s
    else if x == s[0] then s
    else
      AscendingTail(s);
      var rest := InsertAscending(x, s[1..]);
      assert forall j :: 0 <= j < |rest| ==> rest[j] in rest;
      [s[0]] + rest
  }

  /** The elements of `s`, each once, in increasing order. */
  function AscendingOf(s: seq<int>): (r: seq<int>)
    ensures Ascending(r)
    ensures forall x :: x in r <==> x in s
  {
    if s == [] then [] else
      assert forall x :: x in s <==> x == s[0] || x in s[1..];
      InsertAscending(s[0], AscendingOf(s[1..]))
  }

  /** What `sortedUnique` and `uniqueIDs` keep: the non-zero identifiers, each once, in increasing order. */
  function UniqueIds(values: seq<Id>): (r: seq<Id>)
    ensures Ascending(r)
    ensures forall x :: x in r <==> x in values && x > 0
  {
    if values == [] then [] else
      assert forall x :: x in values <==> x == values[0] || x in values[1..];
      var rest := UniqueIds(values[1..]);
      if values[0] == 0 then rest else
        var all := InsertAscending(values[0], rest);
        assert forall j :: 0 <= j < |all| ==> all[j] in all;
        all
  }

  lemma SameLength<T>(a: seq<T>, b: seq<T>)
    requires multiset(a) == multiset(b)
    ensures |a| == |b|
  {
    assert |multiset(a)| == |a| && |multiset(b)| == |b|;
  }

  /**
   * `sort.Slice`: the slice is reordered in place. The contract leaves the order of equal keys open,
   * because the library's sort is not stable.
   */
  method SortSlice<T>(a: array<T>, key: T -> int)
    modifies a
    ensures multiset(a[..]) == multiset(old(a[..]))
    ensures SortedBy(a[..], key)
  {
    var sorted := SortBy(a[..], key);
    SortBySorts(a[..], key);
    SameLength(sorted, a[..]);
    for i := 0 to a.Length
      invariant forall j :: 0 <= j < i ==> a[j] == sorted[j]
    {
      a[i] := sorted[i];
    }
    assert a[..] == sorted;
  }

  method SortSeq<T>(s: seq<T>, key: T -> int) returns (r: seq<T>)
    ensures multiset(r) == multiset(s) && SortedBy(r, key)
  {
    var a := new T[|s|](i requires 0 <= i < |s| => s[i]);
    assert a[..] == s;
    SortSlice(a, key);
    r := a[..];
  }

  /** The loop shared, line for line, by `sortedUnique` and `uniqueIDs`. */
  method SortedUnique(values: seq<Id>) returns (result: seq<Id>)
    ensures result == UniqueIds(values)
  {
    var seen: set<Id> := {};
    var kept: seq<Id> := [];
    for i := 0 to |values|
      invariant forall x: Id :: x in seen <==> x in values[..i] && x > 0
      invariant forall x: Id :: x in kept <==> x in seen
      invariant forall j, k :: 0 <= j < k < |kept| ==> kept[j] != kept[k]
    {
      var value := values[i];
      assert values[..i + 1] == values[..i] + [value];
      if value > 0 && value !in seen {
        seen := seen + {value};
        kept := kept + [value];
      }
    }
    assert values[..|values|] == values;
    result := SortSeq(kept, (x: Id) => x);
    DistinctSortedIsAscending(kept, result);
    assert forall x :: x in result <==> x in values && x > 0 by {
      forall x: Id ensures x in result <==> x in kept { assert x in multiset(result) <==> x in multiset(kept); }
    }
    AscendingUnique(result, UniqueIds(values));
  }

  lemma {:induction false} DistinctSortedIsAscending(kept: seq<Id>, sorted: seq<Id>)
    requires forall j, k :: 0 <= j < k < |kept| ==> kept[j] != kept[k]
    requires multiset(kept) == multiset(sorted)
    requires SortedBy(sorted, (x: Id) => x)
    ensures Ascending(sorted)
  {
    forall i, j | 0 <= i < j < |sorted| ensures sorted[i] < sorted[j] {
      var key := (x: Id) => x;
      assert key(sorted[i]) <= key(sorted[j]);
      if sorted[i] == sorted[j] {
        TwicePresent(sorted, i, j);
        OncePresent(kept, sorted[i]);
      }
    }
  }

  lemma RemoveAt<T>(s: seq<T>, k: nat)
    requires k < |s|
    ensures multiset(Without(s, k)) == multiset(s) - multiset{s[k]}
  {
    assert s == s[..k] + [s[k]] + s[k + 1..];
  }

  function MapSeq<T, U>(f: T -> U, s: seq<T>): (r: seq<U>)
    ensures |r| == |s|
    ensures forall i :: 0 <= i < |s| ==> r[i] == f(s[i])
  {
    if s == [] then [] else [f(s[0])] + MapSeq(f, s[1..])
  }

  function Without<T>(s: seq<T>, k: nat): seq<T>
    requires k < |s|
  {
    s[..k] + s[k + 1..]
  }

  lemma WithoutTail<T>(s: seq<T>, k: nat)
    requires 0 < k < |s|
    ensures Without(s, k) == [s[0]] + Without(s[1..], k - 1)
  {
  }

  lemma {:induction false} MapWithout<T, U>(f: T -> U, s: seq<T>, k: nat)
    requires k < |s|
    ensures multiset(MapSeq(f, s)) == multiset{f(s[k])} + multiset(MapSeq(f, Without(s, k)))
  {
    if k == 0 {
      assert Without(s, 0) == s[1..];
    } else {
      MapWithout(f, s[1..], k - 1);
      WithoutTail(s, k);
      var m, rest := MapSeq(f, s[1..]), MapSeq(f, Without(s[1..], k - 1));
      assert MapSeq(f, s) == [f(s[0])] + m;
      assert Without(s, k)[1..] == Without(s[1..], k - 1);
      assert MapSeq(f, Without(s, k)) == [f(s[0])] + rest;
    }
  }

  lemma SameRemoved<T>(a: seq<T>, b: seq<T>) returns (k: nat)
    requires multiset(a) == multiset(b) && a != []
    ensures k < |b| && b[k] == a[0] && multiset(Without(a, 0)) == multiset(Without(b, k))
    ensures |Without(a, 0)| < |a|
  {
    assert a[0] in multiset(b);
    k :| 0 <= k < |b| && b[k] == a[0];
    RemoveAt(a, 0);
    RemoveAt(b, k);
  }

  lemma {:induction false} MapPermutation<T, U>(f: T -> U, a: seq<T>, b: seq<T>)
    requires multiset(a) == multiset(b)
    ensures multiset(MapSeq(f, a)) == multiset(MapSeq(f, b))
    decreases |a|
  {
    if a == [] {
      assert |multiset(b)| == |b|;
    } else {
      var k := SameRemoved(a, b);
      MapPermutation(f, Without(a, 0), Without(b, k));
      MapWithout(f, a, 0);
      MapWithout(f, b, k);
    }
  }

  lemma MapKeyDetermines<T, U>(f: T -> U, s: seq<T>, keyT: T -> int, keyU: U -> int)
    requires KeyDetermines(s, keyT)
    requires forall i :: 0 <= i < |s| ==> keyU(f(s[i])) == keyT(s[i])
    ensures KeyDetermines(MapSeq(f, s), keyU)
  {
  }

  lemma PermutedKeyDetermines<T>(a: seq<T>, b: seq<T>, key: T -> int)
    requires multiset(a) == multiset(b) && KeyDetermines(a, key)
    ensures KeyDetermines(b, key)
  {
    forall x, y | x in b && y in b && key(x) == key(y) ensures x == y {
      assert x in multiset(b) && y in multiset(b);
      assert x in a && y in a;
    }
  }

  lemma TwicePresent<T>(s: seq<T>, i: nat, j: nat)
    requires i < j < |s| && s[i] == s[j]
    ensures multiset(s)[s[i]] >= 2
  {
    assert s == s[..i] + [s[i]] + s[i + 1..j] + [s[j]] + s[j + 1..];
  }

  lemma {:induction false} OncePresent<T>(s: seq<T>, x: T)
    requires forall j, k :: 0 <= j < k < |s| ==> s[j] != s[k]
    ensures multiset(s)[x] <= 1
  {
    if s != [] {
      OncePresent(s[1..], x);
      assert s == [s[0]] + s[1..];
      if s[0] == x && x in s[1..] {
        assert false;
      }
    }
  }

  /** `mapKeys`: the keys come out of the map in any order and are then sorted. */
  method MapKeys(values: set<Id>) returns (result: seq<Id>)
    ensures Ascending(result)
    ensures forall x :: x in result <==> x in values
  {
    var keys: seq<Id> := [];
    var pending := values;
    while pending != {}
      invariant pending <= values
      invariant forall x: Id :: x in keys <==> x in values - pending
      invariant forall j, k :: 0 <= j < k < |keys| ==> keys[j] != keys[k]
      decreases pending
    {
      var key :| key in pending;
      pending := pending - {key};
      keys := keys + [key];
    }
    result := SortSeq(keys, (x: Id) => x);
    DistinctSortedIsAscending(keys, result);
    forall x: Id ensures x in result <==> x in keys { assert x in multiset(result) <==> x in multiset(keys); }
  }
}
