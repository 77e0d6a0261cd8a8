/**
 * Sequence operations the program performs through JavaScript arrays and the document store:
 * filtering (`find` with a query, `Array.prototype.filter`), sorting by a numeric key in
 * descending order (`sort({field: 'desc'})`, `sort((a, b) => key(b) - key(a))`), slicing
 * (`skip`/`limit`, `Array.prototype.slice`) and de-duplication (`Array.from(new Set(xs))`).
 */
module Collections {

  /** No element occurs twice. */
  predicate NoDup<T(==)>(s: seq<T>)
  {
    forall i, j :: 0 <= i < j < |s| ==> s[i] != s[j]
  }

  // ---------------------------------------------------------------------------
  // positions

  /** `s.findIndex(y => y === x)`: the first position holding `x`, or -1. */
  function IndexOf<T(==)>(s: seq<T>, x: T): (k: int)
    ensures -1 <= k < |s|
    ensures k == -1 <==> x !in s
    ensures k >= 0 ==> s[k] == x && x !in s[..k]
  {
    if |s| == 0 then -1
    else if s[0] == x then 0
    else
      var k := IndexOf(s[1..], x);
      assert k >= 0 ==> s[1..][..k] == s[1..k + 1];
      if k == -1 then -1 else k + 1
  }

  /** The first position whose element has key `x`, or -1: a document-store lookup such as
      `findById(id)` or `findOne({email})` over a collection kept in insertion order. */
  function FindFirst<T, K(==)>(key: T -> K, s: seq<T>, x: K): (k: int)
    ensures -1 <= k < |s|
    ensures k == -1 <==> forall i :: 0 <= i < |s| ==> key(s[i]) != x
    ensures k >= 0 ==> key(s[k]) == x && forall i :: 0 <= i < k ==> key(s[i]) != x
  {
    if |s| == 0 then -1
    else if key(s[0]) == x then 0
    else
      var k := FindFirst(key, s[1..], x);
      if k == -1 then -1 else k + 1
  }

  /** `s.splice(k, 1)`: `s` without its element at position `k`. */
  function RemoveAt<T>(s: seq<T>, k: nat): (r: seq<T>)
    requires k < |s|
    ensures |r| == |s| - 1
    ensures forall i :: 0 <= i < k ==> r[i] == s[i]
    ensures forall i :: k <= i < |r| ==> r[i] == s[i + 1]
    ensures multiset(r) == multiset(s) - multiset{s[k]}
  {
    assert s == s[..k] + [s[k]] + s[k + 1..];
    s[..k] + s[k + 1..]
  }

  // ---------------------------------------------------------------------------
  // filtering

  /** The elements of `s` satisfying `f`, in their original order. */
  function Filter<T(==,!new)>(f: T -> bool, s: seq<T>): (r: seq<T>)
    ensures |r| <= |s|
    ensures forall x :: x in r <==> x in s && f(x)
    ensures forall x :: multiset(r)[x] == if f(x) then multiset(s)[x] else 0
  {
    if |s| == 0 then []
    else
      assert s == [s[0]] + s[1..];
      (if f(s[0]) then [s[0]] else []) + Filter(f, s[1..])
  }

  /** No two elements share a key. */
  predicate KeysDistinct<T, K(==)>(key: T -> K, s: seq<T>)
  {
    forall i, j :: 0 <= i < j < |s| ==> key(s[i]) != key(s[j])
  }

  /** Filtering keeps keys distinct. */
  lemma FilterKeepsKeysDistinct<T(!new), K>(key: T -> K, f: T -> bool, s: seq<T>)
    requires KeysDistinct(key, s)
    ensures KeysDistinct(key, Filter(f, s))
  {
    var r := Filter(f, s);
    forall i, j | 0 <= i < j < |r| ensures key(r[i]) != key(r[j]) {
      if key(r[i]) == key(r[j]) {
        assert r[i] in s && r[j] in s;
        var a :| 0 <= a < |s| && s[a] == r[i];
        var b :| 0 <= b < |s| && s[b] == r[j];
        assert a == b;
        CountAtLeastTwo(r, i, j);
        assert multiset(s)[r[i]] >= 2;
        CountTwoMeansDup(s, r[i]);
      }
    }
  }

  // ---------------------------------------------------------------------------
  // sorting by a numeric key, largest first

  /** `s` is in non-increasing order of `key`. */
  predicate SortedDesc<T>(key: T -> int, s: seq<T>)
  {
    forall i, j :: 0 <= i < j < |s| ==> key(s[i]) >= key(s[j])
  }

  /** Inserts `x` into a sorted sequence after every element whose key is strictly larger and
      before the first whose key is not larger. */
  function Insert<T>(key: T -> int, x: T, s: seq<T>): (r: seq<T>)
    requires SortedDesc(key, s)
    ensures SortedDesc(key, r)
    ensures multiset(r) == multiset(s) + multiset{x}
  {
    if |s| == 0 then [x]
    else if key(x) >= key(s[0]) then [x] + s
    else
      var rest := Insert(key, x, s[1..]);
      assert s == [s[0]] + s[1..];
      HeadBeforeInserted(key, s[0], s[1..], x, rest);
      [s[0]] + rest
  }

  /** A head no smaller than a sorted tail and than `x` stays in front once `x` is inserted
      into that tail. */
  lemma HeadBeforeInserted<T>(key: T -> int, h: T, tail: seq<T>, x: T, rest: seq<T>)
    requires SortedDesc(key, [h] + tail) && key(h) > key(x)
    requires SortedDesc(key, rest) && multiset(rest) == multiset(tail) + multiset{x}
    ensures SortedDesc(key, [h] + rest)
  {
    forall j | 0 <= j < |rest| ensures key(h) >= key(rest[j]) {
      assert rest[j] in multiset(rest);
      if rest[j] != x {
        assert rest[j] in multiset(tail);
        assert rest[j] in tail;
        var k :| 0 <= k < |tail| && tail[k] == rest[j];
        assert ([h] + tail)[0] == h && ([h] + tail)[k + 1] == tail[k];
      }
    }
    forall i, j | 0 <= i < j < |[h] + rest| ensures key(([h] + rest)[i]) >= key(([h] + rest)[j]) {
      if i == 0 {
        assert ([h] + rest)[j] == rest[j - 1];
      } else {
        assert ([h] + rest)[i] == rest[i - 1] && ([h] + rest)[j] == rest[j - 1];
      }
    }
  }

  /** Insertion sort, largest key first. Elements with equal keys keep no particular promise
      beyond being a permutation (the store's order among ties is unspecified). */
  function SortDesc<T>(key: T -> int, s: seq<T>): (r: seq<T>)
    ensures SortedDesc(key, r)
    ensures multiset(r) == multiset(s)
  {
    if |s| == 0 then []
    else
      assert s == [s[0]] + s[1..];
      Insert(key, s[0], SortDesc(key, s[1..]))
  }

  /** A permutation has the same length and the same elements. */
  lemma PermutationMembers<T>(a: seq<T>, b: seq<T>)
    requires multiset(a) == multiset(b)
    ensures |a| == |b|
    ensures forall x :: x in a <==> x in b
  {
    assert |multiset(a)| == |a|;
    forall x ensures x in a <==> x in b {
      assert x in a <==> x in multiset(a);
      assert x in b <==> x in multiset(b);
    }
  }

  // ---------------------------------------------------------------------------
  // windows

  /** `s.slice(start, start + count)` for non-negative arguments; also the document store's
      `skip(start).limit(count)`. Empty when `start` is past the end. */
  function Window<T>(s: seq<T>, start: nat, count: nat): (r: seq<T>)
    ensures |r| == if start >= |s| then 0 else if start + count <= |s| then count else |s| - start
    ensures forall i :: 0 <= i < |r| ==> r[i] == s[start + i]
  {
    if start >= |s| then []
    else if start + count <= |s| then s[start..start + count]
    else s[start..]
  }

  /** The first `m` elements of `s`, or all of them when there are fewer. */
  function Upto<T>(s: seq<T>, m: nat): (r: seq<T>)
    ensures |r| == if m <= |s| then m else |s|
  {
    if m <= |s| then s[..m] else s
  }

  /** The window starting at `start` continues the prefix that ends there. */
  lemma UptoWindow<T>(s: seq<T>, start: nat, count: nat)
    ensures Upto(s, start) + Window(s, start, count) == Upto(s, start + count)
  {
    if start < |s| && start + count <= |s| {
      assert s[..start + count] == s[..start] + s[start..start + count];
    }
  }

  /** Windows 1..k of size `size`, concatenated: what a reader gets by fetching pages 1 to `k`
      one after the other. */
  function Paged<T>(s: seq<T>, size: nat, k: nat): seq<T>
  {
    if k == 0 then [] else Paged(s, size, k - 1) + Window(s, (k - 1) * size, size)
  }

  /** The first `k` pages are the first `k * size` elements. */
  lemma {:induction false} PagedPrefix<T>(s: seq<T>, size: nat, k: nat)
    ensures Paged(s, size, k) == Upto(s, k * size)
  {
    if k > 0 {
      PagedPrefix(s, size, k - 1);
      UptoWindow(s, (k - 1) * size, size);
      assert (k - 1) * size + size == k * size;
    }
  }

  /** Enough pages to cover `s` reproduce `s`. */
  lemma PagedCovers<T>(s: seq<T>, size: nat, k: nat)
    requires |s| <= k * size
    ensures Paged(s, size, k) == s
  {
    PagedPrefix(s, size, k);
  }

  /** A window of a sorted sequence is sorted. */
  lemma WindowSorted<T>(key: T -> int, s: seq<T>, start: nat, count: nat)
    requires SortedDesc(key, s)
    ensures SortedDesc(key, Window(s, start, count))
  {
    var r := Window(s, start, count);
    forall i, j | 0 <= i < j < |r| ensures key(r[i]) >= key(r[j]) {
      assert r[i] == s[start + i] && r[j] == s[start + j];
    }
  }

  // ---------------------------------------------------------------------------
  // de-duplication

  /** The position of the first occurrence of `x` in `s` (`s.length` when it has none). */
  function FirstPos<T(==)>(s: seq<T>, x: T): nat
  {
    if |s| == 0 || s[0] == x then 0 else FirstPos(s[1..], x) + 1
  }

  /** `FirstPos` is `indexOf` on the values `s` holds. */
  lemma {:induction false} FirstPosIsIndexOf<T>(s: seq<T>, x: T)
    requires x in s
    ensures FirstPos(s, x) == IndexOf(s, x)
  {
    if s[0] != x {
      FirstPosIsIndexOf(s[1..], x);
    }
  }

  /** `Array.from(new Set(acc.concat(s)))` when `acc` is already duplicate-free: the first
      occurrence of every value, in order of first appearance. */
  function DedupeFrom<T(==,!new)>(acc: seq<T>, s: seq<T>): (r: seq<T>)
    requires NoDup(acc)
    ensures NoDup(r)
    ensures |acc| <= |r| && r[..|acc|] == acc
    ensures forall x :: x in r <==> x in acc || x in s
    ensures forall i, j :: |acc| <= i < j < |r| ==> FirstPos(s, r[i]) < FirstPos(s, r[j])
    decreases |s|
  {
    if |s| == 0 then acc
    else if s[0] in acc then
      var r := DedupeFrom(acc, s[1..]);
      NewValuesAfter(acc, r);
      r
    else
      var acc' := acc + [s[0]];
      var r := DedupeFrom(acc', s[1..]);
      assert r[..|acc|] == r[..|acc'|][..|acc|];
      NewValuesAfter(acc', r);
      r
  }

  /** The values a duplicate-free `r` holds past its prefix `acc` are not in `acc`. */
  lemma NewValuesAfter<T>(acc: seq<T>, r: seq<T>)
    requires NoDup(r) && |acc| <= |r| && r[..|acc|] == acc
    ensures forall i :: |acc| <= i < |r| ==> r[i] !in acc
  {
    forall i | |acc| <= i < |r| ensures r[i] !in acc {
      forall j | 0 <= j < |acc| ensures acc[j] != r[i] {
        assert acc[j] == r[j];
      }
    }
  }

  /** `Array.from(new Set(s))`: each value of `s` once, listed in the order of its first
      appearance in `s`. */
  function Dedupe<T(==,!new)>(s: seq<T>): (r: seq<T>)
    ensures NoDup(r)
    ensures forall x :: x in r <==> x in s
    ensures forall i, j :: 0 <= i < j < |r| ==> FirstPos(s, r[i]) < FirstPos(s, r[j])
  {
    DedupeFrom([], s)
  }

  /** The values `Array.from(new Set(s))` lists appear in `s` in that order: `indexOf` grows
      along the result. */
  lemma DedupeKeepsFirstOrder<T(!new)>(s: seq<T>)
    ensures var r := Dedupe(s);
      forall i, j :: 0 <= i < j < |r| ==> IndexOf(s, r[i]) < IndexOf(s, r[j])
  {
    var r := Dedupe(s);
    forall i | 0 <= i < |r| ensures FirstPos(s, r[i]) == IndexOf(s, r[i]) {
      FirstPosIsIndexOf(s, r[i]);
    }
  }

  /** Sorting keeps a sequence duplicate-free. */
  lemma SortKeepsNoDup<T>(key: T -> int, s: seq<T>)
    requires NoDup(s)
    ensures NoDup(SortDesc(key, s))
  {
    var r := SortDesc(key, s);
    forall x ensures multiset(s)[x] <= 1 {
      if multiset(s)[x] > 1 {
        CountTwoMeansDup(s, x);
      }
    }
    forall i, j | 0 <= i < j < |r| ensures r[i] != r[j] {
      if r[i] == r[j] {
        CountAtLeastTwo(r, i, j);
      }
    }
  }

  lemma {:induction false} CountTwoMeansDup<T>(s: seq<T>, x: T)
    requires multiset(s)[x] > 1
    ensures !NoDup(s)
  {
    var i :| 0 <= i < |s| && s[i] == x;
    var rest := s[..i] + s[i + 1..];
    assert s == s[..i] + [s[i]] + s[i + 1..];
    assert multiset(rest)[x] > 0;
    assert x in rest;
    var j :| 0 <= j < |rest| && rest[j] == x;
    if j < i {
      assert s[j] == x;
    } else {
      assert s[j + 1] == x;
    }
  }

  lemma CountAtLeastTwo<T>(s: seq<T>, i: nat, j: nat)
    requires i < j < |s| && s[i] == s[j]
    ensures multiset(s)[s[i]] >= 2
  {
    assert s == s[..j] + [s[j]] + s[j + 1..];
    assert s[..j] == s[..i] + [s[i]] + s[i + 1..j];
  }
}
