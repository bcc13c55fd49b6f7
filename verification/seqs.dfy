/**
 * Sequence operations the source gets from JavaScript arrays: `filter`,
 * `filter` by position, and the stable `Array.prototype.sort`.
 */
module Seqs {
  import opened Wrappers

  /** `s.findIndex(p)`: the position of the first element satisfying `p`. */
  function FindIndex<T>(s: seq<T>, p: T -> bool): (r: Option<nat>)
    ensures r.Some? ==> r.value < |s| && p(s[r.value])
    ensures r.Some? ==> forall j :: 0 <= j < r.value ==> !p(s[j])
    ensures r.None? ==> forall j :: 0 <= j < |s| ==> !p(s[j])
  {
    if |s| == 0 then None
    else if p(s[0]) then Some(0)
    else match FindIndex(s[1..], p)
      case None => None
      case Some(i) => Some(i + 1)
  }

  /** `s.find(p)`: the first element satisfying `p`, or `undefined`. */
  function Find<T>(s: seq<T>, p: T -> bool): (r: Option<T>)
    ensures r.Some? <==> exists i :: 0 <= i < |s| && p(s[i])
    ensures r.Some? ==> p(r.value) && r.value in s
  {
    match FindIndex(s, p)
    case None => None
    case Some(i) => Some(s[i])
  }

  /** The first match in `a + b` is the first match in `a`, or else the first in `b`. */
  lemma {:induction false} FindIndexAppend<T>(a: seq<T>, b: seq<T>, p: T -> bool)
    ensures FindIndex(a + b, p) == match FindIndex(a, p)
      case Some(i) => Some(i)
      case None => (match FindIndex(b, p) case None => None case Some(j) => Some(|a| + j))
  {
    if |a| > 0 {
      assert (a + b)[0] == a[0];
      assert (a + b)[1..] == a[1..] + b;
      FindIndexAppend(a[1..], b, p);
    } else {
      assert a + b == b;
    }
  }

  lemma FindAppend<T>(a: seq<T>, b: seq<T>, p: T -> bool)
    ensures Find(a + b, p) == if Find(a, p).Some? then Find(a, p) else Find(b, p)
  {
    FindIndexAppend(a, b, p);
    match FindIndex(b, p)
    case None =>
    case Some(j) => assert (a + b)[|a| + j] == b[j];
  }

  /** `s.filter(p)`: the elements of `s` that satisfy `p`, in their order. */
  function Filter<T>(s: seq<T>, p: T -> bool): (r: seq<T>)
    ensures |r| <= |s|
    ensures forall i :: 0 <= i < |r| ==> r[i] in s && p(r[i])
    ensures forall i :: 0 <= i < |s| && p(s[i]) ==> s[i] in r
  {
    if |s| == 0 then [] else (if p(s[0]) then [s[0]] else []) + Filter(s[1..], p)
  }

  /** `a` can be obtained from `b` by deleting elements; order is kept. */
  predicate IsSubsequence<T(==)>(a: seq<T>, b: seq<T>)
    decreases |b|
  {
    || |a| == 0
    || (&& |b| > 0
        && ((a[0] == b[0] && IsSubsequence(a[1..], b[1..])) || IsSubsequence(a, b[1..])))
  }

  /** Filtering distributes over concatenation. */
  lemma {:induction false} FilterAppend<T>(a: seq<T>, b: seq<T>, p: T -> bool)
    ensures Filter(a + b, p) == Filter(a, p) + Filter(b, p)
  {
    if |a| > 0 {
      assert (a + b)[1..] == a[1..] + b;
      FilterAppend(a[1..], b, p);
    } else {
      assert a + b == b;
    }
  }

  /** Filtering a list is filtering all but its last element, then testing that one. */
  lemma {:induction false} FilterSnoc<T>(s: seq<T>, p: T -> bool)
    requires |s| > 0
    ensures Filter(s, p) == Filter(s[..|s| - 1], p) + (if p(s[|s| - 1]) then [s[|s| - 1]] else [])
  {
    var init := s[..|s| - 1];
    if |s| == 1 {
      assert init == [];
      assert s[1..] == [];
    } else {
      FilterSnoc(s[1..], p);
      assert s[1..][..|s| - 2] == init[1..];
      assert init[0] == s[0];
    }
  }

  /** A filter keeps the relative order of what it keeps. */
  lemma {:induction false} FilterIsSubsequence<T>(s: seq<T>, p: T -> bool)
    ensures IsSubsequence(Filter(s, p), s)
  {
    if |s| > 0 {
      FilterIsSubsequence(s[1..], p);
      var r := Filter(s, p);
      if p(s[0]) {
        assert r[0] == s[0] && r[1..] == Filter(s[1..], p);
      } else {
        assert r == Filter(s[1..], p);
      }
    }
  }

  /** A filter that keeps every element returns its input. */
  lemma {:induction false} FilterKeepsAll<T>(s: seq<T>, p: T -> bool)
    requires forall i :: 0 <= i < |s| ==> p(s[i])
    ensures Filter(s, p) == s
  {
    if |s| > 0 {
      FilterKeepsAll(s[1..], p);
    }
  }

  /** A filter that keeps nothing returns the empty list. */
  lemma {:induction false} FilterKeepsNone<T>(s: seq<T>, p: T -> bool)
    requires forall i :: 0 <= i < |s| ==> !p(s[i])
    ensures Filter(s, p) == []
  {
    if |s| > 0 {
      FilterKeepsNone(s[1..], p);
    }
  }

  /** The occurrences of each element that a filter keeps are all of them. */
  lemma {:induction false} FilterMultiset<T>(s: seq<T>, p: T -> bool, x: T)
    ensures multiset(Filter(s, p))[x] == if p(x) then multiset(s)[x] else 0
  {
    if |s| > 0 {
      FilterMultiset(s[1..], p, x);
      assert s == [s[0]] + s[1..];
    }
  }

  /** The sum of `f` over the keys `ks` (a `forEach` accumulating `total += f(k)`). */
  function SumOver<K>(ks: seq<K>, f: K -> int): int {
    if |ks| == 0 then 0 else f(ks[0]) + SumOver(ks[1..], f)
  }

  /** Functions that agree on the keys have the same sum. */
  lemma {:induction false} SumOverFrame<K>(ks: seq<K>, f: K -> int, g: K -> int)
    requires forall i :: 0 <= i < |ks| ==> f(ks[i]) == g(ks[i])
    ensures SumOver(ks, f) == SumOver(ks, g)
  {
    if |ks| > 0 {
      SumOverFrame(ks[1..], f, g);
    }
  }

  /** Changing `f` at one key that occurs once changes the sum by the difference at that key. */
  lemma {:induction false} SumOverOneChange<K>(ks: seq<K>, f: K -> int, g: K -> int, k: K)
    requires NoDuplicates(ks) && k in ks
    requires forall x :: x != k ==> f(x) == g(x)
    ensures SumOver(ks, g) == SumOver(ks, f) - f(k) + g(k)
  {
    var rest := ks[1..];
    assert NoDuplicates(rest) by {
      assert forall i :: 0 <= i < |rest| ==> rest[i] == ks[i + 1];
    }
    if ks[0] == k {
      assert k !in rest by {
        assert forall i :: 0 <= i < |rest| ==> rest[i] == ks[i + 1];
      }
      SumOverFrame(rest, f, g);
    } else {
      SumOverOneChange(rest, f, g, k);
    }
  }

  /** A relation that holds between every earlier and later element still holds after filtering. */
  lemma {:induction false} FilterPairwise<T>(s: seq<T>, p: T -> bool, rel: (T, T) -> bool)
    requires forall i, j :: 0 <= i < j < |s| ==> rel(s[i], s[j])
    ensures forall i, j :: 0 <= i < j < |Filter(s, p)| ==> rel(Filter(s, p)[i], Filter(s, p)[j])
  {
    if |s| > 0 {
      var rest := s[1..];
      FilterPairwise(rest, p, rel);
      var tail := Filter(rest, p);
      if p(s[0]) {
        var r := Filter(s, p);
        assert r == [s[0]] + tail;
        forall k | 0 <= k < |tail| ensures rel(s[0], tail[k]) {
          var m :| 0 <= m < |rest| && rest[m] == tail[k];
          assert s[m + 1] == tail[k];
        }
        forall i, j | 0 <= i < j < |r| ensures rel(r[i], r[j]) {
          assert r[j] == tail[j - 1];
          if i > 0 {
            assert r[i] == tail[i - 1];
          }
        }
      }
    }
  }

  /** Filtering twice is filtering once by a predicate that means both. */
  lemma {:induction false} FilterFilter<T>(s: seq<T>, p: T -> bool, q: T -> bool, both: T -> bool)
    requires forall x :: both(x) == (p(x) && q(x))
    ensures Filter(Filter(s, p), q) == Filter(s, both)
  {
    if |s| > 0 {
      FilterFilter(s[1..], p, q, both);
      var tail := Filter(s[1..], p);
      if p(s[0]) {
        var once := [s[0]] + tail;
        assert Filter(s, p) == once;
        assert once[0] == s[0] && once[1..] == tail;
        assert Filter(once, q) == (if q(s[0]) then [s[0]] else []) + Filter(tail, q);
      } else {
        assert Filter(s, p) == tail;
      }
    }
  }

  /** A filter keeps nothing exactly when no element passes it. */
  lemma {:induction false} FilterEmpty<T>(s: seq<T>, p: T -> bool)
    ensures Filter(s, p) == [] <==> forall i :: 0 <= i < |s| ==> !p(s[i])
  {
    if |s| > 0 {
      FilterEmpty(s[1..], p);
      assert forall i :: 1 <= i < |s| ==> s[i] == s[1..][i - 1];
    }
  }

  /** Every element passes exactly one of two complementary filters. */
  lemma {:induction false} FilterComplement<T>(s: seq<T>, p: T -> bool, q: T -> bool)
    requires forall x :: q(x) == !p(x)
    ensures |Filter(s, p)| + |Filter(s, q)| == |s|
  {
    if |s| > 0 {
      FilterComplement(s[1..], p, q);
    }
  }

  /** Two filters whose predicates exclude each other take no more than the whole list. */
  lemma {:induction false} FilterDisjoint<T>(s: seq<T>, p: T -> bool, q: T -> bool)
    requires forall x :: !(p(x) && q(x))
    ensures |Filter(s, p)| + |Filter(s, q)| <= |s|
  {
    if |s| > 0 {
      FilterDisjoint(s[1..], p, q);
    }
  }

  /** No value occurs twice. */
  predicate NoDuplicates<T(==)>(s: seq<T>) {
    forall i, j :: 0 <= i < j < |s| ==> s[i] != s[j]
  }

  /** `new Set(s).size === s.length` holds exactly when `s` has no repeated value. */
  lemma {:induction false} SetSizeNoDuplicates<T>(s: seq<T>)
    ensures |set x | x in s| <= |s|
    ensures |set x | x in s| == |s| <==> NoDuplicates(s)
  {
    if |s| > 0 {
      var rest := s[1..];
      SetSizeNoDuplicates(rest);
      SetOfCons(s);
      NoDuplicatesCons(s);
      var tail := set x | x in rest;
      if s[0] in rest {
        assert {s[0]} + tail == tail;
      } else {
        assert |{s[0]} + tail| == |tail| + 1;
      }
    }
  }

  lemma SetOfCons<T>(s: seq<T>)
    requires |s| > 0
    ensures (set x | x in s) == {s[0]} + (set x | x in s[1..])
  {
    forall x | x in s ensures x == s[0] || x in s[1..] {
      var i :| 0 <= i < |s| && s[i] == x;
      if i > 0 { assert s[1..][i - 1] == x; }
    }
  }

  lemma NoDuplicatesCons<T>(s: seq<T>)
    requires |s| > 0
    ensures NoDuplicates(s) <==> s[0] !in s[1..] && NoDuplicates(s[1..])
  {
    var rest := s[1..];
    if s[0] in rest {
      var k :| 0 <= k < |rest| && rest[k] == s[0];
      assert s[0] == s[k + 1];
    }
    if s[0] !in rest && NoDuplicates(rest) {
      forall i, j | 0 <= i < j < |s| ensures s[i] != s[j] {
        assert s[j] == rest[j - 1];
        if i > 0 { assert s[i] == rest[i - 1]; }
      }
    }
    if NoDuplicates(s) {
      forall i, j | 0 <= i < j < |rest| ensures rest[i] != rest[j] {
        assert rest[i] == s[i + 1] && rest[j] == s[j + 1];
      }
    }
  }

  /** `s.filter((_, i) => i !== index)`: drops the element at `index`, if any. */
  function RemoveIndex<T>(s: seq<T>, index: int): (r: seq<T>)
    ensures 0 <= index < |s| ==> |r| == |s| - 1
    ensures 0 <= index < |s| ==> forall j :: 0 <= j < index ==> r[j] == s[j]
    ensures 0 <= index < |s| ==> forall j :: index <= j < |r| ==> r[j] == s[j + 1]
    ensures !(0 <= index < |s|) ==> r == s
  {
    if 0 <= index < |s| then s[..index] + s[index + 1..] else s
  }

  /** Removing the element at a valid index takes exactly that one occurrence out. */
  lemma RemoveIndexMultiset<T>(s: seq<T>, index: nat)
    requires index < |s|
    ensures multiset(s) == multiset(RemoveIndex(s, index)) + multiset{s[index]}
  {
    assert s == s[..index] + [s[index]] + s[index + 1..];
  }

  // ---------------------------------------------------------------------
  // Stable sorting by an integer key (`Array.prototype.sort` is stable).
  // ---------------------------------------------------------------------

  predicate SortedBy<T>(s: seq<T>, key: T -> int) {
    forall i, j :: 0 <= i < j < |s| ==> key(s[i]) <= key(s[j])
  }

  /** The predicate "has key `v`", as one named value so filters by it coincide. */
  function KeyIs<T>(key: T -> int, v: int): T -> bool {
    y => key(y) == v
  }

  /** Filtering a sorted list leaves it sorted. */
  lemma FilterSorted<T>(s: seq<T>, p: T -> bool, key: T -> int)
    requires SortedBy(s, key)
    ensures SortedBy(Filter(s, p), key)
  {
    var rel := (a: T, b: T) => key(a) <= key(b);
    assert forall i, j :: 0 <= i < j < |s| ==> rel(s[i], s[j]);
    FilterPairwise(s, p, rel);
    var r := Filter(s, p);
    forall i, j | 0 <= i < j < |r| ensures key(r[i]) <= key(r[j]) {
      assert rel(r[i], r[j]);
    }
  }

  /** Inserts `x` after every element whose key is not larger than its own. */
  function InsertBy<T>(x: T, s: seq<T>, key: T -> int): (r: seq<T>)
    ensures |r| == |s| + 1
  {
    if |s| == 0 then [x]
    else if key(x) < key(s[0]) then [x] + s
    else [s[0]] + InsertBy(x, s[1..], key)
  }

  /** Insertion sort: each element is inserted after the equal-keyed ones before it. */
  function SortBy<T>(s: seq<T>, key: T -> int): (r: seq<T>)
    ensures |r| == |s|
  {
    if |s| == 0 then [] else InsertBy(s[|s| - 1], SortBy(s[..|s| - 1], key), key)
  }

  lemma {:induction false} InsertBySorted<T>(x: T, s: seq<T>, key: T -> int)
    requires SortedBy(s, key)
    ensures SortedBy(InsertBy(x, s, key), key)
    ensures InsertBy(x, s, key)[0] == x || (|s| > 0 && InsertBy(x, s, key)[0] == s[0])
  {
    if |s| > 0 && key(x) >= key(s[0]) {
      var rest := InsertBy(x, s[1..], key);
      InsertBySorted(x, s[1..], key);
      assert key(s[0]) <= key(rest[0]) by {
        if |s| > 1 { assert key(s[0]) <= key(s[1]); }
      }
      var r := [s[0]] + rest;
      forall i, j | 0 <= i < j < |r| ensures key(r[i]) <= key(r[j]) {
        if i == 0 {
          assert key(rest[0]) <= key(rest[j - 1]) || j == 1;
        } else {
          assert r[i] == rest[i - 1] && r[j] == rest[j - 1];
        }
      }
    }
  }

  lemma {:induction false} InsertByMultiset<T>(x: T, s: seq<T>, key: T -> int)
    ensures multiset(InsertBy(x, s, key)) == multiset(s) + multiset{x}
  {
    if |s| > 0 && key(x) >= key(s[0]) {
      InsertByMultiset(x, s[1..], key);
      assert s == [s[0]] + s[1..];
    }
  }

  /** The sorted list is ordered by key and is a permutation of the input. */
  lemma {:induction false} SortBySpec<T>(s: seq<T>, key: T -> int)
    ensures SortedBy(SortBy(s, key), key)
    ensures multiset(SortBy(s, key)) == multiset(s)
  {
    if |s| > 0 {
      var init := s[..|s| - 1];
      SortBySpec(init, key);
      InsertBySorted(s[|s| - 1], SortBy(init, key), key);
      InsertByMultiset(s[|s| - 1], SortBy(init, key), key);
      assert s == init + [s[|s| - 1]];
    }
  }

  /** Inserting `x` appends it to the elements that share its key. */
  lemma {:induction false} InsertByStable<T>(x: T, s: seq<T>, key: T -> int, v: int)
    requires SortedBy(s, key)
    ensures Filter(InsertBy(x, s, key), KeyIs(key, v))
         == Filter(s, KeyIs(key, v)) + (if key(x) == v then [x] else [])
  {
    var p := KeyIs(key, v);
    if |s| == 0 {
    } else if key(x) < key(s[0]) {
      var r := [x] + s;
      assert r[1..] == s;
      if key(x) == v {
        forall i | 0 <= i < |s| ensures !p(s[i]) {
          assert key(s[0]) <= key(s[i]);
        }
        FilterKeepsNone(s, p);
      }
    } else {
      var tail := s[1..];
      assert SortedBy(tail, key) by {
        forall i, j | 0 <= i < j < |tail| ensures key(tail[i]) <= key(tail[j]) {
          assert key(s[i + 1]) <= key(s[j + 1]);
        }
      }
      InsertByStable(x, tail, key, v);
      var rest := InsertBy(x, tail, key);
      var head := if p(s[0]) then [s[0]] else [];
      assert InsertBy(x, s, key) == [s[0]] + rest;
      assert Filter([s[0]] + rest, p) == head + Filter(rest, p) by {
        assert ([s[0]] + rest)[1..] == rest;
      }
      assert Filter(s, p) == head + Filter(tail, p);
    }
  }

  /**
   * Stability: among elements with equal keys the sorted list keeps the
   * input order, so the sort is fully determined by its input.
   */
  lemma {:induction false} SortByStable<T>(s: seq<T>, key: T -> int, v: int)
    ensures Filter(SortBy(s, key), KeyIs(key, v)) == Filter(s, KeyIs(key, v))
  {
    if |s| > 0 {
      var p := KeyIs(key, v);
      var init := s[..|s| - 1];
      var last := s[|s| - 1];
      SortByStable(init, key, v);
      SortBySpec(init, key);
      InsertByStable(last, SortBy(init, key), key, v);
      FilterSnoc(s, p);
    }
  }
}
