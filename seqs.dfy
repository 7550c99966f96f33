/** The array primitives the engine leans on: `filter`, `find`/`findIndex` and the
    stable comparator sort of `Array.prototype.sort`. */
module Seqs {
  import opened Types

  /** `s.filter(p)`: the elements satisfying p, in their original order. */
  function Filter<T>(s: seq<T>, p: T -> bool): (r: seq<T>)
    ensures |r| <= |s|
    ensures forall i :: 0 <= i < |r| ==> p(r[i])
  {
    if |s| == 0 then []
    else Filter(s[..|s| - 1], p) + (if p(s[|s| - 1]) then [s[|s| - 1]] else [])
  }

  /** Filter keeps exactly the satisfying elements. */
  lemma {:induction false} FilterMembers<T(!new)>(s: seq<T>, p: T -> bool)
    ensures forall x :: x in Filter(s, p) <==> x in s && p(x)
  {
    if |s| > 0 {
      FilterMembers(s[..|s| - 1], p);
      assert s == s[..|s| - 1] + [s[|s| - 1]];
    }
  }

  lemma {:induction false} FilterNone<T>(s: seq<T>, p: T -> bool)
    requires forall i :: 0 <= i < |s| ==> !p(s[i])
    ensures Filter(s, p) == []
  {
    if |s| > 0 {
      FilterNone(s[..|s| - 1], p);
    }
  }

  lemma {:induction false} FilterAll<T(!new)>(s: seq<T>, p: T -> bool)
    requires forall i :: 0 <= i < |s| ==> p(s[i])
    ensures Filter(s, p) == s
  {
    if |s| > 0 {
      var init := s[..|s| - 1];
      FilterAll(init, p);
      assert p(s[|s| - 1]);
      calc {
        Filter(s, p);
        Filter(init, p) + [s[|s| - 1]];
        init + [s[|s| - 1]];
        s;
      }
    }
  }

  /** Filter keeps exactly the satisfying part of the multiset. */
  lemma {:induction false} FilterMultiset<T(!new)>(s: seq<T>, p: T -> bool, x: T)
    ensures multiset(Filter(s, p))[x] == if p(x) then multiset(s)[x] else 0
  {
    if |s| > 0 {
      FilterMultiset(s[..|s| - 1], p, x);
      assert s == s[..|s| - 1] + [s[|s| - 1]];
    }
  }

  /** FilterMultiset for every element at once. */
  lemma FilterCounts<T(!new)>(s: seq<T>, p: T -> bool)
    ensures forall x :: multiset(Filter(s, p))[x] == if p(x) then multiset(s)[x] else 0
  {
    forall x ensures multiset(Filter(s, p))[x] == if p(x) then multiset(s)[x] else 0 {
      FilterMultiset(s, p, x);
    }
  }

  /** `s.findIndex(p)`, as an option: the first index whose element satisfies p. */
  function FirstIndex<T>(s: seq<T>, p: T -> bool): (r: Option<nat>)
    ensures r.Some? ==> r.value < |s| && p(s[r.value]) && forall j :: 0 <= j < r.value ==> !p(s[j])
    ensures r.None? <==> forall j :: 0 <= j < |s| ==> !p(s[j])
  {
    FirstIndexFrom(s, p, 0)
  }

  /** The first index at or after `from` whose element satisfies p. */
  function FirstIndexFrom<T>(s: seq<T>, p: T -> bool, from: nat): (r: Option<nat>)
    requires from <= |s|
    ensures r.Some? ==> from <= r.value < |s| && p(s[r.value]) && forall j :: from <= j < r.value ==> !p(s[j])
    ensures r.None? <==> forall j :: from <= j < |s| ==> !p(s[j])
    decreases |s| - from
  {
    if from == |s| then None
    else if p(s[from]) then Some(from)
    else FirstIndexFrom(s, p, from + 1)
  }

  /** The first n elements, as `s.slice(0, n)` does for n >= 0. */
  function Take<T>(s: seq<T>, n: nat): (r: seq<T>)
    ensures |r| == if n < |s| then n else |s|
    ensures r <= s
  {
    if n < |s| then s[..n] else s
  }

  /** A prefix holds no element more often than the whole. */
  lemma TakeSubMultiset<T>(s: seq<T>, n: nat)
    ensures multiset(Take(s, n)) <= multiset(s)
  {
    if n < |s| {
      assert s == s[..n] + s[n..];
    }
  }

  /** leq(a, b) holds when the comparator does not put b strictly before a. */
  ghost predicate TotalPreorder<T(!new)>(leq: (T, T) -> bool) {
    && (forall a, b :: leq(a, b) || leq(b, a))
    && (forall a, b, c :: leq(a, b) && leq(b, c) ==> leq(a, c))
  }

  ghost predicate Sorted<T>(s: seq<T>, leq: (T, T) -> bool) {
    forall i, j :: 0 <= i < j < |s| ==> leq(s[i], s[j])
  }

  /** Insert x in front of the first element it may precede. Placing x before the
      elements it ties with is what keeps the sort stable: x came before them. */
  function Insert<T>(x: T, s: seq<T>, leq: (T, T) -> bool): (r: seq<T>)
    ensures |r| == |s| + 1
  {
    if |s| == 0 then [x]
    else if leq(x, s[0]) then [x] + s
    else
      assert s == [s[0]] + s[1..];
      [s[0]] + Insert(x, s[1..], leq)
  }

  /** The stable sort of `[...s].sort(cmp)`, with leq(a, b) == (cmp(a, b) <= 0). */
  function Sort<T>(s: seq<T>, leq: (T, T) -> bool): (r: seq<T>)
    ensures |r| == |s|
  {
    if |s| == 0 then []
    else
      assert s == [s[0]] + s[1..];
      Insert(s[0], Sort(s[1..], leq), leq)
  }

  /** Insert adds exactly x. */
  lemma {:induction false} InsertPermutes<T>(x: T, s: seq<T>, leq: (T, T) -> bool)
    ensures multiset(Insert(x, s, leq)) == multiset(s) + multiset{x}
  {
    if |s| > 0 && !leq(x, s[0]) {
      InsertPermutes(x, s[1..], leq);
      assert s == [s[0]] + s[1..];
    }
  }

  /** Insert places x at one position and keeps the rest in order around it. */
  lemma {:induction false} InsertAt<T>(x: T, s: seq<T>, leq: (T, T) -> bool) returns (k: nat)
    ensures k <= |s| && Insert(x, s, leq) == s[..k] + [x] + s[k..]
  {
    if |s| == 0 || leq(x, s[0]) {
      k := 0;
    } else {
      var k' := InsertAt(x, s[1..], leq);
      k := k' + 1;
      assert s[..k] == [s[0]] + s[1..][..k'];
      assert s[k..] == s[1..][k'..];
    }
  }

  /** Sort is a permutation. */
  lemma {:induction false} SortPermutes<T>(s: seq<T>, leq: (T, T) -> bool)
    ensures multiset(Sort(s, leq)) == multiset(s)
    ensures forall x :: x in Sort(s, leq) <==> x in s
  {
    if |s| > 0 {
      SortPermutes(s[1..], leq);
      InsertPermutes(s[0], Sort(s[1..], leq), leq);
      assert s == [s[0]] + s[1..];
    }
    SameMultisetSameMembers(Sort(s, leq), s);
  }

  lemma {:induction false} InsertSorted<T(!new)>(x: T, s: seq<T>, leq: (T, T) -> bool)
    requires TotalPreorder(leq) && Sorted(s, leq)
    ensures Sorted(Insert(x, s, leq), leq)
  {
    if |s| > 0 && !leq(x, s[0]) {
      var tail := Insert(x, s[1..], leq);
      InsertSorted(x, s[1..], leq);
      InsertPermutes(x, s[1..], leq);
      forall y | y in tail ensures leq(s[0], y) {
        assert y in multiset(tail);
        if y != x {
          assert y in multiset(s[1..]);
          var j :| 0 <= j < |s[1..]| && s[1..][j] == y;
          assert s[j + 1] == y;
        }
      }
      var r := [s[0]] + tail;
      forall i, j | 0 <= i < j < |r| ensures leq(r[i], r[j]) {
        if i == 0 {
          assert r[j] == tail[j - 1] && r[j] in tail;
        } else {
          assert r[i] == tail[i - 1] && r[j] == tail[j - 1];
        }
      }
    }
  }

  lemma {:induction false} SortSorted<T(!new)>(s: seq<T>, leq: (T, T) -> bool)
    requires TotalPreorder(leq)
    ensures Sorted(Sort(s, leq), leq)
  {
    if |s| > 0 {
      SortSorted(s[1..], leq);
      InsertSorted(s[0], Sort(s[1..], leq), leq);
    }
  }

  /** Filtering a sorted sequence leaves it sorted. */
  lemma {:induction false} FilterSorted<T(!new)>(s: seq<T>, p: T -> bool, leq: (T, T) -> bool)
    requires Sorted(s, leq)
    ensures Sorted(Filter(s, p), leq)
  {
    if |s| > 0 {
      var init, last := s[..|s| - 1], s[|s| - 1];
      FilterSorted(init, p, leq);
      FilterMembers(init, p);
      var f := Filter(init, p);
      if p(last) {
        forall i | 0 <= i < |f| ensures leq(f[i], last) {
          assert f[i] in init;
          var k :| 0 <= k < |init| && init[k] == f[i];
          assert s[k] == f[i];
        }
      }
    }
  }

  /** What a sorted prefix leaves out comes no earlier than anything it keeps. */
  lemma TakeSortedKeepsFirst<T>(s: seq<T>, n: nat, leq: (T, T) -> bool, x: T)
    requires Sorted(s, leq) && x in s && x !in Take(s, n)
    ensures forall i :: 0 <= i < |Take(s, n)| ==> leq(Take(s, n)[i], x)
  {
    var t := Take(s, n);
    var rest := s[|t|..];
    assert s == t + rest;
    assert x in rest;
    var k :| 0 <= k < |rest| && rest[k] == x;
    forall i | 0 <= i < |t| ensures leq(t[i], x) {
      assert t[i] == s[i] && x == s[|t| + k];
    }
  }

  /** The first n of a sorted copy: drawn from s with no element more often than in s,
      ordered, and nothing of s they leave out precedes one they keep. */
  lemma TopOfSorted<T(!new)>(s: seq<T>, n: nat, leq: (T, T) -> bool)
    requires TotalPreorder(leq)
    ensures var r := Take(Sort(s, leq), n);
      && |r| == (if |s| < n then |s| else n)
      && multiset(r) <= multiset(s)
      && (forall x :: x in r ==> x in s)
      && Sorted(r, leq)
      && (forall x :: x in s && x !in r ==> forall i :: 0 <= i < |r| ==> leq(r[i], x))
  {
    var sorted := Sort(s, leq);
    SortSorted(s, leq);
    SortPermutes(s, leq);
    var r := Take(sorted, n);
    TakeSubMultiset(sorted, n);
    forall x | x in r ensures x in s {
      var i :| 0 <= i < |r| && r[i] == x;
      assert sorted[i] == x;
    }
    forall i, j | 0 <= i < j < |r| ensures leq(r[i], r[j]) {
      assert r[i] == sorted[i] && r[j] == sorted[j];
    }
    forall x | x in s && x !in r ensures forall i :: 0 <= i < |r| ==> leq(r[i], x) {
      TakeSortedKeepsFirst(sorted, n, leq, x);
    }
  }

  lemma SameMultisetSameMembers<T>(a: seq<T>, b: seq<T>)
    requires multiset(a) == multiset(b)
    ensures forall x :: x in a <==> x in b
  {
    forall x ensures x in a <==> x in b {
      assert x in a <==> x in multiset(a);
      assert x in b <==> x in multiset(b);
    }
  }
  /** `s.flatMap(f)`: the lists f gives each element, joined in order. */
  function FlatMap<T, U>(s: seq<T>, f: T -> seq<U>): seq<U> {
    if |s| == 0 then []
    else FlatMap(s[..|s| - 1], f) + f(s[|s| - 1])
  }

  /** FlatMap distributes over concatenation. */
  lemma {:induction false} FlatMapAppend<T, U>(a: seq<T>, b: seq<T>, f: T -> seq<U>)
    ensures FlatMap(a + b, f) == FlatMap(a, f) + FlatMap(b, f)
  {
    if |b| == 0 {
      assert a + b == a;
    } else {
      var b0 := b[..|b| - 1];
      FlatMapAppend(a, b0, f);
      assert (a + b)[..|a + b| - 1] == a + b0;
      assert (a + b)[|a + b| - 1] == b[|b| - 1];
    }
  }

  /** One insertion adds exactly the inserted element's list. */
  lemma FlatMapInsert<T, U>(x: T, t: seq<T>, leq: (T, T) -> bool, f: T -> seq<U>)
    ensures multiset(FlatMap(Insert(x, t, leq), f)) == multiset(FlatMap(t, f)) + multiset(f(x))
  {
    var k := InsertAt(x, t, leq);
    FlatMapAppend(t[..k] + [x], t[k..], f);
    FlatMapAppend(t[..k], [x], f);
    FlatMapAppend(t[..k], t[k..], f);
    assert t == t[..k] + t[k..];
    assert FlatMap([x], f) == f(x) by { assert [x][..0] == []; }
  }

  /** Sorting first only reorders the joined lists. */
  lemma {:induction false} FlatMapOfSort<T, U>(s: seq<T>, leq: (T, T) -> bool, f: T -> seq<U>)
    ensures multiset(FlatMap(Sort(s, leq), f)) == multiset(FlatMap(s, f))
  {
    if |s| > 0 {
      var x, tail := s[0], s[1..];
      FlatMapOfSort(tail, leq, f);
      FlatMapInsert(x, Sort(tail, leq), leq, f);
      assert Sort(s, leq) == Insert(x, Sort(tail, leq), leq);
      FlatMapAppend([x], tail, f);
      assert s == [x] + tail;
      assert FlatMap([x], f) == f(x) by { assert [x][..0] == []; }
      assert FlatMap(s, f) == f(x) + FlatMap(tail, f);
    }
  }
}
