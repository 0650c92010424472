/** Sequence helpers shared by the table model and the streak analyzer:
    an order-keeping filter (what a `SELECT ... WHERE` or a list
    comprehension with a condition returns), a map that fails as soon as one
    element fails (a list comprehension whose element expression can raise)
    and an ascending sort (Python's `sorted` on a list of dates). */
module Sequences {
  import opened Options

  /** The elements of `s` that satisfy `keep`, in their original order. */
  function Filter<T(==,!new)>(s: seq<T>, keep: T -> bool): (r: seq<T>)
    ensures |r| <= |s|
    ensures forall x :: x in r <==> x in s && keep(x)
  {
    if s == [] then []
    else
      assert s == [s[0]] + s[1..];
      if keep(s[0]) then [s[0]] + Filter(s[1..], keep)
      else Filter(s[1..], keep)
  }

  /** The filter keeps every copy of a kept element and no copy of another. */
  lemma {:induction false} FilterMultiset<T(!new)>(s: seq<T>, keep: T -> bool)
    ensures forall x :: multiset(Filter(s, keep))[x] == if keep(x) then multiset(s)[x] else 0
  {
    if s != [] {
      FilterMultiset(s[1..], keep);
      assert s == [s[0]] + s[1..];
    }
  }

  /** Filtering distributes over concatenation: rows added later come later. */
  lemma {:induction false} FilterAppend<T(!new)>(s: seq<T>, t: seq<T>, keep: T -> bool)
    ensures Filter(s + t, keep) == Filter(s, keep) + Filter(t, keep)
  {
    if s == [] {
      assert s + t == t;
    } else {
      assert (s + t)[0] == s[0];
      assert (s + t)[1..] == s[1..] + t;
      FilterAppend(s[1..], t, keep);
    }
  }

  /** A filter that keeps no element of `s` leaves nothing. */
  lemma {:induction false} FilterDropsAll<T(!new)>(s: seq<T>, keep: T -> bool)
    requires forall x :: x in s ==> !keep(x)
    ensures Filter(s, keep) == []
  {
    if s != [] {
      assert forall x :: x in s[1..] ==> x in s;
      FilterDropsAll(s[1..], keep);
    }
  }

  /** Filtering twice with `outer` after `inner`, when `outer` already implies
      `inner`, is the same as filtering once with `outer`. */
  lemma {:induction false} FilterFilter<T(!new)>(s: seq<T>, inner: T -> bool, outer: T -> bool)
    requires forall x :: outer(x) ==> inner(x)
    ensures Filter(Filter(s, inner), outer) == Filter(s, outer)
  {
    if s != [] {
      FilterFilter(s[1..], inner, outer);
    }
  }

  /** `f` applied to every element of `s`, in order; `None` as soon as `f`
      fails on one element. */
  function MapAll<A, B>(s: seq<A>, f: A -> Option<B>): (r: Option<seq<B>>)
    ensures r.Some? ==> |r.value| == |s|
  {
    if s == [] then Some([])
    else
      match f(s[0])
      case None => None
      case Some(y) =>
        match MapAll(s[1..], f)
        case None => None
        case Some(ys) => Some([y] + ys)
  }

  /** The map fails exactly when `f` fails on some element, and otherwise
      holds `f`'s result for every element at the element's position. */
  lemma {:induction false} MapAllMeaning<A, B>(s: seq<A>, f: A -> Option<B>)
    ensures MapAll(s, f).None? <==> exists i :: 0 <= i < |s| && f(s[i]).None?
    ensures MapAll(s, f).Some? ==> forall i :: 0 <= i < |s| ==> f(s[i]) == Some(MapAll(s, f).value[i])
  {
    if s != [] {
      MapAllMeaning(s[1..], f);
      assert forall i :: 0 < i < |s| ==> s[i] == s[1..][i - 1];
      if f(s[0]).Some? && MapAll(s[1..], f).None? {
        var i :| 0 <= i < |s| - 1 && f(s[1..][i]).None?;
        assert f(s[i + 1]).None?;
      }
    }
  }

  /** Conversely, when `f` gives `Some(ys[i])` on every element `s[i]`, the
      map gives `ys`. */
  lemma {:induction false} MapAllPointwise<A, B>(s: seq<A>, f: A -> Option<B>, ys: seq<B>)
    requires |ys| == |s|
    requires forall i :: 0 <= i < |s| ==> f(s[i]) == Some(ys[i])
    ensures MapAll(s, f) == Some(ys)
  {
    if s != [] {
      assert forall i :: 0 <= i < |s| - 1 ==> s[1..][i] == s[i + 1] && ys[1..][i] == ys[i + 1];
      MapAllPointwise(s[1..], f, ys[1..]);
      assert ys == [ys[0]] + ys[1..];
    }
  }

  /** Mapping a concatenation succeeds exactly when both parts succeed, and
      then gives the concatenated results. */
  lemma {:induction false} MapAllAppend<A, B>(s: seq<A>, t: seq<A>, f: A -> Option<B>)
    ensures MapAll(s + t, f) ==
      if MapAll(s, f).Some? && MapAll(t, f).Some? then Some(MapAll(s, f).value + MapAll(t, f).value)
      else None
  {
    if s == [] {
      assert s + t == t;
      assert MapAll(t, f).Some? ==> [] + MapAll(t, f).value == MapAll(t, f).value;
    } else {
      assert (s + t)[0] == s[0] && (s + t)[1..] == s[1..] + t;
      MapAllAppend(s[1..], t, f);
      if MapAll(s, f).Some? && MapAll(t, f).Some? {
        var y := f(s[0]).value;
        assert [y] + (MapAll(s[1..], f).value + MapAll(t, f).value)
          == ([y] + MapAll(s[1..], f).value) + MapAll(t, f).value;
      }
    }
  }

  /** Dropping the first element of a sequence drops one copy of it from the
      sequence's multiset. */
  lemma MultisetTail<T>(s: seq<T>)
    requires s != []
    ensures multiset(s[1..]) == multiset(s) - multiset{s[0]}
  {
    assert s == [s[0]] + s[1..];
  }

  /** The first element of `s1` occurs somewhere in a rearrangement `s2` of
      it; what surrounds that occurrence is a rearrangement of the rest of `s1`. */
  lemma MultisetSplit<T>(s1: seq<T>, s2: seq<T>) returns (left: seq<T>, right: seq<T>)
    requires s1 != [] && multiset(s1) == multiset(s2)
    ensures s2 == left + [s1[0]] + right
    ensures multiset(s1[1..]) == multiset(left + right)
  {
    var x := s1[0];
    assert x in multiset(s2);
    var k :| 0 <= k < |s2| && s2[k] == x;
    left, right := s2[..k], s2[k + 1..];
    assert s2 == left + [x] + right;
    MultisetTail(s1);
    assert multiset(s2) == multiset(left) + multiset{x} + multiset(right);
  }

  /** Rearranging the input rearranges the results, and does not change
      whether the map succeeds. */
  lemma {:induction false} MapAllPermutation<A, B>(s1: seq<A>, s2: seq<A>, f: A -> Option<B>)
    requires multiset(s1) == multiset(s2)
    ensures MapAll(s1, f).Some? <==> MapAll(s2, f).Some?
    ensures MapAll(s1, f).Some? ==> multiset(MapAll(s1, f).value) == multiset(MapAll(s2, f).value)
  {
    if s1 == [] {
      assert |s2| == |multiset(s2)| == 0;
    } else {
      var x := s1[0];
      var left, right := MultisetSplit(s1, s2);
      assert s1 == [x] + s1[1..];
      MapAllPermutation(s1[1..], left + right, f);
      MapAllAppend(left, right, f);
      MapAllAppend(left, [x], f);
      MapAllAppend(left + [x], right, f);
      MapAllAppend([x], s1[1..], f);
    }
  }

  predicate Sorted(s: seq<int>) {
    forall i, j :: 0 <= i < j < |s| ==> s[i] <= s[j]
  }

  /** Prepending an element no larger than any element keeps a sequence sorted. */
  lemma SortedCons(h: int, t: seq<int>)
    requires Sorted(t)
    requires forall y :: y in t ==> h <= y
    ensures Sorted([h] + t)
  {
    forall i, j | 0 <= i < j < |[h] + t| ensures ([h] + t)[i] <= ([h] + t)[j] {
      assert ([h] + t)[j] == t[j - 1] && t[j - 1] in t;
      if i > 0 {
        assert ([h] + t)[i] == t[i - 1];
      }
    }
  }

  /** The tail of a sorted sequence is sorted and bounded below by its head. */
  lemma SortedTail(s: seq<int>)
    requires Sorted(s) && s != []
    ensures Sorted(s[1..])
    ensures forall y :: y in s[1..] ==> s[0] <= y
  {
  }

  /** Inserts `x` into the sorted sequence `s` before the first element not below it. */
  function Insert(x: int, s: seq<int>): (r: seq<int>)
    requires Sorted(s)
    ensures Sorted(r)
    ensures multiset(r) == multiset(s) + multiset{x}
  {
    if s == [] || x <= s[0] then
      SortedCons(x, s);
      [x] + s
    else
      SortedTail(s);
      var rest := Insert(x, s[1..]);
      assert forall y :: y in rest ==> s[0] <= y by {
        forall y | y in rest ensures s[0] <= y {
          assert y in multiset(s[1..]) + multiset{x};
          if y != x {
            assert y in s[1..];
          }
        }
      }
      SortedCons(s[0], rest);
      assert s == [s[0]] + s[1..];
      [s[0]] + rest
  }

  /** Ascending sort of `s` (the model of Python's `sorted`). */
  function Sort(s: seq<int>): (r: seq<int>)
    ensures Sorted(r)
    ensures multiset(r) == multiset(s)
    ensures |r| == |s|
  {
    if s == [] then []
    else
      assert s == [s[0]] + s[1..];
      var r := Insert(s[0], Sort(s[1..]));
      assert |r| == |multiset(r)| == |multiset(s)|;
      r
  }

  /** Two sorted sequences holding the same elements are equal: a sorted
      arrangement of a multiset is unique. */
  lemma {:induction false} SortedUnique(a: seq<int>, b: seq<int>)
    requires Sorted(a) && Sorted(b)
    requires multiset(a) == multiset(b)
    ensures a == b
  {
    assert |a| == |multiset(a)| == |multiset(b)| == |b|;
    if a != [] {
      assert a[0] in multiset(b) && b[0] in multiset(a);
      assert b[0] in a && a[0] in b;
      assert a[0] == b[0];
      MultisetTail(a);
      MultisetTail(b);
      SortedUnique(a[1..], b[1..]);
    }
  }

  /** Sorting forgets the order of its input. */
  lemma SortIgnoresOrder(s: seq<int>, t: seq<int>)
    requires multiset(s) == multiset(t)
    ensures Sort(s) == Sort(t)
  {
    SortedUnique(Sort(s), Sort(t));
  }
}
