/**
 * The comparator-driven sort the rules call (`sortNodes`, `toSorted`), modelled
 * as a stable insertion sort under an abstract three-way comparator, and the
 * flattening of a list of lists (`flat`, `flatMap`, repeated `push(...xs)`).
 */
module Sorting {

  /**
   * Inserts `x` into `s` before the first element it strictly precedes, that
   * is, after every element it ties with: later input stays later on ties.
   */
  function Insert<T>(x: T, s: seq<T>, cmp: (T, T) -> int): (r: seq<T>)
    ensures |r| == |s| + 1
    ensures multiset(r) == multiset(s) + multiset{x}
  {
    if s == [] then [x]
    else if cmp(x, s[0]) < 0 then [x] + s
    else
      var tail := Insert(x, s[1..], cmp);
      assert s == [s[0]] + s[1..];
      [s[0]] + tail
  }

  /** A stable sort of `s` under `cmp`: the result is a permutation of `s`. */
  function StableSort<T>(s: seq<T>, cmp: (T, T) -> int): (r: seq<T>)
    ensures |r| == |s|
    ensures multiset(r) == multiset(s)
  {
    if s == [] then []
    else
      var init := StableSort(s[..|s| - 1], cmp);
      assert s == s[..|s| - 1] + [s[|s| - 1]];
      Insert(s[|s| - 1], init, cmp)
  }

  /**
   * `cmp` is a three-way comparator of a total preorder: its sign flips with
   * its arguments and "not after" is transitive.
   */
  ghost predicate TotalPreorder<T(!new)>(cmp: (T, T) -> int) {
    && (forall a, b :: cmp(a, b) < 0 <==> cmp(b, a) > 0)
    && (forall a, b, c :: cmp(a, b) <= 0 && cmp(b, c) <= 0 ==> cmp(a, c) <= 0)
  }

  /** No element is strictly before an element to its left. */
  ghost predicate SortedBy<T>(s: seq<T>, cmp: (T, T) -> int) {
    forall i, j :: 0 <= i < j < |s| ==> cmp(s[j], s[i]) >= 0
  }

  lemma {:induction false} InsertSorted<T(!new)>(x: T, s: seq<T>, cmp: (T, T) -> int)
    requires TotalPreorder(cmp)
    requires SortedBy(s, cmp)
    ensures SortedBy(Insert(x, s, cmp), cmp)
  {
    if s == [] {
    } else if cmp(x, s[0]) < 0 {
      assert Insert(x, s, cmp) == [x] + s;
      InsertBeforeHead(x, s, cmp);
    } else {
      var y, rest := s[0], s[1..];
      assert SortedBy(rest, cmp) by {
        forall i, j | 0 <= i < j < |rest| ensures cmp(rest[j], rest[i]) >= 0 {
          assert rest[i] == s[i + 1] && rest[j] == s[j + 1];
        }
      }
      InsertSorted(x, rest, cmp);
      var tail := Insert(x, rest, cmp);
      assert Insert(x, s, cmp) == [y] + tail;
      forall k | 0 <= k < |tail| ensures cmp(tail[k], y) >= 0 {
        assert tail[k] in multiset(rest) + multiset{x};
        if tail[k] != x {
          var j :| 0 <= j < |rest| && rest[j] == tail[k];
          assert s[j + 1] == tail[k];
        }
      }
      SortedCons(y, tail, cmp);
    }
  }

  /**
   * An element that strictly precedes the head of a sorted list precedes or
   * ties with every element: were some element strictly before it, that
   * element would tie with the head, and then the head could not be after it.
   */
  lemma InsertBeforeHead<T(!new)>(x: T, s: seq<T>, cmp: (T, T) -> int)
    requires TotalPreorder(cmp) && SortedBy(s, cmp)
    requires s != [] && cmp(x, s[0]) < 0
    ensures SortedBy([x] + s, cmp)
  {
    forall j | 0 <= j < |s| ensures cmp(s[j], x) >= 0 {
      if j > 0 {
        assert cmp(s[j], s[0]) >= 0;
      }
    }
    SortedCons(x, s, cmp);
  }

  /** A sorted list stays sorted under a head that nothing in it strictly precedes. */
  lemma SortedCons<T>(y: T, tail: seq<T>, cmp: (T, T) -> int)
    requires SortedBy(tail, cmp)
    requires forall k :: 0 <= k < |tail| ==> cmp(tail[k], y) >= 0
    ensures SortedBy([y] + tail, cmp)
  {
    var w := [y] + tail;
    forall i, j | 0 <= i < j < |w| ensures cmp(w[j], w[i]) >= 0 {
      assert w[j] == tail[j - 1];
      if i > 0 {
        assert w[i] == tail[i - 1];
      }
    }
  }

  /** Under a total preorder the stable sort puts its result in order. */
  lemma {:induction false} StableSortSorted<T(!new)>(s: seq<T>, cmp: (T, T) -> int)
    requires TotalPreorder(cmp)
    ensures SortedBy(StableSort(s, cmp), cmp)
  {
    if s != [] {
      StableSortSorted(s[..|s| - 1], cmp);
      InsertSorted(s[|s| - 1], StableSort(s[..|s| - 1], cmp), cmp);
    }
  }

  /** The elements of `s` that tie with `x` under `cmp`, in their order in `s`. */
  function Ties<T>(s: seq<T>, x: T, cmp: (T, T) -> int): seq<T>
  {
    if s == [] then []
    else (if cmp(s[0], x) == 0 then [s[0]] else []) + Ties(s[1..], x, cmp)
  }

  /** The ties of two lists one after the other are the ties of each, one after the other. */
  lemma {:induction false} TiesAppend<T>(a: seq<T>, b: seq<T>, x: T, cmp: (T, T) -> int)
    ensures Ties(a + b, x, cmp) == Ties(a, x, cmp) + Ties(b, x, cmp)
  {
    if a != [] {
      assert (a + b)[0] == a[0] && (a + b)[1..] == a[1..] + b;
      TiesAppend(a[1..], b, x, cmp);
    } else {
      assert a + b == b;
    }
  }

  /** Nothing in a list every element of which `x` strictly precedes ties with `x`. */
  lemma {:induction false} NoTiesAbove<T>(s: seq<T>, x: T, cmp: (T, T) -> int)
    requires forall k :: 0 <= k < |s| ==> cmp(x, s[k]) < 0
    requires forall k :: 0 <= k < |s| ==> cmp(s[k], x) > 0
    ensures Ties(s, x, cmp) == []
  {
    if s != [] {
      assert forall k :: 0 <= k < |s| - 1 ==> s[1..][k] == s[k + 1];
      NoTiesAbove(s[1..], x, cmp);
    }
  }

  /** The ties of a list with one more element in front. */
  lemma {:induction false} TiesCons<T>(h: T, t: seq<T>, x: T, cmp: (T, T) -> int)
    ensures Ties([h] + t, x, cmp) == (if cmp(h, x) == 0 then [h] else []) + Ties(t, x, cmp)
  {
    assert ([h] + t)[0] == h && ([h] + t)[1..] == t;
  }

  /**
   * Inserting `y` into a sorted list adds it at the end of the ties of `x`
   * when it ties with `x`, and leaves them alone otherwise.
   */
  lemma {:induction false} InsertTies<T(!new)>(y: T, s: seq<T>, x: T, cmp: (T, T) -> int)
    requires TotalPreorder(cmp)
    requires SortedBy(s, cmp)
    ensures Ties(Insert(y, s, cmp), x, cmp) == Ties(s, x, cmp) + (if cmp(y, x) == 0 then [y] else [])
  {
    if s == [] {
      assert Insert(y, s, cmp) == [y];
      TiesCons(y, s, x, cmp);
    } else if cmp(y, s[0]) < 0 {
      InsertFirstTies(y, s, x, cmp);
    } else {
      SortedTail(s, cmp);
      InsertTies(y, s[1..], x, cmp);
      InsertPastHeadTies(y, s, x, cmp);
    }
  }

  /** Inserting past the head keeps the head in front of the ties. */
  lemma {:induction false} InsertPastHeadTies<T>(y: T, s: seq<T>, x: T, cmp: (T, T) -> int)
    requires s != [] && cmp(y, s[0]) >= 0
    requires Ties(Insert(y, s[1..], cmp), x, cmp) == Ties(s[1..], x, cmp) + (if cmp(y, x) == 0 then [y] else [])
    ensures Ties(Insert(y, s, cmp), x, cmp) == Ties(s, x, cmp) + (if cmp(y, x) == 0 then [y] else [])
  {
    var h, rest := s[0], s[1..];
    var tail := Insert(y, rest, cmp);
    assert Insert(y, s, cmp) == [h] + tail;
    assert s == [h] + rest;
    TiesBehindHead(h, rest, tail, if cmp(y, x) == 0 then [y] else [], x, cmp);
  }

  /** Ties `ty` added behind the ties of `rest` are added behind those of `[h] + rest`. */
  lemma {:induction false} TiesBehindHead<T>(h: T, rest: seq<T>, tail: seq<T>, ty: seq<T>, x: T, cmp: (T, T) -> int)
    requires Ties(tail, x, cmp) == Ties(rest, x, cmp) + ty
    ensures Ties([h] + tail, x, cmp) == Ties([h] + rest, x, cmp) + ty
  {
    TiesCons(h, tail, x, cmp);
    TiesCons(h, rest, x, cmp);
    var th, tr := if cmp(h, x) == 0 then [h] else [], Ties(rest, x, cmp);
    assert th + (tr + ty) == th + tr + ty;
  }

  /** An element inserted before the head of a sorted list comes after none of its ties. */
  lemma {:induction false} InsertFirstTies<T(!new)>(y: T, s: seq<T>, x: T, cmp: (T, T) -> int)
    requires TotalPreorder(cmp)
    requires SortedBy(s, cmp)
    requires s != [] && cmp(y, s[0]) < 0
    ensures Ties(Insert(y, s, cmp), x, cmp) == Ties(s, x, cmp) + (if cmp(y, x) == 0 then [y] else [])
  {
    assert Insert(y, s, cmp) == [y] + s;
    TiesCons(y, s, x, cmp);
    if cmp(y, x) == 0 {
      forall k | 0 <= k < |s| ensures cmp(x, s[k]) < 0 && cmp(s[k], x) > 0 {
        if k > 0 {
          assert cmp(s[k], s[0]) >= 0;
        }
      }
      NoTiesAbove(s, x, cmp);
    }
  }

  /** The tail of a sorted list is sorted. */
  lemma {:induction false} SortedTail<T>(s: seq<T>, cmp: (T, T) -> int)
    requires s != [] && SortedBy(s, cmp)
    ensures SortedBy(s[1..], cmp)
  {
    var rest := s[1..];
    forall i, j | 0 <= i < j < |rest| ensures cmp(rest[j], rest[i]) >= 0 {
      assert rest[i] == s[i + 1] && rest[j] == s[j + 1];
    }
  }

  /**
   * The sort is stable: under a total preorder the elements that tie with any
   * `x` come out in the order they went in.
   */
  lemma {:induction false} StableSortKeepsTies<T(!new)>(s: seq<T>, x: T, cmp: (T, T) -> int)
    requires TotalPreorder(cmp)
    ensures Ties(StableSort(s, cmp), x, cmp) == Ties(s, x, cmp)
  {
    if s != [] {
      var init, last := s[..|s| - 1], s[|s| - 1];
      var sortedInit := StableSort(init, cmp);
      assert StableSort(s, cmp) == Insert(last, sortedInit, cmp);
      assert s == init + [last];
      StableSortKeepsTies(init, x, cmp);
      StableSortSorted(init, cmp);
      InsertKeepsTies(init, last, sortedInit, x, cmp);
    }
  }

  /** One insertion step of the sort keeps the ties of `x` in input order. */
  lemma {:induction false} InsertKeepsTies<T(!new)>(init: seq<T>, last: T, sortedInit: seq<T>, x: T, cmp: (T, T) -> int)
    requires TotalPreorder(cmp)
    requires SortedBy(sortedInit, cmp)
    requires Ties(sortedInit, x, cmp) == Ties(init, x, cmp)
    ensures Ties(Insert(last, sortedInit, cmp), x, cmp) == Ties(init + [last], x, cmp)
  {
    InsertTies(last, sortedInit, x, cmp);
    TiesAppend(init, [last], x, cmp);
    TiesCons(last, [], x, cmp);
    assert [last] + [] == [last];
  }


  /** A list whose neighbours are each in order is in order. */
  lemma {:induction false} NeighboursSorted<T(!new)>(s: seq<T>, cmp: (T, T) -> int)
    requires TotalPreorder(cmp)
    requires forall i :: 0 < i < |s| ==> cmp(s[i - 1], s[i]) <= 0
    ensures SortedBy(s, cmp)
  {
    if |s| > 1 {
      var k := |s| - 1;
      NeighboursSorted(s[..k], cmp);
      // Every element before the last is not after the one before the last.
      forall i | 0 <= i < k ensures cmp(s[i], s[k]) <= 0 {
        if i < k - 1 {
          assert cmp(s[k - 1], s[i]) >= 0 by { assert s[..k][k - 1] == s[k - 1] && s[..k][i] == s[i]; }
          assert !(cmp(s[i], s[k - 1]) > 0);
        }
      }
      forall i, j | 0 <= i < j < |s| ensures cmp(s[j], s[i]) >= 0 {
        if j < k {
          assert s[..k][j] == s[j] && s[..k][i] == s[i];
        } else {
          assert cmp(s[i], s[k]) <= 0;
        }
      }
    }
  }

  /** Two lists in order, the second after every element of the first, are in order one after the other. */
  lemma SortedAppend<T>(a: seq<T>, b: seq<T>, cmp: (T, T) -> int)
    requires SortedBy(a, cmp) && SortedBy(b, cmp)
    requires forall x, y :: x in a && y in b ==> cmp(y, x) >= 0
    ensures SortedBy(a + b, cmp)
  {
    var s := a + b;
    forall i, j | 0 <= i < j < |s| ensures cmp(s[j], s[i]) >= 0 {
      if j < |a| {
        assert s[i] == a[i] && s[j] == a[j];
      } else if i >= |a| {
        assert s[i] == b[i - |a|] && s[j] == b[j - |a|];
      } else {
        assert s[i] in a && s[j] in b;
      }
    }
  }

  /** An element added in front of a split list goes to the first part. */
  lemma MultisetConsFirst<T>(x: T, w: seq<T>, p: seq<T>, t: seq<T>)
    requires multiset(w) == multiset(p) + multiset(t)
    ensures multiset([x] + w) == multiset([x] + p) + multiset(t)
  {
  }

  /** An element added in front of a split list goes to the second part. */
  lemma MultisetConsSecond<T>(y: T, w: seq<T>, p: seq<T>, t: seq<T>)
    requires multiset(w) == multiset(p) + multiset(t)
    ensures multiset([y] + w) == multiset(p) + multiset([y] + t)
  {
  }

  /** `lists.flat()`: the lists one after another. */
  function Concat<T>(lists: seq<seq<T>>): seq<T> {
    if lists == [] then [] else Concat(lists[..|lists| - 1]) + lists[|lists| - 1]
  }

  /** Appending a list appends it to the concatenation. */
  lemma ConcatSnoc<T>(a: seq<seq<T>>, b: seq<T>)
    ensures Concat(a + [b]) == Concat(a) + b
  {
    assert (a + [b])[..|a|] == a;
  }

  /** One more list of a prefix appends that list to the concatenation. */
  lemma ConcatTake<T>(lists: seq<seq<T>>, k: nat)
    requires k < |lists|
    ensures Concat(lists[..k + 1]) == Concat(lists[..k]) + lists[k]
  {
    assert lists[..k + 1] == lists[..k] + [lists[k]];
    ConcatSnoc(lists[..k], lists[k]);
  }

  /** Appending `x` to an appended list appends it to the concatenation. */
  lemma ConcatSnocPush<T>(a: seq<seq<T>>, b: seq<T>, x: T)
    ensures Concat(a + [b + [x]]) == Concat(a) + b + [x]
  {
    ConcatSnoc(a, b + [x]);
    AppendSnoc(Concat(a), b, x);
  }

  lemma AppendSnoc<T>(a: seq<T>, b: seq<T>, x: T)
    ensures a + (b + [x]) == a + b + [x]
  {
  }

  /** Adding `x` to the last list adds it at the end of the concatenation. */
  lemma ConcatPushLast<T>(c: seq<seq<T>>, x: T)
    requires c != []
    ensures Concat(c[..|c| - 1] + [c[|c| - 1] + [x]]) == Concat(c) + [x]
  {
    var k := |c| - 1;
    var init, last := c[..k], c[k];
    assert c == init + [last];
    ConcatSnoc(init, last);
    ConcatSnocPush(init, last, x);
  }

  lemma ConcatTwo<T>(a: seq<T>, b: seq<T>)
    ensures Concat([a, b]) == a + b
  {
    var none: seq<seq<T>> := [];
    assert [a, b][..1] == none + [a];
    ConcatSnoc(none, a);
  }

  lemma ConcatOne<T>(a: seq<T>)
    ensures Concat([a]) == a
  {
    var none: seq<seq<T>> := [];
    assert [a] == none + [a];
    ConcatSnoc(none, a);
  }
}
