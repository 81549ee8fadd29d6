/** A stable sort, standing for the library's `sort.SliceStable`: elements move only when the
    comparison strictly demands it. `less` is the comparison passed to the library. */
module StableSort {

  /** Position `x` before every element of `s` that is not strictly smaller than it. */
  function Insert<T>(x: T, s: seq<T>, less: (T, T) -> bool): (r: seq<T>)
    ensures multiset(r) == multiset{x} + multiset(s)
    ensures |r| == |s| + 1
  {
    if s == [] || !less(s[0], x) then [x] + s
    else
      assert s == [s[0]] + s[1..];
      [s[0]] + Insert(x, s[1..], less)
  }

  /** The sorted rearrangement of `s` in which ties keep their original order. */
  function Sort<T>(s: seq<T>, less: (T, T) -> bool): (r: seq<T>)
    ensures multiset(r) == multiset(s)
    ensures |r| == |s|
  {
    if s == [] then []
    else
      assert s == [s[0]] + s[1..];
      Insert(s[0], Sort(s[1..], less), less)
  }

  /** No later element is strictly smaller than an earlier one. */
  ghost predicate Ordered<T>(s: seq<T>, less: (T, T) -> bool) {
    forall i, j | 0 <= i < j < |s| :: !less(s[j], s[i])
  }

  /** `less` is a strict weak order on the elements the sort compares. */
  ghost predicate StrictWeakOrder<T(!new)>(less: (T, T) -> bool) {
    && (forall a, b | less(a, b) :: !less(b, a))
    && (forall a, b, c | !less(a, b) && !less(b, c) :: !less(a, c))
  }

  /** A list that is already in order is returned unchanged, whatever `less` is. */
  lemma {:induction false} SortOrdered<T>(s: seq<T>, less: (T, T) -> bool)
    requires Ordered(s, less)
    ensures Sort(s, less) == s
  {
    if s != [] {
      SortOrdered(s[1..], less);
      assert s == [s[0]] + s[1..];
      if s[1..] != [] {
        assert !less(s[1], s[0]);
      }
    }
  }

  /** Nothing in `rest` is strictly smaller than anything in `front`. */
  ghost predicate Behind<T>(front: seq<T>, rest: seq<T>, less: (T, T) -> bool) {
    forall x, y | x in front && y in rest :: !less(y, x)
  }

  lemma TailBehind<T>(front: seq<T>, rest: seq<T>, less: (T, T) -> bool)
    requires front != [] && Ordered(front, less) && Behind(front, rest, less)
    ensures Ordered(front[1..], less) && Behind(front[1..], rest, less)
  {
  }

  lemma ConsConcat<T>(front: seq<T>, rest: seq<T>)
    requires front != []
    ensures front + rest == [front[0]] + (front[1..] + rest)
  {
  }

  /** An ordered front stays where it is when nothing behind it is strictly smaller. */
  lemma {:induction false} SortFront<T>(front: seq<T>, rest: seq<T>, less: (T, T) -> bool)
    requires Ordered(front, less) && Behind(front, rest, less)
    ensures Sort(front + rest, less) == front + Sort(rest, less)
  {
    hide Sort, Insert, Ordered, Behind;
    if front == [] {
      assert front + rest == rest;
    } else {
      var tail := front[1..] + Sort(rest, less);
      TailBehind(front, rest, less);
      SortFront(front[1..], rest, less);
      ConsConcat(front, rest);
      SortCons(front[0], front[1..] + rest, less);
      if tail != [] {
        HeadNotLess(front, rest, tail[0], less);
      }
      InsertAhead(front[0], tail, less);
      ConsConcat(front, Sort(rest, less));
    }
  }

  lemma SortCons<T>(x: T, s: seq<T>, less: (T, T) -> bool)
    ensures Sort([x] + s, less) == Insert(x, Sort(s, less), less)
  {
    assert ([x] + s)[1..] == s;
  }

  lemma InsertAhead<T>(x: T, s: seq<T>, less: (T, T) -> bool)
    requires s != [] ==> !less(s[0], x)
    ensures Insert(x, s, less) == [x] + s
  {
  }

  lemma HeadNotLess<T>(front: seq<T>, rest: seq<T>, y: T, less: (T, T) -> bool)
    requires front != [] && Ordered(front, less) && Behind(front, rest, less)
    requires front[1..] + Sort(rest, less) != [] && y == (front[1..] + Sort(rest, less))[0]
    ensures !less(y, front[0])
  {
    if |front| > 1 {
      assert y == front[1];
    } else {
      SortMembers(rest, less, y);
      assert y == Sort(rest, less)[0] && front[0] in front;
    }
  }

  lemma {:induction false} InsertKeepsOrder<T(!new)>(x: T, s: seq<T>, less: (T, T) -> bool)
    requires StrictWeakOrder(less) && Ordered(s, less)
    ensures Ordered(Insert(x, s, less), less)
  {
    if s != [] && less(s[0], x) {
      var rest := Insert(x, s[1..], less);
      InsertKeepsOrder(x, s[1..], less);
      forall y | y in rest
        ensures !less(y, s[0])
      {
        assert y in multiset(rest);
        assert y == x || y in s[1..];
      }
    } else if s != [] {
      forall j | 0 <= j < |s|
        ensures !less(s[j], x)
      {
        assert j == 0 || !less(s[j], s[0]);
      }
    }
  }

  /** Sorting by a strict weak order puts the list in order. */
  lemma {:induction false} SortSorts<T(!new)>(s: seq<T>, less: (T, T) -> bool)
    requires StrictWeakOrder(less)
    ensures Ordered(Sort(s, less), less)
  {
    if s != [] {
      SortSorts(s[1..], less);
      InsertKeepsOrder(s[0], Sort(s[1..], less), less);
    }
  }

  /** Membership survives sorting. */
  lemma SortMembers<T>(s: seq<T>, less: (T, T) -> bool, x: T)
    ensures x in Sort(s, less) <==> x in s
  {
    assert x in multiset(Sort(s, less)) <==> x in multiset(s);
  }

  /** Every element is strictly smaller than the ones behind it. */
  ghost predicate Strict<T>(s: seq<T>, less: (T, T) -> bool) {
    forall i, j | 0 <= i < j < |s| :: less(s[i], s[j]) && !less(s[j], s[i])
  }

  lemma ConsStrict<T>(y: T, s: seq<T>, less: (T, T) -> bool)
    requires Strict([y] + s, less)
    ensures Strict(s, less) && forall x | x in s :: less(y, x) && !less(x, y)
  {
    var t := [y] + s;
    forall x | x in s ensures less(y, x) && !less(x, y) {
      var i :| 0 <= i < |s| && s[i] == x;
      assert t[0] == y && t[i + 1] == x;
    }
    forall i, j | 0 <= i < j < |s| ensures less(s[i], s[j]) && !less(s[j], s[i]) {
      assert t[i + 1] == s[i] && t[j + 1] == s[j];
    }
  }

  lemma InsertBehind<T>(x: T, y: T, s: seq<T>, less: (T, T) -> bool)
    requires less(y, x)
    ensures Insert(x, [y] + s, less) == [y] + Insert(x, s, less)
  {
    assert ([y] + s)[1..] == s;
  }

  /** An element goes back to the place it was taken from. */
  lemma {:induction false} InsertBack<T>(front: seq<T>, x: T, back: seq<T>, less: (T, T) -> bool)
    requires Strict(front + ([x] + back), less)
    ensures Insert(x, front + back, less) == front + ([x] + back)
  {
    hide Insert, Strict;
    if front == [] {
      assert front + ([x] + back) == [x] + back && front + back == back;
      ConsStrict(x, back, less);
      InsertAhead(x, back, less);
    } else {
      ConsConcat(front, [x] + back);
      ConsConcat(front, back);
      ConsStrict(front[0], front[1..] + ([x] + back), less);
      assert x in front[1..] + ([x] + back);
      InsertBack(front[1..], x, back, less);
      InsertBehind(x, front[0], front[1..] + back, less);
    }
  }

  lemma TakeOut<T>(t: seq<T>, x: T, less: (T, T) -> bool) returns (front: seq<T>, back: seq<T>)
    requires x in t && Strict(t, less)
    ensures t == front + ([x] + back) && multiset(front + back) == multiset(t) - multiset{x}
    ensures Strict(front + back, less)
  {
    hide Strict;
    var i :| 0 <= i < |t| && t[i] == x;
    front, back := t[..i], t[i + 1..];
    assert t == front + ([x] + back);
    TakenStrict(front, x, back, less);
    TakenMultiset(front, x, back);
  }

  lemma TakenStrict<T>(front: seq<T>, x: T, back: seq<T>, less: (T, T) -> bool)
    requires Strict(front + ([x] + back), less)
    ensures Strict(front + back, less)
  {
    var t, rest := front + ([x] + back), front + back;
    forall i, j | 0 <= i < j < |rest| ensures less(rest[i], rest[j]) && !less(rest[j], rest[i]) {
      assert rest[i] == t[if i < |front| then i else i + 1];
      assert rest[j] == t[if j < |front| then j else j + 1];
    }
  }

  lemma TakenMultiset<T>(front: seq<T>, x: T, back: seq<T>)
    ensures multiset(front + back) == multiset(front + ([x] + back)) - multiset{x}
  {
  }

  lemma TakeFirst<T>(s: seq<T>, t: seq<T>)
    requires multiset(s) == multiset(t) && s != []
    ensures s == [s[0]] + s[1..] && s[0] in t && multiset(s[1..]) == multiset(t) - multiset{s[0]}
  {
    assert s == [s[0]] + s[1..];
    assert s[0] in multiset(s);
  }

  lemma NothingLeft<T>(t: seq<T>)
    requires multiset(t) == multiset{}
    ensures t == []
  {
    assert |multiset(t)| == |t|;
  }

  /** However a list without ties is rearranged, sorting it finds the order back. */
  lemma {:induction false} SortRestores<T>(s: seq<T>, t: seq<T>, less: (T, T) -> bool)
    requires multiset(s) == multiset(t) && Strict(t, less)
    ensures Sort(s, less) == t
  {
    if s == [] {
      NothingLeft(t);
    } else {
      hide Strict, Insert, Sort;
      TakeFirst(s, t);
      var front, back := TakeOut(t, s[0], less);
      SortRestores(s[1..], front + back, less);
      SortCons(s[0], s[1..], less);
      InsertBack(front, s[0], back, less);
    }
  }

  // ----- Pairs --------------------------------------------------------------------------------------------------

  /** Any two elements are related. */
  ghost predicate Pairwise<T>(s: seq<T>, related: (T, T) -> bool) {
    forall i, j | 0 <= i < j < |s| :: related(s[i], s[j])
  }

  ghost predicate Symmetric<T(!new)>(related: (T, T) -> bool) {
    forall a, b :: related(a, b) <==> related(b, a)
  }

  lemma PairwiseCons<T>(x: T, s: seq<T>, related: (T, T) -> bool)
    ensures Pairwise([x] + s, related) <==> (forall y | y in s :: related(x, y)) && Pairwise(s, related)
  {
    var all := [x] + s;
    if Pairwise(all, related) {
      forall y | y in s ensures related(x, y) {
        var i :| 0 <= i < |s| && s[i] == y;
        assert all[0] == x && all[i + 1] == y;
      }
      forall i, j | 0 <= i < j < |s| ensures related(s[i], s[j]) {
        assert all[i + 1] == s[i] && all[j + 1] == s[j];
      }
    }
  }

  lemma {:induction false} InsertPairwise<T(!new)>(x: T, s: seq<T>, less: (T, T) -> bool, related: (T, T) -> bool)
    requires Symmetric(related)
    ensures Pairwise(Insert(x, s, less), related) <==> Pairwise([x] + s, related)
  {
    if s != [] && less(s[0], x) {
      hide Pairwise;
      var rest := Insert(x, s[1..], less);
      InsertPairwise(x, s[1..], less, related);
      PairwiseCons(s[0], rest, related);
      PairwiseCons(s[0], s[1..], related);
      PairwiseCons(x, s[1..], related);
      PairwiseCons(x, s, related);
      assert s == [s[0]] + s[1..];
      assert forall y :: y in rest <==> y in multiset(rest);
    }
  }

  /** Sorting does not change which pairs there are. */
  lemma {:induction false} SortPairwise<T(!new)>(s: seq<T>, less: (T, T) -> bool, related: (T, T) -> bool)
    requires Symmetric(related)
    ensures Pairwise(Sort(s, less), related) <==> Pairwise(s, related)
  {
    if s != [] {
      hide Pairwise, Insert;
      var rest := Sort(s[1..], less);
      SortPairwise(s[1..], less, related);
      InsertPairwise(s[0], rest, less, related);
      PairwiseCons(s[0], rest, related);
      PairwiseCons(s[0], s[1..], related);
      assert s == [s[0]] + s[1..];
      forall y ensures y in rest <==> y in s[1..] {
        SortMembers(s[1..], less, y);
      }
    }
  }
}
