/**
 * `Array.prototype.sort` with a comparator, which ECMA-262 10th edition section 22.1.3.27 requires to be
 * stable, modelled as insertion sort: an element moves in front of another only when the comparator
 * returns a positive number for the pair.
 */
module StableSort {
  import opened Seqs

  function Insert<T(==)>(t: seq<T>, x: T, cmp: (T, T) -> int): (r: seq<T>)
    ensures multiset(r) == multiset(t) + multiset{x}
    decreases |t|
  {
    if t == [] then [x]
    else if cmp(t[|t| - 1], x) > 0 then
      assert t == t[..|t| - 1] + [t[|t| - 1]];
      Insert(t[..|t| - 1], x, cmp) + [t[|t| - 1]]
    else t + [x]
  }

  /** The sorted copy; always a permutation of the input. */
  function Sort<T(==)>(s: seq<T>, cmp: (T, T) -> int): (r: seq<T>)
    ensures multiset(r) == multiset(s)
    decreases |s|
  {
    if s == [] then []
    else
      assert s == s[..|s| - 1] + [s[|s| - 1]];
      Insert(Sort(s[..|s| - 1], cmp), s[|s| - 1], cmp)
  }

  ghost predicate Sorted<T>(s: seq<T>, cmp: (T, T) -> int) {
    forall i, j :: 0 <= i < j < |s| ==> cmp(s[i], s[j]) <= 0
  }

  /** The comparator is a total preorder on the elements of `elems`. */
  ghost predicate Consistent<T>(elems: set<T>, cmp: (T, T) -> int) {
    (forall a, b :: a in elems && b in elems ==> cmp(a, b) <= 0 || cmp(b, a) <= 0) &&
    (forall a, b, c :: a in elems && b in elems && c in elems && cmp(a, b) <= 0 && cmp(b, c) <= 0 ==> cmp(a, c) <= 0)
  }

  lemma SortedAppend<T>(s: seq<T>, y: T, cmp: (T, T) -> int)
    requires Sorted(s, cmp)
    requires forall e :: e in s ==> cmp(e, y) <= 0
    ensures Sorted(s + [y], cmp)
  {
    var r := s + [y];
    forall i, j | 0 <= i < j < |r| ensures cmp(r[i], r[j]) <= 0 {
      if j == |s| {
        assert r[i] == s[i] && s[i] in s;
      } else {
        assert r[i] == s[i] && r[j] == s[j];
      }
    }
  }

  lemma {:induction false} InsertSorted<T>(t: seq<T>, x: T, cmp: (T, T) -> int, elems: set<T>)
    requires Consistent(elems, cmp) && x in elems && forall e :: e in t ==> e in elems
    requires Sorted(t, cmp)
    ensures Sorted(Insert(t, x, cmp), cmp)
    decreases |t|
  {
    if t != [] {
      var init, last := t[..|t| - 1], t[|t| - 1];
      assert t == init + [last];
      assert Sorted(init, cmp);
      if cmp(last, x) > 0 {
        InsertSorted(init, x, cmp, elems);
        var m := Insert(init, x, cmp);
        forall e | e in m ensures cmp(e, last) <= 0 {
          assert e in multiset(m);
          if e == x {
            assert cmp(x, last) <= 0 || cmp(last, x) <= 0;
          } else {
            assert e in init;
            var k :| 0 <= k < |init| && init[k] == e;
            assert t[k] == e;
          }
        }
        SortedAppend(m, last, cmp);
      } else {
        forall e | e in t ensures cmp(e, x) <= 0 {
          var k :| 0 <= k < |t| && t[k] == e;
          if k < |t| - 1 {
            assert cmp(e, last) <= 0;
          }
        }
        SortedAppend(t, x, cmp);
      }
    }
  }

  /** With a comparator that is a total preorder on the elements, the result is in order. */
  lemma {:induction false} SortSorted<T>(s: seq<T>, cmp: (T, T) -> int, elems: set<T>)
    requires Consistent(elems, cmp) && forall e :: e in s ==> e in elems
    ensures Sorted(Sort(s, cmp), cmp)
    decreases |s|
  {
    if s != [] {
      var init := s[..|s| - 1];
      assert s == init + [s[|s| - 1]];
      SortSorted(init, cmp, elems);
      forall e | e in Sort(init, cmp) ensures e in elems {
        assert e in multiset(Sort(init, cmp));
        assert e in init;
      }
      InsertSorted(Sort(init, cmp), s[|s| - 1], cmp, elems);
    }
  }

  /** A sequence already in order is returned unchanged. */
  lemma {:induction false} SortOfSorted<T>(s: seq<T>, cmp: (T, T) -> int)
    requires Sorted(s, cmp)
    ensures Sort(s, cmp) == s
    decreases |s|
  {
    if s != [] {
      var init := s[..|s| - 1];
      assert s == init + [s[|s| - 1]];
      assert Sorted(init, cmp);
      SortOfSorted(init, cmp);
      if init != [] {
        assert cmp(init[|init| - 1], s[|s| - 1]) <= 0;
      }
    }
  }

  /** Sorting twice gives what sorting once gives, when the comparator is consistent on the elements. */
  lemma SortIdempotent<T>(s: seq<T>, cmp: (T, T) -> int)
    requires Consistent((set e | e in s), cmp)
    ensures Sort(Sort(s, cmp), cmp) == Sort(s, cmp)
  {
    SortSorted(s, cmp, (set e | e in s));
    SortOfSorted(Sort(s, cmp), cmp);
  }

  /** The comparator of a stable partition: `first` elements before the others, ties kept in place. */
  ghost predicate PartitionComparator<T(!new)>(cmp: (T, T) -> int, first: T -> bool) {
    forall a, b :: cmp(a, b) == (if first(a) && !first(b) then -1 else if !first(a) && first(b) then 1 else 0)
  }

  /** An element outside the first group goes to the very end. */
  lemma InsertRest<T(!new)>(t: seq<T>, x: T, cmp: (T, T) -> int, first: T -> bool)
    requires PartitionComparator(cmp, first) && !first(x)
    ensures Insert(t, x, cmp) == t + [x]
  {
    if t != [] {
      assert cmp(t[|t| - 1], x) <= 0;
    }
  }

  /** Filtering a one-element sequence. */
  lemma FilterSingle<T>(x: T, p: T -> bool)
    ensures Filter([x], p) == if p(x) then [x] else []
  {
    assert [x][..0] == [];
  }

  lemma AppendAssoc<T>(a: seq<T>, b: seq<T>, c: seq<T>)
    ensures (a + b) + c == a + (b + c)
  {
  }

  /** An element of the first group goes after a run of first-group elements. */
  lemma InsertAfterFirst<T(!new)>(front: seq<T>, x: T, cmp: (T, T) -> int, first: T -> bool)
    requires PartitionComparator(cmp, first) && first(x)
    requires forall u :: u in front ==> first(u)
    ensures Insert(front, x, cmp) == front + [x]
  {
    if front != [] {
      assert first(front[|front| - 1]);
    }
  }

  /** An element of the first group goes right after the first group. */
  lemma {:induction false} InsertFirst<T(!new)>(front: seq<T>, back: seq<T>, x: T, cmp: (T, T) -> int, first: T -> bool)
    requires PartitionComparator(cmp, first) && first(x)
    requires forall u :: u in front ==> first(u)
    requires forall u :: u in back ==> !first(u)
    ensures Insert(front + back, x, cmp) == front + [x] + back
    decreases |back|
  {
    if back == [] {
      assert front + back == front;
      InsertAfterFirst(front, x, cmp, first);
    } else {
      var init, last := back[..|back| - 1], back[|back| - 1];
      assert back == init + [last];
      var t := front + back;
      assert Insert(t, x, cmp) == Insert(front + init, x, cmp) + [last] by {
        assert t[..|t| - 1] == front + init && t[|t| - 1] == last;
        assert !first(last);
        assert cmp(last, x) == 1;
      }
      InsertFirst(front, init, x, cmp, first);
      AppendAssoc(front + [x], init, [last]);
    }
  }

  /** Sorting with a partition comparator keeps each group in input order: a stable partition. */
  lemma {:induction false} SortIsStablePartition<T(!new)>(s: seq<T>, cmp: (T, T) -> int, first: T -> bool, rest: T -> bool)
    requires PartitionComparator(cmp, first)
    requires forall u :: rest(u) == !first(u)
    ensures Sort(s, cmp) == Filter(s, first) + Filter(s, rest)
    decreases |s|
  {
    if s != [] {
      var init, x := s[..|s| - 1], s[|s| - 1];
      assert s == init + [x];
      SortIsStablePartition(init, cmp, first, rest);
      PartitionStep(init, x, cmp, first, rest);
    }
  }

  /** One step of the partition proof: the last element joins its group at that group's end. */
  lemma PartitionStep<T(!new)>(init: seq<T>, x: T, cmp: (T, T) -> int, first: T -> bool, rest: T -> bool)
    requires PartitionComparator(cmp, first)
    requires forall u :: rest(u) == !first(u)
    requires Sort(init, cmp) == Filter(init, first) + Filter(init, rest)
    ensures Sort(init + [x], cmp) == Filter(init + [x], first) + Filter(init + [x], rest)
  {
    if first(x) {
      PartitionStepFirst(init, x, cmp, first, rest);
    } else {
      PartitionStepRest(init, x, cmp, first, rest);
    }
  }

  lemma {:induction false} PartitionStepFirst<T(!new)>(init: seq<T>, x: T, cmp: (T, T) -> int, first: T -> bool, rest: T -> bool)
    requires PartitionComparator(cmp, first)
    requires forall u :: rest(u) == !first(u)
    requires Sort(init, cmp) == Filter(init, first) + Filter(init, rest)
    requires first(x)
    ensures Sort(init + [x], cmp) == Filter(init + [x], first) + Filter(init + [x], rest)
  {
    var s := init + [x];
    assert s[..|s| - 1] == init && s[|s| - 1] == x;
    var front, back := Filter(init, first), Filter(init, rest);
    assert Sort(s, cmp) == Insert(front + back, x, cmp);
    InsertFirst(front, back, x, cmp, first);
    FilterAppend(init, [x], first);
    FilterSingle(x, first);
    assert Filter(s, first) == front + [x];
    FilterAppend(init, [x], rest);
    FilterSingle(x, rest);
    assert Filter(s, rest) == back + [] == back;
  }

  lemma {:induction false} PartitionStepRest<T(!new)>(init: seq<T>, x: T, cmp: (T, T) -> int, first: T -> bool, rest: T -> bool)
    requires PartitionComparator(cmp, first)
    requires forall u :: rest(u) == !first(u)
    requires Sort(init, cmp) == Filter(init, first) + Filter(init, rest)
    requires !first(x)
    ensures Sort(init + [x], cmp) == Filter(init + [x], first) + Filter(init + [x], rest)
  {
    var s := init + [x];
    assert s[..|s| - 1] == init && s[|s| - 1] == x;
    var front, back := Filter(init, first), Filter(init, rest);
    assert Sort(s, cmp) == Insert(front + back, x, cmp);
    InsertRest(front + back, x, cmp, first);
    FilterAppend(init, [x], first);
    FilterSingle(x, first);
    assert Filter(s, first) == front + [] == front;
    FilterAppend(init, [x], rest);
    FilterSingle(x, rest);
    assert Filter(s, rest) == back + [x];
    AppendAssoc(front, back, [x]);
  }

  /** The elements the comparator ranks level with `y`: its tie class. */
  function TiesWith<T>(cmp: (T, T) -> int, y: T): T -> bool {
    e => cmp(e, y) <= 0 && cmp(y, e) <= 0
  }

  /**
   * Insertion puts a new element after every element it ties with. Consistency is only needed on the
   * elements involved, not sortedness of `t`.
   */
  lemma {:induction false} InsertKeepsTies<T>(t: seq<T>, x: T, cmp: (T, T) -> int, elems: set<T>, y: T)
    requires Consistent(elems, cmp) && x in elems && y in elems && forall e :: e in t ==> e in elems
    ensures Filter(Insert(t, x, cmp), TiesWith(cmp, y)) == Filter(t, TiesWith(cmp, y)) + Filter([x], TiesWith(cmp, y))
    decreases |t|
  {
    var tie := TiesWith(cmp, y);
    if t == [] {
      assert Insert(t, x, cmp) == [x];
      assert Filter(t, tie) == [];
    } else {
      var init, last := t[..|t| - 1], t[|t| - 1];
      assert t == init + [last];
      FilterAppend(init, [last], tie);
      if cmp(last, x) > 0 {
        assert Insert(t, x, cmp) == Insert(init, x, cmp) + [last];
        InsertKeepsTies(init, x, cmp, elems, y);
        FilterAppend(Insert(init, x, cmp), [last], tie);
        assert last in elems by { assert last in t; }
        assert Filter([x], tie) == [] || Filter([last], tie) == [] by {
          FilterSingle(x, tie);
          FilterSingle(last, tie);
        }
        SwapEmpty(Filter(init, tie), Filter([x], tie), Filter([last], tie));
      } else {
        assert Insert(t, x, cmp) == t + [x];
        FilterAppend(t, [x], tie);
      }
    }
  }

  /** Two pieces of which one is empty can be appended in either order. */
  lemma SwapEmpty<T>(a: seq<T>, x: seq<T>, l: seq<T>)
    requires x == [] || l == []
    ensures (a + x) + l == (a + l) + x
  {
  }

  /** Stability: sorting keeps every tie class in input order. */
  lemma {:induction false} SortKeepsTies<T>(s: seq<T>, cmp: (T, T) -> int, elems: set<T>, y: T)
    requires Consistent(elems, cmp) && y in elems && forall e :: e in s ==> e in elems
    ensures Filter(Sort(s, cmp), TiesWith(cmp, y)) == Filter(s, TiesWith(cmp, y))
    decreases |s|
  {
    if s != [] {
      var init, x := s[..|s| - 1], s[|s| - 1];
      assert s == init + [x];
      SortKeepsTies(init, cmp, elems, y);
      forall e | e in Sort(init, cmp) ensures e in elems {
        assert e in multiset(Sort(init, cmp));
        assert e in init;
      }
      InsertKeepsTies(Sort(init, cmp), x, cmp, elems, y);
      FilterAppend(init, [x], TiesWith(cmp, y));
    }
  }
}
