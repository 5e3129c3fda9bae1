/** Order-preserving filtering, subsequences and distinctness: the shape of `Array.prototype.filter`. */
module Seqs {

  /** `a` can be obtained from `b` by deleting elements: relative order is kept. */
  predicate IsSubseq<T(==)>(a: seq<T>, b: seq<T>)
    decreases |b|
  {
    if a == [] then true
    else if b == [] then false
    else if a[|a| - 1] == b[|b| - 1] && IsSubseq(a[..|a| - 1], b[..|b| - 1]) then true
    else IsSubseq(a, b[..|b| - 1])
  }

  /** `s.map(key)` for a key field: one key per element, in order. */
  function KeysOf<T>(s: seq<T>, key: T -> string): (ks: seq<string>)
    ensures |ks| == |s|
    ensures forall i :: 0 <= i < |s| ==> ks[i] == key(s[i])
  {
    seq(|s|, i requires 0 <= i < |s| => key(s[i]))
  }

  /** `s.filter(p)`: the elements of `s` that satisfy `p`, in their original order. */
  function Filter<T(==)>(s: seq<T>, p: T -> bool): (r: seq<T>)
    ensures |r| <= |s|
    ensures IsSubseq(r, s)
    ensures forall x :: x in r ==> x in s
    ensures forall x :: x in s ==> (x in r <==> p(x))
    decreases |s|
  {
    if s == [] then []
    else
      var init := s[..|s| - 1];
      assert s == init + [s[|s| - 1]];
      var kept := Filter(init, p);
      if p(s[|s| - 1]) then
        var r := kept + [s[|s| - 1]];
        assert r[..|r| - 1] == kept && s[..|s| - 1] == init;
        r
      else
        assert kept != [] ==> kept[..|kept| - 1] + [kept[|kept| - 1]] == kept;
        kept
  }

  /** Filtering a list grown by one element: the element is kept at the end exactly when it passes. */
  lemma FilterSnoc<T>(s: seq<T>, x: T, p: T -> bool)
    ensures Filter(s + [x], p) == if p(x) then Filter(s, p) + [x] else Filter(s, p)
  {
    assert (s + [x])[..|s + [x]| - 1] == s;
  }

  /** Filtering keeps every copy of an element that passes and no copy of one that fails. */
  lemma {:induction false} FilterCounts<T>(s: seq<T>, p: T -> bool)
    ensures forall x :: x in s ==> multiset(Filter(s, p))[x] == if p(x) then multiset(s)[x] else 0
    decreases |s|
  {
    if s != [] {
      var init := s[..|s| - 1];
      assert s == init + [s[|s| - 1]];
      assert multiset(s) == multiset(init) + multiset{s[|s| - 1]};
      FilterCounts(init, p);
    }
  }

  /** Filtering a sequence whose every element passes returns it unchanged. */
  lemma {:induction false} FilterAll<T>(s: seq<T>, p: T -> bool)
    requires forall x :: x in s ==> p(x)
    ensures Filter(s, p) == s
    decreases |s|
  {
    if s != [] {
      var init := s[..|s| - 1];
      assert s == init + [s[|s| - 1]];
      FilterAll(init, p);
    }
  }

  /** Filtering distributes over concatenation. */
  lemma {:induction false} FilterAppend<T>(a: seq<T>, b: seq<T>, p: T -> bool)
    ensures Filter(a + b, p) == Filter(a, p) + Filter(b, p)
    decreases |b|
  {
    if b == [] {
      assert a + b == a;
    } else {
      var init := b[..|b| - 1];
      assert b == init + [b[|b| - 1]];
      assert a + b == (a + init) + [b[|b| - 1]];
      assert (a + b)[..|a + b| - 1] == a + init;
      FilterAppend(a, init, p);
    }
  }

  /** Every element of a subsequence occurs in the sequence it was taken from. */
  lemma {:induction false} SubseqMembers<T>(a: seq<T>, b: seq<T>)
    requires IsSubseq(a, b)
    ensures forall x :: x in a ==> x in b
    decreases |b|
  {
    if a != [] && b != [] {
      if a[|a| - 1] == b[|b| - 1] && IsSubseq(a[..|a| - 1], b[..|b| - 1]) {
        SubseqMembers(a[..|a| - 1], b[..|b| - 1]);
        assert a == a[..|a| - 1] + [a[|a| - 1]];
        assert b == b[..|b| - 1] + [b[|b| - 1]];
      } else {
        SubseqMembers(a, b[..|b| - 1]);
        assert b == b[..|b| - 1] + [b[|b| - 1]];
      }
    }
  }

  /** No two positions of `s` hold elements with the same key. */
  ghost predicate DistinctBy<T, K>(s: seq<T>, key: T -> K) {
    forall i, j :: 0 <= i < j < |s| ==> key(s[i]) != key(s[j])
  }

  /** A subsequence of a sequence with distinct keys has distinct keys. */
  lemma {:induction false} SubseqDistinctBy<T, K>(a: seq<T>, b: seq<T>, key: T -> K)
    requires IsSubseq(a, b) && DistinctBy(b, key)
    ensures DistinctBy(a, key)
    decreases |b|
  {
    if a != [] && b != [] {
      var b' := b[..|b| - 1];
      assert DistinctBy(b', key);
      if a[|a| - 1] == b[|b| - 1] && IsSubseq(a[..|a| - 1], b') {
        var a' := a[..|a| - 1];
        SubseqDistinctBy(a', b', key);
        SubseqMembers(a', b');
        forall i, j | 0 <= i < j < |a| ensures key(a[i]) != key(a[j]) {
          if j == |a| - 1 {
            assert a[i] == a'[i] && a'[i] in b';
            var k :| 0 <= k < |b'| && b'[k] == a[i];
            assert b[k] == a[i] && b[|b| - 1] == a[j];
          } else {
            assert a[i] == a'[i] && a[j] == a'[j];
          }
        }
      } else {
        SubseqDistinctBy(a, b', key);
      }
    }
  }

  /** A subsequence is never longer than the sequence it comes from. */
  lemma {:induction false} SubseqLength<T>(a: seq<T>, b: seq<T>)
    requires IsSubseq(a, b)
    ensures |a| <= |b|
    decreases |b|
  {
    if a != [] && b != [] {
      if a[|a| - 1] == b[|b| - 1] && IsSubseq(a[..|a| - 1], b[..|b| - 1]) {
        SubseqLength(a[..|a| - 1], b[..|b| - 1]);
      } else {
        SubseqLength(a, b[..|b| - 1]);
      }
    }
  }

  function Identity<T>(x: T): T {
    x
  }

  /** No value occurs twice. */
  ghost predicate Distinct<T>(s: seq<T>) {
    DistinctBy(s, Identity)
  }

  /** Appending the same element to both sides keeps a subsequence. */
  lemma SubseqSnoc<T>(a: seq<T>, b: seq<T>, x: T)
    requires IsSubseq(a, b)
    ensures IsSubseq(a + [x], b + [x])
  {
    assert (a + [x])[..|a|] == a && (b + [x])[..|b|] == b;
  }

  /** Appending an element to the longer side keeps a subsequence. */
  lemma SubseqExtend<T>(a: seq<T>, b: seq<T>, x: T)
    requires IsSubseq(a, b)
    ensures IsSubseq(a, b + [x])
  {
    assert (b + [x])[..|b|] == b;
  }
}
