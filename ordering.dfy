/**
 * Python's ordering of strings and of tuples of strings, and the stable sort
 * that `list.sort(key=...)` performs with such keys.
 */
module Ordering {

  /**
   * Python's `a < b` on `str`: the first differing code point decides, and a
   * proper prefix is smaller. There is no numeric awareness: "10.00" < "2.00".
   */
  predicate StrLt(a: string, b: string)
    decreases |a|
  {
    if a == [] then b != []
    else if b == [] then false
    else if a[0] != b[0] then a[0] < b[0]
    else StrLt(a[1..], b[1..])
  }

  /** Python's `a < b` on tuples of strings: the first differing component decides. */
  predicate KeyLt(a: seq<string>, b: seq<string>)
    decreases |a|
  {
    if a == [] then b != []
    else if b == [] then false
    else if a[0] != b[0] then StrLt(a[0], b[0])
    else KeyLt(a[1..], b[1..])
  }

  /** Revenue is ordered as text, not as a number. */
  lemma RevenueOrderedAsText()
    ensures StrLt("10.00", "2.00") && !StrLt("2.00", "10.00")
  {
    assert "10.00"[0] == '1' && "2.00"[0] == '2';
  }

  lemma {:induction false} StrLtIrreflexive(a: string)
    ensures !StrLt(a, a)
    decreases |a|
  {
    if a != [] {
      StrLtIrreflexive(a[1..]);
    }
  }

  lemma {:induction false} StrLtTransitive(a: string, b: string, c: string)
    requires StrLt(a, b) && StrLt(b, c)
    ensures StrLt(a, c)
    decreases |a|
  {
    if a != [] && a[0] == b[0] && b[0] == c[0] {
      StrLtTransitive(a[1..], b[1..], c[1..]);
    }
  }

  lemma {:induction false} StrLtTotal(a: string, b: string)
    requires a != b
    ensures StrLt(a, b) || StrLt(b, a)
    decreases |a|
  {
    if a != [] && b != [] && a[0] == b[0] {
      assert a == [a[0]] + a[1..] && b == [b[0]] + b[1..];
      StrLtTotal(a[1..], b[1..]);
    }
  }

  lemma {:induction false} KeyLtIrreflexive(a: seq<string>)
    ensures !KeyLt(a, a)
    decreases |a|
  {
    if a != [] {
      KeyLtIrreflexive(a[1..]);
    }
  }

  lemma {:induction false} KeyLtTransitive(a: seq<string>, b: seq<string>, c: seq<string>)
    requires KeyLt(a, b) && KeyLt(b, c)
    ensures KeyLt(a, c)
    decreases |a|
  {
    if a != [] && b != [] && c != [] {
      if a[0] == b[0] && b[0] == c[0] {
        KeyLtTransitive(a[1..], b[1..], c[1..]);
      } else if a[0] == b[0] {
        assert StrLt(b[0], c[0]);
      } else if b[0] == c[0] {
        assert StrLt(a[0], b[0]);
      } else {
        StrLtTransitive(a[0], b[0], c[0]);
        if a[0] == c[0] {
          StrLtIrreflexive(a[0]);
          assert false;
        }
      }
    }
  }

  lemma {:induction false} KeyLtTotal(a: seq<string>, b: seq<string>)
    requires a != b
    ensures KeyLt(a, b) || KeyLt(b, a)
    decreases |a|
  {
    if a != [] && b != [] {
      if a[0] == b[0] {
        assert a == [a[0]] + a[1..] && b == [b[0]] + b[1..];
        KeyLtTotal(a[1..], b[1..]);
      } else {
        StrLtTotal(a[0], b[0]);
      }
    }
  }

  lemma KeyLtAsymmetric(a: seq<string>, b: seq<string>)
    requires KeyLt(a, b)
    ensures !KeyLt(b, a)
  {
    if KeyLt(b, a) {
      KeyLtTransitive(a, b, a);
      KeyLtIrreflexive(a);
    }
  }

  /** Non-decreasing by key: no later element has a key smaller than an earlier one. */
  ghost predicate Sorted<T>(s: seq<(seq<string>, T)>)
  {
    forall i, j :: 0 <= i < j < |s| ==> !KeyLt(s[j].0, s[i].0)
  }

  /** The elements whose key is `k`, in the order they occur. */
  function WithKey<T>(s: seq<(seq<string>, T)>, k: seq<string>): seq<(seq<string>, T)>
  {
    if s == [] then []
    else WithKey(s[..|s| - 1], k) + (if s[|s| - 1].0 == k then [s[|s| - 1]] else [])
  }

  /**
   * Inserts `x` into `t` after every element whose key is not greater than
   * the key of `x`: the step of a stable insertion sort.
   */
  function Insert<T>(t: seq<(seq<string>, T)>, x: (seq<string>, T)): (r: seq<(seq<string>, T)>)
    ensures multiset(r) == multiset(t) + multiset{x}
  {
    if t == [] then [x]
    else if !KeyLt(x.0, t[|t| - 1].0) then t + [x]
    else
      assert t == t[..|t| - 1] + [t[|t| - 1]];
      Insert(t[..|t| - 1], x) + [t[|t| - 1]]
  }

  /** `list.sort(key=...)`: a stable sort by key, written as an insertion sort. */
  function StableSort<T>(s: seq<(seq<string>, T)>): (r: seq<(seq<string>, T)>)
    ensures multiset(r) == multiset(s)
  {
    if s == [] then []
    else
      assert s == s[..|s| - 1] + [s[|s| - 1]];
      Insert(StableSort(s[..|s| - 1]), s[|s| - 1])
  }

  lemma {:induction false} WithKeyAppend<T>(a: seq<(seq<string>, T)>, b: seq<(seq<string>, T)>, k: seq<string>)
    ensures WithKey(a + b, k) == WithKey(a, k) + WithKey(b, k)
    decreases |b|
  {
    if b == [] {
      assert a + b == a;
    } else {
      var b' := b[..|b| - 1];
      assert (a + b)[..|a + b| - 1] == a + b';
      WithKeyAppend(a, b', k);
    }
  }

  lemma {:induction false} InsertSorted<T>(t: seq<(seq<string>, T)>, x: (seq<string>, T))
    requires Sorted(t)
    ensures Sorted(Insert(t, x))
    decreases |t|
  {
    if t == [] {
    } else if !KeyLt(x.0, t[|t| - 1].0) {
      var last := t[|t| - 1];
      forall i | 0 <= i < |t|
        ensures !KeyLt(x.0, t[i].0)
      {
        if KeyLt(x.0, t[i].0) && i < |t| - 1 {
          assert !KeyLt(last.0, t[i].0);
          if t[i].0 == last.0 {
          } else {
            KeyLtTotal(t[i].0, last.0);
            KeyLtTransitive(x.0, t[i].0, last.0);
          }
        }
      }
      assert Sorted(t + [x]);
    } else {
      var t' := t[..|t| - 1];
      var last := t[|t| - 1];
      assert Sorted(t');
      InsertSorted(t', x);
      var u := Insert(t', x);
      assert multiset(u) == multiset(t') + multiset{x};
      forall i | 0 <= i < |u|
        ensures !KeyLt(last.0, u[i].0)
      {
        assert u[i] in multiset(u);
        if u[i] == x {
          KeyLtAsymmetric(x.0, last.0);
        } else {
          assert u[i] in multiset(t');
          var m :| 0 <= m < |t'| && t'[m] == u[i];
          assert t[m] == u[i];
        }
      }
      assert Sorted(u + [last]);
    }
  }

  lemma WithKeySingle<T>(x: (seq<string>, T), k: seq<string>)
    ensures WithKey([x], k) == if x.0 == k then [x] else []
  {
    assert [x][..0] == [];
  }

  lemma {:induction false} InsertWithKey<T>(t: seq<(seq<string>, T)>, x: (seq<string>, T), k: seq<string>)
    ensures WithKey(Insert(t, x), k) == WithKey(t, k) + WithKey([x], k)
    decreases |t|
  {
    if t == [] {
      assert Insert(t, x) == [x];
    } else if !KeyLt(x.0, t[|t| - 1].0) {
      assert Insert(t, x) == t + [x];
      WithKeyAppend(t, [x], k);
    } else {
      var t', last := t[..|t| - 1], t[|t| - 1];
      var u := Insert(t', x);
      assert Insert(t, x) == u + [last];
      assert t == t' + [last];
      InsertWithKey(t', x, k);
      WithKeyAppend(u, [last], k);
      WithKeyAppend(t', [last], k);
      WithKeySingle(x, k);
      WithKeySingle(last, k);
      KeyLtIrreflexive(x.0);
      assert x.0 != last.0;
    }
  }

  /** The sort leaves its input's elements in non-decreasing order of key. */
  lemma {:induction false} StableSortSorted<T>(s: seq<(seq<string>, T)>)
    ensures Sorted(StableSort(s))
    decreases |s|
  {
    if s != [] {
      StableSortSorted(s[..|s| - 1]);
      InsertSorted(StableSort(s[..|s| - 1]), s[|s| - 1]);
    }
  }

  /** The sort is stable: the elements that share a key keep their relative order. */
  lemma {:induction false} StableSortStable<T>(s: seq<(seq<string>, T)>, k: seq<string>)
    ensures WithKey(StableSort(s), k) == WithKey(s, k)
    decreases |s|
  {
    if s != [] {
      var s', x := s[..|s| - 1], s[|s| - 1];
      var sorted' := StableSort(s');
      assert StableSort(s) == Insert(sorted', x);
      StableSortStable(s', k);
      InsertWithKey(sorted', x, k);
      assert WithKey(s, k) == WithKey(s', k) + (if x.0 == k then [x] else []);
      WithKeySingle(x, k);
    }
  }

  lemma {:induction false} WithKeyMember<T>(s: seq<(seq<string>, T)>, k: seq<string>, x: (seq<string>, T))
    requires x in WithKey(s, k)
    ensures x in s && x.0 == k
    decreases |s|
  {
    var s' := s[..|s| - 1];
    if x in WithKey(s', k) {
      WithKeyMember(s', k, x);
      assert s == s' + [s[|s| - 1]];
    }
  }

  /**
   * A sorted sequence is determined by the order of the elements within each
   * key: two sorted sequences that agree key by key are equal.
   */
  lemma {:induction false} SortedByKeysUnique<T>(a: seq<(seq<string>, T)>, b: seq<(seq<string>, T)>)
    requires Sorted(a) && Sorted(b)
    requires forall k :: WithKey(a, k) == WithKey(b, k)
    ensures a == b
    decreases |a| + |b|
  {
    if a == [] || b == [] {
      if a != [] {
        var x := a[|a| - 1];
        assert x in WithKey(a, x.0);
        WithKeyMember(b, x.0, x);
      }
      if b != [] {
        var x := b[|b| - 1];
        assert x in WithKey(b, x.0);
        WithKeyMember(a, x.0, x);
      }
    } else {
      var a', la := a[..|a| - 1], a[|a| - 1];
      var b', lb := b[..|b| - 1], b[|b| - 1];
      assert la in WithKey(b, la.0) by { assert la in WithKey(a, la.0); }
      WithKeyMember(b, la.0, la);
      assert lb in WithKey(a, lb.0) by { assert lb in WithKey(b, lb.0); }
      WithKeyMember(a, lb.0, lb);
      var i :| 0 <= i < |b| && b[i] == la;
      var j :| 0 <= j < |a| && a[j] == lb;
      assert i < |b| - 1 ==> !KeyLt(lb.0, b[i].0);
      assert j < |a| - 1 ==> !KeyLt(la.0, a[j].0);
      KeyLtIrreflexive(la.0);
      assert !KeyLt(lb.0, la.0) && !KeyLt(la.0, lb.0);
      if la.0 != lb.0 {
        KeyLtTotal(la.0, lb.0);
      }
      var key := la.0;
      var wa, wb := WithKey(a', key), WithKey(b', key);
      assert WithKey(a, key) == wa + [la];
      assert WithKey(b, key) == wb + [lb];
      assert |wa| == |wb|;
      assert la == (wa + [la])[|wa|] == (wb + [lb])[|wb|] == lb;
      assert wa == (wa + [la])[..|wa|] == (wb + [lb])[..|wb|] == wb;
      forall k
        ensures WithKey(a', k) == WithKey(b', k)
      {
        if k != key {
          assert WithKey(a, k) == WithKey(a', k);
          assert WithKey(b, k) == WithKey(b', k);
        }
      }
      SortedByKeysUnique(a', b');
      assert a == a' + [la] && b == b' + [lb];
    }
  }

  /**
   * Every stable sort gives the result of `StableSort`: a sequence that is
   * sorted and keeps the input's order within each key is that result.
   */
  lemma StableSortUnique<T>(s: seq<(seq<string>, T)>, r: seq<(seq<string>, T)>)
    requires Sorted(r)
    requires forall k :: WithKey(r, k) == WithKey(s, k)
    ensures r == StableSort(s)
  {
    StableSortSorted(s);
    forall k
      ensures WithKey(r, k) == WithKey(StableSort(s), k)
    {
      StableSortStable(s, k);
    }
    SortedByKeysUnique(r, StableSort(s));
  }
}
