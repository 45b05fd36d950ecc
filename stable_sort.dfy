/**
 * Python's order on strings and its stable `list.sort(key=...)` over a string
 * key, specified as a sort by insertion on sequences.
 */
module StableSort {

  /** `a < b` on Python strings: code point by code point, a proper prefix first. */
  predicate LexLess(a: string, b: string)
    decreases |a|
  {
    if a == [] then b != []
    else if b == [] then false
    else if a[0] != b[0] then a[0] < b[0]
    else LexLess(a[1..], b[1..])
  }

  /** `a <= b` on Python strings. */
  predicate LexLe(a: string, b: string) {
    !LexLess(b, a)
  }

  lemma {:induction false} LexLessIrreflexive(a: string)
    ensures !LexLess(a, a)
    decreases |a|
  {
    if a != [] {
      LexLessIrreflexive(a[1..]);
    }
  }

  /** Any two strings are ordered one way or the other, or equal. */
  lemma {:induction false} LexTotal(a: string, b: string)
    ensures LexLess(a, b) || a == b || LexLess(b, a)
    decreases |a|
  {
    if a != [] && b != [] && a[0] == b[0] {
      LexTotal(a[1..], b[1..]);
      if a[1..] == b[1..] {
        assert a == [a[0]] + a[1..] && b == [b[0]] + b[1..];
      }
    }
  }

  lemma {:induction false} LexLessTrans(a: string, b: string, c: string)
    requires LexLess(a, b) && LexLess(b, c)
    ensures LexLess(a, c)
    decreases |a|
  {
    if a != [] && a[0] == b[0] && b[0] == c[0] {
      LexLessTrans(a[1..], b[1..], c[1..]);
    }
  }

  /** `<=` is transitive. */
  lemma LexLeTrans(a: string, b: string, c: string)
    requires LexLe(a, b) && LexLe(b, c)
    ensures LexLe(a, c)
  {
    LexTotal(a, b);
    LexTotal(b, c);
    if LexLess(c, a) && LexLess(a, b) {
      LexLessTrans(c, a, b);
    }
  }

  /** `a < b` excludes `b <= a`'s converse: a strictly smaller key is also `<=`. */
  lemma LexLessLe(a: string, b: string)
    requires LexLess(a, b)
    ensures LexLe(a, b) && a != b
  {
    LexLessIrreflexive(a);
    if LexLess(b, a) {
      LexLessTrans(a, b, a);
    }
  }

  /** Keys never decrease along the sequence. */
  predicate Sorted<T>(s: seq<T>, key: T -> string) {
    forall i, j :: 0 <= i < j < |s| ==> LexLe(key(s[i]), key(s[j]))
  }

  /**
   * Inserts `x` after every element whose key is `<=` its own, scanning from
   * the right: the place a stable insertion sort puts it.
   */
  function Insert<T>(s: seq<T>, x: T, key: T -> string): (r: seq<T>)
    ensures |r| == |s| + 1
  {
    if s == [] || LexLe(key(s[|s| - 1]), key(x)) then s + [x]
    else Insert(s[..|s| - 1], x, key) + [s[|s| - 1]]
  }

  /** `list.sort(key=key)`: insertion of each element in turn into the sorted prefix. */
  function SortByKey<T>(s: seq<T>, key: T -> string): (r: seq<T>)
    ensures |r| == |s|
  {
    if s == [] then []
    else Insert(SortByKey(s[..|s| - 1], key), s[|s| - 1], key)
  }

  /** Insertion adds exactly `x` to the elements. */
  lemma {:induction false} InsertPermutes<T>(s: seq<T>, x: T, key: T -> string)
    ensures multiset(Insert(s, x, key)) == multiset(s) + multiset{x}
    decreases |s|
  {
    if s != [] && !LexLe(key(s[|s| - 1]), key(x)) {
      InsertPermutes(s[..|s| - 1], x, key);
      assert s == s[..|s| - 1] + [s[|s| - 1]];
    }
  }

  /** The sort's output is a permutation of its input. */
  lemma {:induction false} SortPermutes<T>(s: seq<T>, key: T -> string)
    ensures multiset(SortByKey(s, key)) == multiset(s)
    decreases |s|
  {
    if s != [] {
      SortPermutes(s[..|s| - 1], key);
      InsertPermutes(SortByKey(s[..|s| - 1], key), s[|s| - 1], key);
      assert s == s[..|s| - 1] + [s[|s| - 1]];
    }
  }

  /** The elements with key `k`, in order. */
  function WithKey<T>(s: seq<T>, key: T -> string, k: string): (r: seq<T>)
    ensures |r| <= |s|
  {
    if s == [] then []
    else WithKey(s[..|s| - 1], key, k) + (if key(s[|s| - 1]) == k then [s[|s| - 1]] else [])
  }

  lemma {:induction false} InsertSorted<T>(s: seq<T>, x: T, key: T -> string)
    requires Sorted(s, key)
    ensures Sorted(Insert(s, x, key), key)
    decreases |s|
  {
    if s == [] {
    } else if LexLe(key(s[|s| - 1]), key(x)) {
      var r := s + [x];
      forall i, j | 0 <= i < j < |r|
        ensures LexLe(key(r[i]), key(r[j]))
      {
        if j == |s| && i < |s| - 1 {
          LexLeTrans(key(s[i]), key(s[|s| - 1]), key(x));
        }
      }
    } else {
      var init := s[..|s| - 1];
      var last := s[|s| - 1];
      InsertSorted(init, x, key);
      var front := Insert(init, x, key);
      InsertPermutes(init, x, key);
      LexTotal(key(last), key(x));
      LexLessLe(key(x), key(last));
      forall y | y in front
        ensures LexLe(key(y), key(last))
      {
        assert y in multiset(front);
        if y != x {
          assert y in multiset(init);
          var i :| 0 <= i < |init| && init[i] == y;
          assert s[i] == y;
        }
      }
      var r := front + [last];
      forall i, j | 0 <= i < j < |r|
        ensures LexLe(key(r[i]), key(r[j]))
      {
        if j == |front| {
          assert r[i] in front;
        }
      }
    }
  }

  /** The sort's output is sorted. */
  lemma {:induction false} SortSorted<T>(s: seq<T>, key: T -> string)
    ensures Sorted(SortByKey(s, key), key)
    decreases |s|
  {
    if s != [] {
      SortSorted(s[..|s| - 1], key);
      InsertSorted(SortByKey(s[..|s| - 1], key), s[|s| - 1], key);
    }
  }

  lemma {:induction false} WithKeyAppend<T>(a: seq<T>, b: seq<T>, key: T -> string, k: string)
    ensures WithKey(a + b, key, k) == WithKey(a, key, k) + WithKey(b, key, k)
    decreases |b|
  {
    if b == [] {
      assert a + b == a;
    } else {
      var b' := b[..|b| - 1];
      assert (a + b)[..|a + b| - 1] == a + b';
      WithKeyAppend(a, b', key, k);
    }
  }

  /** Insertion keeps the elements of each key in order, `x` last among its own key. */
  lemma {:induction false} InsertStable<T>(s: seq<T>, x: T, key: T -> string, k: string)
    ensures WithKey(Insert(s, x, key), key, k) == WithKey(s, key, k) + WithKey([x], key, k)
    decreases |s|
  {
    if s == [] || LexLe(key(s[|s| - 1]), key(x)) {
      WithKeyAppend(s, [x], key, k);
    } else {
      var init := s[..|s| - 1];
      var last := s[|s| - 1];
      InsertStable(init, x, key, k);
      LexTotal(key(last), key(x));
      LexLessLe(key(x), key(last));
      WithKeyAppend(Insert(init, x, key), [last], key, k);
      WithKeyAppend(init, [last], key, k);
      assert s == init + [last];
      assert WithKey([x], key, k) == [] || WithKey([last], key, k) == [];
    }
  }

  /**
   * Stability: for every key, the elements with that key appear in the output
   * in the same order as in the input.
   */
  lemma {:induction false} SortStable<T>(s: seq<T>, key: T -> string, k: string)
    ensures WithKey(SortByKey(s, key), key, k) == WithKey(s, key, k)
    decreases |s|
  {
    if s != [] {
      var init := s[..|s| - 1];
      SortStable(init, key, k);
      InsertStable(SortByKey(init, key), s[|s| - 1], key, k);
      WithKeyAppend(init, [s[|s| - 1]], key, k);
      assert s == init + [s[|s| - 1]];
    }
  }

  /** `<=` on strings is antisymmetric. */
  lemma LexLeAntisym(a: string, b: string)
    requires LexLe(a, b) && LexLe(b, a)
    ensures a == b
  {
    LexTotal(a, b);
  }

  /** The elements with key `k` are elements of `s` whose key is `k`. */
  lemma {:induction false} WithKeyMembers<T>(s: seq<T>, key: T -> string, k: string, x: T)
    requires x in WithKey(s, key, k)
    ensures x in s && key(x) == k
    decreases |s|
  {
    var init := s[..|s| - 1];
    if x in WithKey(init, key, k) {
      WithKeyMembers(init, key, k, x);
      assert init <= s;
    }
  }

  /** The last element is among the elements with its own key. */
  lemma WithKeyOfLast<T>(s: seq<T>, key: T -> string)
    requires s != []
    ensures s[|s| - 1] in WithKey(s, key, key(s[|s| - 1]))
  {
  }

  /** In a sorted sequence every key is `<=` the key of the last element. */
  lemma SortedLast<T>(s: seq<T>, key: T -> string, x: T)
    requires Sorted(s, key) && x in s
    ensures LexLe(key(x), key(s[|s| - 1]))
  {
    var i :| 0 <= i < |s| && s[i] == x;
    if i == |s| - 1 {
      LexLessIrreflexive(key(x));
    }
  }

  /**
   * Two sorted sequences that hold, for every key, the same elements with
   * that key in the same order are equal.
   */
  lemma {:induction false} SortedUnique<T>(t: seq<T>, u: seq<T>, key: T -> string)
    requires Sorted(t, key) && Sorted(u, key)
    requires forall k :: WithKey(t, key, k) == WithKey(u, key, k)
    ensures t == u
    decreases |t| + |u|
  {
    if t == [] && u != [] {
      WithKeyOfLast(u, key);
      assert false;
    } else if t != [] && u == [] {
      WithKeyOfLast(t, key);
      assert false;
    } else if t != [] {
      var t' := t[..|t| - 1];
      var u' := u[..|u| - 1];
      SameLastKey(t, u, key);
      DropLast(t, u, t', u', key);
      SortedInit(t, key);
      SortedInit(u, key);
      SortedUnique(t', u', key);
      assert t == t' + [t[|t| - 1]] && u == u' + [u[|u| - 1]];
    }
  }

  lemma SortedInit<T>(s: seq<T>, key: T -> string)
    requires Sorted(s, key) && s != []
    ensures Sorted(s[..|s| - 1], key)
  {
    var init := s[..|s| - 1];
    forall i, j | 0 <= i < j < |init|
      ensures LexLe(key(init[i]), key(init[j]))
    {
      assert init[i] == s[i] && init[j] == s[j];
    }
  }

  /** Sorted sequences with the same elements per key end with the same key. */
  lemma SameLastKey<T>(t: seq<T>, u: seq<T>, key: T -> string)
    requires Sorted(t, key) && Sorted(u, key) && t != [] && u != []
    requires forall k :: WithKey(t, key, k) == WithKey(u, key, k)
    ensures key(t[|t| - 1]) == key(u[|u| - 1])
  {
    var lt, lu := t[|t| - 1], u[|u| - 1];
    WithKeyOfLast(t, key);
    WithKeyOfLast(u, key);
    assert lt in WithKey(u, key, key(lt));
    assert lu in WithKey(t, key, key(lu));
    WithKeyMembers(u, key, key(lt), lt);
    WithKeyMembers(t, key, key(lu), lu);
    SortedLast(u, key, lt);
    SortedLast(t, key, lu);
    LexLeAntisym(key(lt), key(lu));
  }

  /** With the same last key, the last elements agree and so do the elements per key before them. */
  lemma DropLast<T>(t: seq<T>, u: seq<T>, t': seq<T>, u': seq<T>, key: T -> string)
    requires t != [] && u != [] && t' == t[..|t| - 1] && u' == u[..|u| - 1]
    requires key(t[|t| - 1]) == key(u[|u| - 1])
    requires forall k :: WithKey(t, key, k) == WithKey(u, key, k)
    ensures t[|t| - 1] == u[|u| - 1]
    ensures forall k :: WithKey(t', key, k) == WithKey(u', key, k)
  {
    var m := key(t[|t| - 1]);
    assert WithKey(t, key, m) == WithKey(u, key, m);
    SnocInjective(WithKey(t', key, m), t[|t| - 1], WithKey(u', key, m), u[|u| - 1]);
    forall k
      ensures WithKey(t', key, k) == WithKey(u', key, k)
    {
      if k == m {
        assert WithKey(t', key, m) == WithKey(u', key, m);
      } else {
        assert WithKey(t, key, k) == WithKey(u, key, k);
        assert WithKey(t, key, k) == WithKey(t', key, k) + [];
        assert WithKey(u, key, k) == WithKey(u', key, k) + [];
        assert WithKey(t', key, k) + [] == WithKey(t', key, k);
        assert WithKey(u', key, k) + [] == WithKey(u', key, k);
      }
    }
  }

  lemma SnocInjective<T>(a: seq<T>, x: T, b: seq<T>, y: T)
    requires a + [x] == b + [y]
    ensures a == b && x == y
  {
    assert a == (a + [x])[..|a|];
    assert b == (b + [y])[..|b|];
  }

  /**
   * Any sorted sequence that keeps, for every key, the input's elements with
   * that key in input order is `SortByKey`'s output: every stable sort by
   * this key, Python's included, gives the same result.
   */
  lemma StableSortUnique<T>(s: seq<T>, t: seq<T>, key: T -> string)
    requires Sorted(t, key)
    requires forall k :: WithKey(t, key, k) == WithKey(s, key, k)
    ensures t == SortByKey(s, key)
  {
    var r := SortByKey(s, key);
    SortSorted(s, key);
    forall k
      ensures WithKey(t, key, k) == WithKey(r, key, k)
    {
      SortStable(s, key, k);
    }
    SortedUnique(t, r, key);
  }
}
