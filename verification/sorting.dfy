/** `Array.prototype.sort` with a comparator `(a, b) => key(b) - key(a)`:
    descending by an integer key and stable, as the engine's sort is. The
    model sorts by insertion; only the result matters. */
module Sorting {
  import opened Seqs

  /** Descending by `key`. */
  predicate SortedDesc<T>(s: seq<T>, key: T -> int) {
    forall i, j | 0 <= i < j < |s| :: key(s[i]) >= key(s[j])
  }

  /** The elements of `s` whose key is `k`, in their order in `s`. */
  function WithKey<T>(s: seq<T>, key: T -> int, k: int): (r: seq<T>)
    ensures |r| <= |s|
    ensures forall x | x in r :: x in s && key(x) == k
  {
    if s == [] then [] else (if key(s[0]) == k then [s[0]] else []) + WithKey(s[1..], key, k)
  }

  /** Inserts `x` after every element whose key is at least its own. */
  function Insert<T>(x: T, s: seq<T>, key: T -> int): (r: seq<T>)
    ensures multiset(r) == multiset(s) + multiset{x}
    ensures |r| == |s| + 1
  {
    if s == [] then [x]
    else if key(s[0]) >= key(x) then
      assert s == [s[0]] + s[1..];
      [s[0]] + Insert(x, s[1..], key)
    else [x] + s
  }

  /** The stable descending sort of `s` by `key`. */
  function SortDesc<T>(s: seq<T>, key: T -> int): (r: seq<T>)
    ensures multiset(r) == multiset(s)
    ensures |r| == |s|
  {
    if s == [] then []
    else
      assert s == s[..|s| - 1] + [s[|s| - 1]];
      Insert(s[|s| - 1], SortDesc(s[..|s| - 1], key), key)
  }

  lemma {:induction false} InsertSorted<T>(x: T, s: seq<T>, key: T -> int)
    requires SortedDesc(s, key)
    ensures SortedDesc(Insert(x, s, key), key)
  {
    if s != [] && key(s[0]) >= key(x) {
      var r := Insert(x, s[1..], key);
      InsertSorted(x, s[1..], key);
      InsertFrom(x, s[1..], key);
      forall j | 0 <= j < |r| ensures key(s[0]) >= key(r[j]) {
        if r[j] != x {
          assert r[j] in r;
          var m :| 0 <= m < |s[1..]| && s[1..][m] == r[j];
          assert s[m + 1] == r[j];
        }
      }
      SortedCons(s[0], r, key);
    } else if s != [] {
      SortedCons(x, s, key);
    }
  }

  /** Every element of an insertion is the inserted one or came from `s`. */
  lemma InsertFrom<T>(x: T, s: seq<T>, key: T -> int)
    ensures forall y | y in Insert(x, s, key) :: y == x || y in s
  {
    var r := Insert(x, s, key);
    forall y | y in r ensures y == x || y in s {
      assert y in multiset(r);
    }
  }

  lemma SortedCons<T>(h: T, r: seq<T>, key: T -> int)
    requires SortedDesc(r, key)
    requires forall j | 0 <= j < |r| :: key(h) >= key(r[j])
    ensures SortedDesc([h] + r, key)
  {
    var t := [h] + r;
    forall i, j | 0 <= i < j < |t| ensures key(t[i]) >= key(t[j]) {
      assert t[j] == r[j - 1];
      if i > 0 {
        assert t[i] == r[i - 1];
      }
    }
  }

  /** The result is sorted. */
  lemma {:induction false} SortDescSorted<T>(s: seq<T>, key: T -> int)
    ensures SortedDesc(SortDesc(s, key), key)
  {
    if s != [] {
      SortDescSorted(s[..|s| - 1], key);
      InsertSorted(s[|s| - 1], SortDesc(s[..|s| - 1], key), key);
    }
  }

  lemma {:induction false} WithKeyAppend<T>(a: seq<T>, b: seq<T>, key: T -> int, k: int)
    ensures WithKey(a + b, key, k) == WithKey(a, key, k) + WithKey(b, key, k)
  {
    if a == [] {
      assert a + b == b;
    } else {
      var h := if key(a[0]) == k then [a[0]] else [];
      assert (a + b)[0] == a[0];
      assert (a + b)[1..] == a[1..] + b;
      assert WithKey(a + b, key, k) == h + WithKey(a[1..] + b, key, k);
      WithKeyAppend(a[1..], b, key, k);
      ConcatAssoc(h, WithKey(a[1..], key, k), WithKey(b, key, k));
    }
  }

  /** Elements that all have other keys contribute nothing. */
  lemma {:induction false} WithKeyNone<T>(s: seq<T>, key: T -> int, k: int)
    requires forall i | 0 <= i < |s| :: key(s[i]) != k
    ensures WithKey(s, key, k) == []
  {
    if s != [] {
      WithKeyNone(s[1..], key, k);
    }
  }

  /** Insertion puts `x` after every element with its key. */
  lemma {:induction false} InsertWithKey<T>(x: T, s: seq<T>, key: T -> int, k: int)
    requires SortedDesc(s, key)
    ensures WithKey(Insert(x, s, key), key, k) == WithKey(s, key, k) + (if key(x) == k then [x] else [])
  {
    if s == [] {
    } else if key(s[0]) >= key(x) {
      assert SortedDesc(s[1..], key);
      InsertWithKey(x, s[1..], key, k);
      InsertWithKeyStep(x, s, key, k);
    } else {
      InsertWithKeyFront(x, s, key, k);
    }
  }

  lemma InsertWithKeyStep<T>(x: T, s: seq<T>, key: T -> int, k: int)
    requires s != [] && key(s[0]) >= key(x)
    requires WithKey(Insert(x, s[1..], key), key, k) == WithKey(s[1..], key, k) + (if key(x) == k then [x] else [])
    ensures WithKey(Insert(x, s, key), key, k) == WithKey(s, key, k) + (if key(x) == k then [x] else [])
  {
    var h := if key(s[0]) == k then [s[0]] else [];
    var r := Insert(x, s[1..], key);
    assert ([s[0]] + r)[0] == s[0] && ([s[0]] + r)[1..] == r;
    assert WithKey([s[0]] + r, key, k) == h + WithKey(r, key, k);
    ConcatAssoc(h, WithKey(s[1..], key, k), if key(x) == k then [x] else []);
  }

  lemma InsertWithKeyFront<T>(x: T, s: seq<T>, key: T -> int, k: int)
    requires SortedDesc(s, key)
    requires s != [] && key(s[0]) < key(x)
    ensures WithKey(Insert(x, s, key), key, k) == WithKey(s, key, k) + (if key(x) == k then [x] else [])
  {
    var r := [x] + s;
    assert r[1..] == s;
    if key(x) == k {
      WithKeyNone(s, key, k);
    }
  }

  /** Stability: the elements of each key keep their relative order. */
  lemma {:induction false} SortDescStable<T>(s: seq<T>, key: T -> int, k: int)
    ensures WithKey(SortDesc(s, key), key, k) == WithKey(s, key, k)
  {
    if s != [] {
      var init := s[..|s| - 1];
      var x := s[|s| - 1];
      var single := if key(x) == k then [x] else [];
      assert WithKey(SortDesc(s, key), key, k) == WithKey(SortDesc(init, key), key, k) + single by {
        assert SortDesc(s, key) == Insert(x, SortDesc(init, key), key);
        SortDescSorted(init, key);
        InsertWithKey(x, SortDesc(init, key), key, k);
      }
      SortDescStable(init, key, k);
      assert WithKey(s, key, k) == WithKey(init, key, k) + single by {
        SplitLast(s);
        WithKeyAppend(init, [x], key, k);
        assert [x][1..] == [];
      }
    }
  }

  /** The first element of the sorted sequence is the first element of `s`
      with the greatest key. */
  lemma SortDescFirst<T>(s: seq<T>, key: T -> int)
    requires s != []
    ensures var r := SortDesc(s, key);
      forall y | y in s :: key(y) <= key(r[0])
    ensures var r := SortDesc(s, key); var w := WithKey(s, key, key(r[0]));
      w != [] && r[0] == w[0]
  {
    var r := SortDesc(s, key);
    SortDescSorted(s, key);
    forall y | y in s ensures key(y) <= key(r[0]) {
      assert y in multiset(r);
      var m :| 0 <= m < |r| && r[m] == y;
    }
    SortDescStable(s, key, key(r[0]));
    assert r == [r[0]] + r[1..];
    WithKeyAppend([r[0]], r[1..], key, key(r[0]));
  }
}
