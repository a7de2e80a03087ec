/** `list.sort((a, b) => key(b) - key(a))`: JavaScript's sort is stable, so
    the result is the unique arrangement that orders the list non-increasingly
    by key and keeps equal-key elements in their original order. The model
    computes it by stable insertion. */
module Sorting {

  predicate SortedDesc<T>(s: seq<T>, key: T -> int) {
    forall i, j :: 0 <= i < j < |s| ==> key(s[i]) >= key(s[j])
  }

  /** The elements of s whose key is v, in their order in s. */
  function WithKey<T>(s: seq<T>, key: T -> int, v: int): (r: seq<T>)
    ensures |r| <= |s|
    ensures forall x :: x in r ==> x in s && key(x) == v
  {
    if s == [] then []
    else (if key(s[0]) == v then [s[0]] else []) + WithKey(s[1..], key, v)
  }

  /** Puts x in front of the first element whose key does not exceed x's. */
  function Insert<T>(x: T, s: seq<T>, key: T -> int): (r: seq<T>)
    ensures multiset(r) == multiset(s) + multiset{x}
    ensures |r| == |s| + 1 && (r[0] == x || (|s| > 0 && r[0] == s[0]))
    ensures SortedDesc(s, key) ==> SortedDesc(r, key)
  {
    if s == [] || key(s[0]) <= key(x) then
      ConsSorted(x, s, key);
      [x] + s
    else
      var rest := Insert(x, s[1..], key);
      assert s == [s[0]] + s[1..];
      TailSorted(s, key);
      ConsSorted(s[0], rest, key);
      [s[0]] + rest
  }

  lemma TailSorted<T>(s: seq<T>, key: T -> int)
    requires s != []
    ensures SortedDesc(s, key) ==> SortedDesc(s[1..], key)
  {
    if SortedDesc(s, key) {
      forall i, j | 0 <= i < j < |s[1..]| ensures key(s[1..][i]) >= key(s[1..][j]) {
        assert s[1..][i] == s[i + 1] && s[1..][j] == s[j + 1];
      }
    }
  }

  lemma ConsSorted<T>(h: T, s: seq<T>, key: T -> int)
    ensures SortedDesc(s, key) && (s == [] || key(h) >= key(s[0])) ==> SortedDesc([h] + s, key)
  {
    if SortedDesc(s, key) && (s == [] || key(h) >= key(s[0])) {
      var r := [h] + s;
      forall i, j | 0 <= i < j < |r| ensures key(r[i]) >= key(r[j]) {
        assert r[j] == s[j - 1];
        if i > 0 {
          assert r[i] == s[i - 1];
        }
      }
    }
  }

  function SortDesc<T>(s: seq<T>, key: T -> int): (r: seq<T>)
    ensures multiset(r) == multiset(s) && |r| == |s|
    ensures SortedDesc(r, key)
  {
    if s == [] then []
    else
      assert s == [s[0]] + s[1..];
      Insert(s[0], SortDesc(s[1..], key), key)
  }

  lemma {:induction false} WithKeyAppend<T>(a: seq<T>, b: seq<T>, key: T -> int, v: int)
    ensures WithKey(a + b, key, v) == WithKey(a, key, v) + WithKey(b, key, v)
    decreases |a|
  {
    if a != [] {
      assert (a + b)[1..] == a[1..] + b;
      WithKeyAppend(a[1..], b, key, v);
    } else {
      assert a + b == b;
    }
  }

  lemma {:induction false} InsertStable<T>(x: T, s: seq<T>, key: T -> int, v: int)
    ensures WithKey(Insert(x, s, key), key, v) == (if key(x) == v then [x] else []) + WithKey(s, key, v)
    decreases |s|
  {
    var hx := if key(x) == v then [x] else [];
    if s == [] || key(s[0]) <= key(x) {
      WithKeyAppend([x], s, key, v);
      WithKeySingle(x, key, v);
    } else {
      var h0 := if key(s[0]) == v then [s[0]] else [];
      var rest := Insert(x, s[1..], key);
      calc {
        WithKey(Insert(x, s, key), key, v);
      == { InsertPast(x, s, key); }
        WithKey([s[0]] + rest, key, v);
      == { WithKeyAppend([s[0]], rest, key, v); WithKeySingle(s[0], key, v); }
        h0 + WithKey(rest, key, v);
      == { InsertStable(x, s[1..], key, v); }
        h0 + (hx + WithKey(s[1..], key, v));
      == { if key(x) == v { assert h0 == []; } else { assert hx == []; } }
        hx + (h0 + WithKey(s[1..], key, v));
      == { assert WithKey(s, key, v) == h0 + WithKey(s[1..], key, v); }
        hx + WithKey(s, key, v);
      }
    }
  }

  /** x goes past a head with a larger key. */
  lemma InsertPast<T>(x: T, s: seq<T>, key: T -> int)
    requires s != [] && key(s[0]) > key(x)
    ensures Insert(x, s, key) == [s[0]] + Insert(x, s[1..], key)
  {
  }

  lemma WithKeySingle<T>(y: T, key: T -> int, v: int)
    ensures WithKey([y], key, v) == if key(y) == v then [y] else []
  {
    assert [y][1..] == [];
  }

  /** Stability: among elements with equal keys, sorting keeps the original
      order. Together with `SortDesc`'s contract (sorted, a permutation) this
      pins the result down completely. */
  lemma {:induction false} SortStable<T>(s: seq<T>, key: T -> int, v: int)
    ensures WithKey(SortDesc(s, key), key, v) == WithKey(s, key, v)
    decreases |s|
  {
    if s != [] {
      SortStable(s[1..], key, v);
      InsertStable(s[0], SortDesc(s[1..], key), key, v);
    }
  }

  /** A list already in order is left as it is. */
  lemma {:induction false} SortSorted<T>(s: seq<T>, key: T -> int)
    requires SortedDesc(s, key)
    ensures SortDesc(s, key) == s
    decreases |s|
  {
    if s != [] {
      SortSorted(s[1..], key);
      assert SortDesc(s[1..], key) == s[1..];
      if |s| > 1 {
        assert key(s[1]) <= key(s[0]);
      }
    }
  }
}
