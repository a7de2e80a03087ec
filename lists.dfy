/** The array operations the handlers build on: `findIndex` on an id,
    `filter(y => y !== x)` and counting. */
module Lists {

  /** `s.findIndex(y => y === x)`: the first position of x, or -1. */
  function FirstIndex<T(==)>(s: seq<T>, x: T): (r: int)
    ensures -1 <= r < |s|
    ensures r == -1 <==> x !in s
    ensures 0 <= r ==> s[r] == x && x !in s[..r]
  {
    if s == [] then -1
    else if s[0] == x then 0
    else
      var r := FirstIndex(s[1..], x);
      if r < 0 then -1
      else
        assert s[..r + 1] == [s[0]] + s[1..][..r];
        r + 1
  }

  /** `s.filter(y => y !== x)`. */
  function RemoveAll<T(==,!new)>(s: seq<T>, x: T): (r: seq<T>)
    ensures x !in r && |r| <= |s|
    ensures forall y :: y != x ==> (y in r <==> y in s)
    ensures x !in s ==> r == s
  {
    if s == [] then []
    else if s[0] == x then RemoveAll(s[1..], x)
    else
      assert s == [s[0]] + s[1..];
      [s[0]] + RemoveAll(s[1..], x)
  }

  /** No value occurs twice in s. */
  predicate NoDuplicates<T(==)>(s: seq<T>) {
    forall i, j :: 0 <= i < j < |s| ==> s[i] != s[j]
  }
}
