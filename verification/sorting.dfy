/** A sort by a string key under a caller-supplied ordering, standing in
    for `Array.prototype.sort` with a `localeCompare` comparator. The collation
    itself is not modelled: any total preorder on strings will do. */
module Sorting {

  /** `leq` orders every pair of strings and is transitive, as a
      `localeCompare`-based comparison is. */
  ghost predicate TotalPreorder(leq: (string, string) -> bool) {
    && (forall a, b :: leq(a, b) || leq(b, a))
    && (forall a, b, c :: leq(a, b) && leq(b, c) ==> leq(a, c))
  }

  ghost predicate SortedByKey<T>(xs: seq<T>, key: T -> string, leq: (string, string) -> bool) {
    forall i, j :: 0 <= i < j < |xs| ==> leq(key(xs[i]), key(xs[j]))
  }

  /** Inserts `x` before the first element it does not come after. */
  function Insert<T>(x: T, ys: seq<T>, key: T -> string, leq: (string, string) -> bool): (r: seq<T>)
    requires TotalPreorder(leq)
    requires SortedByKey(ys, key, leq)
    ensures multiset(r) == multiset(ys) + multiset{x}
    ensures SortedByKey(r, key, leq)
  {
    if |ys| == 0 || leq(key(x), key(ys[0])) then
      [x] + ys
    else
      var rest := Insert(x, ys[1..], key, leq);
      assert ys == [ys[0]] + ys[1..];
      HeadPrecedesRest(x, ys, rest, key, leq);
      [ys[0]] + rest
  }

  /** Every element of a sorted tail with `x` inserted comes after the head. */
  lemma HeadPrecedesRest<T>(x: T, ys: seq<T>, rest: seq<T>, key: T -> string, leq: (string, string) -> bool)
    requires |ys| > 0 && SortedByKey(ys, key, leq)
    requires leq(key(ys[0]), key(x))
    requires multiset(rest) == multiset(ys[1..]) + multiset{x}
    ensures forall e :: e in rest ==> leq(key(ys[0]), key(e))
  {
    forall e | e in rest ensures leq(key(ys[0]), key(e)) {
      assert e in multiset(rest);
      if e != x {
        assert e in multiset(ys[1..]);
        var m :| 0 <= m < |ys[1..]| && ys[1..][m] == e;
        assert ys[m + 1] == e;
      }
    }
  }

  function SortByKey<T>(xs: seq<T>, key: T -> string, leq: (string, string) -> bool): (r: seq<T>)
    requires TotalPreorder(leq)
    ensures multiset(r) == multiset(xs)
    ensures SortedByKey(r, key, leq)
  {
    if |xs| == 0 then []
    else
      assert xs == [xs[0]] + xs[1..];
      Insert(xs[0], SortByKey(xs[1..], key, leq), key, leq)
  }
}
