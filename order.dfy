/** Ordering helpers shared by the models: Python's `sorted` on numbers
    without repeats, numpy's `np.sort` and `np.unique` on reals. Each sort
    inserts the last element into the sorted rest at its place. */
module Sorting {

  // ---------------------------------------------------------- integers

  /** Where `x` goes in an ascending list: after every smaller number. */
  function IntPos(x: int, ks: seq<int>): (p: nat)
    ensures p <= |ks|
    ensures forall i :: 0 <= i < p ==> ks[i] < x
    ensures p < |ks| ==> ks[p] >= x
  {
    if |ks| == 0 || ks[0] >= x then 0 else 1 + IntPos(x, ks[1..])
  }

  function InsertInt(x: int, ks: seq<int>): (r: seq<int>)
    ensures |r| == |ks| + 1
  {
    var p := IntPos(x, ks);
    ks[..p] + [x] + ks[p..]
  }

  predicate Ascending(ks: seq<int>)
  {
    forall i, j :: 0 <= i < j < |ks| ==> ks[i] < ks[j]
  }

  lemma InsertIntFacts(x: int, ks: seq<int>, y: int)
    requires Ascending(ks) && x !in ks
    ensures Ascending(InsertInt(x, ks))
    ensures y in InsertInt(x, ks) <==> y in ks || y == x
  {
    var p := IntPos(x, ks);
    var r := InsertInt(x, ks);
    assert ks == ks[..p] + ks[p..];
    assert p < |ks| ==> ks[p] > x;
    forall i, j | 0 <= i < j < |r| ensures r[i] < r[j] {
      if i == p {
        assert r[j] == ks[j - 1];
      } else if j == p {
        assert r[i] == ks[i];
      } else {
        var a := if i < p then i else i - 1;
        var b := if j < p then j else j - 1;
        assert r[i] == ks[a] && r[j] == ks[b] && a < b;
      }
    }
  }

  /** `sorted(keys)` for keys without repeats. */
  function SortInts(ks: seq<int>): (r: seq<int>)
    ensures |r| == |ks|
  {
    if |ks| == 0 then [] else InsertInt(ks[|ks| - 1], SortInts(ks[..|ks| - 1]))
  }

  /** The sorted keys ascend strictly and are exactly the keys. */
  lemma {:induction false} SortIntsFacts(ks: seq<int>, y: int)
    requires forall i, j :: 0 <= i < j < |ks| ==> ks[i] != ks[j]
    ensures Ascending(SortInts(ks))
    ensures y in SortInts(ks) <==> y in ks
  {
    if |ks| > 0 {
      var init := ks[..|ks| - 1];
      var last := ks[|ks| - 1];
      SortIntsFacts(init, y);
      SortIntsFacts(init, last);
      assert ks == init + [last];
      InsertIntFacts(last, SortInts(init), y);
    }
  }

  // ---------------------------------------------------------------- reals

  /** Non-decreasing order. */
  predicate NonDecreasing(xs: seq<real>)
  {
    forall i, j :: 0 <= i < j < |xs| ==> xs[i] <= xs[j]
  }

  /** Strictly increasing order. */
  predicate Increasing(xs: seq<real>)
  {
    forall i, j :: 0 <= i < j < |xs| ==> xs[i] < xs[j]
  }

  /** Where `x` goes in a non-decreasing list: after every number not above it. */
  function RealPos(x: real, xs: seq<real>): (p: nat)
    ensures p <= |xs|
    ensures forall i :: 0 <= i < p ==> xs[i] <= x
    ensures p < |xs| ==> xs[p] > x
  {
    if |xs| == 0 || xs[0] > x then 0 else 1 + RealPos(x, xs[1..])
  }

  function InsertReal(x: real, xs: seq<real>): (r: seq<real>)
    ensures |r| == |xs| + 1
  {
    var p := RealPos(x, xs);
    xs[..p] + [x] + xs[p..]
  }

  lemma InsertRealFacts(x: real, xs: seq<real>)
    requires NonDecreasing(xs)
    ensures NonDecreasing(InsertReal(x, xs))
    ensures multiset(InsertReal(x, xs)) == multiset(xs) + multiset{x}
  {
    var p := RealPos(x, xs);
    var r := InsertReal(x, xs);
    assert xs == xs[..p] + xs[p..];
    forall i, j | 0 <= i < j < |r| ensures r[i] <= r[j] {
      if i == p {
        assert r[j] == xs[j - 1];
      } else if j == p {
        assert r[i] == xs[i];
      } else {
        var a := if i < p then i else i - 1;
        var b := if j < p then j else j - 1;
        assert r[i] == xs[a] && r[j] == xs[b] && a < b;
      }
    }
  }

  /** `np.sort`: the same numbers in non-decreasing order. */
  function SortReals(xs: seq<real>): (r: seq<real>)
    ensures |r| == |xs|
  {
    if |xs| == 0 then [] else InsertReal(xs[|xs| - 1], SortReals(xs[..|xs| - 1]))
  }

  /** The sort is ordered and a permutation of its input. */
  lemma {:induction false} SortRealsFacts(xs: seq<real>)
    ensures NonDecreasing(SortReals(xs))
    ensures multiset(SortReals(xs)) == multiset(xs)
  {
    if |xs| > 0 {
      var init := xs[..|xs| - 1];
      SortRealsFacts(init);
      InsertRealFacts(xs[|xs| - 1], SortReals(init));
      assert xs == init + [xs[|xs| - 1]];
    }
  }

  /** A number is in the sort exactly when it is in the input. */
  lemma SortRealsMember(xs: seq<real>, y: real)
    ensures y in SortReals(xs) <==> y in xs
  {
    SortRealsFacts(xs);
    assert y in SortReals(xs) <==> y in multiset(SortReals(xs));
    assert y in xs <==> y in multiset(xs);
  }

  /** `np.unique`: the distinct numbers in increasing order. */
  function UniqueReals(xs: seq<real>): (r: seq<real>)
  {
    if |xs| == 0 then []
    else
      var rest := UniqueReals(xs[..|xs| - 1]);
      if xs[|xs| - 1] in rest then rest else InsertReal(xs[|xs| - 1], rest)
  }

  /** The unique values increase strictly and are exactly the input's values. */
  lemma {:induction false} UniqueRealsFacts(xs: seq<real>, y: real)
    ensures Increasing(UniqueReals(xs))
    ensures y in UniqueReals(xs) <==> y in xs
  {
    if |xs| > 0 {
      var init := xs[..|xs| - 1];
      var last := xs[|xs| - 1];
      var rest := UniqueReals(init);
      UniqueRealsFacts(init, y);
      UniqueRealsFacts(init, last);
      assert xs == init + [last];
      if last !in rest {
        InsertRealFacts(last, rest);
        var r := InsertReal(last, rest);
        assert y in r <==> y in multiset(r);
        assert y in rest <==> y in multiset(rest);
        forall i, j | 0 <= i < j < |r| ensures r[i] < r[j] {
          RepeatedValue(rest, last, i, j);
        }
      }
    }
  }

  /** Inserting a value not yet present into an increasing list leaves no
      value twice. */
  lemma RepeatedValue(rest: seq<real>, x: real, i: nat, j: nat)
    requires Increasing(rest) && x !in rest
    requires i < j < |InsertReal(x, rest)|
    ensures InsertReal(x, rest)[i] != InsertReal(x, rest)[j]
  {
    var p := RealPos(x, rest);
    var r := InsertReal(x, rest);
    if i == p {
      assert r[j] == rest[j - 1];
    } else if j == p {
      assert r[i] == rest[i];
    } else {
      var a := if i < p then i else i - 1;
      var b := if j < p then j else j - 1;
      assert r[i] == rest[a] && r[j] == rest[b] && a < b;
    }
  }
}
