/** Orders given as predicates: least elements of sets, stable sorting of lists, and why a strictly
    sorted arrangement is unique. */
module Sorting {

  // ---------------------------------------------------------------- least elements

  ghost predicate TotalOrder<T(!new)>(less: (T, T) -> bool) {
    && (forall a, b :: less(a, b) || a == b || less(b, a))
    && (forall a, b :: !(less(a, b) && less(b, a)))
    && forall a, b, c :: less(a, b) && less(b, c) ==> less(a, c)
  }

  ghost predicate IsLeast<T>(s: set<T>, less: (T, T) -> bool, m: T) {
    m in s && forall x :: x in s ==> x == m || less(m, x)
  }

  lemma {:induction false} LeastExists<T(!new)>(s: set<T>, less: (T, T) -> bool)
    requires TotalOrder(less) && s != {}
    ensures exists m :: IsLeast(s, less, m)
    decreases |s|
  {
    var y :| y in s;
    var rest := s - {y};
    if rest == {} {
      assert s == {y};
      assert IsLeast(s, less, y);
    } else {
      LeastExists(rest, less);
      var m :| IsLeast(rest, less, m);
      var least := if less(y, m) then y else m;
      forall x | x in s ensures x == least || less(least, x) {
        assert x == y || x in rest;
      }
      assert IsLeast(s, less, least);
    }
  }

  // ---------------------------------------------------------------- repetition

  ghost predicate NoRepeats<T>(s: seq<T>) {
    forall i, j :: 0 <= i < j < |s| ==> s[i] != s[j]
  }

  lemma {:induction false} RepeatFreeCount<T>(s: seq<T>, x: T)
    requires NoRepeats(s)
    ensures multiset(s)[x] == if x in s then 1 else 0
  {
    if s == [] {
    } else {
      var n := |s| - 1;
      RepeatFreeCount(s[..n], x);
      assert s == s[..n] + [s[n]];
    }
  }

  lemma RepeatsShow<T>(s: seq<T>)
    ensures NoRepeats(s) <==> forall x :: multiset(s)[x] <= 1
  {
    if NoRepeats(s) {
      forall x ensures multiset(s)[x] <= 1 {
        RepeatFreeCount(s, x);
      }
    } else {
      var i, j :| 0 <= i < j < |s| && s[i] == s[j];
      assert s == s[..j] + s[j..];
      assert s[i] in s[..j] && s[i] in s[j..] by {
        assert s[..j][i] == s[i] && s[j..][0] == s[j];
      }
      assert multiset(s) == multiset(s[..j]) + multiset(s[j..]);
      assert multiset(s)[s[i]] >= 2;
    }
  }

  lemma SameElements<T>(s: seq<T>, t: seq<T>)
    requires multiset(s) == multiset(t)
    ensures |s| == |t| && forall x :: x in s <==> x in t
  {
    forall x ensures x in s <==> x in t {
      assert x in s <==> x in multiset(s);
      assert x in t <==> x in multiset(t);
    }
    assert |s| == |multiset(s)| && |t| == |multiset(t)|;
  }

  lemma PermutedRepeats<T>(s: seq<T>, t: seq<T>)
    requires multiset(s) == multiset(t)
    ensures NoRepeats(s) <==> NoRepeats(t)
    ensures forall x :: x in s <==> x in t
  {
    RepeatsShow(s);
    RepeatsShow(t);
    SameElements(s, t);
  }

  function Map<T, U>(s: seq<T>, f: T -> U): (r: seq<U>)
    ensures |r| == |s| && forall i :: 0 <= i < |s| ==> r[i] == f(s[i])
  {
    seq(|s|, i requires 0 <= i < |s| => f(s[i]))
  }

  /** Without the element at a position. */
  function Except<T>(s: seq<T>, i: nat): seq<T>
    requires i < |s|
  {
    s[..i] + s[i + 1..]
  }

  lemma MapSplits<T, U>(s: seq<T>, i: nat, f: T -> U)
    requires i < |s|
    ensures multiset(Map(s, f)) == multiset(Map(Except(s, i), f)) + multiset{f(s[i])}
  {
    assert Map(s, f) == Map(s[..i], f) + [f(s[i])] + Map(s[i + 1..], f);
    assert Map(Except(s, i), f) == Map(s[..i], f) + Map(s[i + 1..], f);
  }

  lemma RemoveOne<T>(s: seq<T>, i: nat)
    requires i < |s|
    ensures multiset(Except(s, i)) == multiset(s) - multiset{s[i]}
  {
    assert s == s[..i] + [s[i]] + s[i + 1..];
  }

  lemma MiddleOut<T>(x: seq<T>, y: seq<T>, z: seq<T>)
    ensures multiset((x + y) + z) == multiset(x + z) + multiset(y)
  {
  }

  /** Mapping two arrangements of the same elements gives two arrangements of the same images. */
  lemma {:induction false} MapPermutes<T, U>(s: seq<T>, t: seq<T>, f: T -> U)
    requires multiset(s) == multiset(t)
    ensures multiset(Map(s, f)) == multiset(Map(t, f))
    decreases |s|
  {
    SameElements(s, t);
    if s == [] {
    } else {
      assert s[0] in t;
      var i :| 0 <= i < |t| && t[i] == s[0];
      RemoveOne(s, 0);
      RemoveOne(t, i);
      MapPermutes(Except(s, 0), Except(t, i), f);
      MapSplits(s, 0, f);
      MapSplits(t, i, f);
    }
  }

  // ---------------------------------------------------------------- sorting

  /** Comparison by keys: transitive, and so is being incomparable. */
  ghost predicate KeyOrder<T(!new)>(before: (T, T) -> bool) {
    && (forall a, b :: !(before(a, b) && before(b, a)))
    && (forall a, b, c :: before(a, b) && before(b, c) ==> before(a, c))
    && forall a, b, c :: !before(b, a) && !before(c, b) ==> !before(c, a)
  }

  /** Stable insertion: `x` goes in front of everything it does not follow. */
  function Insert<T>(x: T, r: seq<T>, before: (T, T) -> bool): seq<T> {
    if r == [] then [x]
    else if before(r[0], x) then [r[0]] + Insert(x, r[1..], before)
    else [x] + r
  }

  /** The stable sort of a list. */
  function Sort<T>(s: seq<T>, before: (T, T) -> bool): seq<T> {
    if s == [] then [] else Insert(s[0], Sort(s[1..], before), before)
  }

  ghost predicate Ascends<T>(r: seq<T>, before: (T, T) -> bool) {
    forall i, j :: 0 <= i < j < |r| ==> !before(r[j], r[i])
  }

  ghost predicate StrictlyAscends<T>(r: seq<T>, before: (T, T) -> bool) {
    forall i, j :: 0 <= i < j < |r| ==> before(r[i], r[j])
  }

  /** Any two different elements are ordered. */
  ghost predicate Separates<T>(s: seq<T>, before: (T, T) -> bool) {
    NoRepeats(s) && forall x, y :: x in s && y in s && x != y ==> before(x, y) || before(y, x)
  }

  lemma {:induction false} InsertPermutes<T>(x: T, r: seq<T>, before: (T, T) -> bool)
    ensures multiset(Insert(x, r, before)) == multiset(r) + multiset{x}
  {
    if r == [] {
    } else if before(r[0], x) {
      InsertPermutes(x, r[1..], before);
      assert r == [r[0]] + r[1..];
    }
  }

  lemma {:induction false} SortPermutes<T>(s: seq<T>, before: (T, T) -> bool)
    ensures multiset(Sort(s, before)) == multiset(s)
  {
    if s == [] {
    } else {
      SortPermutes(s[1..], before);
      InsertPermutes(s[0], Sort(s[1..], before), before);
      assert s == [s[0]] + s[1..];
    }
  }

  lemma {:induction false} InsertAscends<T(!new)>(x: T, r: seq<T>, before: (T, T) -> bool)
    requires KeyOrder(before) && Ascends(r, before)
    ensures Ascends(Insert(x, r, before), before)
  {
    if r == [] {
    } else if before(r[0], x) {
      var rest := Insert(x, r[1..], before);
      InsertAscends(x, r[1..], before);
      forall y | y in rest ensures !before(y, r[0]) {
        InsertPermutes(x, r[1..], before);
        assert y in multiset(rest);
        assert y == x || y in r[1..];
      }
    } else {
      forall y | y in r ensures !before(y, x) {
        var i :| 0 <= i < |r| && r[i] == y;
        assert i == 0 || !before(r[i], r[0]);
      }
    }
  }

  lemma {:induction false} SortAscends<T(!new)>(s: seq<T>, before: (T, T) -> bool)
    requires KeyOrder(before)
    ensures Ascends(Sort(s, before), before)
  {
    if s == [] {
    } else {
      SortAscends(s[1..], before);
      InsertAscends(s[0], Sort(s[1..], before), before);
    }
  }

  /** Sorting a list whose different elements are all ordered arranges it strictly. */
  lemma SortIsStrict<T(!new)>(s: seq<T>, before: (T, T) -> bool)
    requires KeyOrder(before) && Separates(s, before)
    ensures StrictlyAscends(Sort(s, before), before) && multiset(Sort(s, before)) == multiset(s)
  {
    var r := Sort(s, before);
    SortPermutes(s, before);
    SortAscends(s, before);
    PermutedRepeats(s, r);
    forall i, j | 0 <= i < j < |r| ensures before(r[i], r[j]) {
      assert r[i] in r && r[j] in r;
    }
  }

  /** Different elements are ordered. */
  ghost predicate Compares<T>(r: seq<T>, before: (T, T) -> bool) {
    forall x, y :: x in r && y in r && x != y ==> before(x, y) || before(y, x)
  }

  /** The first element of an ascending arrangement precedes nothing it follows. */
  lemma FirstIsLeast<T>(r: seq<T>, before: (T, T) -> bool, y: T)
    requires Ascends(r, before) && y in r
    ensures y == r[0] || !before(y, r[0])
  {
    var i :| 0 <= i < |r| && r[i] == y;
  }

  lemma TailOf<T>(r: seq<T>, before: (T, T) -> bool)
    requires Ascends(r, before) && Compares(r, before) && r != []
    ensures Ascends(r[1..], before) && Compares(r[1..], before)
    ensures multiset(r[1..]) == multiset(r) - multiset{r[0]}
  {
    assert r == [r[0]] + r[1..];
    assert forall y :: y in r[1..] ==> y in r;
  }

  /** When different elements are ordered, the same elements, repeated as they may be, have only one
      ascending arrangement. */
  lemma {:induction false} AscendingArrangementIsUnique<T>(r: seq<T>, t: seq<T>, before: (T, T) -> bool)
    requires Ascends(r, before) && Ascends(t, before) && multiset(r) == multiset(t)
    requires Compares(r, before) && Compares(t, before)
    ensures r == t
  {
    SameElements(r, t);
    if r == [] {
    } else {
      assert r[0] in t && t[0] in r;
      FirstIsLeast(r, before, t[0]);
      FirstIsLeast(t, before, r[0]);
      TailOf(r, before);
      TailOf(t, before);
      AscendingArrangementIsUnique(r[1..], t[1..], before);
      assert r == [r[0]] + r[1..] && t == [t[0]] + t[1..];
    }
  }

  lemma StrictIsAscending<T(!new)>(r: seq<T>, before: (T, T) -> bool)
    requires KeyOrder(before) && StrictlyAscends(r, before)
    ensures Ascends(r, before) && Compares(r, before)
  {
    forall x, y | x in r && y in r && x != y ensures before(x, y) || before(y, x) {
      var i :| 0 <= i < |r| && r[i] == x;
      var j :| 0 <= j < |r| && r[j] == y;
      assert i < j || j < i;
    }
  }

  /** There is only one strictly ascending arrangement of the same elements. */
  lemma StrictArrangementIsUnique<T(!new)>(r: seq<T>, t: seq<T>, before: (T, T) -> bool)
    requires KeyOrder(before) && StrictlyAscends(r, before) && StrictlyAscends(t, before)
    requires multiset(r) == multiset(t)
    ensures r == t
  {
    StrictIsAscending(r, before);
    StrictIsAscending(t, before);
    AscendingArrangementIsUnique(r, t, before);
  }

  /** The sorted list does not depend on the order the elements were listed in. */
  lemma SortIgnoresOrder<T(!new)>(s: seq<T>, t: seq<T>, before: (T, T) -> bool)
    requires KeyOrder(before) && Separates(s, before) && multiset(s) == multiset(t)
    ensures Sort(s, before) == Sort(t, before)
  {
    PermutedRepeats(s, t);
    SortIsStrict(s, before);
    SortIsStrict(t, before);
    StrictArrangementIsUnique(Sort(s, before), Sort(t, before), before);
  }

  // ---------------------------------------------------------------- sorting with ties

  /** Sorting by a key of a total order: the sequence of keys does not depend on the arrangement. */
  lemma SortedKeysAgree<T(!new), K(!new)>(s: seq<T>, t: seq<T>, key: T -> K, less: (K, K) -> bool, before: (T,
                          T) -> bool)
    requires TotalOrder(less) && KeyOrder(before) && (forall a, b :: before(a, b) <==> less(key(a), key(b)))
    requires multiset(s) == multiset(t)
    ensures Map(Sort(s, before), key) == Map(Sort(t, before), key)
  {
    SortPermutes(s, before);
    SortPermutes(t, before);
    SortAscends(s, before);
    SortAscends(t, before);
    MapPermutes(Sort(s, before), Sort(t, before), key);
    AscendingArrangementIsUnique(Map(Sort(s, before), key), Map(Sort(t, before), key), less);
  }

  function Filter<T(!new)>(s: seq<T>, p: T -> bool): (r: seq<T>)
    ensures forall x :: x in r <==> x in s && p(x)
  {
    if s == [] then [] else (if p(s[0]) then [s[0]] else []) + Filter(s[1..], p)
  }

  lemma {:induction false} FilterConcat<T(!new)>(s: seq<T>, t: seq<T>, p: T -> bool)
    ensures Filter(s + t, p) == Filter(s, p) + Filter(t, p)
  {
    if s == [] {
      assert s + t == t;
    } else {
      assert (s + t)[1..] == s[1..] + t;
      FilterConcat(s[1..], t, p);
    }
  }

  lemma {:induction false} FilterNone<T(!new)>(s: seq<T>, p: T -> bool)
    requires forall x :: x in s ==> !p(x)
    ensures Filter(s, p) == []
  {
    if s == [] {
    } else {
      assert s[0] in s;
      FilterNone(s[1..], p);
    }
  }

  lemma FilterAll<T(!new)>(s: seq<T>, p: T -> bool, v: T)
    requires forall x :: x in Filter(s, p) ==> x == v
    requires v in s && p(v)
    ensures Filter(s, p) != [] && Filter(s, p)[0] == v
  {
    assert v in Filter(s, p);
    assert Filter(s, p)[0] in Filter(s, p);
  }

  lemma {:induction false} FilterPartitions<T(!new)>(s: seq<T>, p: T -> bool, q: T -> bool)
    requires forall x :: x in s ==> (p(x) <==> !q(x))
    ensures multiset(Filter(s, p) + Filter(s, q)) == multiset(s)
  {
    if s == [] {
    } else {
      FilterPartitions(s[1..], p, q);
      assert s == [s[0]] + s[1..];
    }
  }

  lemma FilterCons<T(!new)>(x: T, s: seq<T>, p: T -> bool)
    ensures Filter([x] + s, p) == (if p(x) then [x] else []) + Filter(s, p)
  {
    assert ([x] + s)[1..] == s;
  }

  lemma {:induction false} InsertKeepsTies<T(!new)>(x: T, r: seq<T>, before: (T, T) -> bool, p: T -> bool)
    requires forall y :: y in r && p(x) && p(y) ==> !before(y, x)
    ensures Filter(Insert(x, r, before), p) == Filter([x] + r, p)
  {
    if r == [] {
    } else if before(r[0], x) {
      var rest := Insert(x, r[1..], before);
      assert r[0] in r && !(p(x) && p(r[0]));
      InsertKeepsTies(x, r[1..], before, p);
      FilterCons(x, r[1..], p);
      FilterCons(x, r, p);
      FilterCons(r[0], rest, p);
    }
  }

  /** Sorting is stable: elements that are not ordered among each other keep their order. */
  lemma {:induction false} SortIsStable<T(!new)>(s: seq<T>, before: (T, T) -> bool, p: T -> bool)
    requires forall x, y :: x in s && y in s && p(x) && p(y) ==> !before(x, y)
    ensures Filter(Sort(s, before), p) == Filter(s, p)
  {
    if s == [] {
    } else {
      SortIsStable(s[1..], before, p);
      SortPermutes(s[1..], before);
      SameElements(s[1..], Sort(s[1..], before));
      InsertKeepsTies(s[0], Sort(s[1..], before), before, p);
      assert ([s[0]] + Sort(s[1..], before))[1..] == Sort(s[1..], before);
    }
  }
}
