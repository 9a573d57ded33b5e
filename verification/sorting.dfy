/**
  `Array.prototype.sort` with the comparator `_sortWorkouts` hands it.

  The comparator puts an element whose field is falsy first, and otherwise
  subtracts the two field values. When both fields are falsy it answers -1
  both ways round, so it is not a consistent comparator and the language
  leaves the resulting order to the implementation. The model sorts with a
  stable insertion sort: it promises a permutation in every case, and the
  ordering only when every key is truthy and finite, where any stable sort
  gives this same result.
 */
module Sorting {
  import opened JsNumbers

  /** What `a[field]` yields: nothing, a number, or a metric string written by `toFixed`. */
  datatype Key = Missing | Number(n: Num) | Formatted(n: Num)

  /** `!!a[field]`: a metric string is never empty, so always truthy. */
  predicate KeyTruthy(k: Key) {
    match k
    case Missing => false
    case Number(n) => Truthy(n)
    case Formatted(_) => true
  }

  /** The number a key stands for in `a[field] - b[field]`. */
  function KeyNumber(k: Key): Num {
    match k
    case Missing => NaN
    case Number(n) => n
    case Formatted(n) => n
  }

  /** A key the comparator orders like a number. */
  predicate Comparable(k: Key) {
    KeyTruthy(k) && KeyNumber(k).Fin?
  }

  /** `a` may stand before `b`: the sort direction applied to two comparable keys. */
  predicate InOrder(a: Key, b: Key, ascending: bool) {
    && Comparable(a) && Comparable(b)
    && if ascending then KeyNumber(a).value <= KeyNumber(b).value
       else KeyNumber(a).value >= KeyNumber(b).value
  }

  /**
    The comparator: `a - b` for an ascending sort, `b - a` otherwise, after
    the two falsy-first tests.
   */
  function Compare(a: Key, b: Key, ascending: bool): (c: int)
    ensures -1 <= c <= 1
    ensures !KeyTruthy(a) ==> c < 0
    ensures KeyTruthy(a) && !KeyTruthy(b) ==> c > 0
    ensures Comparable(a) && Comparable(b) ==> (c < 0 <==> !InOrder(b, a, ascending))
  {
    if !KeyTruthy(a) then -1
    else if !KeyTruthy(b) then 1
    else if ascending then SignOfDifference(KeyNumber(a), KeyNumber(b))
    else SignOfDifference(KeyNumber(b), KeyNumber(a))
  }

  /** Two falsy keys each claim to come first: the comparator is inconsistent there. */
  lemma CompareInconsistent(a: Key, b: Key, ascending: bool)
    requires !KeyTruthy(a) && !KeyTruthy(b)
    ensures Compare(a, b, ascending) < 0 && Compare(b, a, ascending) < 0
  {
  }

  /**
    One insertion step: `x` moves left past every element that the
    comparator says it must precede, and stops behind the first one it need
    not, so equal elements keep their order.
   */
  function Insert<T>(sorted: seq<T>, x: T, key: T -> Key, ascending: bool): (r: seq<T>)
    ensures multiset(r) == multiset(sorted) + multiset{x}
  {
    if |sorted| == 0 then [x]
    else
      var last := sorted[|sorted| - 1];
      if Compare(key(x), key(last), ascending) < 0 then
        assert sorted == sorted[..|sorted| - 1] + [last];
        Insert(sorted[..|sorted| - 1], x, key, ascending) + [last]
      else
        sorted + [x]
  }

  /** The sort: each element in turn is inserted into the sorted prefix before it. */
  function SortBy<T>(s: seq<T>, key: T -> Key, ascending: bool): (r: seq<T>)
    ensures multiset(r) == multiset(s)
  {
    if |s| == 0 then []
    else
      assert s == s[..|s| - 1] + [s[|s| - 1]];
      Insert(SortBy(s[..|s| - 1], key, ascending), s[|s| - 1], key, ascending)
  }

  ghost predicate AllComparable<T>(s: seq<T>, key: T -> Key) {
    forall i :: 0 <= i < |s| ==> Comparable(key(s[i]))
  }

  ghost predicate Ordered<T>(s: seq<T>, key: T -> Key, ascending: bool) {
    forall i, j :: 0 <= i < j < |s| ==> InOrder(key(s[i]), key(s[j]), ascending)
  }

  /** Every element of an insertion result is the inserted one or came from the sorted part. */
  lemma InsertElements<T>(sorted: seq<T>, x: T, key: T -> Key, ascending: bool, k: nat)
    requires k < |Insert(sorted, x, key, ascending)|
    ensures Insert(sorted, x, key, ascending)[k] == x
         || exists j :: 0 <= j < |sorted| && sorted[j] == Insert(sorted, x, key, ascending)[k]
  {
    var r := Insert(sorted, x, key, ascending);
    assert r[k] in multiset(r);
  }

  lemma SortOne<T>(a: T, key: T -> Key, ascending: bool)
    ensures SortBy([a], key, ascending) == [a]
  {
    assert [a][..0] == [];
  }

  lemma InsertIntoOne<T>(a: T, b: T, key: T -> Key, ascending: bool)
    ensures Insert([a], b, key, ascending) == if Compare(key(b), key(a), ascending) < 0 then [b, a] else [a, b]
  {
    assert [a][..0] == [];
  }

  /** Two elements are swapped exactly when the comparator puts the second before the first. */
  lemma SortTwo<T>(a: T, b: T, key: T -> Key, ascending: bool)
    ensures SortBy([a, b], key, ascending) == if Compare(key(b), key(a), ascending) < 0 then [b, a] else [a, b]
  {
    assert [a, b][..1] == [a] && [a, b][1] == b;
    assert SortBy([a, b], key, ascending) == Insert(SortBy([a], key, ascending), b, key, ascending);
    SortOne(a, key, ascending);
    InsertIntoOne(a, b, key, ascending);
  }

  lemma {:induction false} InsertOrdered<T>(sorted: seq<T>, x: T, key: T -> Key, ascending: bool)
    requires Ordered(sorted, key, ascending) && AllComparable(sorted, key)
    requires Comparable(key(x))
    ensures Ordered(Insert(sorted, x, key, ascending), key, ascending)
    ensures AllComparable(Insert(sorted, x, key, ascending), key)
  {
    if |sorted| == 0 {
      return;
    }
    var n := |sorted|;
    var last := sorted[n - 1];
    if Compare(key(x), key(last), ascending) < 0 {
      var prefix := sorted[..n - 1];
      InsertOrdered(prefix, x, key, ascending);
      InsertBefore(sorted, x, key, ascending);
    } else {
      AppendOrdered(sorted, x, key, ascending);
    }
  }

  /** `x` stops at the back: it may follow every element, since it may follow the last. */
  lemma AppendOrdered<T>(sorted: seq<T>, x: T, key: T -> Key, ascending: bool)
    requires Ordered(sorted, key, ascending) && AllComparable(sorted, key)
    requires Comparable(key(x)) && |sorted| > 0
    requires Compare(key(x), key(sorted[|sorted| - 1]), ascending) >= 0
    ensures Ordered(sorted + [x], key, ascending) && AllComparable(sorted + [x], key)
  {
    var n := |sorted|;
    var last := sorted[n - 1];
    assert InOrder(key(last), key(x), ascending);
    forall i | 0 <= i < n
      ensures InOrder(key(sorted[i]), key(x), ascending)
    {
      if i < n - 1 {
        assert InOrder(key(sorted[i]), key(last), ascending);
      }
    }
    var r := sorted + [x];
    forall i, j | 0 <= i < j < |r|
      ensures InOrder(key(r[i]), key(r[j]), ascending)
    {
      if j < n {
        assert r[i] == sorted[i] && r[j] == sorted[j];
      }
    }
  }

  /**
    `x` moves past the last element: the last element stays at the back,
    and every element before it may precede it.
   */
  lemma InsertBefore<T>(sorted: seq<T>, x: T, key: T -> Key, ascending: bool)
    requires Ordered(sorted, key, ascending) && AllComparable(sorted, key)
    requires Comparable(key(x)) && |sorted| > 0
    requires Compare(key(x), key(sorted[|sorted| - 1]), ascending) < 0
    requires Ordered(Insert(sorted[..|sorted| - 1], x, key, ascending), key, ascending)
    requires AllComparable(Insert(sorted[..|sorted| - 1], x, key, ascending), key)
    ensures Ordered(Insert(sorted, x, key, ascending), key, ascending)
    ensures AllComparable(Insert(sorted, x, key, ascending), key)
  {
    var n := |sorted|;
    var last := sorted[n - 1];
    var prefix := sorted[..n - 1];
    var ins := Insert(prefix, x, key, ascending);
    var r := Insert(sorted, x, key, ascending);
    assert r == ins + [last];
    forall k | 0 <= k < |ins|
      ensures InOrder(key(ins[k]), key(last), ascending)
    {
      InsertElements(prefix, x, key, ascending, k);
      if ins[k] != x {
        var j :| 0 <= j < |prefix| && prefix[j] == ins[k];
        assert sorted[j] == ins[k];
      }
    }
    forall i, j | 0 <= i < j < |r|
      ensures InOrder(key(r[i]), key(r[j]), ascending)
    {
      if j < |ins| {
        assert r[i] == ins[i] && r[j] == ins[j];
      }
    }
  }

  /** With every key truthy and finite, the sort orders by key in the chosen direction. */
  lemma {:induction false} SortOrdered<T>(s: seq<T>, key: T -> Key, ascending: bool)
    requires AllComparable(s, key)
    ensures Ordered(SortBy(s, key, ascending), key, ascending)
    ensures AllComparable(SortBy(s, key, ascending), key)
  {
    if |s| > 0 {
      var prefix := s[..|s| - 1];
      SortOrdered(prefix, key, ascending);
      InsertOrdered(SortBy(prefix, key, ascending), s[|s| - 1], key, ascending);
    }
  }

  /** The key a pair takes from its first component. */
  function OnFirst<T, U>(key: T -> Key): ((T, U)) -> Key {
    (p: (T, U)) => key(p.0)
  }

  function Firsts<T, U>(s: seq<(T, U)>): (r: seq<T>)
    ensures |r| == |s|
    ensures forall i :: 0 <= i < |s| ==> r[i] == s[i].0
  {
    seq(|s|, i requires 0 <= i < |s| => s[i].0)
  }

  function Seconds<T, U>(s: seq<(T, U)>): (r: seq<U>)
    ensures |r| == |s|
    ensures forall i :: 0 <= i < |s| ==> r[i] == s[i].1
  {
    seq(|s|, i requires 0 <= i < |s| => s[i].1)
  }

  /** Permuting pairs permutes their second components. */
  lemma {:induction false} SecondsMultiset<T, U>(ps: seq<(T, U)>, qs: seq<(T, U)>)
    requires multiset(qs) == multiset(ps)
    ensures multiset(Seconds(qs)) == multiset(Seconds(ps))
  {
    if |ps| == 0 {
      assert |qs| == |multiset(qs)| == 0;
    } else {
      var n := |ps|;
      var p := ps[n - 1];
      assert ps == ps[..n - 1] + [p];
      assert p in multiset(qs);
      var j :| 0 <= j < |qs| && qs[j] == p;
      var rest := WithoutAt(qs, j);
      assert multiset(ps) == multiset(ps[..n - 1]) + multiset{p};
      assert multiset(rest) == multiset(ps[..n - 1]);
      SecondsMultiset(ps[..n - 1], rest);
      SecondsAppend(ps[..n - 1], [p]);
      assert Seconds([p]) == [p.1];
      SecondsWithoutAt(qs, j);
      assert multiset(Seconds(ps)) == multiset(Seconds(ps[..n - 1])) + multiset{p.1};
    }
  }

  /** `s` without its element at `j`. */
  function WithoutAt<X>(s: seq<X>, j: nat): (r: seq<X>)
    requires j < |s|
    ensures multiset(r) == multiset(s) - multiset{s[j]}
  {
    assert s == s[..j] + [s[j]] + s[j + 1..];
    s[..j] + s[j + 1..]
  }

  lemma SecondsAppend<T, U>(a: seq<(T, U)>, b: seq<(T, U)>)
    ensures Seconds(a + b) == Seconds(a) + Seconds(b)
  {
  }

  /** Taking out a pair takes out its second component. */
  lemma SecondsWithoutAt<T, U>(qs: seq<(T, U)>, j: nat)
    requires j < |qs|
    ensures multiset(Seconds(qs)) == multiset(Seconds(WithoutAt(qs, j))) + multiset{qs[j].1}
  {
    assert qs == qs[..j] + [qs[j]] + qs[j + 1..];
    SecondsAppend(qs[..j] + [qs[j]], qs[j + 1..]);
    SecondsAppend(qs[..j], [qs[j]]);
    SecondsAppend(qs[..j], qs[j + 1..]);
  }

  lemma FirstsAppend<T, U>(s: seq<(T, U)>, p: (T, U))
    ensures Firsts(s + [p]) == Firsts(s) + [p.0]
  {
  }

  lemma {:induction false} InsertFirsts<T, U>(sorted: seq<(T, U)>, x: (T, U), key: T -> Key, ascending: bool)
    ensures Firsts(Insert(sorted, x, OnFirst(key), ascending)) == Insert(Firsts(sorted), x.0, key, ascending)
  {
    var pairKey := OnFirst(key);
    var firsts := Firsts(sorted);
    if |sorted| == 0 {
      assert Insert(sorted, x, pairKey, ascending) == [x];
      assert Firsts([x]) == [x.0];
    } else {
      var n := |sorted|;
      var last := sorted[n - 1];
      assert pairKey(x) == key(x.0) && pairKey(last) == key(last.0);
      assert firsts[n - 1] == last.0;
      if Compare(key(x.0), key(last.0), ascending) < 0 {
        assert Firsts(sorted[..n - 1]) == firsts[..n - 1];
        InsertFirsts(sorted[..n - 1], x, key, ascending);
        FirstsAppend(Insert(sorted[..n - 1], x, pairKey, ascending), last);
      } else {
        FirstsAppend(sorted, x);
      }
    }
  }

  /**
    Sorting pairs by the key of their first components moves the first
    components exactly as sorting them alone would.
   */
  lemma {:induction false} SortFirsts<T, U>(s: seq<(T, U)>, key: T -> Key, ascending: bool)
    ensures Firsts(SortBy(s, OnFirst(key), ascending)) == SortBy(Firsts(s), key, ascending)
  {
    if |s| > 0 {
      var n := |s|;
      assert Firsts(s[..n - 1]) == Firsts(s)[..n - 1];
      SortFirsts(s[..n - 1], key, ascending);
      InsertFirsts(SortBy(s[..n - 1], OnFirst(key), ascending), s[n - 1], key, ascending);
    }
  }
}
