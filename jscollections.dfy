/**
 * The JavaScript collection built-ins the data processor relies on:
 * `Array.prototype.filter`, `slice(0, end)`, the stable
 * `Array.prototype.sort`, and insertion-ordered `Map` and `Set`.
 */
module JsCollections {

  import opened Wrappers

  // ---------------------------------------------------------------------------
  // filter
  // ---------------------------------------------------------------------------

  /** `s.filter(keep)`: the elements that pass, in their original order. */
  function Filter<T>(s: seq<T>, keep: T -> bool): (r: seq<T>)
    ensures |r| <= |s|
  {
    if s == [] then [] else (if keep(s[0]) then [s[0]] else []) + Filter(s[1..], keep)
  }

  /** `a` occurs in `b` with its order kept (greedy matching decides it). */
  ghost predicate IsSubsequence<T>(a: seq<T>, b: seq<T>)
    decreases |b|
  {
    a == [] || (b != [] && if a[0] == b[0] then IsSubsequence(a[1..], b[1..]) else IsSubsequence(a, b[1..]))
  }

  lemma {:induction false} FilterDistributes<T>(a: seq<T>, b: seq<T>, keep: T -> bool)
    ensures Filter(a + b, keep) == Filter(a, keep) + Filter(b, keep)
  {
    if a != [] {
      assert (a + b)[1..] == a[1..] + b;
      FilterDistributes(a[1..], b, keep);
    } else {
      assert a + b == b;
    }
  }

  /** The filter keeps each element as often as the input holds it, or drops it entirely. */
  lemma {:induction false} FilterCounts<T>(s: seq<T>, keep: T -> bool)
    ensures forall x :: multiset(Filter(s, keep))[x] == if keep(x) then multiset(s)[x] else 0
  {
    if s != [] {
      FilterCounts(s[1..], keep);
      assert s == [s[0]] + s[1..];
    }
  }

  /** The filter keeps exactly the elements that pass. */
  lemma FilterMembers<T>(s: seq<T>, keep: T -> bool)
    ensures forall x :: x in Filter(s, keep) <==> x in s && keep(x)
  {
    FilterCounts(s, keep);
    forall x ensures x in Filter(s, keep) <==> x in s && keep(x) {
      assert x in Filter(s, keep) <==> multiset(Filter(s, keep))[x] > 0;
      assert x in s <==> multiset(s)[x] > 0;
    }
  }

  /** The filter is an order-preserving selection of its input. */
  lemma {:induction false} FilterIsSubsequence<T>(s: seq<T>, keep: T -> bool)
    ensures IsSubsequence(Filter(s, keep), s)
  {
    if s != [] {
      FilterIsSubsequence(s[1..], keep);
      if keep(s[0]) {
        assert Filter(s, keep)[1..] == Filter(s[1..], keep);
      } else {
        assert Filter(s, keep) == Filter(s[1..], keep);
        SubsequenceDropFront(Filter(s[1..], keep), s);
      }
    }
  }

  lemma {:induction false} SubsequenceDropFront<T>(a: seq<T>, b: seq<T>)
    requires b != [] && IsSubsequence(a, b[1..])
    ensures IsSubsequence(a, b)
    decreases |b|, 0
  {
    if a != [] && a[0] == b[0] {
      // b[1..] matched a[0] somewhere after b[0]: matching it at b[0] instead also works
      SubsequenceTail(a, b[1..]);
    }
  }

  lemma {:induction false} SubsequenceTail<T>(a: seq<T>, b: seq<T>)
    requires a != [] && IsSubsequence(a, b)
    ensures IsSubsequence(a[1..], b)
    decreases |b|, 1
  {
    if a[0] == b[0] {
      if b != [] { SubsequenceDropFront(a[1..], b); }
    } else {
      SubsequenceTail(a, b[1..]);
      SubsequenceDropFront(a[1..], b);
    }
  }

  // ---------------------------------------------------------------------------
  // slice(0, end)
  // ---------------------------------------------------------------------------

  /** Where `slice(0, end)` stops on an array of length `len`: a negative end counts from the back. */
  function SliceEnd(len: nat, end: int): (e: nat)
    ensures e <= len
  {
    if end < 0 then (if len + end < 0 then 0 else len + end)
    else if end < len then end
    else len
  }

  /** `s.slice(0, end)`. */
  function SliceTo<T>(s: seq<T>, end: int): (r: seq<T>)
  {
    s[..SliceEnd(|s|, end)]
  }

  /**
   * `slice(0, end)` keeps a prefix of its input: no more than `end` elements
   * for a non-negative `end`, everything when `end` reaches the length, and
   * for a negative `end` all but the last `-end` elements.
   */
  lemma SliceToFacts<T>(s: seq<T>, end: int)
    ensures var r := SliceTo(s, end);
            && (forall i :: 0 <= i < |r| ==> r[i] == s[i])
            && multiset(r) <= multiset(s)
            && (0 <= end ==> |r| <= end)
            && (|s| <= end ==> r == s)
            && (0 <= end <= |s| ==> |r| == end)
            && (end < 0 && -end <= |s| ==> |r| == |s| + end)
            && (end < 0 && |s| < -end ==> r == [])
  {
    var r := SliceTo(s, end);
    assert s == r + s[|r|..];
  }

  // ---------------------------------------------------------------------------
  // sort
  // ---------------------------------------------------------------------------
  // `Array.prototype.sort(cmp)` is stable. It is modelled by insertion sort
  // with `lt(a, b)` meaning `cmp(a, b) < 0`: an element goes in front of the
  // first element that does not strictly precede it.

  /** `lt` is a strict weak order: asymmetric, and "not after" is transitive. */
  ghost predicate StrictWeakOrder<T(!new)>(lt: (T, T) -> bool)
  {
    && (forall a, b :: lt(a, b) ==> !lt(b, a))
    && (forall a, b, c :: !lt(b, a) && !lt(c, b) ==> !lt(c, a))
  }

  /** No element is strictly before an earlier one. */
  ghost predicate SortedBy<T>(s: seq<T>, lt: (T, T) -> bool)
  {
    forall i, j :: 0 <= i < j < |s| ==> !lt(s[j], s[i])
  }

  function Insert<T(==)>(x: T, r: seq<T>, lt: (T, T) -> bool): (o: seq<T>)
    ensures |o| == |r| + 1
    ensures multiset(o) == multiset(r) + multiset{x}
  {
    if r == [] || !lt(r[0], x) then [x] + r
    else
      assert r == [r[0]] + r[1..];
      [r[0]] + Insert(x, r[1..], lt)
  }

  /** The stable sort: a permutation of its input. */
  function Sort<T(==)>(s: seq<T>, lt: (T, T) -> bool): (r: seq<T>)
    ensures |r| == |s|
    ensures multiset(r) == multiset(s)
  {
    if s == [] then []
    else
      assert s == [s[0]] + s[1..];
      Insert(s[0], Sort(s[1..], lt), lt)
  }

  lemma {:induction false} InsertSorted<T(!new)>(x: T, r: seq<T>, lt: (T, T) -> bool)
    requires StrictWeakOrder(lt) && SortedBy(r, lt)
    ensures SortedBy(Insert(x, r, lt), lt)
  {
    if r == [] || !lt(r[0], x) {
      ConsSorted(x, r, lt);
    } else {
      var o := Insert(x, r[1..], lt);
      InsertSorted(x, r[1..], lt);
      forall y | y in o ensures !lt(y, r[0]) {
        assert y in multiset(o);
        if y != x {
          assert y in r[1..];
        }
      }
      ConsSorted(r[0], o, lt);
    }
  }

  /** Putting in front an element that nothing follows strictly before keeps a sequence sorted. */
  lemma ConsSorted<T>(a: T, o: seq<T>, lt: (T, T) -> bool)
    requires SortedBy(o, lt)
    requires forall y :: y in o ==> !lt(y, a)
    ensures SortedBy([a] + o, lt)
  {
    forall i, j | 0 <= i < j < |o| + 1 ensures !lt(([a] + o)[j], ([a] + o)[i]) {
      assert ([a] + o)[j] == o[j - 1];
      if i > 0 {
        assert ([a] + o)[i] == o[i - 1];
      }
    }
  }

  /** The sort leaves no element strictly before an earlier one. */
  lemma {:induction false} SortIsSorted<T(!new)>(s: seq<T>, lt: (T, T) -> bool)
    requires StrictWeakOrder(lt)
    ensures SortedBy(Sort(s, lt), lt)
  {
    if s != [] {
      SortIsSorted(s[1..], lt);
      InsertSorted(s[0], Sort(s[1..], lt), lt);
    }
  }

  lemma {:induction false} InsertStable<T>(x: T, r: seq<T>, lt: (T, T) -> bool, p: T -> bool)
    requires forall a, b :: p(a) && p(b) ==> !lt(a, b)
    ensures Filter(Insert(x, r, lt), p) == Filter([x], p) + Filter(r, p)
  {
    if r == [] || !lt(r[0], x) {
      FilterDistributes([x], r, p);
    } else {
      InsertStable(x, r[1..], lt, p);
      // x and r[0] cannot both pass p, since r[0] strictly precedes x
      InsertStableStep(x, r, lt, p);
    }
  }

  /** Moving `x` past `r[0]`, which does not share its filter outcome, keeps the filtered order. */
  lemma InsertStableStep<T>(x: T, r: seq<T>, lt: (T, T) -> bool, p: T -> bool)
    requires r != [] && lt(r[0], x) && !(p(x) && p(r[0]))
    requires Filter(Insert(x, r[1..], lt), p) == Filter([x], p) + Filter(r[1..], p)
    ensures Filter(Insert(x, r, lt), p) == Filter([x], p) + Filter(r, p)
  {
    InsertPast(x, r, lt);
    FilterDistributes([r[0]], Insert(x, r[1..], lt), p);
    FilterDistributes([r[0]], r[1..], p);
    assert [r[0]] + r[1..] == r;
    FilterSingle(x, p);
    FilterSingle(r[0], p);
    // one of the two filtered singletons is empty, so they commute
    SwapEmpty(Filter([r[0]], p), Filter([x], p), Filter(r[1..], p));
  }

  lemma InsertPast<T>(x: T, r: seq<T>, lt: (T, T) -> bool)
    requires r != [] && lt(r[0], x)
    ensures Insert(x, r, lt) == [r[0]] + Insert(x, r[1..], lt)
  {
  }

  lemma SwapEmpty<T>(a: seq<T>, b: seq<T>, c: seq<T>)
    requires a == [] || b == []
    ensures a + (b + c) == b + (a + c)
  {
    if a == [] {
      assert a + (b + c) == b + c == b + (a + c);
    } else {
      assert a + (b + c) == a + c == b + (a + c);
    }
  }

  lemma FilterSingle<T>(x: T, p: T -> bool)
    ensures Filter([x], p) == if p(x) then [x] else []
  {
    assert [x][1..] == [];
  }

  /**
   * Stability: among elements none of which precedes another (equal keys),
   * the sort keeps the input order.
   */
  lemma {:induction false} SortIsStable<T>(s: seq<T>, lt: (T, T) -> bool, p: T -> bool)
    requires forall a, b :: p(a) && p(b) ==> !lt(a, b)
    ensures Filter(Sort(s, lt), p) == Filter(s, p)
  {
    if s != [] {
      var t := Sort(s[1..], lt);
      assert [s[0]] + s[1..] == s;
      calc {
        Filter(Sort(s, lt), p);
        Filter(Insert(s[0], t, lt), p);
        { InsertStable(s[0], t, lt, p); }
        Filter([s[0]], p) + Filter(t, p);
        { SortIsStable(s[1..], lt, p); }
        Filter([s[0]], p) + Filter(s[1..], p);
        { FilterDistributes([s[0]], s[1..], p); }
        Filter(s, p);
      }
    }
  }

  /**
   * A prefix of the sorted sequence holds the top elements: nothing left
   * out strictly precedes anything kept.
   */
  lemma SortPrefixIsTop<T(!new)>(s: seq<T>, lt: (T, T) -> bool, end: int)
    requires StrictWeakOrder(lt)
    ensures var r := SliceTo(Sort(s, lt), end);
            forall x, y :: x in r && y in multiset(s) - multiset(r) ==> !lt(y, x)
  {
    var t := Sort(s, lt);
    SortIsSorted(s, lt);
    SortedPrefixIsTop(t, lt, |SliceTo(t, end)|);
  }

  lemma SortedPrefixIsTop<T>(t: seq<T>, lt: (T, T) -> bool, k: nat)
    requires SortedBy(t, lt) && k <= |t|
    ensures forall x, y :: x in t[..k] && y in multiset(t) - multiset(t[..k]) ==> !lt(y, x)
  {
    forall x, y | x in t[..k] && y in multiset(t) - multiset(t[..k]) ensures !lt(y, x) {
      var j := InSuffix(t, k, y);
      var i :| 0 <= i < k && t[..k][i] == x;
      assert t[i] == x;
    }
  }

  /** An element occurring more often in `t` than in its first `k` elements occurs after them. */
  lemma InSuffix<T>(t: seq<T>, k: nat, y: T) returns (j: nat)
    requires k <= |t| && y in multiset(t) - multiset(t[..k])
    ensures k <= j < |t| && t[j] == y
  {
    assert t == t[..k] + t[k..];
    assert multiset(t) == multiset(t[..k]) + multiset(t[k..]);
    assert y in multiset(t[k..]);
    var j' :| 0 <= j' < |t| - k && t[k..][j'] == y;
    j := k + j';
  }

  // ---------------------------------------------------------------------------
  // distinctness and indexOf
  // ---------------------------------------------------------------------------

  predicate Distinct<T(==)>(s: seq<T>)
  {
    forall i, j :: 0 <= i < j < |s| ==> s[i] != s[j]
  }

  /** A sequence without repetitions has as many elements as the set of its elements. */
  lemma {:induction false} DistinctCard<T>(s: seq<T>)
    requires Distinct(s)
    ensures |set x | x in s| == |s|
  {
    if s != [] {
      var n := |s| - 1;
      var init := s[..n];
      assert Distinct(init);
      DistinctCard(init);
      assert s == init + [s[n]];
      assert s[n] !in init;
      assert (set x | x in s) == (set x | x in init) + {s[n]};
    }
  }

  lemma {:induction false} DistinctCountOne<T>(a: seq<T>, x: T)
    requires Distinct(a)
    ensures multiset(a)[x] <= 1
  {
    if a != [] {
      DistinctCountOne(a[1..], x);
      assert a == [a[0]] + a[1..];
    }
  }

  /** A permutation of a sequence without repetitions has none either. */
  lemma DistinctPermutation<T>(a: seq<T>, b: seq<T>)
    requires Distinct(a) && multiset(a) == multiset(b)
    ensures Distinct(b)
  {
    forall i, j | 0 <= i < j < |b| ensures b[i] != b[j] {
      if b[i] == b[j] {
        var x := b[i];
        assert multiset(b)[x] >= 2 by {
          assert b == b[..i] + [x] + b[i + 1..j] + [x] + b[j + 1..];
        }
        DistinctCountOne(a, x);
      }
    }
  }

  /** `s.indexOf(x)`, with `|s|` standing for -1. */
  function IndexOf<T(==)>(s: seq<T>, x: T): (i: nat)
    ensures i <= |s|
    ensures i < |s| ==> s[i] == x
    ensures forall j :: 0 <= j < i ==> s[j] != x
  {
    if s == [] then 0
    else if s[0] == x then 0
    else 1 + IndexOf(s[1..], x)
  }

  /** Appending an element does not move the first occurrence of one already present. */
  lemma IndexOfAppend<T>(s: seq<T>, y: T, x: T)
    requires x in s
    ensures IndexOf(s + [y], x) == IndexOf(s, x)
  {
    var k := IndexOf(s, x);
    IndexOfIs(s + [y], x, k);
  }

  /** An element appended to a sequence without it is found at the end. */
  lemma IndexOfAppendNew<T>(s: seq<T>, x: T)
    requires x !in s
    ensures IndexOf(s + [x], x) == |s|
  {
    IndexOfIs(s + [x], x, |s|);
  }

  /** `IndexOf` is determined by its contract. */
  lemma IndexOfIs<T>(s: seq<T>, x: T, i: nat)
    requires i <= |s| && (i < |s| ==> s[i] == x)
    requires forall j :: 0 <= j < i ==> s[j] != x
    ensures IndexOf(s, x) == i
  {
  }

  // ---------------------------------------------------------------------------
  // Map and Set, iterated in insertion order
  // ---------------------------------------------------------------------------

  /** A `Map` as its entries in insertion order. */
  type Entries<K, V> = seq<(K, V)>

  function Keys<K, V>(m: Entries<K, V>): (ks: seq<K>)
    ensures |ks| == |m| && forall i :: 0 <= i < |m| ==> ks[i] == m[i].0
  {
    seq(|m|, i requires 0 <= i < |m| => m[i].0)
  }

  /** `Array.from(m.values())`. */
  function Values<K, V>(m: Entries<K, V>): seq<V>
  {
    seq(|m|, i requires 0 <= i < |m| => m[i].1)
  }

  /** Position of `k` among the keys, or `|m|` when absent. */
  function IndexOfKey<K(==), V>(m: Entries<K, V>, k: K): (i: nat)
    ensures i <= |m|
    ensures i < |m| ==> m[i].0 == k
    ensures forall j :: 0 <= j < i ==> m[j].0 != k
  {
    if m == [] then 0
    else if m[0].0 == k then 0
    else 1 + IndexOfKey(m[1..], k)
  }

  /** `m.get(k)`. */
  function Get<K(==), V>(m: Entries<K, V>, k: K): (r: Option<V>)
    ensures r.None? <==> k !in Keys(m)
  {
    var i := IndexOfKey(m, k);
    if i == |m| then None else Some(m[i].1)
  }

  /** `m.set(k, v)`: a new key goes last; an existing key keeps its place and takes the new value. */
  function MapSet<K(==,!new), V>(m: Entries<K, V>, k: K, v: V): (m': Entries<K, V>)
    ensures Keys(m') == if k in Keys(m) then Keys(m) else Keys(m) + [k]
    ensures Distinct(Keys(m)) ==> Distinct(Keys(m'))
    ensures Get(m', k) == Some(v)
    ensures forall j :: j != k ==> Get(m', j) == Get(m, j)
  {
    var i := IndexOfKey(m, k);
    var m' := if i == |m| then m + [(k, v)] else m[i := (k, v)];
    IndexOfKeyIs(m', k, i);
    SetEntryKeepsOthers(m, k, v, i, m');
    m'
  }

  /** `IndexOfKey` is determined by its contract. */
  lemma IndexOfKeyIs<K, V>(m: Entries<K, V>, k: K, i: nat)
    requires i <= |m| && (i < |m| ==> m[i].0 == k)
    requires forall j :: 0 <= j < i ==> m[j].0 != k
    ensures IndexOfKey(m, k) == i
  {
  }

  lemma SetEntryKeepsOthers<K(!new), V>(m: Entries<K, V>, k: K, v: V, i: nat, m': Entries<K, V>)
    requires i == IndexOfKey(m, k)
    requires m' == if i == |m| then m + [(k, v)] else m[i := (k, v)]
    ensures forall j :: j != k ==> Get(m', j) == Get(m, j)
  {
    forall j | j != k ensures Get(m', j) == Get(m, j) {
      var ij := IndexOfKey(m, j);
      if ij < |m| {
        IndexOfKeyIs(m', j, ij);
      } else {
        IndexOfKeyIs(m', j, |m'|);
      }
    }
  }

  /** `s.add(x)` on a `Set` kept in insertion order. */
  function SetAdd<T(==,!new)>(s: seq<T>, x: T): (s': seq<T>)
    ensures Distinct(s) ==> Distinct(s')
    ensures forall y :: y in s' <==> y in s || y == x
    ensures IsPrefix(s, s')
  {
    if x in s then s else s + [x]
  }

  predicate IsPrefix<T(==)>(a: seq<T>, b: seq<T>)
  {
    |a| <= |b| && b[..|a|] == a
  }

  /** Filtering the first `k` elements gives a prefix of filtering them all. */
  lemma CutFilterIsPrefix<T>(t: seq<T>, k: nat, p: T -> bool)
    requires k <= |t|
    ensures IsPrefix(Filter(t[..k], p), Filter(t, p))
  {
    var front, back := t[..k], t[k..];
    assert t == front + back;
    FilterDistributes(front, back, p);
    PrefixOfConcat(Filter(front, p), Filter(back, p));
  }

  lemma PrefixOfConcat<T>(a: seq<T>, b: seq<T>)
    ensures IsPrefix(a, a + b)
  {
    assert (a + b)[..|a|] == a;
  }

}
