/**
 * Generic list operations shared by the screens and services: first index of
 * an element, order-preserving subsequences, `Array.prototype.filter`,
 * de-duplication in first-appearance order (`[...new Set(xs)]`), counting,
 * a stable newest-first sort, `slice(0, n)`, and dictionaries kept as
 * association lists in insertion order (Python `dict`).
 */
module Lists {

  import opened Wrappers

  // ---------------------------------------------------------------------
  // Positions and subsequences
  // ---------------------------------------------------------------------

  /** Index of the first occurrence of `x` (JavaScript `indexOf`, Python `list.index`). */
  function IndexOf<T(==)>(s: seq<T>, x: T): (k: nat)
    requires x in s
    ensures k < |s| && s[k] == x && x !in s[..k]
  {
    if s[0] == x then 0 else
      assert x in s[1..];
      var k := 1 + IndexOf(s[1..], x);
      assert s[..k] == [s[0]] + s[1..][..k - 1];
      k
  }

  /** A sequence is its part before `k`, the element at `k`, and the rest. */
  lemma Around<T>(s: seq<T>, k: nat)
    requires k < |s|
    ensures s == s[..k] + [s[k]] + s[k + 1..]
  {
    assert s == s[..k] + s[k..];
    assert s[k..] == [s[k]] + s[k + 1..];
  }

  /** What follows a prefix of a concatenation is the second part. */
  lemma SuffixAfter<T>(a: seq<T>, b: seq<T>)
    ensures (a + b)[|a|..] == b
  {
  }

  /** The first occurrence of `x` in a prefix is its first occurrence in the whole sequence. */
  lemma IndexOfPrefix<T>(s: seq<T>, m: nat, x: T)
    requires m <= |s| && x in s[..m]
    ensures IndexOf(s, x) == IndexOf(s[..m], x)
  {
    var k := IndexOf(s[..m], x);
    assert s[..k] == s[..m][..k];
  }

  /** `r` is `s` with some elements removed, the rest in their original order. */
  predicate IsSubseq<T(==)>(r: seq<T>, s: seq<T>)
    decreases |s|
  {
    if r == [] then true
    else if s == [] then false
    else if r[0] == s[0] then IsSubseq(r[1..], s[1..])
    else IsSubseq(r, s[1..])
  }

  /** A sequence is a subsequence of itself. */
  lemma {:induction false} SubseqRefl<T>(s: seq<T>)
    ensures IsSubseq(s, s)
    decreases |s|
  {
    if s != [] {
      SubseqRefl(s[1..]);
    }
  }

  /** No element occurs twice. */
  predicate NoDups<T(==)>(s: seq<T>) {
    forall i, j :: 0 <= i < j < |s| ==> s[i] != s[j]
  }

  // ---------------------------------------------------------------------
  // Filtering and counting
  // ---------------------------------------------------------------------

  /** `Array.prototype.filter`: the elements satisfying `p`, in their original order. */
  function Filter<T(==)>(s: seq<T>, p: T -> bool): (r: seq<T>)
    ensures |r| <= |s|
    ensures forall i :: 0 <= i < |r| ==> r[i] in s && p(r[i])
    ensures forall i :: 0 <= i < |s| && p(s[i]) ==> s[i] in r
    ensures IsSubseq(r, s)
    decreases |s|
  {
    if s == [] then []
    else if p(s[0]) then [s[0]] + Filter(s[1..], p)
    else Filter(s[1..], p)
  }

  /** Filtering keeps every copy of an element that passes and none of one that fails. */
  lemma {:induction false} FilterCount<T>(s: seq<T>, p: T -> bool, x: T)
    ensures multiset(Filter(s, p))[x] == if p(x) then multiset(s)[x] else 0
    decreases |s|
  {
    if s != [] {
      assert s == [s[0]] + s[1..];
      FilterCount(s[1..], p, x);
    }
  }

  lemma FilterCounts<T>(s: seq<T>, p: T -> bool)
    ensures forall x :: multiset(Filter(s, p))[x] == if p(x) then multiset(s)[x] else 0
  {
    forall x {
      FilterCount(s, p, x);
    }
  }

  /** When every element passes, filtering returns the input unchanged. */
  lemma {:induction false} FilterAll<T>(s: seq<T>, p: T -> bool)
    requires forall i :: 0 <= i < |s| ==> p(s[i])
    ensures Filter(s, p) == s
    decreases |s|
  {
    if s != [] {
      FilterAll(s[1..], p);
    }
  }

  /** Filtering distributes over concatenation. */
  lemma {:induction false} FilterAppend<T>(a: seq<T>, b: seq<T>, p: T -> bool)
    ensures Filter(a + b, p) == Filter(a, p) + Filter(b, p)
    decreases |a|
  {
    if a != [] {
      assert (a + b)[0] == a[0];
      assert (a + b)[1..] == a[1..] + b;
      FilterAppend(a[1..], b, p);
      if p(a[0]) {
        assert Filter(a + b, p) == [a[0]] + Filter(a[1..] + b, p);
        assert Filter(a, p) == [a[0]] + Filter(a[1..], p);
      } else {
        assert Filter(a + b, p) == Filter(a[1..] + b, p);
        assert Filter(a, p) == Filter(a[1..], p);
      }
    } else {
      assert a + b == b;
    }
  }

  /** `xs.filter(p).length`. */
  function Count<T(==)>(s: seq<T>, p: T -> bool): (n: nat)
    ensures n <= |s|
    ensures n == 0 <==> forall i :: 0 <= i < |s| ==> !p(s[i])
  {
    |Filter(s, p)|
  }

  /** Two predicates that never hold together count at most the length between them. */
  lemma {:induction false} CountDisjoint<T>(s: seq<T>, p: T -> bool, q: T -> bool)
    requires forall x :: !(p(x) && q(x))
    ensures Count(s, p) + Count(s, q) <= |s|
    decreases |s|
  {
    if s != [] {
      CountDisjoint(s[1..], p, q);
    }
  }

  /** Neither predicate holds. */
  function Neither<T>(p: T -> bool, q: T -> bool): T -> bool {
    x => !p(x) && !q(x)
  }

  /** Two predicates that never hold together split a list in three with what neither accepts. */
  lemma {:induction false} CountPartition<T>(s: seq<T>, p: T -> bool, q: T -> bool)
    requires forall x :: !(p(x) && q(x))
    ensures Count(s, p) + Count(s, q) + Count(s, Neither(p, q)) == |s|
    decreases |s|
  {
    if s != [] {
      CountPartition(s[1..], p, q);
    }
  }

  // ---------------------------------------------------------------------
  // De-duplication
  // ---------------------------------------------------------------------

  /** `[...new Set(s)]`: each distinct element once, in order of first appearance. */
  function Distinct<T(==)>(s: seq<T>): (r: seq<T>)
    ensures NoDups(r)
    ensures forall i :: 0 <= i < |r| ==> r[i] in s
    ensures forall i :: 0 <= i < |s| ==> s[i] in r
    decreases |s|
  {
    if s == [] then []
    else
      var d := Distinct(s[..|s| - 1]);
      if s[|s| - 1] in d then d
      else
        assert forall i :: 0 <= i < |s| - 1 ==> s[i] == s[..|s| - 1][i];
        d + [s[|s| - 1]]
  }

  /** Distinct elements come in the order of their first occurrences. */
  lemma {:induction false} DistinctOrder<T>(s: seq<T>)
    ensures forall i, j :: 0 <= i < j < |Distinct(s)| ==>
      IndexOf(s, Distinct(s)[i]) < IndexOf(s, Distinct(s)[j])
    decreases |s|
  {
    if s != [] {
      var n := |s| - 1;
      var init := s[..n];
      DistinctOrder(init);
      var d := Distinct(init);
      assert s[..n] == init;
      forall x | x in d ensures IndexOf(s, x) == IndexOf(init, x) && IndexOf(s, x) < n {
        IndexOfPrefix(s, n, x);
      }
      var r := Distinct(s);
      if s[n] in d {
        assert r == d;
        forall i, j | 0 <= i < j < |r| ensures IndexOf(s, r[i]) < IndexOf(s, r[j]) {
          assert IndexOf(init, d[i]) < IndexOf(init, d[j]);
        }
      } else {
        assert s[n] !in init;
        assert IndexOf(s, s[n]) == n;
        assert r == d + [s[n]];
        forall i, j | 0 <= i < j < |r| ensures IndexOf(s, r[i]) < IndexOf(s, r[j]) {
          if j < |d| {
            assert r[i] == d[i] && r[j] == d[j];
          } else {
            assert r[i] == d[i] && r[j] == s[n];
          }
        }
      }
    }
  }

  // ---------------------------------------------------------------------
  // Stable sort, newest first
  // ---------------------------------------------------------------------

  /** Keys never increase from left to right. */
  predicate SortedDesc<T>(s: seq<T>, key: T -> int) {
    forall i, j :: 0 <= i < j < |s| ==> key(s[i]) >= key(s[j])
  }

  /** The predicate "has key `k`", used to state stability. */
  function KeyIs<T>(key: T -> int, k: int): T -> bool {
    y => key(y) == k
  }

  /** Places `x` after every element of `t` whose key is at least `key(x)`. */
  function Insert<T>(x: T, t: seq<T>, key: T -> int): (r: seq<T>)
    ensures multiset(r) == multiset(t) + multiset{x}
    ensures |r| == |t| + 1
    decreases |t|
  {
    if t == [] then [x]
    else if key(t[0]) >= key(x) then
      assert t == [t[0]] + t[1..];
      [t[0]] + Insert(x, t[1..], key)
    else [x] + t
  }

  /** An upper bound on the keys of `t` and of `x` bounds the keys after insertion. */
  lemma {:induction false} InsertBounded<T>(x: T, t: seq<T>, key: T -> int, c: int)
    requires key(x) <= c && forall i :: 0 <= i < |t| ==> key(t[i]) <= c
    ensures forall i :: 0 <= i < |Insert(x, t, key)| ==> key(Insert(x, t, key)[i]) <= c
    decreases |t|
  {
    if t != [] && key(t[0]) >= key(x) {
      InsertBounded(x, t[1..], key, c);
      assert Insert(x, t, key) == [t[0]] + Insert(x, t[1..], key);
    }
  }

  lemma {:induction false} InsertSorted<T>(x: T, t: seq<T>, key: T -> int)
    requires SortedDesc(t, key)
    ensures SortedDesc(Insert(x, t, key), key)
    decreases |t|
  {
    if t != [] && key(t[0]) >= key(x) {
      SortedTail(t, key);
      InsertSorted(x, t[1..], key);
      InsertBounded(x, t[1..], key, key(t[0]));
      ConsSorted(t[0], Insert(x, t[1..], key), key);
      assert Insert(x, t, key) == [t[0]] + Insert(x, t[1..], key);
    } else if t != [] {
      SortedTail([x] + t, key);
      ConsSorted(x, t, key);
    }
  }

  /** A head no smaller than any key of a sorted tail keeps the list sorted. */
  lemma ConsSorted<T>(h: T, rest: seq<T>, key: T -> int)
    requires SortedDesc(rest, key) && forall i :: 0 <= i < |rest| ==> key(rest[i]) <= key(h)
    ensures SortedDesc([h] + rest, key)
  {
    var r := [h] + rest;
    forall i, j | 0 <= i < j < |r| ensures key(r[i]) >= key(r[j]) {
      assert r[j] == rest[j - 1];
      if i > 0 {
        assert r[i] == rest[i - 1];
      }
    }
  }

  /** The tail of a sorted list is sorted and bounded by its head. */
  lemma SortedTail<T>(s: seq<T>, key: T -> int)
    requires s != [] && SortedDesc(s, key)
    ensures SortedDesc(s[1..], key)
    ensures forall i :: 0 <= i < |s[1..]| ==> key(s[1..][i]) <= key(s[0])
  {
    forall i | 0 <= i < |s[1..]| ensures key(s[1..][i]) <= key(s[0]) {
      assert s[1..][i] == s[i + 1];
    }
  }

  /** Inserting adds `x` at the end of its own key's group and leaves every other group as it was. */
  lemma {:induction false} InsertStable<T>(x: T, t: seq<T>, key: T -> int, k: int)
    requires SortedDesc(t, key)
    ensures Filter(Insert(x, t, key), KeyIs(key, k)) ==
      if key(x) == k then Filter(t, KeyIs(key, k)) + [x] else Filter(t, KeyIs(key, k))
    decreases |t|
  {
    var p := KeyIs(key, k);
    if t == [] {
    } else if key(t[0]) >= key(x) {
      SortedTail(t, key);
      InsertStable(x, t[1..], key, k);
      var rest := Insert(x, t[1..], key);
      assert Insert(x, t, key) == [t[0]] + rest;
      FilterCons(t[0], rest, p);
    } else {
      assert Insert(x, t, key) == [x] + t;
      if key(x) == k {
        AboveHeadAbsent(t, key, k);
      }
    }
  }

  /** A key above the head of a sorted list occurs nowhere in it. */
  lemma AboveHeadAbsent<T>(t: seq<T>, key: T -> int, k: int)
    requires t != [] && SortedDesc(t, key) && key(t[0]) < k
    ensures Filter(t, KeyIs(key, k)) == []
  {
    forall m | 0 <= m < |t| ensures !KeyIs(key, k)(t[m]) {
      assert key(t[0]) >= key(t[m]);
    }
    FilterNone(t, KeyIs(key, k));
  }

  lemma {:induction false} FilterNone<T>(s: seq<T>, p: T -> bool)
    requires forall i :: 0 <= i < |s| ==> !p(s[i])
    ensures Filter(s, p) == []
    decreases |s|
  {
    if s != [] {
      FilterNone(s[1..], p);
    }
  }

  lemma FilterCons<T>(h: T, rest: seq<T>, p: T -> bool)
    ensures Filter([h] + rest, p) == (if p(h) then [h] else []) + Filter(rest, p)
  {
    assert ([h] + rest)[1..] == rest;
  }

  lemma FilterSingle<T>(x: T, p: T -> bool)
    ensures Filter([x], p) == if p(x) then [x] else []
  {
    assert [x][1..] == [];
  }

  /** Predicates that agree on every element filter alike. */
  lemma {:induction false} FilterSame<T>(s: seq<T>, p: T -> bool, q: T -> bool)
    requires forall i :: 0 <= i < |s| ==> p(s[i]) == q(s[i])
    ensures Filter(s, p) == Filter(s, q)
    decreases |s|
  {
    if s != [] {
      FilterSame(s[1..], p, q);
    }
  }

  /**
   * `[...xs].sort((a, b) => key(b) - key(a))`: a stable sort by descending key
   * (the order ECMAScript 2019 requires of `Array.prototype.sort`).
   */
  function SortDesc<T>(s: seq<T>, key: T -> int): (r: seq<T>)
    ensures multiset(r) == multiset(s)
    ensures |r| == |s|
    decreases |s|
  {
    if s == [] then []
    else
      assert s == s[..|s| - 1] + [s[|s| - 1]];
      Insert(s[|s| - 1], SortDesc(s[..|s| - 1], key), key)
  }

  /** The sorted list is ordered by descending key. */
  lemma {:induction false} SortDescSorted<T>(s: seq<T>, key: T -> int)
    ensures SortedDesc(SortDesc(s, key), key)
    decreases |s|
  {
    if s != [] {
      var n := |s| - 1;
      SortDescSorted(s[..n], key);
      InsertSorted(s[n], SortDesc(s[..n], key), key);
    }
  }

  /** The sort is stable: the elements of each key keep their input order. */
  lemma {:induction false} SortDescStable<T>(s: seq<T>, key: T -> int, k: int)
    ensures Filter(SortDesc(s, key), KeyIs(key, k)) == Filter(s, KeyIs(key, k))
    decreases |s|
  {
    if s != [] {
      var n := |s| - 1;
      var p := KeyIs(key, k);
      var t := SortDesc(s[..n], key);
      LastSplit(s);
      assert SortDesc(s, key) == Insert(s[n], t, key);
      SortDescStable(s[..n], key, k);
      SortDescSorted(s[..n], key);
      InsertStable(s[n], t, key, k);
      FilterAppend(s[..n], [s[n]], p);
      FilterSingle(s[n], p);
    }
  }

  lemma LastSplit<T>(s: seq<T>)
    requires s != []
    ensures s == s[..|s| - 1] + [s[|s| - 1]]
  {
  }

  /** Filtering keeps a descending order. */
  lemma {:induction false} FilterSortedDesc<T>(s: seq<T>, p: T -> bool, key: T -> int)
    requires SortedDesc(s, key)
    ensures SortedDesc(Filter(s, p), key)
    decreases |s|
  {
    if s != [] {
      SortedTail(s, key);
      FilterSortedDesc(s[1..], p, key);
      var rest := Filter(s[1..], p);
      forall i | 0 <= i < |rest| ensures key(rest[i]) <= key(s[0]) {
        var j := IndexOf(s[1..], rest[i]);
      }
      if p(s[0]) {
        ConsSorted(s[0], rest, key);
      }
    }
  }

  /** `xs.map(f)`. */
  function Map<T, U>(s: seq<T>, f: T -> U): (r: seq<U>)
    ensures |r| == |s| && forall i :: 0 <= i < |s| ==> r[i] == f(s[i])
  {
    seq(|s|, i requires 0 <= i < |s| => f(s[i]))
  }

  /** Mapping a non-empty sequence maps its head, then its tail. */
  lemma MapHead<T, U>(s: seq<T>, f: T -> U)
    requires s != []
    ensures Map(s, f) == [f(s[0])] + Map(s[1..], f)
  {
    assert forall i :: 1 <= i < |s| ==> Map(s, f)[i] == Map(s[1..], f)[i - 1];
  }

  /**
   * A loop that rewrites the elements of `s` one by one with `f`: one more
   * element rewritten, and whether anything has changed so far.
   */
  lemma MapAdvance<T>(s: seq<T>, i: nat, f: T -> T)
    requires i < |s|
    ensures (Map(s[..i], f) + s[i..])[i := f(s[i])] == Map(s[..i + 1], f) + s[i + 1..]
    ensures (Map(s[..i + 1], f) != s[..i + 1]) <==> (Map(s[..i], f) != s[..i] || f(s[i]) != s[i])
  {
    var done := Map(s[..i], f);
    var next := Map(s[..i + 1], f);
    assert next == done + [f(s[i])];
    assert s[..i + 1] == s[..i] + [s[i]];
    assert s[i..] == [s[i]] + s[i + 1..];
    if next == s[..i + 1] {
      assert next[..i] == done && (s[..i + 1])[..i] == s[..i];
      assert next[i] == f(s[i]);
    }
  }

  /** `s.slice(0, n)`. */
  function Take<T>(s: seq<T>, n: nat): (r: seq<T>)
    ensures |r| == if |s| < n then |s| else n
    ensures r == s[..|r|]
  {
    if |s| < n then s else s[..n]
  }

  // ---------------------------------------------------------------------
  // Searching
  // ---------------------------------------------------------------------

  /** Position of the first element satisfying `p` (JavaScript `findIndex`, SQL `.first()`). */
  function FindIndex<T>(s: seq<T>, p: T -> bool): (r: Option<nat>)
    ensures r.Some? ==> r.value < |s| && p(s[r.value]) && forall j :: 0 <= j < r.value ==> !p(s[j])
    ensures r.None? ==> forall j :: 0 <= j < |s| ==> !p(s[j])
    decreases |s|
  {
    if s == [] then None
    else if p(s[0]) then Some(0)
    else match FindIndex(s[1..], p)
      case None => None
      case Some(k) => Some(k + 1)
  }

  /** The first element satisfying `p` (JavaScript `find`). */
  function Find<T>(s: seq<T>, p: T -> bool): (r: Option<T>)
    ensures r.Some? <==> exists j :: 0 <= j < |s| && p(s[j])
    ensures r.Some? ==> p(r.value) && r.value in s
  {
    match FindIndex(s, p)
    case None => None
    case Some(k) => Some(s[k])
  }

  /** Appending an element changes the first match only when there was none before. */
  lemma {:induction false} FindIndexAppend<T>(s: seq<T>, x: T, p: T -> bool)
    ensures FindIndex(s + [x], p) ==
      if FindIndex(s, p).Some? then FindIndex(s, p)
      else if p(x) then Some(|s|) else None
  {
    var r := FindIndex(s + [x], p);
    assert forall j :: 0 <= j < |s| ==> (s + [x])[j] == s[j];
    assert (s + [x])[|s|] == x;
    if FindIndex(s, p).Some? {
      var k := FindIndex(s, p).value;
      assert r.Some? && r.value <= k;
    }
  }

  /** An element satisfying `p` after a prefix with none is the first one. */
  lemma FindIndexAt<T>(s: seq<T>, i: nat, p: T -> bool)
    requires i < |s| && FindIndex(s[..i], p).None? && p(s[i])
    ensures FindIndex(s, p) == Some(i)
  {
    assert forall j :: 0 <= j < i ==> s[..i][j] == s[j];
    var r := FindIndex(s, p);
    assert r.Some?;
    assert r.value <= i;
  }

  /** Position of the last element satisfying `p`. */
  function FindLastIndex<T>(s: seq<T>, p: T -> bool): (r: Option<nat>)
    ensures r.Some? ==> r.value < |s| && p(s[r.value]) && forall j :: r.value < j < |s| ==> !p(s[j])
    ensures r.None? ==> forall j :: 0 <= j < |s| ==> !p(s[j])
    decreases |s|
  {
    if s == [] then None
    else if p(s[|s| - 1]) then Some(|s| - 1)
    else FindLastIndex(s[..|s| - 1], p)
  }

  // ---------------------------------------------------------------------
  // Dictionaries in insertion order
  // ---------------------------------------------------------------------

  /** The keys of an association list, in order. */
  function Keys<K, V>(d: seq<(K, V)>): (ks: seq<K>)
    ensures |ks| == |d| && forall i :: 0 <= i < |d| ==> ks[i] == d[i].0
  {
    seq(|d|, i requires 0 <= i < |d| => d[i].0)
  }

  /** `d.get(k)`: the value stored under the first entry with key `k`. */
  function Lookup<K(==), V>(d: seq<(K, V)>, k: K): (r: Option<V>)
    ensures r.None? <==> k !in Keys(d)
    decreases |d|
  {
    if d == [] then None
    else if d[0].0 == k then Some(d[0].1)
    else
      KeysHead(d);
      Lookup(d[1..], k)
  }

  /**
   * `d[k] = v`: an existing key keeps its position and takes the new value,
   * a new key goes to the end.
   */
  function Put<K(==), V>(d: seq<(K, V)>, k: K, v: V): (r: seq<(K, V)>)
    ensures k in Keys(d) ==> Keys(r) == Keys(d)
    ensures k !in Keys(d) ==> Keys(r) == Keys(d) + [k]
    decreases |d|
  {
    if d == [] then [(k, v)]
    else
      KeysHead(d);
      if d[0].0 == k then
        KeysCons((k, v), d[1..]);
        [(k, v)] + d[1..]
      else
        var rest := Put(d[1..], k, v);
        KeysCons(d[0], rest);
        [d[0]] + rest
  }

  lemma KeysCons<K, V>(e: (K, V), d: seq<(K, V)>)
    ensures Keys([e] + d) == [e.0] + Keys(d)
  {
  }

  lemma KeysHead<K, V>(d: seq<(K, V)>)
    requires d != []
    ensures Keys(d) == [d[0].0] + Keys(d[1..])
  {
    assert d == [d[0]] + d[1..];
    KeysCons(d[0], d[1..]);
  }

  /** After `d[k] = v`, key `k` reads `v` and every other key reads what it did before. */
  lemma {:induction false} PutLookup<K, V>(d: seq<(K, V)>, k: K, v: V, j: K)
    ensures Lookup(Put(d, k, v), j) == if j == k then Some(v) else Lookup(d, j)
    decreases |d|
  {
    if d != [] && d[0].0 != k {
      PutLookup(d[1..], k, v, j);
      assert Put(d, k, v) == [d[0]] + Put(d[1..], k, v);
    }
  }

  /** Assignment keeps a property every value has, when the new value has it too. */
  lemma {:induction false} PutAll<K, V>(d: seq<(K, V)>, k: K, v: V, p: V -> bool)
    requires forall i :: 0 <= i < |d| ==> p(d[i].1)
    requires p(v)
    ensures forall i :: 0 <= i < |Put(d, k, v)| ==> p(Put(d, k, v)[i].1)
    decreases |d|
  {
    if d != [] && d[0].0 != k {
      PutAll(d[1..], k, v, p);
      assert Put(d, k, v) == [d[0]] + Put(d[1..], k, v);
    }
  }

  /** The set of keys of an association list. */
  function KeySet<K, V>(d: seq<(K, V)>): set<K> {
    set i | 0 <= i < |d| :: d[i].0
  }

  lemma KeySetConcat<K, V>(a: seq<(K, V)>, b: seq<(K, V)>)
    ensures KeySet(a + b) == KeySet(a) + KeySet(b)
  {
    forall x | x in KeySet(a + b) ensures x in KeySet(a) + KeySet(b) {
      var i :| 0 <= i < |a + b| && (a + b)[i].0 == x;
      if i < |a| {
        assert a[i] == (a + b)[i];
      } else {
        assert b[i - |a|] == (a + b)[i];
      }
    }
    forall x | x in KeySet(a) ensures x in KeySet(a + b) {
      var i :| 0 <= i < |a| && a[i].0 == x;
      assert (a + b)[i] == a[i];
    }
    forall x | x in KeySet(b) ensures x in KeySet(a + b) {
      var i :| 0 <= i < |b| && b[i].0 == x;
      assert (a + b)[i + |a|] == b[i];
    }
  }

  lemma KeySetSingle<K, V>(k: K, v: V)
    ensures KeySet([(k, v)]) == {k}
  {
    assert [(k, v)][0].0 == k;
  }

  /** Assignment adds its key to the key set and removes none. */
  lemma {:induction false} PutKeySet<K, V>(d: seq<(K, V)>, k: K, v: V)
    ensures KeySet(Put(d, k, v)) == KeySet(d) + {k}
    decreases |d|
  {
    KeySetSingle(k, v);
    if d == [] {
    } else {
      assert d == [d[0]] + d[1..];
      KeySetConcat([d[0]], d[1..]);
      KeySetSingle(d[0].0, d[0].1);
      if d[0].0 == k {
        KeySetConcat([(k, v)], d[1..]);
      } else {
        PutKeySet(d[1..], k, v);
        KeySetConcat([d[0]], Put(d[1..], k, v));
      }
    }
  }

  /** Assignment never duplicates a key. */
  lemma PutNoDups<K, V>(d: seq<(K, V)>, k: K, v: V)
    requires NoDups(Keys(d))
    ensures NoDups(Keys(Put(d, k, v)))
  {
  }
}
