/**
 * The table operations the dashboard script builds on, stated over
 * sequences of rows: boolean masks, order-preserving selection, sorting
 * by a numeric column, nlargest/nsmallest and groupby-count frequency
 * tables.
 */
module Seqs {

  // ---------------------------------------------------------------------
  // Boolean masks (`df[mask]`)
  // ---------------------------------------------------------------------

  /** The rows of `s` for which the mask `p` is true, in their original order. */
  function Select<T>(s: seq<T>, p: T -> bool): (r: seq<T>)
    ensures |r| == CountIf(s, p) <= |s|
    ensures forall x :: x in r ==> x in s && p(x)
    ensures forall x :: x in s && p(x) ==> x in r
    ensures forall i :: 0 <= i < |r| ==> p(r[i])
  {
    if s == [] then []
    else if p(s[0]) then [s[0]] + Select(s[1..], p)
    else Select(s[1..], p)
  }

  /** `idx` lists, strictly increasing, the positions of `ys` that spell out `xs`. */
  ghost predicate Embedding<T>(xs: seq<T>, ys: seq<T>, idx: seq<nat>) {
    && |idx| == |xs|
    && (forall k :: 0 <= k < |idx| ==> idx[k] < |ys| && xs[k] == ys[idx[k]])
    && (forall k, l :: 0 <= k < l < |idx| ==> idx[k] < idx[l])
  }

  /** `xs` is obtained from `ys` by deleting rows, without reordering the rest. */
  ghost predicate IsSubsequence<T>(xs: seq<T>, ys: seq<T>) {
    exists idx :: Embedding(xs, ys, idx)
  }

  /** An embedding of `xs` into `ys` shifts to one of `xs`, and of `[y] + xs`, into `[y] + ys`. */
  lemma EmbeddingShift<T>(xs: seq<T>, ys: seq<T>, idx: seq<nat>, y: T)
    requires Embedding(xs, ys, idx)
    ensures Embedding(xs, [y] + ys, seq(|idx|, k requires 0 <= k < |idx| => idx[k] + 1))
    ensures Embedding([y] + xs, [y] + ys, [0] + seq(|idx|, k requires 0 <= k < |idx| => idx[k] + 1))
  {
    var shifted := seq(|idx|, k requires 0 <= k < |idx| => idx[k] + 1);
    var head := [0] + shifted;
    forall k | 0 <= k < |head|
      ensures head[k] < |[y] + ys| && ([y] + xs)[k] == ([y] + ys)[head[k]]
    {
      if k > 0 {
        assert head[k] == idx[k - 1] + 1;
      }
    }
  }

  /** A mask keeps the relative order of the rows it keeps. */
  lemma {:induction false} SelectIsSubsequence<T>(s: seq<T>, p: T -> bool)
    ensures IsSubsequence(Select(s, p), s)
  {
    if s == [] {
      assert Embedding(Select(s, p), s, []);
    } else {
      SelectIsSubsequence(s[1..], p);
      var idx :| Embedding(Select(s[1..], p), s[1..], idx);
      EmbeddingShift(Select(s[1..], p), s[1..], idx, s[0]);
      assert [s[0]] + s[1..] == s;
    }
  }

  /** A mask that is true on every row leaves the table unchanged. */
  lemma {:induction false} SelectKeepsAll<T>(s: seq<T>, p: T -> bool)
    requires forall i :: 0 <= i < |s| ==> p(s[i])
    ensures Select(s, p) == s
  {
    if s != [] {
      SelectKeepsAll(s[1..], p);
    }
  }

  /** Masks that agree on every row of the table select the same rows. */
  lemma {:induction false} SelectSameOn<T>(s: seq<T>, p: T -> bool, q: T -> bool)
    requires forall i :: 0 <= i < |s| ==> p(s[i]) == q(s[i])
    ensures Select(s, p) == Select(s, q)
  {
    if s != [] {
      SelectSameOn(s[1..], p, q);
    }
  }

  /** Applying the same mask twice is the same as applying it once. */
  lemma SelectIdempotent<T>(s: seq<T>, p: T -> bool)
    ensures Select(Select(s, p), p) == Select(s, p)
  {
    SelectKeepsAll(Select(s, p), p);
  }

  /** Narrowing by `p` and then by `q` is narrowing by their conjunction. */
  lemma {:induction false} SelectThenSelect<T>(s: seq<T>, p: T -> bool, q: T -> bool, pq: T -> bool)
    requires forall x :: pq(x) == (p(x) && q(x))
    ensures Select(Select(s, p), q) == Select(s, pq)
  {
    if s != [] {
      SelectThenSelect(s[1..], p, q, pq);
      if p(s[0]) {
        var t := Select(s[1..], p);
        assert ([s[0]] + t)[0] == s[0] && ([s[0]] + t)[1..] == t;
      }
    }
  }

  // ---------------------------------------------------------------------
  // Sorting by a numeric column and nlargest / nsmallest
  // ---------------------------------------------------------------------

  /** `s` is in non-increasing order of `key`. */
  predicate SortedDesc<T>(s: seq<T>, key: T -> int) {
    forall i, j :: 0 <= i < j < |s| ==> key(s[i]) >= key(s[j])
  }

  /** `s` is in non-decreasing order of `key`. */
  predicate SortedAsc<T>(s: seq<T>, key: T -> int) {
    forall i, j :: 0 <= i < j < |s| ==> key(s[i]) <= key(s[j])
  }

  /** A row whose key is at least that of the head of a sorted table can go in front of it. */
  lemma ConsSorted<T>(a: T, t: seq<T>, key: T -> int)
    requires SortedDesc(t, key)
    requires t == [] || key(a) >= key(t[0])
    ensures SortedDesc([a] + t, key)
  {
    forall i, j | 0 <= i < j < |[a] + t|
      ensures key(([a] + t)[i]) >= key(([a] + t)[j])
    {
      if i == 0 {
        assert ([a] + t)[j] == t[j - 1];
      }
    }
  }

  /** Puts `x` into the sorted `s` in front of the first row whose key is not larger. */
  function InsertDesc<T>(x: T, s: seq<T>, key: T -> int): (r: seq<T>)
    requires SortedDesc(s, key)
    ensures multiset(r) == multiset(s) + multiset{x}
    ensures SortedDesc(r, key)
    ensures r != [] && (r[0] == x || (s != [] && r[0] == s[0]))
  {
    if s == [] || key(x) >= key(s[0]) then
      ConsSorted(x, s, key);
      [x] + s
    else
      var rest := InsertDesc(x, s[1..], key);
      assert s == [s[0]] + s[1..];
      ConsSorted(s[0], rest, key);
      [s[0]] + rest
  }

  /** A stable insertion sort into non-increasing order of `key`. */
  function SortDesc<T>(s: seq<T>, key: T -> int): (r: seq<T>)
    ensures multiset(r) == multiset(s)
    ensures SortedDesc(r, key)
  {
    if s == [] then []
    else
      assert s == [s[0]] + s[1..];
      InsertDesc(s[0], SortDesc(s[1..], key), key)
  }

  /** In a sorted table, every row of a prefix has a key at least that of every row after it. */
  lemma PrefixDominates<T>(t: seq<T>, m: nat, key: T -> int)
    requires m <= |t| && SortedDesc(t, key)
    ensures multiset(t[..m]) <= multiset(t)
    ensures forall x, y :: x in t[..m] && y in multiset(t) - multiset(t[..m]) ==> key(x) >= key(y)
  {
    assert t == t[..m] + t[m..];
    assert multiset(t) - multiset(t[..m]) == multiset(t[m..]);
    forall x, y | x in t[..m] && y in multiset(t) - multiset(t[..m])
      ensures key(x) >= key(y)
    {
      assert y in t[m..];
      var i :| 0 <= i < m && t[..m][i] == x;
      var j :| 0 <= j < |t| - m && t[m..][j] == y;
      assert t[i] == x && t[m + j] == y;
    }
  }

  /**
   * The `n` rows of `s` with the largest keys, largest first (pandas'
   * `nlargest`); which of several tied rows is taken is left open.
   */
  function Largest<T>(s: seq<T>, n: nat, key: T -> int): (r: seq<T>)
    ensures |r| == if n < |s| then n else |s|
    ensures multiset(r) <= multiset(s)
    ensures SortedDesc(r, key)
    ensures forall x, y :: x in r && y in multiset(s) - multiset(r) ==> key(x) >= key(y)
  {
    var t := SortDesc(s, key);
    assert |t| == |multiset(t)| == |s|;
    var m := if n < |s| then n else |s|;
    PrefixDominates(t, m, key);
    t[..m]
  }

  /** The `n` rows of `s` with the smallest keys, smallest first (pandas' `nsmallest`). */
  function Smallest<T>(s: seq<T>, n: nat, key: T -> int): (r: seq<T>)
    ensures |r| == if n < |s| then n else |s|
    ensures multiset(r) <= multiset(s)
    ensures SortedAsc(r, key)
    ensures forall x, y :: x in r && y in multiset(s) - multiset(r) ==> key(x) <= key(y)
  {
    Largest(s, n, x => -key(x))
  }

  // ---------------------------------------------------------------------
  // Frequency tables (`groupby(...).agg(count=...)`, `value_counts`)
  // ---------------------------------------------------------------------

  /** The keys of a frequency table. */
  function KeysOf<K>(t: seq<(K, nat)>): set<K> {
    if t == [] then {} else {t[0].0} + KeysOf(t[1..])
  }

  /** No key occurs twice in the table. */
  predicate DistinctKeys<K(==)>(t: seq<(K, nat)>) {
    t == [] || (t[0].0 !in KeysOf(t[1..]) && DistinctKeys(t[1..]))
  }

  /** The count recorded for `c`, or 0 when `c` is not a key. */
  function Lookup<K(==)>(t: seq<(K, nat)>, c: K): (n: nat)
    ensures c !in KeysOf(t) ==> n == 0
  {
    if t == [] then 0 else if t[0].0 == c then t[0].1 else Lookup(t[1..], c)
  }

  /** The sum of the counts of the table. */
  function Total<K>(t: seq<(K, nat)>): nat {
    if t == [] then 0 else t[0].1 + Total(t[1..])
  }

  /** Adds `d` to the count of `k`, appending `(k, d)` when `k` is new. */
  function Bump<K(==)>(t: seq<(K, nat)>, k: K, d: nat): (r: seq<(K, nat)>)
    requires DistinctKeys(t)
    ensures DistinctKeys(r)
    ensures KeysOf(r) == KeysOf(t) + {k}
    ensures forall c :: c in KeysOf(r) ==> Lookup(r, c) == Lookup(t, c) + (if c == k then d else 0)
    ensures Total(r) == Total(t) + d
  {
    if t == [] then [(k, d)]
    else if t[0].0 == k then [(k, t[0].1 + d)] + t[1..]
    else [t[0]] + Bump(t[1..], k, d)
  }

  /** The set of values the column `key` takes on the table `s` (groupby's group labels). */
  ghost function KeySet<T, K>(s: seq<T>, key: T -> K): set<K> {
    set x | x in s :: key(x)
  }

  /** The number of rows of `s` in group `c` for which `counted` holds. */
  function KeyCount<T, K(==)>(s: seq<T>, key: T -> K, counted: T -> bool, c: K): nat {
    if s == [] then 0
    else (if key(s[0]) == c && counted(s[0]) then 1 else 0) + KeyCount(s[1..], key, counted, c)
  }

  /** The number of rows of `s` for which `p` holds. */
  function CountIf<T>(s: seq<T>, p: T -> bool): nat {
    if s == [] then 0 else (if p(s[0]) then 1 else 0) + CountIf(s[1..], p)
  }

  /**
   * Groups `s` by `key` and counts, per group, the rows for which
   * `counted` holds: pandas' `groupby(key).agg(count=(col, 'count'))`,
   * where `counted` says that `col` is not null. A group all of whose
   * rows are uncounted is still present, with count 0. The order of the
   * groups is not part of the contract.
   */
  function Tally<T, K(==)>(s: seq<T>, key: T -> K, counted: T -> bool): (r: seq<(K, nat)>)
    ensures DistinctKeys(r)
  {
    if s == [] then []
    else Bump(Tally(s[1..], key, counted), key(s[0]), if counted(s[0]) then 1 else 0)
  }

  /**
   * The frequency table has exactly the groups of `s` as keys, holds for
   * each group the number of its counted rows, and adds up to the number
   * of counted rows.
   */
  lemma {:induction false} TallySpec<T, K(!new)>(s: seq<T>, key: T -> K, counted: T -> bool)
    ensures KeysOf(Tally(s, key, counted)) == KeySet(s, key)
    ensures forall c :: Lookup(Tally(s, key, counted), c) == KeyCount(s, key, counted, c)
    ensures Total(Tally(s, key, counted)) == CountIf(s, counted)
  {
    if s != [] {
      TallySpec(s[1..], key, counted);
      assert s == [s[0]] + s[1..];
      assert KeySet(s, key) == {key(s[0])} + KeySet(s[1..], key);
    }
  }

  // ---------------------------------------------------------------------
  // Facts about frequency tables
  // ---------------------------------------------------------------------

  /** The count column of a frequency table, as a sort key. */
  function Count<K>(p: (K, nat)): int {
    p.1
  }

  /** The keys of a frequency table, in its order (the index of the grouped frame). */
  function Labels<K>(t: seq<(K, nat)>): (r: seq<K>)
    ensures |r| == |t| && forall i :: 0 <= i < |t| ==> r[i] == t[i].0
  {
    seq(|t|, i requires 0 <= i < |t| => t[i].0)
  }

  /**
   * `pivot(...).fillna(0)`: the grid with one row per row label and
   * one column per column label, holding the pair's count (0 for a pair
   * the table lacks).
   */
  function Pivot<A(==), B(==)>(t: seq<((A, B), nat)>, rowLabels: seq<A>, colLabels: seq<B>): (g: seq<seq<nat>>)
    ensures |g| == |rowLabels|
    ensures forall i :: 0 <= i < |g| ==> |g[i]| == |colLabels|
  {
    seq(|rowLabels|, i requires 0 <= i < |rowLabels| =>
      seq(|colLabels|, j requires 0 <= j < |colLabels| => Lookup(t, (rowLabels[i], colLabels[j]))))
  }

  lemma {:induction false} KeysOfElems<K>(t: seq<(K, nat)>)
    ensures KeysOf(t) == set p | p in t :: p.0
  {
    if t != [] {
      KeysOfElems(t[1..]);
      assert t == [t[0]] + t[1..];
    }
  }

  lemma {:induction false} DistinctKeysCard<K>(t: seq<(K, nat)>)
    ensures |KeysOf(t)| <= |t|
    ensures DistinctKeys(t) <==> |KeysOf(t)| == |t|
  {
    if t != [] {
      DistinctKeysCard(t[1..]);
    }
  }

  /** In a table without repeated keys, an entry holds the count Lookup finds for its key. */
  lemma {:induction false} LookupMember<K>(t: seq<(K, nat)>, p: (K, nat))
    requires DistinctKeys(t) && p in t
    ensures Lookup(t, p.0) == p.1
  {
    if t[0] != p {
      KeysOfElems(t[1..]);
      LookupMember(t[1..], p);
    }
  }

  /** Every key of a table has an entry holding the count Lookup finds for it. */
  lemma {:induction false} KeyMember<K>(t: seq<(K, nat)>, c: K)
    requires c in KeysOf(t)
    ensures (c, Lookup(t, c)) in t
  {
    if t[0].0 != c {
      KeyMember(t[1..], c);
    }
  }

  /** In a table without repeated keys no entry occurs twice. */
  lemma {:induction false} DistinctKeysOnce<K>(t: seq<(K, nat)>, p: (K, nat))
    requires DistinctKeys(t)
    ensures multiset(t)[p] <= 1
  {
    if t != [] {
      assert t == [t[0]] + t[1..];
      DistinctKeysOnce(t[1..], p);
      KeysOfElems(t[1..]);
    }
  }

  /** Two positions holding the same value make it occur at least twice. */
  lemma TwoPositions<T>(s: seq<T>, i: nat, j: nat)
    requires i < j < |s| && s[i] == s[j]
    ensures multiset(s)[s[i]] >= 2
  {
    assert s == s[..j] + s[j..];
    assert s[i] in s[..j] && s[j] in s[j..];
  }

  lemma {:induction false} TotalInsertDesc<K>(x: (K, nat), s: seq<(K, nat)>, key: ((K, nat)) -> int)
    requires SortedDesc(s, key)
    ensures Total(InsertDesc(x, s, key)) == x.1 + Total(s)
  {
    if s != [] && key(x) < key(s[0]) {
      TotalInsertDesc(x, s[1..], key);
    }
  }

  /** Tables that are permutations of each other have the same keys. */
  lemma SameEntriesSameKeys<K>(a: seq<(K, nat)>, b: seq<(K, nat)>)
    requires multiset(a) == multiset(b)
    ensures KeysOf(a) == KeysOf(b)
  {
    KeysOfElems(a);
    KeysOfElems(b);
    forall c | c in KeysOf(a) ensures c in KeysOf(b) {
      var p :| p in a && p.0 == c;
      assert p in multiset(b);
    }
    forall c | c in KeysOf(b) ensures c in KeysOf(a) {
      var p :| p in b && p.0 == c;
      assert p in multiset(a);
    }
  }

  /** Sorting a frequency table keeps its total. */
  lemma {:induction false} SortedTotal<K>(t: seq<(K, nat)>, key: ((K, nat)) -> int)
    ensures Total(SortDesc(t, key)) == Total(t)
  {
    if t != [] {
      SortedTotal(t[1..], key);
      TotalInsertDesc(t[0], SortDesc(t[1..], key), key);
    }
  }

  /**
   * Sorting a frequency table by any key keeps its keys, their counts,
   * the absence of repeated keys and the total.
   */
  lemma SortedTally<K>(t: seq<(K, nat)>, key: ((K, nat)) -> int)
    requires DistinctKeys(t)
    ensures DistinctKeys(SortDesc(t, key))
    ensures KeysOf(SortDesc(t, key)) == KeysOf(t)
    ensures forall p :: p in SortDesc(t, key) ==> p.1 == Lookup(t, p.0)
    ensures Total(SortDesc(t, key)) == Total(t)
  {
    var r := SortDesc(t, key);
    SameEntriesSameKeys(r, t);
    DistinctKeysCard(t);
    DistinctKeysCard(r);
    assert |r| == |multiset(r)| == |t|;
    forall p | p in r ensures p.1 == Lookup(t, p.0) {
      assert p in multiset(r);
      LookupMember(t, p);
    }
    SortedTotal(t, key);
  }

  /** Restricting a table to rows that include all of group `c` keeps the count of `c`. */
  lemma {:induction false} KeyCountSelect<T, K>(s: seq<T>, p: T -> bool, key: T -> K, counted: T -> bool, c: K)
    requires forall i :: 0 <= i < |s| && key(s[i]) == c && counted(s[i]) ==> p(s[i])
    ensures KeyCount(Select(s, p), key, counted, c) == KeyCount(s, key, counted, c)
  {
    if s != [] {
      KeyCountSelect(s[1..], p, key, counted, c);
      if p(s[0]) {
        var t := Select(s[1..], p);
        assert ([s[0]] + t)[0] == s[0] && ([s[0]] + t)[1..] == t;
      }
    }
  }

  /**
   * A selection of entries of a table without repeated keys has no
   * repeated key either, and each entry holds its key's count.
   */
  lemma SubTable<K>(l: seq<(K, nat)>, t: seq<(K, nat)>)
    requires DistinctKeys(t) && multiset(l) <= multiset(t)
    ensures forall i :: 0 <= i < |l| ==> l[i] in t && Lookup(t, l[i].0) == l[i].1
    ensures forall i, j :: 0 <= i < j < |l| ==> l[i].0 != l[j].0
  {
    forall i | 0 <= i < |l| ensures l[i] in t && Lookup(t, l[i].0) == l[i].1 {
      assert l[i] in multiset(l);
      LookupMember(t, l[i]);
    }
    forall i, j | 0 <= i < j < |l| ensures l[i].0 != l[j].0 {
      if l[i].0 == l[j].0 {
        assert l[i] == l[j];
        TwoPositions(l, i, j);
        DistinctKeysOnce(t, l[i]);
      }
    }
  }

  /** A group left out of the `n` largest has a count at most that of every group kept. */
  lemma LeftOutIsSmaller<K>(t: seq<(K, nat)>, n: nat, i: nat, u: K)
    requires DistinctKeys(t)
    requires i < |Largest(t, n, Count)| && u in KeysOf(t) && u !in Labels(Largest(t, n, Count))
    ensures Lookup(t, Largest(t, n, Count)[i].0) >= Lookup(t, u)
  {
    var l := Largest(t, n, Count);
    assert l[i] in multiset(l);
    LookupMember(t, l[i]);
    var y := (u, Lookup(t, u));
    KeyMember(t, u);
    assert forall k :: 0 <= k < |l| ==> Labels(l)[k] == l[k].0;
    assert multiset(l)[y] == 0;
    assert multiset(t)[y] >= 1;
    assert y in multiset(t) - multiset(l);
    assert Count(l[i]) >= Count(y);
  }

  /**
   * The labels of the `n` largest groups of a table (pandas'
   * `nlargest(n).index`).
   */
  function TopLabels<K>(t: seq<(K, nat)>, n: nat): seq<K> {
    Labels(Largest(t, n, Count))
  }

  /** There are `min(n, #groups)` of them, ... */
  lemma TopLabelsCount<K>(t: seq<(K, nat)>, n: nat)
    requires DistinctKeys(t)
    ensures |TopLabels(t, n)| == if n < |KeysOf(t)| then n else |KeysOf(t)|
  {
    DistinctKeysCard(t);
  }

  /** ... they are distinct, ... */
  lemma TopLabelsDistinct<K>(t: seq<(K, nat)>, n: nat)
    requires DistinctKeys(t)
    ensures forall i, j :: 0 <= i < j < |TopLabels(t, n)| ==> TopLabels(t, n)[i] != TopLabels(t, n)[j]
  {
    SubTable(Largest(t, n, Count), t);
  }

  /** An entry's key is a key of the table. */
  lemma {:induction false} EntryKey<K>(t: seq<(K, nat)>, p: (K, nat))
    requires p in t
    ensures p.0 in KeysOf(t)
  {
    if t[0] != p {
      EntryKey(t[1..], p);
    }
  }

  /** ... keys of the table, ... */
  lemma TopLabelsAreKeys<K>(t: seq<(K, nat)>, n: nat)
    ensures forall c :: c in TopLabels(t, n) ==> c in KeysOf(t)
  {
    var l := Largest(t, n, Count);
    forall c | c in TopLabels(t, n) ensures c in KeysOf(t) {
      var i :| 0 <= i < |l| && l[i].0 == c;
      assert l[i] in multiset(l);
      assert l[i] in multiset(t);
      EntryKey(t, l[i]);
    }
  }

  /** ... and none has a smaller count than a group left out. */
  lemma TopLabelsDominate<K>(t: seq<(K, nat)>, n: nat)
    requires DistinctKeys(t)
    ensures forall c, u ::
      (c in TopLabels(t, n) && u in KeysOf(t) && u !in TopLabels(t, n)) ==> Lookup(t, c) >= Lookup(t, u)
  {
    var r := TopLabels(t, n);
    forall c, u | c in r && u in KeysOf(t) && u !in r ensures Lookup(t, c) >= Lookup(t, u) {
      var i :| 0 <= i < |r| && r[i] == c;
      LeftOutIsSmaller(t, n, i, u);
    }
  }

  /** The keys of a table without repeated keys are distinct labels covering its keys. */
  lemma LabelsOfDistinct<K>(t: seq<(K, nat)>)
    requires DistinctKeys(t)
    ensures forall i, j :: 0 <= i < j < |t| ==> Labels(t)[i] != Labels(t)[j]
    ensures forall c :: c in Labels(t) <==> c in KeysOf(t)
  {
    KeysOfElems(t);
    SubTable(t, t);
  }

  /** The labels of a tally are the keys of the rows tallied, each once. */
  lemma TallyLabels<T, K(!new)>(s: seq<T>, key: T -> K, counted: T -> bool)
    ensures forall c :: c in Labels(Tally(s, key, counted)) <==> c in KeySet(s, key)
    ensures var l := Labels(Tally(s, key, counted));
      forall i, j :: 0 <= i < j < |l| ==> l[i] != l[j]
  {
    TallySpec(s, key, counted);
    LabelsOfDistinct(Tally(s, key, counted));
  }
}
