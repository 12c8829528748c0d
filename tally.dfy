/** Counting occurrences and keeping the most frequent keys.

    This is what `groupby(...).size()` followed by a descending sort,
    `value_counts()` and `collections.Counter.most_common` compute in the
    dashboards: one row per distinct key with its number of occurrences, the
    rows ordered by non-increasing count, at most `limit` of them kept.

    The reference definition (Top) tallies keys in order of first occurrence,
    the order a Counter remembers, and sorts with a stable insertion sort. The
    specification (IsTopTally) fixes everything but the order among equal
    counts, which pandas leaves unspecified.
*/
module Tally {

  /** One row of a count table: a key and how often it occurs. */
  datatype Row<K> = Row(key: K, count: nat)

  /** The keys of a table, in order. */
  function Keys<K>(rows: seq<Row<K>>): (ks: seq<K>)
    ensures |ks| == |rows|
    ensures forall i :: 0 <= i < |rows| ==> ks[i] == rows[i].key
  {
    seq(|rows|, i requires 0 <= i < |rows| => rows[i].key)
  }

  /** No element occurs twice. */
  predicate NoDuplicates<T(==)>(s: seq<T>)
  {
    forall i, j :: 0 <= i < j < |s| ==> s[i] != s[j]
  }

  /** The distinct keys in order of first occurrence: the order in which a
      Counter (a dict) first sees them. */
  function Distinct<K(==,!new)>(keys: seq<K>): (d: seq<K>)
    ensures forall k :: k in d <==> k in keys
    ensures NoDuplicates(d)
    ensures |d| <= |keys|
    decreases |keys|
  {
    if keys == [] then []
    else
      var d := Distinct(keys[..|keys| - 1]);
      var k := keys[|keys| - 1];
      assert keys == keys[..|keys| - 1] + [k];
      if k in d then d else d + [k]
  }

  /** Where `k` first occurs in `keys`; `|keys|` when it does not occur. */
  function FirstIndex<K(==)>(keys: seq<K>, k: K): (i: nat)
    ensures i <= |keys| && (i < |keys| ==> keys[i] == k)
    ensures forall j :: 0 <= j < i ==> keys[j] != k
    decreases |keys|
  {
    if keys == [] then 0 else if keys[0] == k then 0 else 1 + FirstIndex(keys[1..], k)
  }

  /** Keys after a prefix do not move the prefix's first occurrences. */
  lemma FirstIndexPrefix<K>(a: seq<K>, b: seq<K>, k: K)
    requires k in a
    ensures FirstIndex(a + b, k) == FirstIndex(a, k)
  {
    var i, j := FirstIndex(a, k), FirstIndex(a + b, k);
    assert (a + b)[i] == k;
    assert j <= i;
    assert a[j] == k;
  }

  /** A key that is new at the end first occurs there. */
  lemma FirstIndexAppend<K>(a: seq<K>, k: K)
    requires k !in a
    ensures FirstIndex(a + [k], k) == |a|
  {
    assert (a + [k])[|a|] == k;
    forall m | 0 <= m < |a|
      ensures (a + [k])[m] != k
    {
      assert (a + [k])[m] == a[m];
    }
  }

  /** `d` lists keys of `keys` in the order of their first occurrence there. */
  ghost predicate FirstOccurrenceOrder<K>(keys: seq<K>, d: seq<K>)
  {
    (forall x :: x in d ==> x in keys) &&
    forall i, j :: 0 <= i < j < |d| ==> FirstIndex(keys, d[i]) < FirstIndex(keys, d[j])
  }

  /** The distinct keys come in the order of their first occurrence in `keys`. */
  lemma {:induction false} DistinctOrder<K(!new)>(keys: seq<K>)
    ensures FirstOccurrenceOrder(keys, Distinct(keys))
    decreases |keys|
  {
    if keys != [] {
      var pre, k := keys[..|keys| - 1], keys[|keys| - 1];
      assert keys == pre + [k];
      DistinctOrder(pre);
      DistinctOrderStep(pre, k);
    }
  }

  /** One more key keeps the distinct keys in first-occurrence order. */
  lemma DistinctOrderStep<K(!new)>(pre: seq<K>, k: K)
    requires FirstOccurrenceOrder(pre, Distinct(pre))
    ensures FirstOccurrenceOrder(pre + [k], Distinct(pre + [k]))
  {
    var keys, d := pre + [k], Distinct(pre);
    assert keys[..|keys| - 1] == pre;
    DistinctFirstIndices(pre, k);
    if k in d {
      assert Distinct(keys) == d;
      DistinctOrderSeen(pre, d, k);
    } else {
      assert Distinct(keys) == d + [k];
      FirstIndexAppend(pre, k);
      DistinctOrderNew(pre, d, k);
    }
  }

  /** A key seen before leaves the order as it was. */
  lemma DistinctOrderSeen<K>(pre: seq<K>, d: seq<K>, k: K)
    requires FirstOccurrenceOrder(pre, d)
    requires forall x :: x in d ==> FirstIndex(pre + [k], x) == FirstIndex(pre, x)
    ensures FirstOccurrenceOrder(pre + [k], d)
  {
    forall i, j | 0 <= i < j < |d|
      ensures FirstIndex(pre + [k], d[i]) < FirstIndex(pre + [k], d[j])
    {
      assert FirstIndex(pre, d[i]) < FirstIndex(pre, d[j]);
    }
  }

  /** A new key goes last, after every earlier first occurrence. */
  lemma DistinctOrderNew<K>(pre: seq<K>, d: seq<K>, k: K)
    requires FirstOccurrenceOrder(pre, d)
    requires forall x :: x in d ==> FirstIndex(pre + [k], x) == FirstIndex(pre, x) < |pre|
    requires FirstIndex(pre + [k], k) == |pre|
    ensures FirstOccurrenceOrder(pre + [k], d + [k])
  {
    var keys := pre + [k];
    var d' := d + [k];
    forall i, j | 0 <= i < j < |d'|
      ensures FirstIndex(keys, d'[i]) < FirstIndex(keys, d'[j])
    {
      assert d'[i] == d[i] && d[i] in d;
      if j < |d| {
        assert d'[j] == d[j] && d[j] in d;
        assert FirstIndex(pre, d[i]) < FirstIndex(pre, d[j]);
      } else {
        assert d'[j] == k;
      }
    }
  }

  /** Appending a key does not move the first occurrences of the earlier distinct keys. */
  lemma DistinctFirstIndices<K(!new)>(pre: seq<K>, k: K)
    ensures forall x :: x in Distinct(pre) ==> FirstIndex(pre + [k], x) == FirstIndex(pre, x) < |pre|
  {
    forall x | x in Distinct(pre)
      ensures FirstIndex(pre + [k], x) == FirstIndex(pre, x) < |pre|
    {
      FirstIndexPrefix(pre, [k], x);
    }
  }

  /** The count table of `keys`, one row per distinct key, in order of first occurrence. */
  function Tally<K(==,!new)>(keys: seq<K>): (rows: seq<Row<K>>)
    ensures Keys(rows) == Distinct(keys)
    ensures forall i :: 0 <= i < |rows| ==> rows[i].count == multiset(keys)[rows[i].key] >= 1
    ensures forall k :: k in keys ==> Row(k, multiset(keys)[k]) in rows
  {
    var d := Distinct(keys);
    var rows := seq(|d|, i requires 0 <= i < |d| => Row(d[i], multiset(keys)[d[i]]));
    assert forall k :: k in keys ==> k in d && exists i :: 0 <= i < |d| && d[i] == k && rows[i] == Row(k, multiset(keys)[k]);
    rows
  }

  /** Counts never increase from one row to the next. */
  predicate Descending<K>(rows: seq<Row<K>>)
  {
    forall i, j :: 0 <= i < j < |rows| ==> rows[i].count >= rows[j].count
  }

  /** `x` inserted into a descending table after every row with a larger count. */
  function Insert<K>(x: Row<K>, rows: seq<Row<K>>): (r: seq<Row<K>>)
    ensures multiset(r) == multiset(rows) + multiset{x}
    decreases |rows|
  {
    if rows == [] || rows[0].count <= x.count then
      [x] + rows
    else
      assert rows == [rows[0]] + rows[1..];
      [rows[0]] + Insert(x, rows[1..])
  }

  /** Every row of `rows` counts at most `bound`. */
  predicate AtMost<K>(rows: seq<Row<K>>, bound: nat)
  {
    forall i :: 0 <= i < |rows| ==> rows[i].count <= bound
  }

  lemma {:induction false} InsertAtMost<K>(x: Row<K>, rows: seq<Row<K>>, bound: nat)
    requires AtMost(rows, bound) && x.count <= bound
    ensures AtMost(Insert(x, rows), bound)
    decreases |rows|
  {
    if !(rows == [] || rows[0].count <= x.count) {
      InsertAtMost(x, rows[1..], bound);
    }
  }

  /** Insertion keeps a table descending. */
  lemma {:induction false} InsertDescending<K>(x: Row<K>, rows: seq<Row<K>>)
    requires Descending(rows)
    ensures Descending(Insert(x, rows))
    decreases |rows|
  {
    if !(rows == [] || rows[0].count <= x.count) {
      InsertDescending(x, rows[1..]);
      InsertAtMost(x, rows[1..], rows[0].count);
    }
  }

  /** A stable sort by non-increasing count: rows with equal counts keep their order. */
  function SortDescending<K>(rows: seq<Row<K>>): (r: seq<Row<K>>)
    ensures multiset(r) == multiset(rows)
    ensures Descending(r)
    decreases |rows|
  {
    if rows == [] then []
    else
      assert rows == [rows[0]] + rows[1..];
      var rest := SortDescending(rows[1..]);
      InsertDescending(rows[0], rest);
      Insert(rows[0], rest)
  }

  /** The rows with count `c`, in order. */
  function WithCount<K>(rows: seq<Row<K>>, c: nat): (r: seq<Row<K>>)
    ensures forall i :: 0 <= i < |r| ==> r[i].count == c
    decreases |rows|
  {
    if rows == [] then []
    else
      (if rows[0].count == c then [rows[0]] else []) + WithCount(rows[1..], c)
  }

  /** Inserting `x` puts it before every row of its own count. */
  lemma {:induction false} InsertStable<K>(x: Row<K>, rows: seq<Row<K>>, c: nat)
    ensures WithCount(Insert(x, rows), c) == (if x.count == c then [x] else []) + WithCount(rows, c)
    decreases |rows|
  {
    if rows == [] || rows[0].count <= x.count {
      WithCountCons(x, rows, c);
    } else {
      InsertStable(x, rows[1..], c);
      WithCountCons(rows[0], Insert(x, rows[1..]), c);
      WithCountCons(rows[0], rows[1..], c);
      assert [rows[0]] + rows[1..] == rows;
      if rows[0].count == c {
        assert x.count != c;
      }
    }
  }

  /** Filtering a row onto the front filters it alone. */
  lemma WithCountCons<K>(y: Row<K>, rows: seq<Row<K>>, c: nat)
    ensures WithCount([y] + rows, c) == (if y.count == c then [y] else []) + WithCount(rows, c)
  {
    assert ([y] + rows)[1..] == rows;
  }


  /** The sort is stable: the rows of any one count keep their input order. */
  lemma {:induction false} SortStable<K>(rows: seq<Row<K>>, c: nat)
    ensures WithCount(SortDescending(rows), c) == WithCount(rows, c)
    decreases |rows|
  {
    if rows != [] {
      SortStable(rows[1..], c);
      InsertStable(rows[0], SortDescending(rows[1..]), c);
    }
  }

  /** `head(limit)`: the first `limit` rows, or all of them when there are fewer. */
  function Take<T>(s: seq<T>, limit: nat): (r: seq<T>)
    ensures |r| == if |s| < limit then |s| else limit
    ensures r == s[..|r|]
  {
    if |s| <= limit then s else s[..limit]
  }

  /** The `limit` most frequent keys with their counts, most frequent first. */
  function Top<K(==,!new)>(keys: seq<K>, limit: nat): seq<Row<K>>
  {
    Take(SortDescending(Tally(keys)), limit)
  }

  /** What a top-`limit` count table of `keys` is: as many rows as there are
      distinct keys, but at most `limit`; each row a key of the input with its
      exact number of occurrences; no key twice; counts non-increasing; and no
      key left out occurs more often than any key kept. */
  ghost predicate IsTopTally<K(!new)>(keys: seq<K>, limit: nat, r: seq<Row<K>>)
  {
    var n := |Distinct(keys)|;
    |r| == (if n < limit then n else limit) &&
    (forall i :: 0 <= i < |r| ==> r[i].key in keys && r[i].count == multiset(keys)[r[i].key]) &&
    NoDuplicates(Keys(r)) &&
    Descending(r) &&
    (forall k, i :: k in keys && k !in Keys(r) && 0 <= i < |r| ==> multiset(keys)[k] <= r[i].count)
  }

  /** Two equal elements at different indices make an element occur twice. */
  lemma RepeatedTwice<T>(s: seq<T>, i: nat, j: nat)
    requires i < j < |s| && s[i] == s[j]
    ensures multiset(s)[s[i]] >= 2
  {
    assert s == s[..j] + [s[j]] + s[j + 1..];
    assert s[i] in s[..j];
  }

  /** Nothing occurs twice in a sequence without repetitions. */
  lemma {:induction false} NoDuplicatesOnce<T>(s: seq<T>, x: T)
    requires NoDuplicates(s)
    ensures multiset(s)[x] <= 1
  {
    if s != [] {
      assert s == [s[0]] + s[1..];
      assert s[0] !in s[1..];
      NoDuplicatesOnce(s[1..], x);
    }
  }

  /** Rows without repetitions stay without repetitions when permuted. */
  lemma PermutationNoDuplicates<T>(a: seq<T>, b: seq<T>)
    requires multiset(a) == multiset(b) && NoDuplicates(a)
    ensures NoDuplicates(b)
  {
    forall i, j | 0 <= i < j < |b|
      ensures b[i] != b[j]
    {
      if b[i] == b[j] {
        RepeatedTwice(b, i, j);
        NoDuplicatesOnce(a, b[i]);
      }
    }
  }

  /** A table whose rows each carry their key's count has no repeated key when
      it has no repeated row. */
  lemma DistinctRowsDistinctKeys<K>(keys: seq<K>, r: seq<Row<K>>)
    requires forall i :: 0 <= i < |r| ==> r[i].count == multiset(keys)[r[i].key]
    requires NoDuplicates(r)
    ensures NoDuplicates(Keys(r))
  {
    forall i, j | 0 <= i < j < |r|
      ensures Keys(r)[i] != Keys(r)[j]
    {
      if r[i].key == r[j].key {
        assert r[i] == r[j];
      }
    }
  }

  /** `rows` holds exactly one row per distinct key of `keys`, with its count, in some order. */
  ghost predicate CountTable<K(!new)>(keys: seq<K>, rows: seq<Row<K>>)
  {
    |rows| == |Distinct(keys)| &&
    (forall i :: 0 <= i < |rows| ==> rows[i].key in keys && rows[i].count == multiset(keys)[rows[i].key]) &&
    (forall k :: k in keys ==> Row(k, multiset(keys)[k]) in rows) &&
    NoDuplicates(rows)
  }

  lemma TallyIsCountTable<K(!new)>(keys: seq<K>)
    ensures CountTable(keys, Tally(keys))
  {
    var t := Tally(keys);
    forall i | 0 <= i < |t| ensures t[i].key in keys {
      assert Keys(t)[i] == t[i].key;
    }
    forall i, j | 0 <= i < j < |t| ensures t[i] != t[j] {
      assert Keys(t)[i] != Keys(t)[j];
    }
  }

  /** A permutation of a count table is a count table. */
  lemma PermutedCountTable<K(!new)>(keys: seq<K>, t: seq<Row<K>>, s: seq<Row<K>>)
    requires CountTable(keys, t) && multiset(s) == multiset(t)
    ensures CountTable(keys, s)
  {
    assert |s| == |t| by {
      assert |multiset(s)| == |multiset(t)|;
    }
    forall i | 0 <= i < |s|
      ensures s[i].key in keys && s[i].count == multiset(keys)[s[i].key]
    {
      assert s[i] in multiset(t);
    }
    forall k | k in keys
      ensures Row(k, multiset(keys)[k]) in s
    {
      assert Row(k, multiset(keys)[k]) in multiset(t);
    }
    PermutationNoDuplicates(t, s);
  }

  /** The first `limit` rows of a descending count table form a top-`limit` table. */
  lemma TakeIsTopTally<K(!new)>(keys: seq<K>, s: seq<Row<K>>, limit: nat)
    requires CountTable(keys, s) && Descending(s)
    ensures IsTopTally(keys, limit, Take(s, limit))
  {
    var r := Take(s, limit);
    assert NoDuplicates(r);
    DistinctRowsDistinctKeys(keys, r);
    TakeLeavesSmaller(keys, s, limit);
  }

  /** A key cut off from a descending count table counts no more than any row kept. */
  lemma TakeLeavesSmaller<K(!new)>(keys: seq<K>, s: seq<Row<K>>, limit: nat)
    requires CountTable(keys, s) && Descending(s)
    ensures var r := Take(s, limit);
      forall k, i :: k in keys && k !in Keys(r) && 0 <= i < |r| ==> multiset(keys)[k] <= r[i].count
  {
    var r := Take(s, limit);
    forall k, i | k in keys && k !in Keys(r) && 0 <= i < |r|
      ensures multiset(keys)[k] <= r[i].count
    {
      var row := Row(k, multiset(keys)[k]);
      var j :| 0 <= j < |s| && s[j] == row;
      forall m | 0 <= m < |r|
        ensures s[m] != row
      {
        assert Keys(r)[m] == s[m].key;
      }
    }
  }

  /** Top meets the specification of a top-`limit` count table. */
  lemma TopIsTopTally<K(!new)>(keys: seq<K>, limit: nat)
    ensures IsTopTally(keys, limit, Top(keys, limit))
  {
    TallyIsCountTable(keys);
    PermutedCountTable(keys, Tally(keys), SortDescending(Tally(keys)));
    TakeIsTopTally(keys, SortDescending(Tally(keys)), limit);
  }

  /** `collections.Counter`: a count per key, the keys remembered in the order
      they were first added. `seen` is every key added so far, in order. */
  class Counter<K(==,!new)> {
    var order: seq<K>
    var counts: map<K, nat>
    ghost var seen: seq<K>

    ghost predicate Valid()
      reads this
    {
      order == Distinct(seen) &&
      (forall k :: k in counts <==> k in seen) &&
      (forall k :: k in counts ==> counts[k] == multiset(seen)[k])
    }

    /** `Counter()`: nothing counted yet. */
    constructor ()
      ensures Valid() && seen == []
    {
      order, counts, seen := [], map[], [];
    }

    /** One more occurrence of `k`. */
    method Add(k: K)
      requires Valid()
      modifies this
      ensures Valid() && seen == old(seen) + [k]
    {
      if k in counts {
        counts := counts[k := counts[k] + 1];
      } else {
        order := order + [k];
        counts := counts[k := 1];
      }
      seen := seen + [k];
      assert seen[..|seen| - 1] == old(seen);
    }

    /** `update(items)`: each item counted once more. */
    method Update(items: seq<K>)
      requires Valid()
      modifies this
      ensures Valid() && seen == old(seen) + items
    {
      for i := 0 to |items|
        invariant Valid() && seen == old(seen) + items[..i]
      {
        Add(items[i]);
        assert items[..i + 1] == items[..i] + [items[i]];
      }
    }

    /** `most_common(n)`: the `n` most frequent keys with their counts, most
        frequent first, equal counts in order of first insertion. */
    function MostCommon(n: nat): (r: seq<Row<K>>)
      reads this
      requires Valid()
      ensures r == Top(seen, n)
      ensures IsTopTally(seen, n, r)
    {
      var o, c := order, counts;
      assert forall i :: 0 <= i < |o| ==> o[i] in seen && o[i] in c;
      var rows := seq(|o|, i requires 0 <= i < |o| => Row(o[i], c[o[i]]));
      assert rows == Tally(seen) by {
        var t := Tally(seen);
        assert |rows| == |t|;
        forall i | 0 <= i < |rows| ensures rows[i] == t[i] {
          assert Keys(t)[i] == o[i];
        }
      }
      TopIsTopTally(seen, n);
      Take(SortDescending(rows), n)
    }
  }

  /** Tables of the same input that both meet the specification hold the same
      counts, position by position: only the order among equal counts may differ. */
  lemma TopTallyCountsUnique<K(!new)>(keys: seq<K>, limit: nat, r1: seq<Row<K>>, r2: seq<Row<K>>, i: nat)
    requires IsTopTally(keys, limit, r1) && IsTopTally(keys, limit, r2) && i < |r1|
    ensures r1[i].count == r2[i].count
  {
    if r1[i].count < r2[i].count {
      TopTallyCountsBound(keys, limit, r1, r2, i);
    } else if r2[i].count < r1[i].count {
      TopTallyCountsBound(keys, limit, r2, r1, i);
    }
  }

  /** Helper: row `i` of one specified table counts at least as much as row `i` of another. */
  lemma TopTallyCountsBound<K(!new)>(keys: seq<K>, limit: nat, r1: seq<Row<K>>, r2: seq<Row<K>>, i: nat)
    requires IsTopTally(keys, limit, r1) && IsTopTally(keys, limit, r2) && i < |r1|
    ensures r1[i].count >= r2[i].count
  {
    if r1[i].count < r2[i].count {
      // the keys of r2[..i + 1] all count more than r1[i]; one of them is not in r1[..i]
      var big := Keys(r2[..i + 1]);
      assert forall m :: 0 <= m <= i ==> r2[m].count >= r2[i].count;
      // each key of big is in r1 (else r1[i] would count at least as much) and before i
      forall m | 0 <= m <= i
        ensures big[m] in Keys(r1[..i])
      {
        assert r2[..i + 1][m] == r2[m];
        var k := r2[m].key;
        if k !in Keys(r1) {
          assert false;
        }
        var p :| 0 <= p < |r1| && Keys(r1)[p] == k;
        if p >= i {
          assert false;
        }
        assert Keys(r1[..i])[p] == k;
      }
      assert NoDuplicates(big) by {
        forall a, b | 0 <= a < b < |big| ensures big[a] != big[b] {
          assert big[a] == Keys(r2)[a] && big[b] == Keys(r2)[b];
        }
      }
      Pigeonhole(big, Keys(r1[..i]));
      assert false;
    }
  }

  /** A sequence without repetitions whose elements all occur in `b` is no longer than `b`. */
  lemma {:induction false} Pigeonhole<T>(a: seq<T>, b: seq<T>)
    requires NoDuplicates(a) && forall x :: x in a ==> x in b
    ensures |a| <= |b|
    decreases |b|
  {
    if a != [] {
      var x := a[|a| - 1];
      assert x in a;
      var j :| 0 <= j < |b| && b[j] == x;
      var a' := a[..|a| - 1];
      var b' := b[..j] + b[j + 1..];
      forall y | y in a'
        ensures y in b'
      {
        var m :| 0 <= m < |a'| && a'[m] == y;
        assert y != x;
        assert y in b;
        var n :| 0 <= n < |b| && b[n] == y;
        if n < j {
          assert b'[n] == y;
        } else {
          assert b'[n - 1] == y;
        }
      }
      Pigeonhole(a', b');
    }
  }
}
