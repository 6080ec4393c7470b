/**
 * `Object.entries(obj).sort(([, a], [, b]) => b - a).slice(0, k)`: the entries
 * ordered by value, highest first, by a stable sort (ECMAScript 2019 requires
 * `Array.prototype.sort` to be stable), and the first `k` of them kept.
 */
module Ranking {
  import opened Tally

  function Min(a: int, b: int): int {
    if a <= b then a else b
  }

  /** Values never increase along `s`. */
  predicate SortedDesc(s: seq<Entry>) {
    forall i, j :: 0 <= i < j < |s| ==> s[i].value >= s[j].value
  }

  /** `a` and `b` both occur in `s`, and `a` first. */
  predicate Precedes<T(==)>(s: seq<T>, a: T, b: T) {
    a in s && b in s && FirstIndex(s, a) < FirstIndex(s, b)
  }

  /** Where a stable descending sort puts `x` in front of `t`'s entries: after every larger value. */
  function InsertionPoint(x: Entry, t: seq<Entry>): (p: nat)
    ensures p <= |t|
    ensures forall q :: 0 <= q < p ==> t[q].value > x.value
    ensures p < |t| ==> t[p].value <= x.value
  {
    if t == [] || t[0].value <= x.value then 0 else 1 + InsertionPoint(x, t[1..])
  }

  /** `t` with `x` placed at position `p`. */
  function Insert(x: Entry, t: seq<Entry>, p: nat): seq<Entry>
    requires p <= |t|
  {
    t[..p] + [x] + t[p..]
  }

  /** The entries sorted by value, highest first; entries with equal values keep their order. */
  function SortDesc(s: seq<Entry>): seq<Entry> {
    if s == [] then []
    else
      var t := SortDesc(s[1..]);
      Insert(s[0], t, InsertionPoint(s[0], t))
  }

  /** The first `k` entries of the sorted list: `.slice(0, k)`. */
  function TopK(s: seq<Entry>, k: nat): seq<Entry> {
    SortDesc(s)[..Min(k, |SortDesc(s)|)]
  }

  /** Sorting rearranges the entries and nothing else. */
  lemma {:induction false} SortDescPermutes(s: seq<Entry>)
    ensures multiset(SortDesc(s)) == multiset(s)
    ensures |SortDesc(s)| == |s|
  {
    if s != [] {
      var t := SortDesc(s[1..]);
      var p := InsertionPoint(s[0], t);
      SortDescPermutes(s[1..]);
      InsertPermutes(s[0], t, p);
      assert s == [s[0]] + s[1..];
    }
  }

  lemma InsertPermutes(x: Entry, t: seq<Entry>, p: nat)
    requires p <= |t|
    ensures multiset(Insert(x, t, p)) == multiset(t) + multiset{x}
    ensures |Insert(x, t, p)| == |t| + 1
  {
    assert t == t[..p] + t[p..];
  }

  /** What sits at position `i` once `x` is placed at `p`. */
  lemma InsertAt(x: Entry, t: seq<Entry>, p: nat, i: nat)
    requires p <= |t| && i <= |t|
    ensures Insert(x, t, p)[i] == if i < p then t[i] else if i == p then x else t[i - 1]
  {
  }

  /** The sorted list is in descending order of value. */
  lemma {:induction false} SortDescSorted(s: seq<Entry>)
    ensures SortedDesc(SortDesc(s))
  {
    if s != [] {
      var x, t := s[0], SortDesc(s[1..]);
      var p := InsertionPoint(x, t);
      var r := SortDesc(s);
      SortDescSorted(s[1..]);
      InsertPermutes(x, t, p);
      forall i, j | 0 <= i < j < |r| ensures r[i].value >= r[j].value {
        InsertAt(x, t, p, i);
        InsertAt(x, t, p, j);
        if i == p && j > p {
          assert t[p].value <= x.value;
        }
      }
    }
  }

  /** Of two entries of `r` with equal values, the one listed first comes first in `s` too. */
  predicate StableFor(r: seq<Entry>, s: seq<Entry>) {
    forall i, j :: 0 <= i < j < |r| && r[i].value == r[j].value ==> Precedes(s, r[i], r[j])
  }

  /** The sort is stable: entries with equal values keep their input order. */
  lemma {:induction false} SortDescStable(s: seq<Entry>)
    requires NoDuplicates(s)
    ensures StableFor(SortDesc(s), s)
  {
    if s != [] {
      SortDescStable(s[1..]);
      SortDescPermutes(s[1..]);
      assert s == [s[0]] + s[1..];
      InsertStable(s[0], s[1..], SortDesc(s[1..]));
    }
  }

  lemma InsertStable(x: Entry, rest: seq<Entry>, t: seq<Entry>)
    requires NoDuplicates([x] + rest)
    requires multiset(t) == multiset(rest)
    requires StableFor(t, rest)
    ensures StableFor(Insert(x, t, InsertionPoint(x, t)), [x] + rest)
  {
    var s, p := [x] + rest, InsertionPoint(x, t);
    var r := Insert(x, t, p);
    InsertPermutes(x, t, p);
    forall k | 0 <= k < |rest| ensures rest[k] != x {
      assert s[0] == x && s[k + 1] == rest[k];
    }
    forall i, j | 0 <= i < j < |r| && r[i].value == r[j].value ensures Precedes(s, r[i], r[j]) {
      InsertStablePair(x, rest, t, p, i, j);
    }
  }

  lemma InsertStablePair(x: Entry, rest: seq<Entry>, t: seq<Entry>, p: nat, i: nat, j: nat)
    requires p == InsertionPoint(x, t)
    requires x !in rest && multiset(t) == multiset(rest) && StableFor(t, rest)
    requires i < j <= |t| && Insert(x, t, p)[i].value == Insert(x, t, p)[j].value
    ensures Precedes([x] + rest, Insert(x, t, p)[i], Insert(x, t, p)[j])
  {
    InsertAt(x, t, p, i);
    InsertAt(x, t, p, j);
    if j < p {
      PrecedesCons(x, rest, t[i], t[j]);
    } else if j == p {
      assert false;
    } else if i < p {
      PrecedesCons(x, rest, t[i], t[j - 1]);
    } else if i == p {
      var s := [x] + rest;
      assert t[j - 1] in multiset(rest);
      assert FirstIndex(s, x) == 0;
      assert FirstIndex(s, t[j - 1]) > 0;
    } else {
      PrecedesCons(x, rest, t[i - 1], t[j - 1]);
    }
  }

  lemma PrecedesCons(x: Entry, rest: seq<Entry>, a: Entry, b: Entry)
    requires x !in rest && Precedes(rest, a, b)
    ensures Precedes([x] + rest, a, b)
  {
    var s := [x] + rest;
    assert s[1..] == rest;
  }

  /** Keys that are distinct before sorting are distinct after. */
  lemma {:induction false} SortDescDistinctKeys(s: seq<Entry>)
    requires NoDuplicates(KeysOf(s))
    ensures NoDuplicates(KeysOf(SortDesc(s)))
  {
    if s != [] {
      var x, rest := s[0], s[1..];
      var t := SortDesc(rest);
      assert KeysOf(rest) == KeysOf(s)[1..];
      SortDescDistinctKeys(rest);
      SortDescPermutes(rest);
      forall i | 0 <= i < |t| ensures t[i].key != x.key {
        assert t[i] in multiset(rest);
        var j :| 0 <= j < |rest| && rest[j] == t[i];
        assert KeysOf(s)[j + 1] == t[i].key && KeysOf(s)[0] == x.key;
      }
      InsertDistinctKeys(x, t, InsertionPoint(x, t));
    }
  }

  lemma InsertDistinctKeys(x: Entry, t: seq<Entry>, p: nat)
    requires p <= |t| && NoDuplicates(KeysOf(t))
    requires forall i :: 0 <= i < |t| ==> t[i].key != x.key
    ensures NoDuplicates(KeysOf(Insert(x, t, p)))
  {
    var r := Insert(x, t, p);
    InsertPermutes(x, t, p);
    forall i, j | 0 <= i < j < |r| ensures r[i].key != r[j].key {
      InsertAt(x, t, p, i);
      InsertAt(x, t, p, j);
      assert KeysOf(t)[i] == t[i].key;
      if j < p {
        assert KeysOf(t)[j] == t[j].key;
      } else if i < p && j > p {
        assert KeysOf(t)[j - 1] == t[j - 1].key;
      } else if i > p {
        assert KeysOf(t)[i - 1] == t[i - 1].key && KeysOf(t)[j - 1] == t[j - 1].key;
      }
    }
  }

  /**
   * `.slice(0, k)` of the sorted entries: `min(k, |s|)` entries, highest
   * values first, all taken from `s`, every entry of `s` kept when there are
   * at most `k`, and no entry left out worth more than one kept.
   */
  lemma TopKSelects(s: seq<Entry>, k: nat)
    ensures |TopK(s, k)| == Min(k, |s|)
    ensures SortedDesc(TopK(s, k))
    ensures forall e :: e in TopK(s, k) ==> e in s
    ensures |s| <= k ==> multiset(TopK(s, k)) == multiset(s)
  {
    var r := SortDesc(s);
    var m := Min(k, |r|);
    SortDescPermutes(s);
    SortDescSorted(s);
    assert TopK(s, k) == r[..m];
    forall e | e in r[..m] ensures e in s {
      assert e in multiset(r);
    }
    if |s| <= k {
      assert r[..m] == r;
    }
  }

  /** No entry left out of the first `k` is worth more than an entry kept. */
  lemma TopKOmitted(s: seq<Entry>, k: nat)
    ensures forall e, i :: e in s && e !in TopK(s, k) && 0 <= i < |TopK(s, k)| ==> e.value <= TopK(s, k)[i].value
  {
    var r := SortDesc(s);
    var m := Min(k, |r|);
    SortDescPermutes(s);
    SortDescSorted(s);
    forall e, i | e in s && e !in r[..m] && 0 <= i < m ensures e.value <= r[i].value {
      forall j | 0 <= j < m ensures r[j] != e {
        assert r[j] == r[..m][j];
      }
      assert e in multiset(r);
      var j :| 0 <= j < |r| && r[j] == e;
      assert i < j;
    }
  }

  /** The kept entries inherit the stable order and the distinct keys. */
  lemma TopKOrder(s: seq<Entry>, k: nat)
    ensures NoDuplicates(s) ==> StableFor(TopK(s, k), s)
    ensures NoDuplicates(KeysOf(s)) ==> NoDuplicates(KeysOf(TopK(s, k)))
  {
    var r := SortDesc(s);
    var m := Min(k, |r|);
    if NoDuplicates(s) {
      SortDescStable(s);
    }
    if NoDuplicates(KeysOf(s)) {
      SortDescDistinctKeys(s);
      assert KeysOf(r[..m]) == KeysOf(r)[..m];
    }
  }

  /**
   * The `k` largest totals once the pairs `ps` have been added to an
   * insertion-ordered object: `Object.entries(obj).sort(..).slice(0, k)`.
   */
  function TopTotals(ps: seq<Entry>, k: nat): seq<Entry> {
    TopK(Accumulated(ps), k)
  }

  /**
   * `min(k, number of keys)` entries, one per key, each carrying the total of
   * its key, in descending order of total.
   */
  lemma TopTotalsSelects(ps: seq<Entry>, k: nat)
    ensures |TopTotals(ps, k)| == Min(k, |Distinct(KeysOf(ps))|)
    ensures NoDuplicates(KeysOf(TopTotals(ps, k)))
    ensures forall i :: 0 <= i < |TopTotals(ps, k)| ==> TopTotals(ps, k)[i].key in KeysOf(ps)
    ensures forall i :: 0 <= i < |TopTotals(ps, k)| ==> TopTotals(ps, k)[i].value == SumFor(ps, TopTotals(ps, k)[i].key)
    ensures SortedDesc(TopTotals(ps, k))
  {
    var a, t := Accumulated(ps), TopTotals(ps, k);
    AccumulatedKeys(ps);
    TopKSelects(a, k);
    TopKOrder(a, k);
    forall i | 0 <= i < |t| ensures t[i].key in KeysOf(ps) && t[i].value == SumFor(ps, t[i].key) {
      assert t[i] in a;
    }
  }

  /** No key left out has a larger total than a key kept. */
  lemma TopTotalsOmitted(ps: seq<Entry>, k: nat)
    ensures forall key, i :: key in KeysOf(ps) && key !in KeysOf(TopTotals(ps, k)) && 0 <= i < |TopTotals(ps, k)| ==>
      SumFor(ps, key) <= TopTotals(ps, k)[i].value
  {
    var a, t := Accumulated(ps), TopTotals(ps, k);
    AccumulatedKeys(ps);
    TopKOmitted(a, k);
    forall key, i | key in KeysOf(ps) && key !in KeysOf(t) && 0 <= i < |t| ensures SumFor(ps, key) <= t[i].value {
      var e := Entry(key, SumFor(ps, key));
      assert e in a;
      forall j | 0 <= j < |t| ensures t[j] != e {
        assert KeysOf(t)[j] == t[j].key;
      }
    }
  }

  /** No key is left out when there are at most `k` of them. */
  lemma TopTotalsComplete(ps: seq<Entry>, k: nat)
    requires |Distinct(KeysOf(ps))| <= k
    ensures forall key :: key in KeysOf(ps) ==> key in KeysOf(TopTotals(ps, k))
  {
    var a, t := Accumulated(ps), TopTotals(ps, k);
    AccumulatedKeys(ps);
    TopKSelects(a, k);
    forall key | key in KeysOf(ps) ensures key in KeysOf(t) {
      var e := Entry(key, SumFor(ps, key));
      assert e in multiset(a);
      var j :| 0 <= j < |t| && t[j] == e;
      assert KeysOf(t)[j] == key;
    }
  }

  /** Keys with equal totals stay in the order in which they were first added. */
  lemma TopTotalsTies(ps: seq<Entry>, k: nat)
    ensures forall i :: 0 <= i < |TopTotals(ps, k)| ==> TopTotals(ps, k)[i].key in KeysOf(ps)
    ensures forall i, j :: 0 <= i < j < |TopTotals(ps, k)| && TopTotals(ps, k)[i].value == TopTotals(ps, k)[j].value ==>
      FirstIndex(KeysOf(ps), TopTotals(ps, k)[i].key) < FirstIndex(KeysOf(ps), TopTotals(ps, k)[j].key)
  {
    var a, t, d := Accumulated(ps), TopTotals(ps, k), Distinct(KeysOf(ps));
    TopTotalsSelects(ps, k);
    AccumulatedKeys(ps);
    DistinctProperties(KeysOf(ps));
    forall i, j | 0 <= i < j < |a| ensures a[i] != a[j] {
      assert KeysOf(a)[i] != KeysOf(a)[j];
    }
    TopKOrder(a, k);
    forall i, j | 0 <= i < j < |t| && t[i].value == t[j].value
      ensures FirstIndex(KeysOf(ps), t[i].key) < FirstIndex(KeysOf(ps), t[j].key)
    {
      assert Precedes(a, t[i], t[j]);
      var x, y := FirstIndex(a, t[i]), FirstIndex(a, t[j]);
      assert a[x].key == d[x] && a[y].key == d[y];
    }
  }

  /** The `k` most frequent words of `ws`: one `(w, 1)` addition per word, then the `k` largest totals. */
  function TopCounts(ws: seq<string>, k: nat): seq<Entry> {
    TopTotals(Ones(ws), k)
  }

  /**
   * `min(k, distinct words)` entries, one per word of `ws`, each carrying the
   * number of occurrences of its word, in descending order of that number.
   */
  lemma TopCountsSelects(ws: seq<string>, k: nat)
    ensures |TopCounts(ws, k)| == Min(k, |Distinct(ws)|)
    ensures NoDuplicates(KeysOf(TopCounts(ws, k)))
    ensures forall i :: 0 <= i < |TopCounts(ws, k)| ==>
      TopCounts(ws, k)[i].key in ws && TopCounts(ws, k)[i].value == multiset(ws)[TopCounts(ws, k)[i].key] as real
    ensures SortedDesc(TopCounts(ws, k))
  {
    var ps := Ones(ws);
    var t := TopCounts(ws, k);
    assert KeysOf(ps) == ws;
    TopTotalsSelects(ps, k);
    forall i | 0 <= i < |t| ensures t[i].value == multiset(ws)[t[i].key] as real {
      SumForOnes(ws, t[i].key);
    }
  }

  /** Entry `i` of the top list is a word of `ws` paired with its count. */
  lemma TopCountsEntry(ws: seq<string>, k: nat, i: nat)
    requires i < |TopCounts(ws, k)|
    ensures TopCounts(ws, k)[i].key in ws
    ensures TopCounts(ws, k)[i].value == multiset(ws)[TopCounts(ws, k)[i].key] as real
  {
    TopCountsSelects(ws, k);
  }

  /** No word left out occurs more often than a word kept. */
  lemma TopCountsOmitted(ws: seq<string>, k: nat)
    ensures forall w, i :: w in ws && w !in KeysOf(TopCounts(ws, k)) && 0 <= i < |TopCounts(ws, k)| ==>
      multiset(ws)[w] as real <= TopCounts(ws, k)[i].value
  {
    var ps := Ones(ws);
    assert KeysOf(ps) == ws;
    TopTotalsOmitted(ps, k);
    forall w | w in ws ensures SumFor(ps, w) == multiset(ws)[w] as real {
      SumForOnes(ws, w);
    }
  }

  /** Words with equal counts keep the order of their first occurrences. */
  lemma TopCountsTies(ws: seq<string>, k: nat)
    ensures forall i :: 0 <= i < |TopCounts(ws, k)| ==> TopCounts(ws, k)[i].key in ws
    ensures forall i, j :: 0 <= i < j < |TopCounts(ws, k)| && TopCounts(ws, k)[i].value == TopCounts(ws, k)[j].value ==>
      FirstIndex(ws, TopCounts(ws, k)[i].key) < FirstIndex(ws, TopCounts(ws, k)[j].key)
  {
    assert KeysOf(Ones(ws)) == ws;
    TopTotalsTies(Ones(ws), k);
  }
}
