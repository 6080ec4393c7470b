/**
 * The JavaScript plain object used as an accumulator (`counter`, `allKeywords`,
 * `wordCount`): `obj[k] = (obj[k] || 0) + x` repeated over a stream of
 * (key, amount) pairs, then read back with `Object.entries(obj)`, which lists
 * the keys in the order they were first inserted.
 */
module Tally {

  /** One `[key, value]` pair of `Object.entries`. */
  datatype Entry = Entry(key: string, value: real)

  predicate NoDuplicates<T(==)>(xs: seq<T>) {
    forall i, j :: 0 <= i < j < |xs| ==> xs[i] != xs[j]
  }

  /** Index of the first occurrence of `x` in `xs`. */
  function FirstIndex<T(==)>(xs: seq<T>, x: T): (i: nat)
    requires x in xs
    ensures i < |xs| && xs[i] == x
    ensures forall j :: 0 <= j < i ==> xs[j] != x
  {
    if xs[0] == x then 0 else 1 + FirstIndex(xs[1..], x)
  }

  lemma {:induction false} FirstIndexAppend<T>(xs: seq<T>, y: T, x: T)
    requires x in xs
    ensures FirstIndex(xs + [y], x) == FirstIndex(xs, x)
  {
    var i := FirstIndex(xs, x);
    var k := FirstIndex(xs + [y], x);
    assert (xs + [y])[i] == x;
  }

  /** The elements of `xs` without repeats, in order of first occurrence. */
  function Distinct<T(==)>(xs: seq<T>): seq<T> {
    if xs == [] then []
    else
      var d := Distinct(xs[..|xs| - 1]);
      if xs[|xs| - 1] in d then d else d + [xs[|xs| - 1]]
  }

  /**
   * `Distinct(xs)` holds the elements of `xs`, each once, ordered by where
   * they first occur in `xs`.
   */
  lemma {:induction false} DistinctProperties<T>(xs: seq<T>)
    ensures forall x :: x in Distinct(xs) <==> x in xs
    ensures NoDuplicates(Distinct(xs))
    ensures forall i, j :: 0 <= i < j < |Distinct(xs)| ==> FirstIndex(xs, Distinct(xs)[i]) < FirstIndex(xs, Distinct(xs)[j])
  {
    if xs != [] {
      var init, last := xs[..|xs| - 1], xs[|xs| - 1];
      assert xs == init + [last];
      DistinctProperties(init);
      var d := Distinct(init);
      forall x | x in init ensures FirstIndex(xs, x) == FirstIndex(init, x) {
        FirstIndexAppend(init, last, x);
      }
      if last !in d {
        assert FirstIndex(xs, last) == |init|;
      }
    }
  }

  /** The membership and no-duplicates half of `DistinctProperties`. */
  lemma DistinctMembers<T>(xs: seq<T>)
    ensures forall x :: x in Distinct(xs) <==> x in xs
    ensures NoDuplicates(Distinct(xs))
  {
    DistinctProperties(xs);
  }

  /** The key of every pair, in order. */
  function KeysOf(ps: seq<Entry>): seq<string> {
    seq(|ps|, i requires 0 <= i < |ps| => ps[i].key)
  }

  /** Sum of the amounts paired with `k`. */
  function SumFor(ps: seq<Entry>, k: string): real {
    if ps == [] then 0.0
    else SumFor(ps[..|ps| - 1], k) + (if ps[|ps| - 1].key == k then ps[|ps| - 1].value else 0.0)
  }

  /** Sum of all amounts. */
  function SumAll(ps: seq<Entry>): real {
    if ps == [] then 0.0 else SumAll(ps[..|ps| - 1]) + ps[|ps| - 1].value
  }

  /**
   * What `Object.entries` returns after the pairs `ps` have been added one by
   * one: each key once, in order of first insertion, with the total of its amounts.
   */
  function Accumulated(ps: seq<Entry>): (es: seq<Entry>) {
    var d := Distinct(KeysOf(ps));
    seq(|d|, i requires 0 <= i < |d| => Entry(d[i], SumFor(ps, d[i])))
  }

  /** The total for every key that occurs. */
  function TotalsOf(ps: seq<Entry>): (m: map<string, real>) {
    map k | k in KeysOf(ps) :: SumFor(ps, k)
  }

  /** One `(w, 1)` pair per word: the additions `counter[w] = (counter[w] || 0) + 1` make. */
  function Ones(ws: seq<string>): seq<Entry> {
    seq(|ws|, i requires 0 <= i < |ws| => Entry(ws[i], 1.0))
  }

  lemma OnesAppend(a: seq<string>, b: seq<string>)
    ensures Ones(a + b) == Ones(a) + Ones(b)
  {
  }

  /** An insertion-ordered JavaScript object from keys to numbers. */
  class Tally {
    var order: seq<string>
    var totals: map<string, real>
    /** The (key, amount) pairs added so far. */
    ghost var Contents: seq<Entry>

    ghost predicate Valid()
      reads this
    {
      && order == Distinct(KeysOf(Contents))
      && totals == TotalsOf(Contents)
    }

    constructor ()
      ensures Valid() && Contents == []
      ensures order == [] && totals == map[]
    {
      order, totals := [], map[];
      Contents := [];
    }

    /** `obj[k] = (obj[k] || 0) + x`. */
    method Add(k: string, x: real)
      requires Valid()
      modifies this
      ensures Valid() && Contents == old(Contents) + [Entry(k, x)]
    {
      var prior := if k in totals then totals[k] else 0.0;
      var o := if k in totals then order else order + [k];
      var t := totals[k := prior + x];
      AddStepOrder(order, totals, Contents, Entry(k, x));
      AddStepTotals(totals, Contents, Entry(k, x));
      order, totals, Contents := o, t, Contents + [Entry(k, x)];
    }

    /** `Object.entries(obj)`. */
    function Entries(): (es: seq<Entry>)
      requires Valid()
      reads this
      ensures es == Accumulated(Contents)
    {
      DistinctMembers(KeysOf(Contents));
      var o, t := order, totals;
      seq(|o|, i requires 0 <= i < |o| && o[i] in t => Entry(o[i], t[o[i]]))
    }
  }

  /** What `Add` does to the order keeps it the distinct keys of the additions. */
  lemma AddStepOrder(order: seq<string>, totals: map<string, real>, ps: seq<Entry>, e: Entry)
    requires order == Distinct(KeysOf(ps)) && totals == TotalsOf(ps)
    ensures (if e.key in totals then order else order + [e.key]) == Distinct(KeysOf(ps + [e]))
  {
    assert (e.key in totals) == (e.key in KeysOf(ps));
    AddedOrder(ps, e);
  }

  /** What `Add` does to the totals keeps them the sums of the additions. */
  lemma AddStepTotals(totals: map<string, real>, ps: seq<Entry>, e: Entry)
    requires totals == TotalsOf(ps)
    ensures totals[e.key := (if e.key in totals then totals[e.key] else 0.0) + e.value] == TotalsOf(ps + [e])
  {
    if e.key in totals {
      AddedTotalsOld(ps, e);
    } else {
      AddedTotalsNew(ps, e);
    }
  }

  /** One more addition appends its key to the order unless the key was seen before. */
  lemma AddedOrder(ps: seq<Entry>, e: Entry)
    ensures KeysOf(ps + [e]) == KeysOf(ps) + [e.key]
    ensures Distinct(KeysOf(ps + [e])) == if e.key in KeysOf(ps) then Distinct(KeysOf(ps)) else Distinct(KeysOf(ps)) + [e.key]
  {
    var ks := KeysOf(ps + [e]);
    assert ks == KeysOf(ps) + [e.key];
    assert ks[..|ps|] == KeysOf(ps);
    DistinctMembers(KeysOf(ps));
  }

  lemma AddedSum(ps: seq<Entry>, e: Entry, k: string)
    ensures SumFor(ps + [e], k) == SumFor(ps, k) + (if e.key == k then e.value else 0.0)
  {
    assert (ps + [e])[..|ps|] == ps;
  }

  /** A key seen before: its total grows by the amount. */
  lemma AddedTotalsOld(ps: seq<Entry>, e: Entry)
    requires e.key in KeysOf(ps)
    ensures TotalsOf(ps + [e]) == TotalsOf(ps)[e.key := SumFor(ps, e.key) + e.value]
  {
    var m1 := TotalsOf(ps + [e]);
    var m2 := TotalsOf(ps)[e.key := SumFor(ps, e.key) + e.value];
    AddedKeys(ps, e);
    forall k | k in m1 ensures m1[k] == m2[k] {
      AddedSum(ps, e, k);
    }
  }

  /** A new key: its total is the amount. */
  lemma AddedTotalsNew(ps: seq<Entry>, e: Entry)
    requires e.key !in KeysOf(ps)
    ensures TotalsOf(ps + [e]) == TotalsOf(ps)[e.key := e.value]
  {
    var m1 := TotalsOf(ps + [e]);
    var m2 := TotalsOf(ps)[e.key := e.value];
    AddedKeys(ps, e);
    forall k | k in m1 ensures m1[k] == m2[k] {
      AddedSum(ps, e, k);
      if k == e.key {
        SumForAbsent(ps, k);
      }
    }
  }

  /** One more addition adds its key to the keys of the totals. */
  lemma AddedKeys(ps: seq<Entry>, e: Entry)
    ensures forall k :: k in TotalsOf(ps + [e]) <==> k in TotalsOf(ps) || k == e.key
  {
    assert KeysOf(ps + [e]) == KeysOf(ps) + [e.key];
  }

  /** The keys of the accumulated entries are the distinct keys, in first-insertion order. */
  lemma AccumulatedKeys(ps: seq<Entry>)
    ensures KeysOf(Accumulated(ps)) == Distinct(KeysOf(ps))
    ensures NoDuplicates(KeysOf(Accumulated(ps)))
    ensures forall k :: k in KeysOf(Accumulated(ps)) <==> k in KeysOf(ps)
    ensures forall e: Entry :: e in Accumulated(ps) <==> e.key in KeysOf(ps) && e.value == SumFor(ps, e.key)
  {
    var es, d := Accumulated(ps), Distinct(KeysOf(ps));
    DistinctMembers(KeysOf(ps));
    assert KeysOf(es) == d;
    forall e: Entry | e.key in KeysOf(ps) && e.value == SumFor(ps, e.key) ensures e in es {
      var i :| 0 <= i < |d| && d[i] == e.key;
      assert es[i] == e;
    }
  }

  /** Counting words: the total for `w` is its number of occurrences. */
  lemma {:induction false} SumForOnes(ws: seq<string>, w: string)
    ensures SumFor(Ones(ws), w) == multiset(ws)[w] as real
  {
    if ws != [] {
      var init := ws[..|ws| - 1];
      assert Ones(ws)[..|ws| - 1] == Ones(init);
      assert ws == init + [ws[|ws| - 1]];
      SumForOnes(init, w);
    }
  }

  /** Summing per key and then over the keys gives the sum of all amounts. */
  lemma {:induction false} AccumulatedTotal(ps: seq<Entry>)
    ensures SumAll(Accumulated(ps)) == SumAll(ps)
  {
    if ps != [] {
      var init, last := ps[..|ps| - 1], ps[|ps| - 1];
      assert ps == init + [last];
      AccumulatedTotal(init);
      AccumulatedAdded(init, last);
    }
  }

  /** One more addition raises the sum of the accumulated values by its amount. */
  lemma AccumulatedAdded(ps: seq<Entry>, e: Entry)
    ensures SumAll(Accumulated(ps + [e])) == SumAll(Accumulated(ps)) + e.value
  {
    AddedOrder(ps, e);
    if e.key in KeysOf(ps) {
      AccumulatedAddedOld(ps, e);
    } else {
      AccumulatedAddedNew(ps, e);
    }
  }

  lemma AccumulatedAddedOld(ps: seq<Entry>, e: Entry)
    requires e.key in KeysOf(ps)
    ensures SumAll(Accumulated(ps + [e])) == SumAll(Accumulated(ps)) + e.value
  {
    AddedOrder(ps, e);
    DistinctMembers(KeysOf(ps));
    var d := Distinct(KeysOf(ps));
    var a0, a1 := Accumulated(ps), Accumulated(ps + [e]);
    assert Distinct(KeysOf(ps + [e])) == d;
    assert |a1| == |a0| == |d|;
    forall i | 0 <= i < |d|
      ensures a1[i].key == a0[i].key == d[i]
      ensures a1[i].value == a0[i].value + (if a0[i].key == e.key then e.value else 0.0)
    {
      AddedSum(ps, e, d[i]);
    }
    assert KeysOf(a0) == d;
    assert e.key in d;
    SumValuesBump(a0, a1, e.key, e.value);
  }

  lemma AccumulatedAddedNew(ps: seq<Entry>, e: Entry)
    requires e.key !in KeysOf(ps)
    ensures SumAll(Accumulated(ps + [e])) == SumAll(Accumulated(ps)) + e.value
  {
    AddedOrder(ps, e);
    DistinctMembers(KeysOf(ps));
    var d := Distinct(KeysOf(ps));
    var a0, a1 := Accumulated(ps), Accumulated(ps + [e]);
    assert Distinct(KeysOf(ps + [e])) == d + [e.key];
    assert |a1| == |a0| + 1;
    forall i | 0 <= i < |d| ensures a1[i] == a0[i] {
      assert d[i] != e.key;
      AddedSum(ps, e, d[i]);
    }
    assert a1[..|a0|] == a0;
    AddedSum(ps, e, e.key);
    SumForAbsent(ps, e.key);
    assert a1[|a0|] == e;
    SumAllSnoc(a1, a0, e);
  }

  /** Appending an entry adds its amount to the sum of the amounts. */
  lemma SumAllSnoc(a1: seq<Entry>, a0: seq<Entry>, e: Entry)
    requires |a1| == |a0| + 1 && a1[..|a0|] == a0 && a1[|a0|] == e
    ensures SumAll(a1) == SumAll(a0) + e.value
  {
  }

  lemma {:induction false} SumForAbsent(ps: seq<Entry>, k: string)
    requires k !in KeysOf(ps)
    ensures SumFor(ps, k) == 0.0
  {
    if ps != [] {
      var n := |ps|;
      var init := ps[..n - 1];
      forall j | 0 <= j < n - 1 ensures KeysOf(init)[j] != k {
        assert KeysOf(ps)[j] != k;
      }
      assert KeysOf(ps)[n - 1] != k;
      SumForAbsent(init, k);
    }
  }

  /** Adding `x` to the one entry keyed `k` adds `x` to the sum of values. */
  lemma {:induction false} SumValuesBump(a0: seq<Entry>, a1: seq<Entry>, k: string, x: real)
    requires |a0| == |a1| && NoDuplicates(KeysOf(a0)) && k in KeysOf(a0)
    requires forall i :: 0 <= i < |a0| ==> a1[i].key == a0[i].key
    requires forall i :: 0 <= i < |a0| ==> a1[i].value == a0[i].value + (if a0[i].key == k then x else 0.0)
    ensures SumAll(a1) == SumAll(a0) + x
  {
    var n := |a0|;
    var i0, i1 := a0[..n - 1], a1[..n - 1];
    assert KeysOf(i0) == KeysOf(a0)[..n - 1];
    if a0[n - 1].key == k {
      forall i | 0 <= i < n - 1 ensures a0[i].key != k {
        assert KeysOf(a0)[i] != KeysOf(a0)[n - 1];
      }
      SumValuesSame(i0, i1);
    } else {
      assert k in KeysOf(i0) by {
        var j :| 0 <= j < n && KeysOf(a0)[j] == k;
        assert j < n - 1;
        assert KeysOf(i0)[j] == k;
      }
      SumValuesBump(i0, i1, k, x);
    }
  }

  lemma {:induction false} SumValuesSame(a0: seq<Entry>, a1: seq<Entry>)
    requires |a0| == |a1|
    requires forall i :: 0 <= i < |a0| ==> a1[i].value == a0[i].value
    ensures SumAll(a1) == SumAll(a0)
  {
    if a0 != [] {
      SumValuesSame(a0[..|a0| - 1], a1[..|a1| - 1]);
    }
  }

  /** Counting words: the counts add up to the number of words. */
  lemma {:induction false} SumAllOnes(ws: seq<string>)
    ensures SumAll(Ones(ws)) == |ws| as real
  {
    if ws != [] {
      assert Ones(ws)[..|ws| - 1] == Ones(ws[..|ws| - 1]);
      SumAllOnes(ws[..|ws| - 1]);
    }
  }

  /** The total for a key over two runs of additions is the sum of the two totals. */
  lemma {:induction false} SumForAppend(a: seq<Entry>, b: seq<Entry>, k: string)
    ensures SumFor(a + b, k) == SumFor(a, k) + SumFor(b, k)
  {
    if b == [] {
      assert a + b == a;
    } else {
      var n := |b|;
      assert (a + b)[..|a + b| - 1] == a + b[..n - 1];
      SumForAppend(a, b[..n - 1], k);
    }
  }
}
