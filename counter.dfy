/**
 * The occurrence counters of the style analyser.
 *
 * A `collections.Counter` is a dictionary from keys to counts whose keys keep
 * the order in which they were first inserted. The analyser builds one from
 * the list of every colour (and every font) it found, drops the noise keys
 * with a dictionary comprehension, and reports the keys by `most_common`:
 * counts descending, keys with equal counts in insertion order.
 */
module Counting {
  import opened Strings

  /** A Counter: its keys in insertion order, and the count of each. */
  datatype Counter = Counter(keys: seq<string>, counts: map<string, nat>)

  /** No element occurs twice. */
  ghost predicate Distinct(xs: seq<string>) {
    forall x :: multiset(xs)[x] <= 1
  }

  /** What every Counter the analyser builds satisfies. */
  ghost predicate Valid(c: Counter) {
    && Distinct(c.keys)
    && (forall k :: k in c.counts <==> k in c.keys)
    && (forall k :: k in c.counts ==> c.counts[k] > 0)
  }

  /** Index of the first occurrence of `x` in `xs`. */
  function FirstIndex(xs: seq<string>, x: string): (r: nat)
    requires x in xs
    ensures r < |xs| && xs[r] == x && x !in xs[..r]
  {
    if xs[0] == x then 0
    else
      assert x in xs[1..];
      var r := 1 + FirstIndex(xs[1..], x);
      assert xs[..r] == [xs[0]] + xs[1..][..r - 1];
      r
  }

  /** `keys` are elements of `xs`, listed in the order of their first occurrence in `xs`. */
  predicate FirstSeenOrder(keys: seq<string>, xs: seq<string>) {
    && (forall i :: 0 <= i < |keys| ==> keys[i] in xs)
    && (forall i, j :: 0 <= i < j < |keys| ==> FirstIndex(xs, keys[i]) < FirstIndex(xs, keys[j]))
  }

  // ----- Counter(iterable) -----

  /** Counting one more occurrence of `x`. */
  function Add(c: Counter, x: string): Counter {
    if x in c.counts then Counter(c.keys, c.counts[x := c.counts[x] + 1])
    else Counter(c.keys + [x], c.counts[x := 1])
  }

  /** `Counter(xs)`: the elements counted one by one, in order. */
  function Tally(xs: seq<string>): Counter {
    if xs == [] then Counter([], map[])
    else Add(Tally(xs[..|xs| - 1]), xs[|xs| - 1])
  }

  /** A Counter counts every element of its input exactly as often as it occurs. */
  lemma {:induction false} TallyCounts(xs: seq<string>)
    ensures Valid(Tally(xs))
    ensures forall k :: k in Tally(xs).counts <==> k in xs
    ensures forall k :: k in Tally(xs).counts ==> Tally(xs).counts[k] == multiset(xs)[k]
  {
    if xs != [] {
      var init, x := xs[..|xs| - 1], xs[|xs| - 1];
      TallyCounts(init);
      assert xs == init + [x];
      assert multiset(xs) == multiset(init) + multiset{x};
      var c := Tally(init);
      if x !in c.counts {
        assert multiset(c.keys + [x]) == multiset(c.keys) + multiset{x};
        assert multiset(c.keys)[x] == 0;
      }
    }
  }

  lemma {:induction false} FirstIndexPrefix(xs: seq<string>, y: string, x: string)
    requires y in xs
    ensures y in xs + [x] && FirstIndex(xs + [x], y) == FirstIndex(xs, y)
  {
    if xs[0] != y {
      assert (xs + [x])[1..] == xs[1..] + [x];
      FirstIndexPrefix(xs[1..], y, x);
    }
  }

  lemma {:induction false} FirstIndexLast(xs: seq<string>, x: string)
    requires x !in xs
    ensures x in xs + [x] && FirstIndex(xs + [x], x) == |xs|
  {
    var r := FirstIndex(xs + [x], x);
    if r < |xs| {
      assert false;
    }
  }

  /** A Counter lists its keys in the order of their first occurrence in the input. */
  lemma {:induction false} TallyOrder(xs: seq<string>)
    ensures FirstSeenOrder(Tally(xs).keys, xs)
  {
    if xs != [] {
      var init, x := xs[..|xs| - 1], xs[|xs| - 1];
      TallyOrder(init);
      TallyCounts(init);
      assert xs == init + [x];
      var ks := Tally(init).keys;
      forall i | 0 <= i < |ks|
        ensures ks[i] in xs && FirstIndex(xs, ks[i]) == FirstIndex(init, ks[i])
      {
        FirstIndexPrefix(init, ks[i], x);
      }
      if x !in Tally(init).counts {
        FirstIndexLast(init, x);
        var ks' := Tally(xs).keys;
        assert ks' == ks + [x];
        forall i | 0 <= i < |ks'|
          ensures ks'[i] in xs
        {
          if i < |ks| { assert ks'[i] == ks[i]; }
        }
        forall i, j | 0 <= i < j < |ks'|
          ensures FirstIndex(xs, ks'[i]) < FirstIndex(xs, ks'[j])
        {
          assert ks'[i] == ks[i];
          if j < |ks| { assert ks'[j] == ks[j]; }
        }
      }
    }
  }

  // ----- Dropping noise keys -----

  /** Fonts the analyser drops, compared in lower case. */
  const GenericFonts: seq<string> := ["serif", "sans-serif", "monospace", "cursive", "fantasy", "system-ui"]

  /** Colours the analyser drops, compared in lower case. */
  const ColorNoise: seq<string> := ["none", "transparent", "inherit", "currentcolor"]

  /** The keys whose lower-case form is not in `drop`, in their order. */
  function KeepKeys(keys: seq<string>, drop: seq<string>): (r: seq<string>)
    ensures multiset(r) <= multiset(keys)
  {
    if keys == [] then []
    else
      assert keys == [keys[0]] + keys[1..];
      (if Lower(keys[0]) in drop then [] else [keys[0]]) + KeepKeys(keys[1..], drop)
  }

  /** `Counter({k: n for k, n in c.items() if k.lower() not in drop})`. */
  function Keep(c: Counter, drop: seq<string>): Counter {
    Counter(KeepKeys(c.keys, drop), map k | k in c.counts && Lower(k) !in drop :: c.counts[k])
  }

  lemma {:induction false} KeepKeysMembers(keys: seq<string>, drop: seq<string>)
    ensures forall k :: k in KeepKeys(keys, drop) <==> k in keys && Lower(k) !in drop
  {
    if keys != [] {
      KeepKeysMembers(keys[1..], drop);
      assert keys == [keys[0]] + keys[1..];
    }
  }

  /** `k` is first seen in `xs` before every element of `t`. */
  predicate SeenBefore(xs: seq<string>, k: string, t: seq<string>) {
    k in xs && forall y :: y in t ==> y in xs && FirstIndex(xs, k) < FirstIndex(xs, y)
  }

  lemma {:induction false} OrderTail(keys: seq<string>, xs: seq<string>)
    requires keys != [] && FirstSeenOrder(keys, xs)
    ensures FirstSeenOrder(keys[1..], xs) && SeenBefore(xs, keys[0], keys[1..])
  {
    var rest := keys[1..];
    forall i, j | 0 <= i < j < |rest|
      ensures FirstIndex(xs, rest[i]) < FirstIndex(xs, rest[j])
    {
      assert rest[i] == keys[i + 1] && rest[j] == keys[j + 1];
    }
    forall y | y in rest
      ensures y in xs && FirstIndex(xs, keys[0]) < FirstIndex(xs, y)
    {
      var p :| 0 <= p < |rest| && rest[p] == y;
      assert keys[p + 1] == y;
    }
  }

  lemma {:induction false} OrderCons(k: string, t: seq<string>, xs: seq<string>)
    requires FirstSeenOrder(t, xs) && SeenBefore(xs, k, t)
    ensures FirstSeenOrder([k] + t, xs)
  {
    var r := [k] + t;
    forall i, j | 0 <= i < j < |r|
      ensures FirstIndex(xs, r[i]) < FirstIndex(xs, r[j])
    {
      assert r[j] == t[j - 1] && t[j - 1] in t;
      if i > 0 { assert r[i] == t[i - 1]; }
    }
    forall i | 0 <= i < |r|
      ensures r[i] in xs
    {
      if i > 0 { assert r[i] == t[i - 1]; }
    }
  }

  /** Dropping keys keeps the order of the keys that stay. */
  lemma {:induction false} KeepKeysOrder(keys: seq<string>, drop: seq<string>, xs: seq<string>)
    requires FirstSeenOrder(keys, xs)
    ensures FirstSeenOrder(KeepKeys(keys, drop), xs)
  {
    if keys != [] {
      var rest := keys[1..];
      OrderTail(keys, xs);
      KeepKeysOrder(rest, drop, xs);
      KeepKeysMembers(rest, drop);
      if Lower(keys[0]) !in drop {
        OrderCons(keys[0], KeepKeys(rest, drop), xs);
      }
    }
  }

  /** Dropping noise keys leaves a Counter of exactly the other keys, with their counts. */
  lemma KeepFacts(c: Counter, drop: seq<string>)
    requires Valid(c)
    ensures Valid(Keep(c, drop))
    ensures forall k :: k in Keep(c, drop).counts <==> k in c.counts && Lower(k) !in drop
    ensures forall k :: k in Keep(c, drop).counts ==> Keep(c, drop).counts[k] == c.counts[k]
  {
    KeepKeysMembers(c.keys, drop);
    var ks := KeepKeys(c.keys, drop);
    forall x
      ensures multiset(ks)[x] <= 1
    {
      assert multiset(ks)[x] <= multiset(c.keys)[x];
    }
  }

  /**
   * What the analyser reports for a list of found values: every value not
   * dropped, counted as often as it was found, in the order of first finding.
   */
  lemma FilteredTally(xs: seq<string>, drop: seq<string>)
    ensures Valid(Keep(Tally(xs), drop))
    ensures forall k :: k in Keep(Tally(xs), drop).counts <==> k in xs && Lower(k) !in drop
    ensures forall k :: k in Keep(Tally(xs), drop).counts ==> Keep(Tally(xs), drop).counts[k] == multiset(xs)[k]
    ensures FirstSeenOrder(Keep(Tally(xs), drop).keys, xs)
  {
    TallyCounts(xs);
    KeepFacts(Tally(xs), drop);
    TallyOrder(xs);
    KeepKeysOrder(Tally(xs).keys, drop, xs);
  }

  // ----- most_common -----

  predicate Counted(ys: seq<string>, counts: map<string, nat>) {
    forall y :: y in ys ==> y in counts
  }

  /** Counts never increase along `ys`. */
  predicate Descending(ys: seq<string>, counts: map<string, nat>)
    requires Counted(ys, counts)
  {
    forall i, j :: 0 <= i < j < |ys| ==> counts[ys[i]] >= counts[ys[j]]
  }

  /** Puts `k` in front of the first key whose count is not larger than its own. */
  function Insert(k: string, ys: seq<string>, counts: map<string, nat>): (r: seq<string>)
    requires k in counts && Counted(ys, counts)
    ensures multiset(r) == multiset(ys) + multiset{k}
    ensures forall y :: y in r ==> y == k || y in ys
  {
    if ys == [] || counts[k] >= counts[ys[0]] then [k] + ys
    else
      assert ys == [ys[0]] + ys[1..];
      [ys[0]] + Insert(k, ys[1..], counts)
  }

  /**
   * The keys sorted by count, descending, by a stable sort: the order Python's
   * `sorted(..., reverse=True)` and `heapq.nlargest` give.
   */
  function SortByCount(keys: seq<string>, counts: map<string, nat>): (r: seq<string>)
    requires Counted(keys, counts)
    ensures multiset(r) == multiset(keys)
    ensures Counted(r, counts)
  {
    if keys == [] then []
    else
      assert keys == [keys[0]] + keys[1..];
      var t := SortByCount(keys[1..], counts);
      assert forall y :: y in t ==> y in multiset(keys[1..]);
      Insert(keys[0], t, counts)
  }

  /** Every key of `t` has a count of at most `b`. */
  predicate AtMost(t: seq<string>, counts: map<string, nat>, b: nat) {
    forall y :: y in t ==> y in counts && counts[y] <= b
  }

  lemma {:induction false} DescendingTail(ys: seq<string>, counts: map<string, nat>)
    requires ys != [] && Counted(ys, counts) && Descending(ys, counts)
    ensures Counted(ys[1..], counts) && Descending(ys[1..], counts)
    ensures AtMost(ys[1..], counts, counts[ys[0]])
  {
    var rest := ys[1..];
    forall i, j | 0 <= i < j < |rest|
      ensures counts[rest[i]] >= counts[rest[j]]
    {
      assert rest[i] == ys[i + 1] && rest[j] == ys[j + 1];
    }
    forall y | y in rest
      ensures y in counts && counts[y] <= counts[ys[0]]
    {
      var p :| 0 <= p < |rest| && rest[p] == y;
      assert ys[p + 1] == y;
    }
  }

  lemma {:induction false} DescendingCons(y: string, t: seq<string>, counts: map<string, nat>)
    requires y in counts && Counted(t, counts) && Descending(t, counts) && AtMost(t, counts, counts[y])
    ensures Counted([y] + t, counts) && Descending([y] + t, counts)
  {
    var r := [y] + t;
    forall i, j | 0 <= i < j < |r|
      ensures counts[r[i]] >= counts[r[j]]
    {
      assert r[j] == t[j - 1] && t[j - 1] in t;
      if i > 0 { assert r[i] == t[i - 1]; }
    }
  }

  lemma {:induction false} InsertDescending(k: string, ys: seq<string>, counts: map<string, nat>)
    requires k in counts && Counted(ys, counts) && Descending(ys, counts)
    ensures Counted(Insert(k, ys, counts), counts) && Descending(Insert(k, ys, counts), counts)
  {
    if ys == [] || counts[k] >= counts[ys[0]] {
      if ys != [] {
        DescendingTail(ys, counts);
        assert ys == [ys[0]] + ys[1..];
      }
      DescendingCons(k, ys, counts);
    } else {
      DescendingTail(ys, counts);
      InsertDescending(k, ys[1..], counts);
      DescendingCons(ys[0], Insert(k, ys[1..], counts), counts);
    }
  }

  /** The sort orders keys by count, descending. */
  lemma {:induction false} SortDescending(keys: seq<string>, counts: map<string, nat>)
    requires Counted(keys, counts)
    ensures Descending(SortByCount(keys, counts), counts)
  {
    if keys != [] {
      SortDescending(keys[1..], counts);
      InsertDescending(keys[0], SortByCount(keys[1..], counts), counts);
    }
  }

  /** The keys of `ys` whose count is `v`, in their order. */
  function WithCount(ys: seq<string>, counts: map<string, nat>, v: nat): seq<string>
    requires Counted(ys, counts)
  {
    if ys == [] then []
    else (if counts[ys[0]] == v then [ys[0]] else []) + WithCount(ys[1..], counts, v)
  }

  lemma {:induction false} WithCountCons(y: string, ys: seq<string>, counts: map<string, nat>, v: nat)
    requires y in counts && Counted(ys, counts)
    ensures Counted([y] + ys, counts)
    ensures WithCount([y] + ys, counts, v) == (if counts[y] == v then [y] else []) + WithCount(ys, counts, v)
  {
    assert ([y] + ys)[1..] == ys;
  }

  lemma {:induction false} InsertWithCount(k: string, ys: seq<string>, counts: map<string, nat>, v: nat)
    requires k in counts && Counted(ys, counts)
    ensures WithCount(Insert(k, ys, counts), counts, v)
         == (if counts[k] == v then [k] else []) + WithCount(ys, counts, v)
  {
    if ys == [] || counts[k] >= counts[ys[0]] {
      WithCountCons(k, ys, counts, v);
    } else {
      var y, rest := ys[0], ys[1..];
      assert ys == [y] + rest;
      InsertWithCount(k, rest, counts, v);
      WithCountCons(y, Insert(k, rest, counts), counts, v);
      WithCountCons(y, rest, counts, v);
      if counts[k] == v {
        assert counts[y] != v;
      }
    }
  }

  /** The sort is stable: keys with equal counts keep their relative order. */
  lemma {:induction false} SortStable(keys: seq<string>, counts: map<string, nat>, v: nat)
    requires Counted(keys, counts)
    ensures WithCount(SortByCount(keys, counts), counts, v) == WithCount(keys, counts, v)
  {
    if keys != [] {
      SortStable(keys[1..], counts, v);
      InsertWithCount(keys[0], SortByCount(keys[1..], counts), counts, v);
    }
  }

  lemma {:induction false} WithCountPrefix(ys: seq<string>, counts: map<string, nat>, v: nat, m: nat)
    requires Counted(ys, counts) && m <= |ys|
    ensures WithCount(ys[..m], counts, v) <= WithCount(ys, counts, v)
  {
    if m > 0 {
      assert ys[..m][1..] == ys[1..][..m - 1];
      WithCountPrefix(ys[1..], counts, v, m - 1);
    }
  }

  function Min(a: nat, b: nat): nat {
    if a <= b then a else b
  }

  /** The keys of the Counter in `most_common` order. */
  function Ranked(c: Counter): seq<string>
    requires Valid(c)
  {
    SortByCount(c.keys, c.counts)
  }

  /** The keys of a list of (key, count) pairs. */
  function KeysOf(r: seq<(string, nat)>): (ks: seq<string>)
    ensures |ks| == |r| && forall i :: 0 <= i < |r| ==> ks[i] == r[i].0
  {
    if r == [] then [] else [r[0].0] + KeysOf(r[1..])
  }

  /** Each key of `ks` paired with its count. */
  function Pairs(ks: seq<string>, counts: map<string, nat>): (r: seq<(string, nat)>)
    requires forall k | k in ks :: k in counts
    ensures |r| == |ks| && forall i :: 0 <= i < |r| ==> r[i] == (ks[i], counts[ks[i]])
  {
    if ks == [] then [] else [(ks[0], counts[ks[0]])] + Pairs(ks[1..], counts)
  }

  /** `c.most_common(n)`: the `n` most common (key, count) pairs, or all when there are fewer. */
  function MostCommon(c: Counter, n: nat): (r: seq<(string, nat)>)
    requires Valid(c)
    ensures |r| == Min(n, |c.keys|)
    ensures forall i :: 0 <= i < |r| ==> r[i].0 in c.counts && r[i].1 == c.counts[r[i].0]
  {
    var ranked := Ranked(c);
    assert |ranked| == |multiset(ranked)| == |c.keys|;
    var top := ranked[..Min(n, |c.keys|)];
    assert forall k | k in top :: k in multiset(ranked);
    Pairs(top, c.counts)
  }

  /** `c.most_common()`: every pair. */
  function MostCommonAll(c: Counter): (r: seq<(string, nat)>)
    requires Valid(c)
    ensures |r| == |c.keys|
  {
    MostCommon(c, |c.keys|)
  }

  /** The keys `most_common(n)` reports are the first ones of the ranking. */
  lemma TopPrefix(c: Counter, n: nat)
    requires Valid(c)
    ensures |Ranked(c)| == |c.keys|
    ensures KeysOf(MostCommon(c, n)) == Ranked(c)[..|MostCommon(c, n)|]
  {
    var ranked := Ranked(c);
    assert |ranked| == |multiset(ranked)| == |c.keys|;
    var top := ranked[..Min(n, |c.keys|)];
    assert forall k | k in top :: k in multiset(ranked);
    KeysOfPairs(top, c.counts);
  }

  lemma KeysOfPairs(ks: seq<string>, counts: map<string, nat>)
    requires forall k | k in ks :: k in counts
    ensures KeysOf(Pairs(ks, counts)) == ks
  {
    var r := Pairs(ks, counts);
    assert forall i | 0 <= i < |ks| :: KeysOf(r)[i] == ks[i];
  }

  /** `most_common(n)` reports no key twice. */
  lemma MostCommonDistinct(c: Counter, n: nat)
    requires Valid(c)
    ensures Distinct(KeysOf(MostCommon(c, n)))
  {
    TopPrefix(c, n);
    assert multiset(Ranked(c)) == multiset(c.keys);
    DistinctPrefix(Ranked(c), |MostCommon(c, n)|);
  }

  lemma DistinctPrefix(xs: seq<string>, m: nat)
    requires m <= |xs| && Distinct(xs)
    ensures Distinct(xs[..m])
  {
    assert xs == xs[..m] + xs[m..];
    assert multiset(xs) == multiset(xs[..m]) + multiset(xs[m..]);
    forall x
      ensures multiset(xs[..m])[x] <= 1
    {
      assert multiset(xs[..m])[x] <= multiset(xs)[x];
    }
  }

  /** `most_common(n)` reports counts in descending order. */
  lemma MostCommonDescending(c: Counter, n: nat)
    requires Valid(c)
    ensures forall i, j :: 0 <= i < j < |MostCommon(c, n)| ==> MostCommon(c, n)[i].1 >= MostCommon(c, n)[j].1
  {
    var r, ranked := MostCommon(c, n), Ranked(c);
    TopPrefix(c, n);
    SortDescending(c.keys, c.counts);
    forall i, j | 0 <= i < j < |r|
      ensures r[i].1 >= r[j].1
    {
      assert KeysOf(r)[i] == ranked[i] && KeysOf(r)[j] == ranked[j];
    }
  }

  /** No key `most_common(n)` leaves out has a larger count than a key it reports. */
  lemma MostCommonCutoff(c: Counter, n: nat, k: string)
    requires Valid(c) && k in c.counts && k !in KeysOf(MostCommon(c, n))
    ensures forall i :: 0 <= i < |MostCommon(c, n)| ==> c.counts[k] <= MostCommon(c, n)[i].1
  {
    var r, ranked := MostCommon(c, n), Ranked(c);
    TopPrefix(c, n);
    SortDescending(c.keys, c.counts);
    var m := |r|;
    assert k in multiset(ranked);
    var p :| 0 <= p < |ranked| && ranked[p] == k;
    if p < m {
      assert false;
    }
    forall i | 0 <= i < m
      ensures c.counts[k] <= r[i].1
    {
      assert KeysOf(r)[i] == ranked[i];
    }
  }

  /**
   * Among keys with the same count, `most_common(n)` keeps the ones inserted
   * first, in insertion order: the reported keys with count `v` are a prefix
   * of the Counter's keys with count `v`.
   */
  lemma MostCommonTies(c: Counter, n: nat, v: nat)
    requires Valid(c)
    ensures Counted(KeysOf(MostCommon(c, n)), c.counts)
    ensures WithCount(KeysOf(MostCommon(c, n)), c.counts, v) <= WithCount(c.keys, c.counts, v)
  {
    TopPrefix(c, n);
    WithCountPrefix(Ranked(c), c.counts, v, |MostCommon(c, n)|);
    SortStable(c.keys, c.counts, v);
  }

  // ----- Examples -----

  lemma {:induction false} TallySnoc(ys: seq<string>, y: string)
    ensures Tally(ys + [y]) == Add(Tally(ys), y)
  {
    assert (ys + [y])[..|ys|] == ys;
  }

  lemma {:induction false} TieTallyHalf(a: string, b: string)
    requires a != b
    ensures Tally([b, a]) == Counter([b, a], map[b := 1, a := 1])
  {
    TallySnoc([], b);
    assert [] + [b] == [b];
    TallySnoc([b], a);
    assert [b] + [a] == [b, a];
  }

  lemma {:induction false} TieTallyThree(a: string, b: string)
    requires a != b
    ensures Tally([b, a, b]) == Counter([b, a], map[b := 2, a := 1])
  {
    TieTallyHalf(a, b);
    TallySnoc([b, a], b);
    assert [b, a] + [b] == [b, a, b];
  }

  lemma {:induction false} TieTallyPairs(a: string, b: string)
    requires a != b
    ensures Tally([b, a, b, a]) == Counter([b, a], map[b := 2, a := 2])
  {
    TieTallyThree(a, b);
    TallySnoc([b, a, b], a);
    assert [b, a, b] + [a] == [b, a, b, a];
  }

  /** Tally steps of the tie example below. */
  lemma {:induction false} TieTally(a: string, b: string, c: string, xs: seq<string>)
    requires a != b && b != c && a != c && xs == [b, a, b, a, c]
    ensures Tally(xs) == Counter([b, a, c], map[b := 2, a := 2, c := 1])
  {
    TieTallyPairs(a, b);
    TallySnoc([b, a, b, a], c);
    assert [b, a, b, a] + [c] == xs;
  }

  lemma {:induction false} TieValid(a: string, b: string, c: string, t: Counter)
    requires a != b && b != c && a != c && t == Counter([b, a, c], map[b := 2, a := 2, c := 1])
    ensures Valid(t)
  {
    assert multiset(t.keys) == multiset{b, a, c};
  }

  lemma {:induction false} TieRanking(a: string, b: string, c: string, counts: map<string, nat>)
    requires a in counts && b in counts && c in counts
    requires counts[b] == counts[a] && counts[a] > counts[c]
    ensures SortByCount([b, a, c], counts) == [b, a, c]
  {
    assert [c][1..] == [];
    assert SortByCount([c], counts) == Insert(c, [], counts) == [c];
    assert [a, c][1..] == [c];
    assert SortByCount([a, c], counts) == Insert(a, [c], counts) == [a, c];
    assert [b, a, c][1..] == [a, c];
    assert SortByCount([b, a, c], counts) == Insert(b, [a, c], counts);
  }

  lemma PairsTwo(x: string, y: string, counts: map<string, nat>)
    requires x in counts && y in counts
    ensures Pairs([x, y], counts) == [(x, counts[x]), (y, counts[y])]
  {
    var r := Pairs([x, y], counts);
    assert r[0] == (x, counts[x]) && r[1] == (y, counts[y]);
  }

  lemma {:induction false} TieTop(a: string, b: string, c: string, t: Counter)
    requires Valid(t) && t.keys == [b, a, c]
    requires t.counts[b] == 2 && t.counts[a] == 2 && t.counts[c] == 1
    ensures MostCommon(t, 2) == [(b, 2), (a, 2)]
  {
    TieTopKeys(a, b, c, t);
    PairsTwo(b, a, t.counts);
  }

  lemma {:induction false} TieTopKeys(a: string, b: string, c: string, t: Counter)
    requires Valid(t) && t.keys == [b, a, c]
    requires t.counts[b] == 2 && t.counts[a] == 2 && t.counts[c] == 1
    ensures b in t.counts && a in t.counts && MostCommon(t, 2) == Pairs([b, a], t.counts)
  {
    TieRanking(a, b, c, t.counts);
    assert Ranked(t) == [b, a, c];
    assert [b, a, c][..2] == [b, a];
  }

  /**
   * Two keys tied at the top are reported in the order they were first seen,
   * whatever the keys are.
   */
  lemma {:induction false} TiesInFirstSeenOrder(a: string, b: string, c: string, xs: seq<string>)
    requires a != b && b != c && a != c && xs == [b, a, b, a, c]
    ensures Valid(Tally(xs)) && MostCommon(Tally(xs), 2) == [(b, 2), (a, 2)]
  {
    TieTally(a, b, c, xs);
    var t := Tally(xs);
    TieValid(a, b, c, t);
    assert t.counts[b] == 2 && t.counts[a] == 2 && t.counts[c] == 1;
    TieTop(a, b, c, t);
  }
}
