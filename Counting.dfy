/**
  Frequency counting over finite sequences: occurrence counts, the distinct
  values in first-encountered order (the key order of a Python dict or
  `collections.Counter`), and `Counter.most_common(k)`, which returns the k
  most frequent values, equal counts in first-encountered order.
*/
module Counting {

  /** Number of occurrences of `x` in `xs`. */
  function Count<T(==)>(xs: seq<T>, x: T): (n: nat)
    ensures n <= |xs|
  {
    if xs == [] then 0 else (if xs[0] == x then 1 else 0) + Count(xs[1..], x)
  }

  /** A value is counted exactly when it occurs. */
  lemma {:induction false} CountPositive<T>(xs: seq<T>, x: T)
    ensures Count(xs, x) > 0 <==> x in xs
  {
    if xs != [] {
      CountPositive(xs[1..], x);
      assert x in xs <==> xs[0] == x || x in xs[1..];
    }
  }

  lemma {:induction false} CountAppend<T>(xs: seq<T>, ys: seq<T>, x: T)
    ensures Count(xs + ys, x) == Count(xs, x) + Count(ys, x)
  {
    if xs == [] {
      assert xs + ys == ys;
    } else {
      assert (xs + ys)[1..] == xs[1..] + ys;
      CountAppend(xs[1..], ys, x);
    }
  }

  predicate NoDup<T(==)>(s: seq<T>) {
    forall i, j :: 0 <= i < j < |s| ==> s[i] != s[j]
  }

  /** A value that occurs in a duplicate-free sequence occurs exactly once. */
  lemma {:induction false} NoDupCount<T>(s: seq<T>, x: T)
    requires NoDup(s) && x in s
    ensures Count(s, x) == 1
  {
    if s[0] != x {
      NoDupCount(s[1..], x);
    } else {
      CountPositive(s[1..], x);
      assert x !in s[1..] by {
        forall k | 0 <= k < |s[1..]| ensures s[1..][k] != x {
          assert s[1..][k] == s[k + 1];
        }
      }
    }
  }

  /**
    Index of the first occurrence of `x` in `xs`, or `|xs|` when `x` does not
    occur: the position at which a Counter first meets the value.
  */
  function FirstIndex<T(==)>(xs: seq<T>, x: T): (i: nat)
    ensures i <= |xs|
    ensures i < |xs| <==> x in xs
    ensures i < |xs| ==> xs[i] == x
  {
    if xs == [] then 0 else if xs[0] == x then 0 else 1 + FirstIndex(xs[1..], x)
  }

  /** No occurrence of `x` precedes its first index. */
  lemma {:induction false} FirstIndexIsFirst<T>(xs: seq<T>, x: T)
    ensures forall k :: 0 <= k < FirstIndex(xs, x) ==> xs[k] != x
  {
    if xs != [] && xs[0] != x {
      FirstIndexIsFirst(xs[1..], x);
      assert forall k :: 1 <= k < |xs| ==> xs[k] == xs[1..][k - 1];
    }
  }

  lemma {:induction false} FirstIndexOfPrefix<T>(xs: seq<T>, n: nat, x: T)
    requires n <= |xs| && x in xs[..n]
    ensures FirstIndex(xs, x) == FirstIndex(xs[..n], x)
  {
    if xs[0] != x {
      assert xs[..n][0] == xs[0];
      assert xs[..n][1..] == xs[1..][..n - 1];
      FirstIndexOfPrefix(xs[1..], n - 1, x);
    }
  }

  /** The distinct values of `xs`, each once, in order of first occurrence. */
  function Distinct<T(==)>(xs: seq<T>): (r: seq<T>)
    ensures forall i :: 0 <= i < |r| ==> r[i] in xs
    ensures forall i :: 0 <= i < |xs| ==> xs[i] in r
    ensures forall i, j :: 0 <= i < j < |r| ==> FirstIndex(xs, r[i]) < FirstIndex(xs, r[j])
    ensures |r| <= |xs|
  {
    if xs == [] then []
    else
      var init := xs[..|xs| - 1];
      var last := xs[|xs| - 1];
      var d := Distinct(init);
      assert xs == init + [last];
      assert forall i :: 0 <= i < |d| ==> FirstIndex(xs, d[i]) == FirstIndex(init, d[i]) by {
        forall i | 0 <= i < |d| ensures FirstIndex(xs, d[i]) == FirstIndex(init, d[i]) {
          FirstIndexOfPrefix(xs, |xs| - 1, d[i]);
        }
      }
      if last in d then d
      else
        assert FirstIndex(xs, last) == |xs| - 1;
        d + [last]
  }

  /** Strictly increasing first-occurrence positions: candidates in the order a Counter holds them. */
  predicate Ranked<T(==)>(xs: seq<T>, cands: seq<T>) {
    && (forall i :: 0 <= i < |cands| ==> cands[i] in xs)
    && (forall i, j {:trigger FirstIndex(xs, cands[i]), FirstIndex(xs, cands[j])} ::
          0 <= i < j < |cands| ==> FirstIndex(xs, cands[i]) < FirstIndex(xs, cands[j]))
  }

  /**
    `a` comes before `b` in `most_common`: it is more frequent, or equally
    frequent and met first.
  */
  predicate Outranks<T(==)>(xs: seq<T>, a: T, b: T) {
    || Count(xs, a) > Count(xs, b)
    || (Count(xs, a) == Count(xs, b) && FirstIndex(xs, a) < FirstIndex(xs, b))
  }

  /** Each element of `r` outranks every later one. */
  predicate InRankOrder<T(==)>(xs: seq<T>, r: seq<T>) {
    forall a, b :: 0 <= a < b < |r| ==> Outranks(xs, r[a], r[b])
  }

  /** Every element of `r` outranks every candidate that `r` leaves out. */
  predicate OutranksRest<T(==)>(xs: seq<T>, r: seq<T>, cands: seq<T>) {
    forall q, a :: 0 <= q < |cands| && cands[q] !in r && 0 <= a < |r| ==> Outranks(xs, r[a], cands[q])
  }

  /** Position of the first candidate with the largest count. */
  function LeftmostMax<T(==)>(xs: seq<T>, cands: seq<T>): (i: nat)
    requires |cands| > 0
    ensures i < |cands|
  {
    if |cands| == 1 then 0
    else
      var m := 1 + LeftmostMax(xs, cands[1..]);
      if Count(xs, cands[0]) >= Count(xs, cands[m]) then 0 else m
  }

  /** No candidate has a larger count, and every one before it a smaller count. */
  lemma {:induction false} LeftmostMaxSpec<T>(xs: seq<T>, cands: seq<T>)
    requires |cands| > 0
    ensures var i := LeftmostMax(xs, cands);
      && (forall j :: 0 <= j < |cands| ==> Count(xs, cands[j]) <= Count(xs, cands[i]))
      && (forall j :: 0 <= j < i ==> Count(xs, cands[j]) < Count(xs, cands[i]))
  {
    if |cands| > 1 {
      LeftmostMaxSpec(xs, cands[1..]);
      assert forall j :: 1 <= j < |cands| ==> cands[j] == cands[1..][j - 1];
    }
  }

  /** Repeatedly take the leftmost most frequent candidate, at most `k` times. */
  function TopK<T(==)>(xs: seq<T>, cands: seq<T>, k: nat): seq<T>
    decreases k
  {
    if k == 0 || cands == [] then []
    else
      var i := LeftmostMax(xs, cands);
      [cands[i]] + TopK(xs, Without(cands, i), k - 1)
  }

  function Min(a: int, b: int): int {
    if a <= b then a else b
  }

  /** The leftmost maximum outranks every other candidate. */
  lemma LeftmostMaxOutranks<T>(xs: seq<T>, cands: seq<T>, m: nat)
    requires Ranked(xs, cands) && |cands| > 0
    requires m < |cands| && m != LeftmostMax(xs, cands)
    ensures Outranks(xs, cands[LeftmostMax(xs, cands)], cands[m])
  {
    LeftmostMaxSpec(xs, cands);
  }

  lemma RemoveRanked<T>(xs: seq<T>, cands: seq<T>, i: nat)
    requires Ranked(xs, cands) && i < |cands|
    ensures var rest := Without(cands, i);
      && Ranked(xs, rest)
      && |rest| == |cands| - 1
      && forall p :: 0 <= p < |rest| ==> rest[p] == cands[if p < i then p else p + 1]
  {
    var rest := Without(cands, i);
    assert forall p :: 0 <= p < |rest| ==> rest[p] == cands[if p < i then p else p + 1];
  }

  /** The candidates left once the one at `i` is taken. */
  function Without<T>(cands: seq<T>, i: nat): seq<T>
    requires i < |cands|
  {
    cands[..i] + cands[i + 1..]
  }

  /** What TopK takes from `cands`: the leftmost maximum, then TopK of the others. */
  lemma TopKStep<T>(xs: seq<T>, cands: seq<T>, k: nat)
    requires Ranked(xs, cands) && k > 0 && cands != []
    ensures var i := LeftmostMax(xs, cands);
      && TopK(xs, cands, k) == [cands[i]] + TopK(xs, Without(cands, i), k - 1)
      && Ranked(xs, Without(cands, i))
      && |Without(cands, i)| == |cands| - 1
  {
    RemoveRanked(xs, cands, LeftmostMax(xs, cands));
  }

  lemma WithoutSub<T>(cands: seq<T>, i: nat)
    requires i < |cands|
    ensures forall c :: c in Without(cands, i) ==> c in cands
  {
  }

  lemma WithoutOutranked<T>(xs: seq<T>, cands: seq<T>)
    requires Ranked(xs, cands) && cands != []
    ensures var i := LeftmostMax(xs, cands);
      forall c :: c in Without(cands, i) ==> Outranks(xs, cands[i], c)
  {
    var i := LeftmostMax(xs, cands);
    var rest := Without(cands, i);
    RemoveRanked(xs, cands, i);
    forall c | c in rest ensures Outranks(xs, cands[i], c) {
      var p :| 0 <= p < |rest| && rest[p] == c;
      LeftmostMaxOutranks(xs, cands, if p < i then p else p + 1);
    }
  }

  /** TopK picks min(k, |cands|) of the candidates. */
  lemma {:induction false} TopKMembers<T>(xs: seq<T>, cands: seq<T>, k: nat)
    requires Ranked(xs, cands)
    ensures |TopK(xs, cands, k)| == Min(k, |cands|)
    ensures forall c :: c in TopK(xs, cands, k) ==> c in cands
    decreases k
  {
    if k != 0 && cands != [] {
      var i := LeftmostMax(xs, cands);
      var rest := Without(cands, i);
      TopKStep(xs, cands, k);
      WithoutSub(cands, i);
      TopKMembers(xs, rest, k - 1);
    }
  }

  /** Each candidate TopK picks outranks every later pick. */
  lemma {:induction false} TopKOrdered<T>(xs: seq<T>, cands: seq<T>, k: nat)
    requires Ranked(xs, cands)
    ensures InRankOrder(xs, TopK(xs, cands, k))
    decreases k
  {
    if k != 0 && cands != [] {
      var i := LeftmostMax(xs, cands);
      var rest := Without(cands, i);
      TopKStep(xs, cands, k);
      FirstPickOutranks(xs, cands, k);
      TopKOrdered(xs, rest, k - 1);
      OrderedCons(xs, cands[i], TopK(xs, rest, k - 1));
    }
  }

  /** The first pick outranks every later pick. */
  lemma FirstPickOutranks<T>(xs: seq<T>, cands: seq<T>, k: nat)
    requires Ranked(xs, cands) && k != 0 && cands != []
    ensures var i := LeftmostMax(xs, cands);
      var r' := TopK(xs, Without(cands, i), k - 1);
      forall a :: 0 <= a < |r'| ==> Outranks(xs, cands[i], r'[a])
  {
    var i := LeftmostMax(xs, cands);
    var rest := Without(cands, i);
    var r' := TopK(xs, rest, k - 1);
    TopKStep(xs, cands, k);
    WithoutOutranked(xs, cands);
    TopKMembers(xs, rest, k - 1);
    forall a | 0 <= a < |r'| ensures Outranks(xs, cands[i], r'[a]) {
      assert r'[a] in r';
    }
  }

  lemma OrderedCons<T>(xs: seq<T>, c0: T, r': seq<T>)
    requires forall a :: 0 <= a < |r'| ==> Outranks(xs, c0, r'[a])
    requires InRankOrder(xs, r')
    ensures InRankOrder(xs, [c0] + r')
  {
    var r := [c0] + r';
    forall a, b | 0 <= a < b < |r| ensures Outranks(xs, r[a], r[b]) {
      assert r[b] == r'[b - 1];
      if a > 0 {
        assert r[a] == r'[a - 1];
      }
    }
  }

  /** Every candidate TopK leaves out is outranked by every pick. */
  lemma {:induction false} TopKExcluded<T>(xs: seq<T>, cands: seq<T>, k: nat)
    requires Ranked(xs, cands)
    ensures OutranksRest(xs, TopK(xs, cands, k), cands)
    decreases k
  {
    if k != 0 && cands != [] {
      var i := LeftmostMax(xs, cands);
      TopKStep(xs, cands, k);
      TopKExcluded(xs, Without(cands, i), k - 1);
      ExcludedCons(xs, cands, TopK(xs, Without(cands, i), k - 1));
    }
  }

  lemma ExcludedCons<T>(xs: seq<T>, cands: seq<T>, r': seq<T>)
    requires Ranked(xs, cands) && cands != []
    requires OutranksRest(xs, r', Without(cands, LeftmostMax(xs, cands)))
    ensures OutranksRest(xs, [cands[LeftmostMax(xs, cands)]] + r', cands)
  {
    var i := LeftmostMax(xs, cands);
    var r := [cands[i]] + r';
    var rest := Without(cands, i);
    WithoutOutranked(xs, cands);
    assert forall c :: c in Without(cands, LeftmostMax(xs, cands)) ==> Outranks(xs, cands[LeftmostMax(xs, cands)], c);
    forall q, a | 0 <= q < |cands| && cands[q] !in r && 0 <= a < |r|
      ensures Outranks(xs, r[a], cands[q])
    {
      var p := if q < i then q else q - 1;
      assert rest[p] == cands[q];
      if a > 0 {
        assert r[a] == r'[a - 1];
      } else {
        assert rest[p] in rest;
      }
    }
  }

  /** Pairs each key with its count in `xs`. */
  function WithCounts<T(==)>(xs: seq<T>, keys: seq<T>): (r: seq<(T, nat)>)
    ensures |r| == |keys|
  {
    seq(|keys|, i requires 0 <= i < |keys| => (keys[i], Count(xs, keys[i])))
  }

  function Labels<T, C>(r: seq<(T, C)>): seq<T> {
    seq(|r|, i requires 0 <= i < |r| => r[i].0)
  }

  function Seconds<T, C>(r: seq<(T, C)>): seq<C> {
    seq(|r|, i requires 0 <= i < |r| => r[i].1)
  }

  /** `Counter(xs).most_common(k)` */
  function MostCommon<T(==)>(xs: seq<T>, k: nat): seq<(T, nat)> {
    WithCounts(xs, TopK(xs, Distinct(xs), k))
  }

  /**
    What `most_common(k)` promises: at most k entries (fewer only when fewer
    distinct values exist), each a value of `xs` with its exact count, no
    value twice, counts non-increasing, equal counts in first-encountered
    order, and every value left out ranked below every value kept.
  */
  lemma MostCommonSpec<T>(xs: seq<T>, k: nat)
    ensures var r := MostCommon(xs, k);
      && |r| == Min(k, |Distinct(xs)|)
      && (forall i :: 0 <= i < |r| ==> r[i].0 in xs && r[i].1 == Count(xs, r[i].0))
      && (forall i, j :: 0 <= i < j < |r| ==> r[i].0 != r[j].0)
      && (forall i, j :: 0 <= i < j < |r| ==> r[i].1 >= r[j].1)
      && (forall i, j :: 0 <= i < j < |r| && r[i].1 == r[j].1 ==>
            FirstIndex(xs, r[i].0) < FirstIndex(xs, r[j].0))
      && (forall x, i :: x in xs && x !in Labels(r) && 0 <= i < |r| ==> Outranks(xs, r[i].0, x))
      && (r == [] <==> k == 0 || xs == [])
  {
    var d := Distinct(xs);
    var t := TopK(xs, d, k);
    var r := MostCommon(xs, k);
    assert Labels(r) == t;
    MostCommonShape(xs, k);
    MostCommonOrder(xs, k);
    MostCommonTop(xs, k);
  }

  /** MostCommonSpec restated for `zip(*most_common(k))`: the values and their counts as two lists. */
  lemma MostCommonUnzipped<T>(xs: seq<T>, k: nat) returns (gs: seq<T>, ns: seq<nat>)
    ensures gs == Labels(MostCommon(xs, k)) && ns == Seconds(MostCommon(xs, k))
    ensures |gs| == |ns| == Min(k, |Distinct(xs)|)
    ensures forall i :: 0 <= i < |gs| ==> gs[i] in xs && ns[i] == Count(xs, gs[i])
    ensures forall i, j :: 0 <= i < j < |gs| ==> gs[i] != gs[j] && ns[i] >= ns[j]
    ensures forall i, j :: 0 <= i < j < |gs| && ns[i] == ns[j] ==> FirstIndex(xs, gs[i]) < FirstIndex(xs, gs[j])
    ensures forall g, i :: g in xs && g !in gs && 0 <= i < |gs| ==> Outranks(xs, gs[i], g)
  {
    var r := MostCommon(xs, k);
    gs, ns := Labels(r), Seconds(r);
    MostCommonSpec(xs, k);
    assert forall i :: 0 <= i < |r| ==> gs[i] == r[i].0 && ns[i] == r[i].1;
  }

  lemma MostCommonShape<T>(xs: seq<T>, k: nat)
    ensures var r := MostCommon(xs, k);
      && |r| == Min(k, |Distinct(xs)|)
      && (forall i :: 0 <= i < |r| ==> r[i].0 in xs && r[i].1 == Count(xs, r[i].0))
      && (r == [] <==> k == 0 || xs == [])
  {
    var d := Distinct(xs);
    var t := TopK(xs, d, k);
    var r := MostCommon(xs, k);
    TopKMembers(xs, d, k);
    forall i | 0 <= i < |r| ensures r[i].0 in xs && r[i].1 == Count(xs, r[i].0) {
      assert r[i].0 == t[i] && t[i] in d;
    }
    if xs != [] {
      assert xs[0] in d;
    }
  }

  lemma MostCommonOrder<T>(xs: seq<T>, k: nat)
    ensures var r := MostCommon(xs, k);
      && (forall i, j :: 0 <= i < j < |r| ==> r[i].0 != r[j].0)
      && (forall i, j :: 0 <= i < j < |r| ==> r[i].1 >= r[j].1)
      && (forall i, j :: 0 <= i < j < |r| && r[i].1 == r[j].1 ==>
            FirstIndex(xs, r[i].0) < FirstIndex(xs, r[j].0))
  {
    var d := Distinct(xs);
    var t := TopK(xs, d, k);
    var r := MostCommon(xs, k);
    TopKOrdered(xs, d, k);
    forall i, j | 0 <= i < j < |r|
      ensures r[i].0 != r[j].0 && r[i].1 >= r[j].1
      ensures r[i].1 == r[j].1 ==> FirstIndex(xs, r[i].0) < FirstIndex(xs, r[j].0)
    {
      assert r[i].0 == t[i] && r[j].0 == t[j];
      assert Outranks(xs, t[i], t[j]);
    }
  }

  lemma MostCommonTop<T>(xs: seq<T>, k: nat)
    ensures var r := MostCommon(xs, k);
      forall x, i :: x in xs && x !in Labels(r) && 0 <= i < |r| ==> Outranks(xs, r[i].0, x)
  {
    var d := Distinct(xs);
    var t := TopK(xs, d, k);
    var r := MostCommon(xs, k);
    assert Labels(r) == t;
    TopKExcluded(xs, d, k);
    forall x, i | x in xs && x !in t && 0 <= i < |r| ensures Outranks(xs, r[i].0, x) {
      var p :| 0 <= p < |xs| && xs[p] == x;
      assert xs[p] in d;
      var q :| 0 <= q < |d| && d[q] == x;
      assert r[i].0 == t[i];
    }
  }

  function Sum(s: seq<nat>): nat {
    if s == [] then 0 else s[0] + Sum(s[1..])
  }

  lemma {:induction false} SumAppend(a: seq<nat>, b: seq<nat>)
    ensures Sum(a + b) == Sum(a) + Sum(b)
  {
    if a == [] {
      assert a + b == b;
    } else {
      assert (a + b)[1..] == a[1..] + b;
      SumAppend(a[1..], b);
    }
  }

  /** The count of each key, in key order: a value_counts column. */
  function Counts<T(==)>(xs: seq<T>, keys: seq<T>): (r: seq<nat>)
    ensures |r| == |keys|
  {
    if keys == [] then [] else [Count(xs, keys[0])] + Counts(xs, keys[1..])
  }

  lemma {:induction false} CountsAt<T>(xs: seq<T>, keys: seq<T>, i: nat)
    requires i < |keys|
    ensures Counts(xs, keys)[i] == Count(xs, keys[i])
  {
    if i > 0 {
      CountsAt(xs, keys[1..], i - 1);
    }
  }

  lemma {:induction false} CountsAppend<T>(xs: seq<T>, a: seq<T>, b: seq<T>)
    ensures Counts(xs, a + b) == Counts(xs, a) + Counts(xs, b)
  {
    if a == [] {
      assert a + b == b;
    } else {
      assert (a + b)[1..] == a[1..] + b;
      CountsAppend(xs, a[1..], b);
    }
  }

  lemma {:induction false} SumCountsCons<T>(x: T, xs: seq<T>, keys: seq<T>)
    ensures Sum(Counts([x] + xs, keys)) == Count(keys, x) + Sum(Counts(xs, keys))
  {
    if keys != [] {
      assert ([x] + xs)[1..] == xs;
      SumCountsCons(x, xs, keys[1..]);
    }
  }

  lemma {:induction false} SumCountsOfEmpty<T>(xs: seq<T>, keys: seq<T>)
    requires xs == []
    ensures Sum(Counts(xs, keys)) == 0
  {
    if keys != [] {
      SumCountsOfEmpty(xs, keys[1..]);
    }
  }

  /**
    Counting every value against a duplicate-free list of keys that covers
    them accounts for each element exactly once.
  */
  lemma {:induction false} SumOfCounts<T>(xs: seq<T>, keys: seq<T>)
    requires NoDup(keys)
    requires forall x :: x in xs ==> x in keys
    ensures Sum(Counts(xs, keys)) == |xs|
  {
    if xs == [] {
      SumCountsOfEmpty(xs, keys);
    } else {
      assert xs == [xs[0]] + xs[1..];
      SumCountsCons(xs[0], xs[1..], keys);
      NoDupCount(keys, xs[0]);
      SumOfCounts(xs[1..], keys);
    }
  }

  function Flatten<T>(xss: seq<seq<T>>): seq<T> {
    if xss == [] then [] else xss[0] + Flatten(xss[1..])
  }

  lemma {:induction false} FlattenAppend<T>(a: seq<seq<T>>, b: seq<seq<T>>)
    ensures Flatten(a + b) == Flatten(a) + Flatten(b)
  {
    if a == [] {
      assert a + b == b;
    } else {
      assert (a + b)[1..] == a[1..] + b;
      FlattenAppend(a[1..], b);
    }
  }

  function Lengths<T>(xss: seq<seq<T>>): (r: seq<nat>)
    ensures |r| == |xss|
  {
    seq(|xss|, i requires 0 <= i < |xss| => |xss[i]|)
  }

  /** Flattening keeps every element: its length is the sum of the pieces' lengths. */
  lemma {:induction false} FlattenLength<T>(xss: seq<seq<T>>)
    ensures |Flatten(xss)| == Sum(Lengths(xss))
  {
    if xss != [] {
      FlattenLength(xss[1..]);
      assert Lengths(xss) == [|xss[0]|] + Lengths(xss[1..]);
    }
  }

  /** A value is in the flattening exactly when it is in one of the pieces. */
  lemma {:induction false} FlattenMember<T>(xss: seq<seq<T>>, x: T)
    ensures x in Flatten(xss) <==> exists i :: 0 <= i < |xss| && x in xss[i]
  {
    if xss != [] {
      FlattenMember(xss[1..], x);
      if x in Flatten(xss[1..]) {
        var i :| 0 <= i < |xss[1..]| && x in xss[1..][i];
        assert x in xss[i + 1];
      }
      if exists i :: 0 <= i < |xss| && x in xss[i] {
        var i :| 0 <= i < |xss| && x in xss[i];
        if i > 0 {
          assert x in xss[1..][i - 1];
        }
      }
    }
  }

  /** Counting in a flattening whose last piece is `ys`. */
  lemma FlattenSnocCount<T>(xss: seq<seq<T>>, ys: seq<T>, x: T)
    ensures Count(Flatten(xss + [ys]), x) == Count(Flatten(xss), x) + Count(ys, x)
  {
    FlattenAppend(xss, [ys]);
    assert Flatten([ys]) == ys + Flatten([]);
    assert ys + [] == ys;
    CountAppend(Flatten(xss), ys, x);
  }

  lemma NoDupAppend<T>(a: seq<T>, b: seq<T>)
    requires NoDup(a) && NoDup(b)
    requires forall x :: x in a ==> x !in b
    ensures NoDup(a + b)
  {
    var s := a + b;
    forall i, j | 0 <= i < j < |s| ensures s[i] != s[j] {
      if j >= |a| && i < |a| {
        assert s[i] in a && s[j] == b[j - |a|];
      }
    }
  }
}
