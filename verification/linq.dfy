/** The LINQ operators the core applies to point lists: `Select`, `SelectMany`,
    `Sum`, `Min`, `Max`, `Average` and `Distinct`, each over immutable sequences. */
module Linq {

  predicate NoDuplicates<T(==)>(s: seq<T>) {
    forall i, j :: 0 <= i < j < |s| ==> s[i] != s[j]
  }

  /** `s.Select(f)`. */
  function Select<A, B>(s: seq<A>, f: A -> B): (r: seq<B>)
    ensures |r| == |s|
    ensures forall i :: 0 <= i < |s| ==> r[i] == f(s[i])
  {
    seq(|s|, i requires 0 <= i < |s| => f(s[i]))
  }

  lemma SelectAppend<A, B>(s: seq<A>, t: seq<A>, f: A -> B)
    ensures Select(s + t, f) == Select(s, f) + Select(t, f)
  {
  }

  /** `s.Where((x, idx) => keep(x, idx))`: the elements whose value and position
      pass the test, in order. */
  function WhereIndexed<T>(s: seq<T>, keep: (T, nat) -> bool): (r: seq<T>)
    ensures |r| <= |s|
  {
    if |s| == 0 then []
    else
      var n := |s| - 1;
      WhereIndexed(s[..n], keep) + (if keep(s[n], n) then [s[n]] else [])
  }

  /** A test that keeps exactly the positions below `m` keeps the first `m`
      elements (all of them when there are fewer). */
  lemma {:induction false} WhereIndexedPrefix<T>(s: seq<T>, keep: (T, nat) -> bool, m: nat)
    requires forall x, i: nat :: i < |s| ==> (keep(x, i) <==> i < m)
    ensures WhereIndexed(s, keep) == if m <= |s| then s[..m] else s
  {
    if |s| > 0 {
      var n := |s| - 1;
      WhereIndexedPrefix(s[..n], keep, m);
      var w := WhereIndexed(s[..n], keep);
      assert WhereIndexed(s, keep) == w + (if keep(s[n], n) then [s[n]] else []);
      if m <= n {
        assert !keep(s[n], n);
        assert w == s[..n][..m] == s[..m];
      } else {
        assert keep(s[n], n);
        assert w + [s[n]] == s[..n] + [s[n]] == s;
      }
    }
  }

  /** `s.Where(keep)`: the elements that pass the test, in order. */
  function Where<T>(s: seq<T>, keep: T -> bool): (r: seq<T>)
    ensures |r| <= |s|
    ensures forall i :: 0 <= i < |r| ==> keep(r[i])
  {
    if |s| == 0 then []
    else
      var n := |s| - 1;
      Where(s[..n], keep) + (if keep(s[n]) then [s[n]] else [])
  }

  /** `Where` keeps an element exactly when it is in the input and passes. */
  lemma {:induction false} WhereMembers<T>(s: seq<T>, keep: T -> bool)
    ensures forall x :: x in Where(s, keep) <==> x in s && keep(x)
  {
    if |s| > 0 {
      var n := |s| - 1;
      WhereMembers(s[..n], keep);
      assert s == s[..n] + [s[n]];
    }
  }

  /** Total number of elements of a sequence of sequences. */
  function TotalLength<T>(ss: seq<seq<T>>): nat {
    if |ss| == 0 then 0 else TotalLength(ss[..|ss| - 1]) + |ss[|ss| - 1]|
  }

  lemma {:induction false} TotalLengthMonotone<T>(ss: seq<seq<T>>, k: nat)
    requires k <= |ss|
    ensures TotalLength(ss[..k]) <= TotalLength(ss)
    decreases |ss|
  {
    if k < |ss| {
      var n := |ss| - 1;
      assert ss[..n][..k] == ss[..k];
      TotalLengthMonotone(ss[..n], k);
    } else {
      assert ss[..k] == ss;
    }
  }

  /** The block of sequence `k` ends no later than the whole concatenation. */
  lemma BlockFits<T>(ss: seq<seq<T>>, k: nat)
    requires k < |ss|
    ensures TotalLength(ss[..k]) + |ss[k]| <= TotalLength(ss)
  {
    assert ss[..k + 1][..k] == ss[..k];
    TotalLengthMonotone(ss, k + 1);
  }

  /** `ss.SelectMany(s => s)`: the sequences one after another. */
  function Flatten<T>(ss: seq<seq<T>>): (r: seq<T>)
    ensures |r| == TotalLength(ss)
  {
    if |ss| == 0 then [] else Flatten(ss[..|ss| - 1]) + ss[|ss| - 1]
  }

  /** Element `i` of sequence `k` sits in the concatenation right after the
      elements of the sequences before it. */
  lemma {:induction false} FlattenIndex<T>(ss: seq<seq<T>>, k: nat, i: nat)
    requires k < |ss| && i < |ss[k]|
    ensures TotalLength(ss[..k]) + i < |Flatten(ss)|
    ensures Flatten(ss)[TotalLength(ss[..k]) + i] == ss[k][i]
    decreases |ss|
  {
    var n := |ss| - 1;
    if k == n {
      assert ss[..n] == ss[..k];
    } else {
      assert ss[..n][..k] == ss[..k];
      FlattenIndex(ss[..n], k, i);
      BlockFits(ss[..n], k);
    }
  }

  lemma {:induction false} FlattenAppend<T>(a: seq<seq<T>>, b: seq<seq<T>>)
    ensures Flatten(a + b) == Flatten(a) + Flatten(b)
    decreases |b|
  {
    if |b| > 0 {
      var n := |b| - 1;
      assert (a + b)[..|a + b| - 1] == a + b[..n];
      FlattenAppend(a, b[..n]);
    } else {
      assert a + b == a;
    }
  }

  /** Every element of the concatenation comes from one of the sequences. */
  lemma {:induction false} FlattenMember<T>(ss: seq<seq<T>>, x: T)
    requires x in Flatten(ss)
    ensures exists k, i :: 0 <= k < |ss| && 0 <= i < |ss[k]| && ss[k][i] == x
    decreases |ss|
  {
    var n := |ss| - 1;
    if x in ss[n] {
      var i :| 0 <= i < |ss[n]| && ss[n][i] == x;
      assert ss[n][i] == x;
    } else {
      FlattenMember(ss[..n], x);
      var k, i :| 0 <= k < n && 0 <= i < |ss[..n][k]| && ss[..n][k][i] == x;
      assert ss[k][i] == x;
    }
  }

  /** An element is in the concatenation exactly when it is in one of the
      sequences. */
  lemma FlattenMembers<T>(ss: seq<seq<T>>)
    ensures forall x :: x in Flatten(ss) <==> exists k :: 0 <= k < |ss| && x in ss[k]
  {
    forall x | x in Flatten(ss)
      ensures exists k :: 0 <= k < |ss| && x in ss[k]
    {
      FlattenMember(ss, x);
    }
    forall x, k | 0 <= k < |ss| && x in ss[k]
      ensures x in Flatten(ss)
    {
      var i :| 0 <= i < |ss[k]| && ss[k][i] == x;
      FlattenIndex(ss, k, i);
    }
  }

  /** A relation that holds position by position between three sequences
      still does after each is extended by sequences it holds between. */
  lemma PointwiseConcat<A, B, C>(a: seq<A>, a': seq<A>, b: seq<B>, b': seq<B>, c: seq<C>, c': seq<C>,
                                 p: (A, B, C) -> bool)
    requires |a| == |b| == |c| && |a'| == |b'| == |c'|
    requires forall k :: 0 <= k < |a| ==> p(a[k], b[k], c[k])
    requires forall k :: 0 <= k < |a'| ==> p(a'[k], b'[k], c'[k])
    ensures forall k :: 0 <= k < |a + a'| ==> p((a + a')[k], (b + b')[k], (c + c')[k])
  {
    forall k | |a| <= k < |a + a'|
      ensures p((a + a')[k], (b + b')[k], (c + c')[k])
    {
      var k' := k - |a|;
      assert p(a'[k'], b'[k'], c'[k']);
    }
  }

  function Sum(xs: seq<real>): real {
    if |xs| == 0 then 0.0 else Sum(xs[..|xs| - 1]) + xs[|xs| - 1]
  }

  predicate AllPositive(xs: seq<real>) {
    forall i :: 0 <= i < |xs| ==> 0.0 < xs[i]
  }

  /** The sum of the first `i + 1` elements adds element `i` to the first `i`. */
  lemma SumPrefixStep(xs: seq<real>, i: nat)
    requires i < |xs|
    ensures Sum(xs[..i + 1]) == Sum(xs[..i]) + xs[i]
  {
    assert xs[..i + 1][..i] == xs[..i];
  }

  /** Over positive values, a longer prefix has a strictly larger sum, and no
      prefix sum is negative. */
  lemma {:induction false} PositivePrefixSums(xs: seq<real>, i: nat, j: nat)
    requires AllPositive(xs) && i < j <= |xs|
    ensures 0.0 <= Sum(xs[..i]) < Sum(xs[..j])
    decreases j
  {
    SumPrefixStep(xs, j - 1);
    if i < j - 1 {
      PositivePrefixSums(xs, i, j - 1);
    } else if i > 0 {
      PositivePrefixSums(xs, 0, i);
      assert xs[..0] == [];
    } else {
      assert xs[..0] == [];
    }
  }

  /** Summing `(x - a) * k` over `s` is summing `s`, less `a` once per element,
      times `k`. */
  lemma {:induction false} SumOfAffine(s: seq<real>, t: seq<real>, a: real, k: real)
    requires |t| == |s|
    requires forall i :: 0 <= i < |s| ==> t[i] == (s[i] - a) * k
    ensures Sum(t) == (Sum(s) - |s| as real * a) * k
  {
    if |s| > 0 {
      var n := |s| - 1;
      SumOfAffine(s[..n], t[..n], a, k);
      assert (Sum(s[..n]) - n as real * a) * k + (s[n] - a) * k
          == (Sum(s[..n]) + s[n] - (n + 1) as real * a) * k;
    }
  }

  /** `Enumerable.Average`: defined only for a non-empty sequence (it throws otherwise). */
  function Average(xs: seq<real>): (r: real)
    requires |xs| > 0
    ensures r * |xs| as real == Sum(xs)
  {
    Sum(xs) / |xs| as real
  }

  /** Values measured from their average, then scaled, sum to zero. */
  lemma SumAroundAverage(s: seq<real>, t: seq<real>, k: real)
    requires |t| == |s| > 0
    requires forall i :: 0 <= i < |s| ==> t[i] == (s[i] - Average(s)) * k
    ensures Sum(t) == 0.0
  {
    SumOfAffine(s, t, Average(s), k);
    assert Sum(s) - |s| as real * Average(s) == 0.0;
  }

  /** `Enumerable.Min` on a non-empty sequence: a lower bound that is attained. */
  function MinOf(xs: seq<real>): (r: real)
    requires |xs| > 0
    ensures forall i :: 0 <= i < |xs| ==> r <= xs[i]
    ensures r in xs
  {
    if |xs| == 1 then xs[0]
    else
      var m := MinOf(xs[..|xs| - 1]);
      if xs[|xs| - 1] < m then xs[|xs| - 1] else m
  }

  /** `Enumerable.Max` on a non-empty sequence: an upper bound that is attained. */
  function MaxOf(xs: seq<real>): (r: real)
    requires |xs| > 0
    ensures forall i :: 0 <= i < |xs| ==> xs[i] <= r
    ensures r in xs
  {
    if |xs| == 1 then xs[0]
    else
      var m := MaxOf(xs[..|xs| - 1]);
      if xs[|xs| - 1] > m then xs[|xs| - 1] else m
  }

  /** Position of the first occurrence of `x` in `s`. */
  function FirstIndex<T(==)>(s: seq<T>, x: T): (k: nat)
    requires x in s
    ensures k < |s| && s[k] == x && x !in s[..k]
  {
    if s[0] == x then 0
    else
      var k' := FirstIndex(s[1..], x);
      assert s[..k' + 1] == [s[0]] + s[1..][..k'];
      k' + 1
  }

  /** A first occurrence inside a prefix is the first occurrence in the whole. */
  lemma FirstIndexOfPrefix<T>(s: seq<T>, n: nat, x: T)
    requires n <= |s| && x in s[..n]
    ensures FirstIndex(s, x) == FirstIndex(s[..n], x)
  {
    var k := FirstIndex(s, x);
    var k' := FirstIndex(s[..n], x);
    assert s[k'] == s[..n][k'];
    assert forall m :: 0 <= m < k ==> s[m] != x by {
      forall m | 0 <= m < k ensures s[m] != x {
        assert s[m] == s[..k][m];
      }
    }
    assert forall m :: 0 <= m < k' ==> s[m] != x by {
      forall m | 0 <= m < k' ensures s[m] != x {
        assert s[m] == s[..n][..k'][m];
      }
    }
  }

  /** `s.Distinct()`: every element at its first occurrence, later repeats dropped. */
  function Distinct<T(==)>(s: seq<T>): (r: seq<T>)
    ensures NoDuplicates(r)
    ensures forall i :: 0 <= i < |s| ==> s[i] in r
    ensures forall i :: 0 <= i < |r| ==> r[i] in s
    ensures |r| <= |s|
  {
    if |s| == 0 then []
    else
      var n := |s| - 1;
      assert s == s[..n] + [s[n]];
      var d := Distinct(s[..n]);
      if s[n] in d then d else d + [s[n]]
  }

  /** The elements of `d`, all taken from `s`, appear in the order of their first
      occurrence in `s`. */
  predicate InFirstOccurrenceOrder<T(==)>(s: seq<T>, d: seq<T>)
    requires forall i :: 0 <= i < |d| ==> d[i] in s
  {
    forall i, j :: 0 <= i < j < |d| ==> FirstIndex(s, d[i]) < FirstIndex(s, d[j])
  }

  /** `Distinct` keeps elements in the order of their first occurrence. */
  lemma {:induction false} DistinctKeepsFirstOccurrenceOrder<T>(s: seq<T>)
    ensures InFirstOccurrenceOrder(s, Distinct(s))
  {
    if |s| > 0 {
      DistinctKeepsFirstOccurrenceOrder(s[..|s| - 1]);
      forall i, j | 0 <= i < j < |Distinct(s)|
        ensures FirstIndex(s, Distinct(s)[i]) < FirstIndex(s, Distinct(s)[j])
      {
        DistinctOrderStep(s, i, j);
      }
    }
  }

  /** One pair of `DistinctKeepsFirstOccurrenceOrder`, given the order of the
      shorter input. */
  lemma DistinctOrderStep<T>(s: seq<T>, i: nat, j: nat)
    requires |s| > 0 && i < j < |Distinct(s)|
    requires InFirstOccurrenceOrder(s[..|s| - 1], Distinct(s[..|s| - 1]))
    ensures FirstIndex(s, Distinct(s)[i]) < FirstIndex(s, Distinct(s)[j])
  {
    var n := |s| - 1;
    var d := Distinct(s[..n]);
    var r := Distinct(s);
    assert r == d || (s[n] !in d && r == d + [s[n]]);
    assert r[i] == d[i] && d[i] in s[..n];
    FirstIndexOfPrefix(s, n, r[i]);
    if j < |d| {
      assert r[j] == d[j] && d[j] in s[..n];
      assert FirstIndex(s[..n], d[i]) < FirstIndex(s[..n], d[j]);
      FirstIndexOfPrefix(s, n, r[j]);
    } else {
      assert r[j] == s[n];
      FirstIndexOfNew(s);
    }
  }

  /** An element not seen before its position first occurs there. */
  lemma FirstIndexOfNew<T>(s: seq<T>)
    requires |s| > 0 && s[|s| - 1] !in Distinct(s[..|s| - 1])
    ensures FirstIndex(s, s[|s| - 1]) == |s| - 1
  {
    var n := |s| - 1;
    DistinctSameElements(s[..n]);
    var k := FirstIndex(s, s[n]);
    PrefixMember(s, n, k);
    PrefixMember(s, k, n);
  }

  /** An element before position `j` is in the prefix of length `j`. */
  lemma PrefixMember<T>(s: seq<T>, i: nat, j: nat)
    ensures i < j <= |s| ==> s[i] in s[..j]
  {
    if i < j <= |s| {
      assert s[..j][i] == s[i];
    }
  }

  /** `Distinct` keeps exactly the elements of its input. */
  lemma DistinctSameElements<T>(s: seq<T>)
    ensures forall x :: x in Distinct(s) <==> x in s
  {
    forall x | x in s
      ensures x in Distinct(s)
    {
      var i :| 0 <= i < |s| && s[i] == x;
    }
  }

  /** Appending an element that is already present does not change `Distinct`. */
  lemma DistinctIgnoresRepeat<T>(s: seq<T>, x: T)
    requires x in s
    ensures Distinct(s + [x]) == Distinct(s)
  {
    assert (s + [x])[..|s|] == s;
  }
}
