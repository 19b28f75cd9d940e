/** Sequence helpers shared by the layout stages: selecting the positions that
    carry a key, sums over lists of indices (what `d3.sum` computes over an
    accessor), and the stable sort that the engine's `Array.prototype.sort`
    calls stand for. */
module Seqs {

  /** Every index in `s` addresses an element of a collection of size `n`. */
  predicate InRange(s: seq<nat>, n: nat) {
    forall i :: 0 <= i < |s| ==> s[i] < n
  }

  /** Strictly ascending, hence free of duplicates. */
  predicate Increasing(s: seq<nat>) {
    forall i, j :: 0 <= i < j < |s| ==> s[i] < s[j]
  }

  predicate NoDup(s: seq<nat>) {
    forall i, j :: 0 <= i < j < |s| ==> s[i] != s[j]
  }

  /** The list 0, 1, ..., n - 1. */
  function Range(n: nat): (r: seq<nat>)
    ensures |r| == n
    ensures forall i :: 0 <= i < n ==> r[i] == i
  {
    if n == 0 then [] else Range(n - 1) + [n - 1]
  }

  /** The positions j < k at which `keys` holds `v`, in ascending order. */
  function IndicesOf(keys: seq<nat>, v: nat, k: nat): (r: seq<nat>)
    requires k <= |keys|
    ensures forall i :: 0 <= i < |r| ==> r[i] < k && keys[r[i]] == v
  {
    if k == 0 then [] else IndicesOf(keys, v, k - 1) + (if keys[k - 1] == v then [k - 1] else [])
  }

  /** No position holding `v` is missed. */
  lemma {:induction false} IndicesOfComplete(keys: seq<nat>, v: nat, k: nat, j: nat)
    requires k <= |keys| && j < k && keys[j] == v
    ensures j in IndicesOf(keys, v, k)
  {
    if j < k - 1 {
      IndicesOfComplete(keys, v, k - 1, j);
    }
  }

  /** The positions come in ascending order, each once. */
  lemma {:induction false} IndicesOfIncreasing(keys: seq<nat>, v: nat, k: nat)
    requires k <= |keys|
    ensures Increasing(IndicesOf(keys, v, k))
  {
    if k > 0 {
      IndicesOfIncreasing(keys, v, k - 1);
    }
  }

  /** The i-th selected position w is preceded by exactly i positions that
      hold `v`: the list up to w is the first i entries. */
  lemma {:induction false} IndicesOfPrefix(keys: seq<nat>, v: nat, k: nat, i: nat)
    requires k <= |keys| && i < |IndicesOf(keys, v, k)|
    ensures IndicesOf(keys, v, IndicesOf(keys, v, k)[i]) == IndicesOf(keys, v, k)[..i]
  {
    var prev := IndicesOf(keys, v, k - 1);
    if i < |prev| {
      IndicesOfPrefix(keys, v, k - 1, i);
      assert IndicesOf(keys, v, k)[..i] == prev[..i];
    } else {
      assert IndicesOf(keys, v, k)[..i] == prev;
    }
  }

  lemma IncreasingNoDup(s: seq<nat>)
    requires Increasing(s)
    ensures NoDup(s)
  {
  }

  /** vals[js[0]] + vals[js[1]] + ...: the sum of an accessor over a list. */
  function SumAt(vals: seq<real>, js: seq<nat>): real
    requires InRange(js, |vals|)
  {
    if js == [] then 0.0 else vals[js[0]] + SumAt(vals, js[1..])
  }

  lemma {:induction false} SumAtAppend(vals: seq<real>, a: seq<nat>, b: seq<nat>)
    requires InRange(a, |vals|) && InRange(b, |vals|)
    ensures SumAt(vals, a + b) == SumAt(vals, a) + SumAt(vals, b)
  {
    if a == [] {
      assert a + b == b;
    } else {
      assert (a + b)[1..] == a[1..] + b;
      SumAtAppend(vals, a[1..], b);
    }
  }

  /** Extending a list by one index adds that entry: the running total of a
      left-to-right accumulation. */
  lemma SumAtSnoc(vals: seq<real>, a: seq<nat>, x: nat)
    requires InRange(a, |vals|) && x < |vals|
    ensures SumAt(vals, a + [x]) == SumAt(vals, a) + vals[x]
  {
    SumAtAppend(vals, a, [x]);
  }

  /** The sum over the first i + 1 entries of a list adds entry i to the
      sum over the first i. */
  lemma SumAtPrefixStep(vals: seq<real>, js: seq<nat>, i: nat)
    requires InRange(js, |vals|) && i < |js|
    ensures SumAt(vals, js[..i + 1]) == SumAt(vals, js[..i]) + vals[js[i]]
  {
    assert js[..i + 1] == js[..i] + [js[i]];
    SumAtSnoc(vals, js[..i], js[i]);
  }

  /** A prefix one longer is the shorter prefix and one more element. */
  lemma TakeStep(s: seq<nat>, i: nat)
    requires i < |s|
    ensures s[..i + 1] == s[..i] + [s[i]]
  {
  }

  lemma AppendPrefixStep(a: seq<nat>, b: seq<nat>, i: nat)
    requires i < |b|
    ensures a + b[..i + 1] == (a + b[..i]) + [b[i]]
  {
    assert b[..i + 1] == b[..i] + [b[i]];
  }

  /** A sum does not depend on the order of its terms. */
  lemma {:induction false} SumAtPerm(vals: seq<real>, a: seq<nat>, b: seq<nat>)
    requires InRange(a, |vals|) && InRange(b, |vals|)
    requires multiset(a) == multiset(b)
    ensures SumAt(vals, a) == SumAt(vals, b)
    decreases |a|
  {
    if a == [] {
      assert |b| == |multiset(b)| == 0;
    } else {
      var x := a[0];
      assert x in multiset(b);
      var k :| 0 <= k < |b| && b[k] == x;
      var rest := b[..k] + b[k + 1..];
      RemoveMultiset(a, b, k);
      SumAtRemove(vals, b, k);
      SumAtPerm(vals, a[1..], rest);
    }
  }

  lemma RemoveMultiset(a: seq<nat>, b: seq<nat>, k: nat)
    requires a != [] && k < |b| && b[k] == a[0] && multiset(a) == multiset(b)
    ensures multiset(a[1..]) == multiset(b[..k] + b[k + 1..])
  {
    var x := a[0];
    assert a == [x] + a[1..];
    assert b == b[..k] + [x] + b[k + 1..];
    assert multiset(a[1..]) == multiset(a) - multiset{x};
    assert multiset(b[..k] + b[k + 1..]) == multiset(b) - multiset{x};
  }

  lemma SumAtRemove(vals: seq<real>, b: seq<nat>, k: nat)
    requires InRange(b, |vals|) && k < |b|
    ensures SumAt(vals, b) == vals[b[k]] + SumAt(vals, b[..k] + b[k + 1..])
  {
    assert b == b[..k] + ([b[k]] + b[k + 1..]);
    SumAtAppend(vals, b[..k], [b[k]] + b[k + 1..]);
    SumAtAppend(vals, b[..k], b[k + 1..]);
  }

  lemma {:induction false} SumAtNonNegative(vals: seq<real>, js: seq<nat>)
    requires InRange(js, |vals|)
    requires forall i :: 0 <= i < |js| ==> vals[js[i]] >= 0.0
    ensures SumAt(vals, js) >= 0.0
  {
    if js != [] {
      SumAtNonNegative(vals, js[1..]);
    }
  }

  /** Summing entries that are all `k` times other entries gives `k` times the sum. */
  lemma {:induction false} SumAtScaled(vals: seq<real>, scaled: seq<real>, k: real, js: seq<nat>)
    requires InRange(js, |vals|) && InRange(js, |scaled|)
    requires forall i :: 0 <= i < |js| ==> scaled[js[i]] == vals[js[i]] * k
    ensures SumAt(scaled, js) == SumAt(vals, js) * k
  {
    if js != [] {
      SumAtScaled(vals, scaled, k, js[1..]);
    }
  }

  /** Entry by entry products of two accessors. */
  function Weighed(cs: seq<real>, ws: seq<real>): (r: seq<real>)
    requires |cs| == |ws|
    ensures |r| == |ws|
    ensures forall j :: 0 <= j < |ws| ==> r[j] == cs[j] * ws[j]
  {
    seq(|ws|, j requires 0 <= j < |ws| => cs[j] * ws[j])
  }

  /** `sum` lies between `lo` and `hi` times `total`. */
  predicate Spans(total: real, sum: real, lo: real, hi: real) {
    total * lo <= sum <= total * hi
  }

  /** A sum of non-negative weights times factors in [lo, hi] lies between
      lo and hi times the total weight. The postcondition is stated as the
      `Spans` atom so that callers match it without arithmetic. */
  lemma {:induction false} WeighedBetween(cs: seq<real>, ws: seq<real>, js: seq<nat>, lo: real, hi: real)
    requires |cs| == |ws| && InRange(js, |ws|)
    requires forall i :: 0 <= i < |js| ==> ws[js[i]] >= 0.0 && lo <= cs[js[i]] <= hi
    ensures Spans(SumAt(ws, js), SumAt(Weighed(cs, ws), js), lo, hi) == true
  {
    if js != [] {
      WeighedBetween(cs, ws, js[1..], lo, hi);
      SpansStep(cs[js[0]], ws[js[0]], SumAt(ws, js[1..]), SumAt(Weighed(cs, ws), js[1..]),
        SumAt(ws, js), SumAt(Weighed(cs, ws), js), lo, hi);
    }
  }

  /** One step of `WeighedBetween`, on the numbers alone. */
  lemma SpansStep(c: real, w: real, restW: real, rest: real, total: real, sum: real, lo: real, hi: real)
    requires w >= 0.0 && lo <= c <= hi && Spans(restW, rest, lo, hi)
    requires total == w + restW && sum == c * w + rest
    ensures Spans(total, sum, lo, hi) == true
  {
    assert (c - lo) * w >= 0.0;
    assert (hi - c) * w >= 0.0;
    assert total * lo == w * lo + restW * lo;
    assert total * hi == w * hi + restW * hi;
  }

  /** Two accessors that agree on every listed index have the same sum. */
  lemma {:induction false} SumAtSameEntries(vals: seq<real>, other: seq<real>, js: seq<nat>)
    requires InRange(js, |vals|) && InRange(js, |other|)
    requires forall i :: 0 <= i < |js| ==> other[js[i]] == vals[js[i]]
    ensures SumAt(other, js) == SumAt(vals, js)
  {
    if js != [] {
      SumAtSameEntries(vals, other, js[1..]);
    }
  }

  /** The list is in ascending order of `keys` (ties allowed). */
  predicate SortedBy(keys: seq<real>, s: seq<nat>)
    requires InRange(s, |keys|)
  {
    forall i, j :: 0 <= i < j < |s| ==> keys[s[i]] <= keys[s[j]]
  }

  /** Places `x` before the first entry whose key is not below its own. */
  function Insert(keys: seq<real>, x: nat, s: seq<nat>): (r: seq<nat>)
    requires x < |keys| && InRange(s, |keys|)
    ensures multiset(r) == multiset(s) + multiset{x}
    ensures InRange(r, |keys|)
  {
    if s == [] || keys[x] <= keys[s[0]] then [x] + s
    else
      assert s == [s[0]] + s[1..];
      [s[0]] + Insert(keys, x, s[1..])
  }

  /** Insertion sort by `keys`; stable. It stands for the comparator sorts
      of the original, whose stability is not promised there. */
  function SortBy(keys: seq<real>, s: seq<nat>): (r: seq<nat>)
    requires InRange(s, |keys|)
    ensures multiset(r) == multiset(s)
    ensures InRange(r, |keys|)
  {
    if s == [] then []
    else
      assert s == [s[0]] + s[1..];
      Insert(keys, s[0], SortBy(keys, s[1..]))
  }

  lemma {:induction false} InsertSorted(keys: seq<real>, x: nat, s: seq<nat>)
    requires x < |keys| && InRange(s, |keys|) && SortedBy(keys, s)
    ensures SortedBy(keys, Insert(keys, x, s))
  {
    if s != [] && keys[x] > keys[s[0]] {
      InsertSorted(keys, x, s[1..]);
      var r := Insert(keys, x, s);
      forall i | 0 < i < |r|
        ensures keys[s[0]] <= keys[r[i]]
      {
        assert r[i] in multiset(r[1..]);
        assert r[1..] == Insert(keys, x, s[1..]);
        assert r[i] in multiset(s[1..]) + multiset{x};
        if r[i] != x {
          assert r[i] in s[1..];
        }
      }
    }
  }

  /** The sort really sorts. */
  lemma {:induction false} SortBySorted(keys: seq<real>, s: seq<nat>)
    requires InRange(s, |keys|)
    ensures SortedBy(keys, SortBy(keys, s))
  {
    if s != [] {
      SortBySorted(keys, s[1..]);
      InsertSorted(keys, s[0], SortBy(keys, s[1..]));
    }
  }

  /** A list already in order is left as it is, so sorting twice changes
      nothing the second time. */
  lemma {:induction false} SortByOfSorted(keys: seq<real>, s: seq<nat>)
    requires InRange(s, |keys|) && SortedBy(keys, s)
    ensures SortBy(keys, s) == s
  {
    if s != [] {
      SortByOfSorted(keys, s[1..]);
    }
  }

  /** Only the keys of the listed entries matter to the sort. */
  lemma {:induction false} SortBySameKeys(keys: seq<real>, other: seq<real>, s: seq<nat>)
    requires InRange(s, |keys|) && InRange(s, |other|)
    requires forall i :: 0 <= i < |s| ==> other[s[i]] == keys[s[i]]
    ensures SortBy(other, s) == SortBy(keys, s)
  {
    if s != [] {
      SortBySameKeys(keys, other, s[1..]);
      var t := SortBy(keys, s[1..]);
      forall i | 0 <= i < |t|
        ensures t[i] < |other| && other[t[i]] == keys[t[i]]
      {
        assert t[i] in multiset(s[1..]);
        var k :| 0 <= k < |s[1..]| && s[1..][k] == t[i];
        assert s[k + 1] == t[i];
      }
      InsertSameKeys(keys, other, s[0], t);
    }
  }

  lemma {:induction false} InsertSameKeys(keys: seq<real>, other: seq<real>, x: nat, t: seq<nat>)
    requires x < |keys| && x < |other| && other[x] == keys[x]
    requires InRange(t, |keys|) && InRange(t, |other|)
    requires forall i :: 0 <= i < |t| ==> other[t[i]] == keys[t[i]]
    ensures Insert(other, x, t) == Insert(keys, x, t)
  {
    if t != [] {
      InsertSameKeys(keys, other, x, t[1..]);
    }
  }

  /** A permutation of a duplicate-free list is duplicate-free. */
  lemma NoDupPerm(a: seq<nat>, b: seq<nat>)
    requires NoDup(a) && multiset(a) == multiset(b)
    ensures NoDup(b)
  {
    forall i, j | 0 <= i < j < |b|
      ensures b[i] != b[j]
    {
      if b[i] == b[j] {
        var x := b[i];
        assert b == b[..i] + [x] + b[i + 1..j] + [x] + b[j + 1..];
        assert multiset(b)[x] >= 2;
        NoDupCount(a, x);
        assert false;
      }
    }
  }

  lemma {:induction false} NoDupCount(a: seq<nat>, x: nat)
    requires NoDup(a)
    ensures multiset(a)[x] <= 1
  {
    if a != [] {
      assert a == [a[0]] + a[1..];
      NoDupCount(a[1..], x);
      if a[0] == x {
        assert x !in a[1..];
      }
    }
  }
}
