/** K-best sampling: the k smallest of all measurements taken, kept in order as they come in. */
module Samplers {

  ghost predicate Sorted(s: seq<real>) {
    forall i, j {:trigger s[i], s[j]} :: 0 <= i < j < |s| ==> s[i] <= s[j]
  }

  /** v put into sorted t, behind all elements that do not exceed it. */
  function Insert(t: seq<real>, v: real): seq<real> {
    if t == [] || t[|t| - 1] <= v then t + [v]
    else Insert(t[..|t| - 1], v) + [t[|t| - 1]]
  }

  /** All samples in ascending order. */
  function Sort(s: seq<real>): seq<real> {
    if s == [] then [] else Insert(Sort(s[..|s| - 1]), s[|s| - 1])
  }

  lemma InsertStep(t: seq<real>, v: real)
    ensures t == [] || t[|t| - 1] <= v ==> Insert(t, v) == t + [v]
    ensures t != [] && t[|t| - 1] > v ==> Insert(t, v) == Insert(t[..|t| - 1], v) + [t[|t| - 1]]
  {
  }

  lemma {:induction false} InsertKeeps(t: seq<real>, v: real)
    ensures multiset(Insert(t, v)) == multiset(t) + multiset{v} && |Insert(t, v)| == |t| + 1
  {
    hide Insert;
    InsertStep(t, v);
    if t != [] && t[|t| - 1] > v {
      var n := |t| - 1;
      InsertKeeps(t[..n], v);
      assert t == t[..n] + [t[n]];
    }
  }

  lemma {:induction false} InsertSorts(t: seq<real>, v: real)
    requires Sorted(t)
    ensures Sorted(Insert(t, v)) && |Insert(t, v)| == |t| + 1
    ensures Insert(t, v)[|t|] == if t == [] || t[|t| - 1] <= v then v else t[|t| - 1]
  {
    hide Insert;
    InsertKeeps(t, v);
    InsertStep(t, v);
    if t != [] && t[|t| - 1] > v {
      var n := |t| - 1;
      var u := t[..n];
      InsertSorts(u, v);
      SortedPlus(Insert(u, v), t[n]);
    } else {
      SortedPlus(t, v);
    }
  }

  lemma SortedPlus(t: seq<real>, x: real)
    requires Sorted(t) && (t == [] || t[|t| - 1] <= x)
    ensures Sorted(t + [x])
  {
    var w := t + [x];
    forall i, j | 0 <= i < j < |w| ensures w[i] <= w[j] {
      if j == |t| { assert t[i] <= t[|t| - 1]; }
    }
  }

  lemma SortStep(s: seq<real>)
    ensures s == [] ==> Sort(s) == [] && Sorted([])
    ensures s != [] ==> Sort(s) == Insert(Sort(s[..|s| - 1]), s[|s| - 1])
  {
  }

  /** Sort orders the samples and loses none. */
  lemma {:induction false} SortSorts(s: seq<real>)
    ensures Sorted(Sort(s)) && multiset(Sort(s)) == multiset(s) && |Sort(s)| == |s|
  {
    hide Insert, Sorted;
    SortStep(s);
    if s != [] {
      var n := |s| - 1;
      SortSorts(s[..n]);
      InsertSorts(Sort(s[..n]), s[n]);
      InsertKeeps(Sort(s[..n]), s[n]);
      assert s == s[..n] + [s[n]];
    }
  }

  /** The place Insert finds: nothing larger before it, only larger elements behind it. */
  lemma {:induction false} InsertAt(t: seq<real>, v: real, pos: nat)
    requires pos <= |t| && (pos == 0 || t[pos - 1] <= v)
    requires forall j {:trigger t[j]} :: pos <= j < |t| ==> t[j] > v
    ensures Insert(t, v) == t[..pos] + [v] + t[pos..]
  {
    var n := |t| - 1;
    if t != [] && t[n] > v {
      var u := t[..n];
      InsertAt(u, v, pos);
      assert u[..pos] == t[..pos];
      assert t[pos..] == u[pos..] + [t[n]];
    } else {
      assert pos == |t|;
      assert t[..pos] == t && t[pos..] == [];
    }
  }

  lemma SortedParts(t: seq<real>, i: nat, n: nat)
    requires Sorted(t) && i <= n < |t|
    ensures t[i] <= t[n] && Sorted(t[..n])
  {
  }

  /** A prefix of sorted t takes v in exactly as t does, if v belongs into it. */
  lemma {:induction false} InsertPrefix(t: seq<real>, v: real, k: nat)
    requires Sorted(t) && 0 < k <= |t|
    ensures |Insert(t, v)| == |t| + 1
    ensures v < t[k - 1] ==> Insert(t, v)[..k] == Insert(t[..k - 1], v)
    ensures v >= t[k - 1] ==> Insert(t, v)[..k] == t[..k]
    decreases |t|
  {
    hide Insert, Sorted;
    var n := |t| - 1;
    SortedParts(t, k - 1, n);
    InsertKeeps(t, v);
    InsertKeeps(t[..k - 1], v);
    InsertStep(t, v);
    if t[n] > v {
      var u := t[..n];
      InsertKeeps(u, v);
      if k <= n {
        InsertPrefix(u, v, k);
        assert Insert(t, v)[..k] == Insert(u, v)[..k];
        assert u[..k - 1] == t[..k - 1] && u[..k] == t[..k];
      }
    }
  }

  /** The first n samples in order are n smallest ones: the others, at least as large, are the rest. */
  lemma PrefixIsSmallest(s: seq<real>, n: nat)
    requires n <= |s|
    ensures |Sort(s)| == |s|
    ensures multiset(Sort(s)[..n]) + multiset(Sort(s)[n..]) == multiset(s)
    ensures forall x, y :: x in Sort(s)[..n] && y in Sort(s)[n..] ==> x <= y
  {
    SortSorts(s);
    var t := Sort(s);
    assert t == t[..n] + t[n..];
    forall x, y | x in t[..n] && y in t[n..] ensures x <= y {
      var i :| 0 <= i < n && t[i] == x;
      var j :| 0 <= j < |t| - n && t[n..][j] == y;
      assert t[n + j] == y;
    }
  }

  lemma InsertIntoEmpty(v: real)
    ensures Insert([], v) == [v]
  {
  }

  /** How a new sample changes the first k in order. */
  lemma KeepSmallest(s: seq<real>, v: real, k: nat)
    requires k >= 1
    ensures |Sort(s)| == |s| && |Sort(s + [v])| == |s| + 1
    ensures |s| < k ==> Sort(s + [v]) == Insert(Sort(s), v)
    ensures |s| >= k && v < Sort(s)[k - 1] ==> Sort(s + [v])[..k] == Insert(Sort(s)[..k - 1], v)
    ensures |s| >= k && v >= Sort(s)[k - 1] ==> Sort(s + [v])[..k] == Sort(s)[..k]
  {
    SortSorts(s);
    SortSorts(s + [v]);
    assert (s + [v])[..|s|] == s;
    if |s| >= k { InsertPrefix(Sort(s), v, k); }
  }

  function Min(x: int, y: int): int { if x > y then y else x }

  class Sampler {
    const kbest: int
    const maxsamples: int
    const epsilon: real
    var values: array<real>
    var samplecount: int
    /** Every sample of the current process. */
    ghost var samples: seq<real>

    ghost predicate Valid()
      reads this, values
    {
      && kbest >= 1 && values.Length == kbest && samplecount == |samples|
      && |Sort(samples)| == |samples|
      && values[..Min(samplecount, kbest)] == Sort(samples)[..Min(samplecount, kbest)]
    }

    /** Starts with the given settings; init_sampler makes the empty table. */
    constructor (k: int, max: int, eps: real)
      requires k >= 1
      ensures Valid() && samples == [] && kbest == k && maxsamples == max && epsilon == eps
      ensures fresh(values)
    {
      kbest, maxsamples, epsilon := k, max, eps;
      values := new real[k](_ => 0.0);
      samplecount := 0;
      samples := [];
      new;
      assert values[..0] == [];
    }

    method InitSampler()
      requires kbest >= 1
      modifies this
      ensures Valid() && samples == [] && fresh(values)
    {
      values := new real[kbest](_ => 0.0);
      samplecount := 0;
      samples := [];
      assert values[..0] == [];
    }

    /** The insertion sort step: the value at start sinks to its place among those before it. */
    method SinkFrom(start: int)
      requires 0 <= start < values.Length
      modifies values
      ensures values[..start + 1] == Insert(old(values[..start]), old(values[start]))
      ensures values[start + 1..] == old(values[start + 1..])
    {
      ghost var prefix, val := values[..start], values[start];
      var pos := start;
      while pos > 0 && values[pos - 1] > values[pos]
        invariant 0 <= pos <= start
        invariant values[pos] == val && values[..pos] == prefix[..pos]
        invariant values[pos + 1..start + 1] == prefix[pos..]
        invariant values[start + 1..] == old(values[start + 1..])
        invariant forall j {:trigger prefix[j]} :: pos <= j < start ==> prefix[j] > val
      {
        assert values[..pos][pos - 1] == prefix[pos - 1];
        ghost var tail := values[pos + 1..start + 1];
        var temp := values[pos - 1];
        values[pos - 1] := values[pos];
        values[pos] := temp;
        assert values[pos..start + 1] == [prefix[pos - 1]] + tail;
        assert values[..pos - 1] == prefix[..pos - 1];
        pos := pos - 1;
      }
      assert pos > 0 ==> values[..pos][pos - 1] == prefix[pos - 1];
      InsertAt(prefix, val, pos);
      assert values[..start + 1] == values[..pos] + [val] + values[pos + 1..start + 1];
    }

    /** Adds a sample: it enters the table if it is among the smallest, and sinks to its place. */
    method AddSample(val: real)
      requires Valid()
      modifies this`samplecount, this`samples, values
      ensures Valid() && samples == old(samples) + [val]
    {
      hide Sort, Insert;
      ghost var t, held := Sort(samples), values[..Min(samplecount, kbest)];
      KeepSmallest(samples, val, kbest);
      InsertIntoEmpty(values[0]);
      var pos := 0;
      ghost var entered := true;
      if samplecount < kbest {
        pos := samplecount;
        values[pos] := val;
        assert values[..pos] == held == t;
      } else if val < values[kbest - 1] {
        pos := kbest - 1;
        assert held[pos] == t[pos];
        values[pos] := val;
        assert values[..pos] == held[..pos] == t[..pos];
      } else {
        assert held[kbest - 1] == t[kbest - 1];
        entered := false;
      }
      samples := samples + [val];
      samplecount := samplecount + 1;
      SinkFrom(pos);
      if entered {
        assert Min(samplecount, kbest) == pos + 1;
        assert Sort(samples)[..pos + 1] == Insert(t[..pos], val);
      } else {
        assert values[..kbest] == values[..1] + values[1..];
        assert held == held[..1] + held[1..];
      }
    }

    /** Are there kbest samples, with the largest of the smallest kbest within epsilon of the smallest? */
    predicate HasConverged()
      requires Valid()
      reads this, values
    {
      samplecount >= kbest && (1.0 + epsilon) * values[0] >= values[kbest - 1]
    }

    /** HasConverged sees in the table what holds of all samples. */
    lemma ConvergenceSeen()
      requires Valid() && samples != []
      ensures HasConverged() <==> Converged(samples, kbest, epsilon)
    {
      hide Sort;
      TableEnds(values[..Min(samplecount, kbest)], samples, Min(samplecount, kbest));
    }

    /**
     * The sampling loop of fcyc; cycles(i) is the i-th measurement, however it is taken. It
     * stops at the first sample at which the samples have converged or the limit is reached, and
     * the result is the least of the n measurements used.
     */
    method Fcyc(cycles: nat -> real) returns (result: real, ghost n: nat)
      requires kbest >= 1
      modifies this
      ensures n >= 1 && Valid() && Measured(samples, cycles, n)
      ensures (exists i :: 0 <= i < n && result == cycles(i)) && forall i :: 0 <= i < n ==> result <= cycles(i)
      ensures Converged(samples, kbest, epsilon) || n >= maxsamples
      ensures GoesOn(samples, n, kbest, epsilon, maxsamples)
    {
      hide Sort, Converged, GoesOn;
      InitSampler();
      AddSample(cycles(samplecount));
      n := 1;
      GoesOnFirst(samples, kbest, epsilon, maxsamples);
      while !HasConverged() && samplecount < maxsamples
        invariant fresh(values) && Valid() && samplecount == n >= 1 && Measured(samples, cycles, n)
        invariant GoesOn(samples, n, kbest, epsilon, maxsamples)
        decreases maxsamples - samplecount
      {
        ghost var before := samples;
        ConvergenceSeen();
        AddSample(cycles(samplecount));
        GoesOnOnce(before, samples[n], n, kbest, epsilon, maxsamples);
        n := n + 1;
      }
      ConvergenceSeen();
      result := values[0];
      FirstIsLeast(samples, cycles, n);
      TableEnds(values[..Min(samplecount, kbest)], samples, Min(samplecount, kbest));
    }
  }

  /** The k smallest samples lie within a factor of 1 + eps of the smallest. */
  ghost predicate Converged(samples: seq<real>, k: int, eps: real) {
    1 <= k <= |samples| == |Sort(samples)| && (1.0 + eps) * Sort(samples)[0] >= Sort(samples)[k - 1]
  }

  /** After none of the first n - 1 samples is there a reason to stop. */
  ghost predicate GoesOn(samples: seq<real>, n: nat, k: int, eps: real, max: int) {
    && n <= |samples|
    && forall j {:trigger samples[..j]} :: 1 <= j < n ==> !Converged(samples[..j], k, eps) && j < max
  }

  lemma GoesOnFirst(samples: seq<real>, k: int, eps: real, max: int)
    requires |samples| >= 1
    ensures GoesOn(samples, 1, k, eps, max)
  {
  }

  lemma GoesOnOnce(samples: seq<real>, v: real, n: nat, k: int, eps: real, max: int)
    requires GoesOn(samples, n, k, eps, max) && n == |samples| < max && !Converged(samples, k, eps)
    ensures GoesOn(samples + [v], n + 1, k, eps, max)
  {
    hide Converged;
    forall j | 1 <= j < n + 1 ensures (samples + [v])[..j] == samples[..j] {}
    assert samples[..n] == samples;
  }

  /** The n samples are the first n measurements. */
  ghost predicate Measured(samples: seq<real>, cycles: nat -> real, n: nat) {
    |samples| == n && forall i {:trigger samples[i]} :: 0 <= i < n ==> samples[i] == cycles(i)
  }

  lemma TableEnds(table: seq<real>, samples: seq<real>, n: int)
    requires 0 < n <= |samples| == |Sort(samples)| && table == Sort(samples)[..n]
    ensures table[0] == Sort(samples)[0] && table[n - 1] == Sort(samples)[n - 1]
  {
  }

  lemma FirstIsLeast(s: seq<real>, cycles: nat -> real, n: nat)
    requires Measured(s, cycles, n) && n > 0
    ensures |Sort(s)| == n
    ensures (exists i :: 0 <= i < n && Sort(s)[0] == cycles(i)) && forall i :: 0 <= i < n ==> Sort(s)[0] <= cycles(i)
  {
    SortSorts(s);
    var t := Sort(s);
    assert t[0] in multiset(t) && t[0] in multiset(s);
    var k :| 0 <= k < n && s[k] == t[0];
    forall i | 0 <= i < n ensures t[0] <= cycles(i) {
      assert s[i] in multiset(s) && s[i] in multiset(t);
      var j :| 0 <= j < |t| && t[j] == s[i];
    }
  }
}
