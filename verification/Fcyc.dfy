/** The K-best sampler of fcyc.c.  Cycle counts are real numbers. */
module Fcyc {

  /** Put x behind the elements of s that are not larger. */
  function Insert(s: seq<real>, x: real): (r: seq<real>)
    ensures |r| == |s| + 1
  {
    if s == [] || x < s[0] then [x] + s else [s[0]] + Insert(s[1..], x)
  }

  function Sorted(s: seq<real>): (r: seq<real>)
    ensures |r| == |s|
  {
    if s == [] then [] else Insert(Sorted(s[..|s| - 1]), s[|s| - 1])
  }

  function Min(a: int, b: int): int {
    if a < b then a else b
  }

  /** The k smallest samples in ascending order (all of them if there are fewer). */
  function Best(s: seq<real>, k: nat): seq<real> {
    Sorted(s)[..Min(|s|, k)]
  }

  predicate Ascending(s: seq<real>) {
    forall i, j :: 0 <= i < j < |s| ==> s[i] <= s[j]
  }

  lemma {:induction false} InsertMembers(s: seq<real>, x: real)
    ensures multiset(Insert(s, x)) == multiset(s) + multiset{x}
  {
    if s != [] && x >= s[0] {
      InsertMembers(s[1..], x);
      assert s == [s[0]] + s[1..];
    }
  }

  lemma {:induction false} InsertAscending(s: seq<real>, x: real)
    requires Ascending(s)
    ensures Ascending(Insert(s, x))
  {
    if s != [] && x >= s[0] {
      var rest := Insert(s[1..], x);
      InsertAscending(s[1..], x);
      InsertLower(s[1..], x, s[0]);
      assert Insert(s, x) == [s[0]] + rest;
    }
  }

  lemma {:induction false} InsertLower(s: seq<real>, x: real, low: real)
    requires low <= x && forall i :: 0 <= i < |s| ==> low <= s[i]
    ensures forall i :: 0 <= i < |Insert(s, x)| ==> low <= Insert(s, x)[i]
  {
    if s != [] && x >= s[0] {
      InsertLower(s[1..], x, low);
    }
  }

  lemma {:induction false} AscendingNone()
    ensures Ascending([])
  {
  }

  lemma {:induction false} SortedFacts(s: seq<real>)
    ensures Ascending(Sorted(s)) && multiset(Sorted(s)) == multiset(s)
  {
    hide Insert, Ascending;
    if s == [] {
      AscendingNone();
    } else {
      SortedFacts(s[..|s| - 1]);
      InsertAscending(Sorted(s[..|s| - 1]), s[|s| - 1]);
      InsertMembers(Sorted(s[..|s| - 1]), s[|s| - 1]);
      assert s == s[..|s| - 1] + [s[|s| - 1]];
    }
  }

  /** Best is ascending, and the samples are those in Best and others that are not smaller. */
  lemma {:induction false} BestFacts(s: seq<real>, k: nat) returns (rest: seq<real>)
    ensures var best := Best(s, k);
            && |best| == Min(|s|, k) && Ascending(best)
            && multiset(best) + multiset(rest) == multiset(s)
            && forall i, j :: 0 <= i < |best| && 0 <= j < |rest| ==> best[i] <= rest[j]
  {
    var t, m := Sorted(s), Min(|s|, k);
    SortedFacts(s);
    hide Sorted;
    rest := t[m..];
    assert t == t[..m] + rest;
    CutAscending(t, t[..m], rest);
    hide Ascending;
  }

  lemma {:induction false} CutAscending(t: seq<real>, x: seq<real>, y: seq<real>)
    requires Ascending(t) && t == x + y
    ensures Ascending(x)
    ensures forall i, j :: 0 <= i < |x| && 0 <= j < |y| ==> x[i] <= y[j]
  {
    forall i, j | 0 <= i < j < |x|
      ensures x[i] <= x[j]
    {
      assert x[i] == t[i] && x[j] == t[j];
    }
    forall i, j | 0 <= i < |x| && 0 <= j < |y|
      ensures x[i] <= y[j]
    {
      assert x[i] == t[i] && y[j] == t[|x| + j];
    }
  }

  lemma {:induction false} InsertAt(s: seq<real>, x: real, p: nat)
    requires p <= |s|
    requires forall i :: 0 <= i < p ==> s[i] <= x
    requires p < |s| ==> x < s[p]
    ensures Insert(s, x) == s[..p] + [x] + s[p..]
  {
    if p > 0 {
      InsertAt(s[1..], x, p - 1);
      TailAt(s, x, p);
    } else {
      assert s[..0] + [x] + s[0..] == [x] + s;
    }
  }

  lemma {:induction false} TailAt(s: seq<real>, x: real, p: nat)
    requires 0 < p <= |s|
    ensures s[..p] + [x] + s[p..] == [s[0]] + (s[1..][..p - 1] + [x] + s[1..][p - 1..])
  {
    assert s[..p] == [s[0]] + s[1..][..p - 1] && s[p..] == s[1..][p - 1..];
  }

  /** A sample below the largest of the first k pushes that one out. */
  lemma {:induction false} InsertBelow(s: seq<real>, x: real, k: nat)
    requires 0 < k <= |s| && x < s[k - 1]
    ensures Insert(s, x)[..k] == Insert(s[..k - 1], x)
  {
    if k == 1 || x < s[0] {
      assert s[..k - 1] != [] ==> s[..k - 1][0] == s[0];
    } else {
      InsertBelow(s[1..], x, k - 1);
      assert s[..k - 1][1..] == s[1..][..k - 2];
      assert Insert(s, x)[..k] == [s[0]] + Insert(s[1..], x)[..k - 1];
    }
  }

  /** Any other sample leaves the first k alone. */
  lemma {:induction false} InsertAbove(s: seq<real>, x: real, k: nat)
    requires k <= |s| && Ascending(s) && (k > 0 ==> s[k - 1] <= x)
    ensures Insert(s, x)[..k] == s[..k]
  {
    if k > 0 {
      assert s[0] <= s[k - 1];
      InsertAbove(s[1..], x, k - 1);
      assert Insert(s, x)[..k] == [s[0]] + Insert(s[1..], x)[..k - 1];
    }
  }

  lemma {:induction false} SortedSnoc(s: seq<real>, x: real)
    ensures Sorted(s + [x]) == Insert(Sorted(s), x)
  {
    assert (s + [x])[..|s|] == s;
  }

  /** How the best k change with one more sample. */
  lemma {:induction false} BestNext(s: seq<real>, x: real, k: nat)
    requires k > 0
    ensures |Best(s, k)| == Min(|s|, k) && Ascending(Best(s, k))
    ensures Best(s + [x], k) ==
            if |s| < k then Insert(Best(s, k), x)
            else if x < Best(s, k)[k - 1] then Insert(Best(s, k)[..k - 1], x)
            else Best(s, k)
  {
    var t := Sorted(s);
    SortedFacts(s);
    SortedSnoc(s, x);
    hide Insert, Sorted;
    if |s| < k {
      assert t[..|s|] == t && Insert(t, x)[..|s| + 1] == Insert(t, x);
    } else if x < t[k - 1] {
      InsertBelow(t, x, k);
      assert t[..k][..k - 1] == t[..k - 1];
    } else {
      InsertAbove(t, x, k);
    }
  }

  /** The static variables of fcyc.c that the sampler uses. */
  class Sampler {
    var kbest: nat
    var maxSamples: int
    var epsilon: real
    var values: array<real>
    var sampleCount: nat
    /** All samples since init_sampler. */
    ghost var samples: seq<real>

    /** `values` holds the best samples. */
    ghost predicate Valid()
      reads this, values
    {
      && kbest > 0 && values.Length == kbest && sampleCount == |samples|
      && values[..Min(sampleCount, kbest)] == Best(samples, kbest)
    }

    constructor (kbest: nat, maxSamples: int, epsilon: real)
      ensures this.kbest == kbest && this.maxSamples == maxSamples && this.epsilon == epsilon
    {
      this.kbest, this.maxSamples, this.epsilon := kbest, maxSamples, epsilon;
      values := new real[0];
      sampleCount := 0;
      samples := [];
    }

    /** init_sampler */
    method InitSampler()
      requires kbest > 0
      modifies this`values, this`sampleCount, this`samples
      ensures Valid() && samples == [] && fresh(values)
    {
      values := new real[kbest];
      sampleCount := 0;
      samples := [];
    }

    /** add_sample */
    method AddSample(val: real)
      requires Valid()
      modifies this`sampleCount, this`samples, values
      ensures Valid() && samples == old(samples) + [val]
    {
      hide Best, Insert;
      var pos := 0;
      ghost var s, k, best := samples, kbest, Best(samples, kbest);
      BestNext(s, val, k);
      assert sampleCount >= k ==> values[..k][k - 1] == values[k - 1];
      if sampleCount < kbest {
        pos := sampleCount;
        values[pos] := val;
        assert values[..pos] == best;
      } else if val < values[kbest - 1] {
        pos := kbest - 1;
        values[pos] := val;
        assert values[..pos] == best[..k - 1];
      }
      sampleCount := sampleCount + 1;
      samples := samples + [val];
      SiftDown(pos);
    }

    /** The insertion-sort loop of add_sample. */
    method SiftDown(pos0: nat)
      requires pos0 < values.Length && Ascending(values[..pos0])
      modifies values
      ensures values[..pos0 + 1] == Insert(old(values[..pos0]), old(values[pos0]))
      ensures values[pos0 + 1..] == old(values[pos0 + 1..])
      ensures pos0 == 0 ==> values[..] == old(values[..])
    {
      hide Insert;
      var pos := pos0;
      ghost var a, x := values[..pos0], values[pos0];
      while pos > 0 && values[pos - 1] > values[pos]
        invariant 0 <= pos <= pos0 && values[pos] == x
        invariant forall j :: 0 <= j < pos ==> values[j] == a[j]
        invariant forall j :: pos < j <= pos0 ==> values[j] == a[j - 1] && a[j - 1] > x
        invariant values[pos0 + 1..] == old(values[pos0 + 1..])
        invariant pos0 == 0 ==> values[..] == old(values[..])
      {
        var temp := values[pos - 1];
        values[pos - 1] := values[pos];
        values[pos] := temp;
        pos := pos - 1;
      }
      assert pos < pos0 ==> values[pos + 1] == a[pos];
      InsertAt(a, x, pos);
      assert values[..pos0 + 1] == a[..pos] + [x] + a[pos..];
    }

    /** has_converged */
    predicate HasConverged()
      requires kbest > 0 && values.Length == kbest
      reads this, values
    {
      sampleCount >= kbest && (1.0 + epsilon) * values[0] >= values[kbest - 1]
    }

    /** The sampling loop of fcyc, where measure(i) is what the i-th run takes: at most maxSamples
        samples (but at least one), and the smallest of them is returned. */
    method Fcyc(measure: nat -> real) returns (result: real)
      requires kbest > 0
      modifies this`values, this`sampleCount, this`samples
      ensures 1 <= |samples| <= (if maxSamples > 1 then maxSamples else 1)
      ensures forall i :: 0 <= i < |samples| ==> samples[i] == measure(i)
      ensures result in samples && forall x :: x in samples ==> result <= x
      ensures |samples| < maxSamples ==> Converged(samples, kbest, epsilon)
      ensures forall n :: 1 <= n < |samples| ==> !Converged(samples[..n], kbest, epsilon)
    {
      hide Best, Converged, HasConverged;
      InitSampler();
      var go := true;
      while go
        invariant Valid() && fresh(values) && kbest == old(kbest)
        invariant forall i :: 0 <= i < |samples| ==> samples[i] == measure(i)
        invariant |samples| == 0 ==> go
        invariant |samples| <= (if maxSamples > 1 then maxSamples else 1)
        invariant go ==> |samples| == 0 || |samples| < maxSamples
        invariant !go ==> |samples| < maxSamples ==> Converged(samples, kbest, epsilon)
        invariant forall n :: 1 <= n < |samples| + (if go then 1 else 0) ==> !Converged(samples[..n], kbest, epsilon)
        decreases go, maxSamples - |samples|
      {
        ghost var before := samples;
        AddSample(measure(sampleCount));
        ConvergedIs();
        PrefixKept(before, samples);
        go := !HasConverged() && sampleCount < maxSamples;
        assert samples[..|samples|] == samples;
      }
      SmallestFirst(samples, kbest);
      assert values[..Min(sampleCount, kbest)][0] == values[0];
      result := values[0];
    }

    lemma {:induction false} ConvergedIs()
      requires Valid() && sampleCount > 0
      ensures HasConverged() <==> Converged(samples, kbest, epsilon)
    {
      var m := Min(sampleCount, kbest);
      assert values[..m][0] == values[0];
      assert sampleCount >= kbest ==> values[..m][kbest - 1] == values[kbest - 1];
    }
  }

  /** k samples lie within a factor of 1 + epsilon, the k smallest. */
  ghost predicate Converged(s: seq<real>, k: nat, epsilon: real) {
    0 < k <= |s| && (1.0 + epsilon) * Best(s, k)[0] >= Best(s, k)[k - 1]
  }

  /** How many samples are at most `bound`. */
  function Within(s: seq<real>, bound: real): nat {
    if s == [] then 0 else (if s[0] <= bound then 1 else 0) + Within(s[1..], bound)
  }

  lemma {:induction false} WithinInsert(s: seq<real>, x: real, bound: real)
    ensures Within(Insert(s, x), bound) == Within(s, bound) + if x <= bound then 1 else 0
  {
    if s == [] || x < s[0] {
      assert ([x] + s)[1..] == s;
    } else {
      WithinInsert(s[1..], x, bound);
      assert Insert(s, x)[1..] == Insert(s[1..], x);
    }
  }

  lemma {:induction false} WithinSnoc(s: seq<real>, x: real, bound: real)
    ensures Within(s + [x], bound) == Within(s, bound) + if x <= bound then 1 else 0
  {
    if s == [] {
      assert (s + [x])[1..] == [];
    } else {
      WithinSnoc(s[1..], x, bound);
      assert (s + [x])[1..] == s[1..] + [x];
    }
  }

  lemma {:induction false} WithinSorted(s: seq<real>, bound: real)
    ensures Within(Sorted(s), bound) == Within(s, bound)
  {
    hide Within, Insert;
    if s != [] {
      var rest, x := s[..|s| - 1], s[|s| - 1];
      WithinSorted(rest, bound);
      WithinInsert(Sorted(rest), x, bound);
      WithinSnoc(rest, x, bound);
      assert s == rest + [x];
    } else {
      assert Sorted(s) == s;
    }
  }

  lemma {:induction false} WithinAscending(t: seq<real>, bound: real, k: nat)
    requires Ascending(t) && 0 < k
    ensures Within(t, bound) >= k <==> k <= |t| && t[k - 1] <= bound
  {
    if t != [] {
      if t[0] > bound {
        NoneWithin(t, bound);
        assert k <= |t| ==> t[0] <= t[k - 1];
      } else if k > 1 {
        WithinAscending(t[1..], bound, k - 1);
      }
    }
  }

  lemma {:induction false} NoneWithin(t: seq<real>, bound: real)
    requires forall i :: 0 <= i < |t| ==> t[i] > bound
    ensures Within(t, bound) == 0
  {
    if t != [] {
      NoneWithin(t[1..], bound);
    }
  }

  /** The samples have converged exactly when at least k of them are within a factor of 1 + epsilon of the
      smallest. */
  lemma {:induction false} ConvergedMeans(s: seq<real>, k: nat, epsilon: real, low: real)
    requires k > 0 && low in s && forall x :: x in s ==> low <= x
    ensures Converged(s, k, epsilon) <==> |s| >= k && Within(s, (1.0 + epsilon) * low) >= k
  {
    hide Sorted, Within;
    var t, bound := Sorted(s), (1.0 + epsilon) * low;
    SmallestFirst(s, k);
    SortedFacts(s);
    assert Best(s, k)[0] == t[0] == low;
    WithinSorted(s, bound);
    WithinAscending(t, bound, k);
  }

  lemma {:induction false} PrefixKept(s: seq<real>, t: seq<real>)
    requires |t| == |s| + 1 && t[..|s|] == s
    ensures forall n :: 0 <= n <= |s| ==> t[..n] == s[..n]
  {
  }

  lemma {:induction false} SmallestFirst(s: seq<real>, k: nat)
    requires s != [] && k > 0
    ensures Best(s, k) != [] && Best(s, k)[0] in s
    ensures forall x :: x in s ==> Best(s, k)[0] <= x
  {
    var t := Sorted(s);
    SortedFacts(s);
    assert t[0] in multiset(t);
    forall x | x in s
      ensures t[0] <= x
    {
      assert x in multiset(t);
    }
  }
}
