/** The timing statistics: a sample buffer of a thousand, and percentiles over it.

    Once the buffer is full, a new sample goes to the slot given by the count *after* it was
    incremented, so the first sample outlives the second by almost a thousand records. */
module TimingStats {
  import opened Common
  import Sorting

  const CAPACITY: nat := 1000

  // ----- the buffer as a function of the samples recorded

  function Record(samples: seq<nat>, count: nat, d: nat): seq<nat>
    requires |samples| <= CAPACITY
  {
    if |samples| < CAPACITY then samples + [d] else samples[count % CAPACITY := d]
  }

  /** The buffer after the given samples, in order of recording. */
  function Buffer(xs: seq<nat>): (r: seq<nat>)
    ensures |r| == if |xs| < CAPACITY then |xs| else CAPACITY
  {
    if xs == [] then [] else Record(Buffer(xs[..|xs| - 1]), |xs|, xs[|xs| - 1])
  }

  function Sum(xs: seq<nat>): nat {
    if xs == [] then 0 else Sum(xs[..|xs| - 1]) + xs[|xs| - 1]
  }

  lemma BufferMore(xs: seq<nat>, d: nat)
    ensures Buffer(xs + [d]) == Record(Buffer(xs), |xs| + 1, d)
    ensures Sum(xs + [d]) == Sum(xs) + d
  {
    hide Record;
    assert (xs + [d])[..|xs|] == xs;
  }

  ghost predicate IsMin(xs: seq<nat>, m: Option<nat>) {
    match m
    case None => xs == []
    case Some(v) => v in xs && forall x | x in xs :: v <= x
  }

  ghost predicate IsMax(xs: seq<nat>, m: Option<nat>) {
    match m
    case None => xs == []
    case Some(v) => v in xs && forall x | x in xs :: x <= v
  }

  /** `recorded` is the history; the other fields are the collector's. */
  class Collector {
    ghost var recorded: seq<nat>
    var count: nat
    var sum: nat
    var min: Option<nat>
    var max: Option<nat>
    var samples: seq<nat>

    /** The buffer and the aggregates are those of all samples recorded. */
    ghost predicate Valid()
      reads this
    {
      && count == |recorded| && sum == Sum(recorded)
      && IsMin(recorded, min) && IsMax(recorded, max)
      && samples == Buffer(recorded)
    }

    constructor ()
      ensures Valid() && recorded == []
    {
      recorded, count, sum, min, max, samples := [], 0, 0, None, None, [];
    }

    method RecordSample(d: nat)
      requires Valid()
      modifies this
      ensures Valid() && recorded == old(recorded) + [d]
    {
      hide Buffer, Sum;
      count := count + 1;
      sum := sum + d;
      min := Some(if min.None? || d < min.value then d else min.value);
      max := Some(if max.None? || max.value < d then d else max.value);
      if |samples| < CAPACITY {
        samples := samples + [d];
      } else {
        samples := samples[count % CAPACITY := d];
      }
      BufferMore(recorded, d);
      recorded := recorded + [d];
    }

    /** The count is narrowed to 32 bits before the division; a narrowed count of zero divides by zero. */
    method Average() returns (r: Option<Average>)
      requires Valid()
      ensures r == if recorded == [] then None else Some(AverageOf(Sum(recorded), |recorded|))
      ensures recorded != [] && |recorded| < 0x1_0000_0000 ==> r == Some(Mean(Sum(recorded) / |recorded|))
    {
      hide Sum, Buffer;
      if recorded != [] {
        AverageIsMean(Sum(recorded), |recorded|);
      }
      hide AverageOf;
      return if count == 0 then None else Some(AverageOf(sum, count));
    }

    method Percentile(p: real) returns (r: Option<nat>)
      requires Valid()
      ensures r == PercentileOf(samples, p)
      ensures r.None? <==> recorded == []
      ensures r.Some? && 0.0 <= p <= 100.0 ==> exists k: nat ::
        IsNearestRank(k, p, |samples|) && IsOrderStatistic(samples, k, r.value)
      ensures p <= 0.0 ==> IsMin(samples, r)
      ensures p >= 100.0 ==> IsMax(samples, r)
    {
      if samples == [] {
        return None;
      }
      var sorted := Sorting.Sort(AtMost(), samples);
      Sorting.SortSorts(AtMost(), samples);
      PercentileIsOrderStatistic(samples, p);
      PercentileEnds(samples, p);
      if 0.0 <= p <= 100.0 {
        PercentileRounds(samples, p);
      }
      hide IsOrderStatistic, IsNearestRank, IsMin, IsMax;
      return Some(sorted[PercentileRank(p, |sorted|)]);
    }
  }

  datatype Average = Mean(d: nat) | DivisionByZero

  function AverageOf(sum: nat, count: nat): Average {
    if Narrow(count) == 0 then DivisionByZero else Mean(sum / Narrow(count))
  }

  lemma QuotientAtLeast(sum: nat, n: nat, q: nat, r: nat, k: nat)
    requires sum == q * n + r && r < n && k * n <= sum
    ensures k <= q
  {
    if q < k {
      MulAtMost(q + 1, k, n);
    }
  }

  /** Dividing by at most half the count gives the same quotient only if both are zero. */
  lemma SmallerDivisor(sum: nat, n: nat, q: nat, r: nat, count: nat, k: nat, s: nat)
    requires sum == q * n + r && r < n
    requires sum == k * count + s && s < count && 2 * n <= count
    ensures q == k <==> sum < n
  {
    if sum >= n {
      QuotientAtLeast(sum, n, q, r, 1);
      MulAtMost(2 * n, count, k);
      assert (2 * k) * n == (2 * n) * k;
      QuotientAtLeast(sum, n, q, r, 2 * k);
    } else {
      if q > 0 {
        MulAtMost(1, q, n);
      }
      if k > 0 {
        MulAtMost(1, k, count);
      }
    }
  }

  lemma Divide(sum: nat, n: nat) returns (q: nat, r: nat)
    requires n > 0
    ensures sum / n == q && sum == q * n + r && r < n
  {
    q, r := sum / n, sum % n;
  }

  lemma QuotientsAgreeIff(sum: nat, n: nat, count: nat)
    requires 0 < n && 2 * n <= count
    ensures sum / n == sum / count <==> sum < n
  {
    var q, r := Divide(sum, n);
    var k, s := Divide(sum, count);
    SmallerDivisor(sum, n, q, r, count, k, s);
  }

  /** The low 32 bits of a count. */
  function Narrow(count: nat): (n: nat)
    ensures count < 0x1_0000_0000 ==> n == count
    ensures count >= 0x1_0000_0000 ==> 2 * n <= count
  {
    count % 0x1_0000_0000
  }

  /** In plain terms: the sum over the count modulo 2^32, and no number where that is zero. */
  lemma AverageNarrows(sum: nat, count: nat)
    ensures count % 0x1_0000_0000 == 0 ==> AverageOf(sum, count) == DivisionByZero
    ensures count % 0x1_0000_0000 != 0 ==> AverageOf(sum, count) == Mean(sum / (count % 0x1_0000_0000))
  {
  }

  /** What is reported is the mean exactly while the count fits 32 bits; beyond that it is larger, or
      no number at all, unless both quotients are zero. */
  lemma AverageIsMean(sum: nat, count: nat)
    requires count > 0
    ensures AverageOf(sum, count) == Mean(sum / count) <==> count < 0x1_0000_0000 || sum < Narrow(count)
  {
    hide Narrow;
    if count >= 0x1_0000_0000 && Narrow(count) > 0 {
      QuotientsAgreeIff(sum, Narrow(count), count);
    }
  }

  // ----- the closed form of the buffer

  /** Which sample (counting from 1) slot i holds after n of them, the buffer being full: the latest
      one written there, or the one that filled it. */
  function SlotSample(n: nat, i: nat): (c: nat)
    requires n >= CAPACITY && i < CAPACITY
    ensures 1 <= c <= n
  {
    var latest := n - (n - i) % CAPACITY;
    if latest > CAPACITY then latest else i + 1
  }

  lemma {:induction false} BufferSlots(xs: seq<nat>, i: nat)
    requires i < |Buffer(xs)|
    ensures |xs| < CAPACITY ==> Buffer(xs)[i] == xs[i]
    ensures |xs| >= CAPACITY ==> Buffer(xs)[i] == xs[SlotSample(|xs|, i) - 1]
    decreases |xs|
  {
    var n := |xs|;
    var init := xs[..n - 1];
    if n <= CAPACITY {
      if i < n - 1 {
        BufferSlots(init, i);
      }
    } else {
      BufferSlots(init, i);
      LatestAdvances(n, i);
    }
  }

  lemma LatestAdvances(n: nat, i: nat)
    requires n > CAPACITY && i < CAPACITY
    ensures SlotSample(n, i) == if i == n % CAPACITY then n else SlotSample(n - 1, i)
  {
    NextRemainder(n - 1 - i);
    ZeroRemainderIff(n, i);
  }

  lemma NextRemainder(m: nat)
    ensures (m + 1) % CAPACITY == if m % CAPACITY == CAPACITY - 1 then 0 else m % CAPACITY + 1
  {
  }

  lemma ZeroRemainderIff(n: nat, i: nat)
    requires n > CAPACITY > i
    ensures (n - i) % CAPACITY == 0 <==> i == n % CAPACITY
  {
  }

  lemma {:induction false} BufferPrefix(xs: seq<nat>)
    requires |xs| <= CAPACITY
    ensures Buffer(xs) == xs
  {
    if xs != [] {
      BufferPrefix(xs[..|xs| - 1]);
    }
  }

  /** Samples a to b-1, as a collection. */
  ghost function Window(xs: seq<nat>, a: nat, b: nat): multiset<nat>
    requires a <= b <= |xs|
  {
    multiset(xs[a..b])
  }

  /** What the buffer holds as a collection: everything up to a thousand; then the first sample and
      the last 999; and from two thousand on exactly the last thousand. */
  ghost function Retained(xs: seq<nat>): multiset<nat> {
    var n := |xs|;
    if n <= CAPACITY then Window(xs, 0, n)
    else if n < 2 * CAPACITY then multiset{xs[0]} + Window(xs, n - (CAPACITY - 1), n)
    else Window(xs, n - CAPACITY, n)
  }

  /** In numbers. */
  lemma BufferInNumbers(xs: seq<nat>)
    ensures |xs| <= 1000 ==> multiset(Buffer(xs)) == multiset(xs)
    ensures 1000 < |xs| < 2000 ==> multiset(Buffer(xs)) == multiset{xs[0]} + multiset(xs[|xs| - 999..])
    ensures |xs| >= 2000 ==> multiset(Buffer(xs)) == multiset(xs[|xs| - 1000..])
  {
    BufferRetains(xs);
    hide Buffer;
    assert xs[0..|xs|] == xs;
  }

  lemma {:induction false} BufferRetains(xs: seq<nat>)
    ensures multiset(Buffer(xs)) == Retained(xs)
    decreases |xs|
  {
    hide Retained, SlotSample, Replaces;
    var n := |xs|;
    if n <= CAPACITY {
      SmallBufferRetains(xs);
    } else {
      var init, i := xs[..n - 1], n % CAPACITY;
      BufferRetains(init);
      BufferSlots(init, i);
      RetainedStep(xs);
      OverwriteRetains(Buffer(init), i, xs);
    }
  }

  lemma SmallBufferRetains(xs: seq<nat>)
    requires |xs| <= CAPACITY
    ensures multiset(Buffer(xs)) == Retained(xs)
  {
    BufferPrefix(xs);
    assert xs[0..|xs|] == xs;
  }

  lemma OverwriteRetains(before: seq<nat>, i: nat, xs: seq<nat>)
    requires |xs| > 0 && i < |before| && multiset(before) == Retained(xs[..|xs| - 1])
    requires Replaces(xs, before[i])
    ensures multiset(before[i := xs[|xs| - 1]]) == Retained(xs)
  {
    hide Retained;
    OverwriteMultiset(before, i, xs[|xs| - 1]);
  }

  lemma OverwriteMultiset(s: seq<nat>, i: nat, x: nat)
    requires i < |s|
    ensures s[i] in s && multiset(s[i := x]) == multiset(s) - multiset{s[i]} + multiset{x}
  {
  }

  /** The sample that the n-th one overwrites. */
  lemma OverwrittenSample(n: nat)
    requires n > CAPACITY
    ensures SlotSample(n - 1, n % CAPACITY)
         == if n < 2 * CAPACITY then n - CAPACITY + 1 else if n == 2 * CAPACITY then 1 else n - CAPACITY
  {
  }

  lemma WindowFirst(xs: seq<nat>, a: nat, b: nat)
    requires a < b <= |xs|
    ensures Window(xs, a, b) == multiset{xs[a]} + Window(xs, a + 1, b)
  {
    assert xs[a..b] == [xs[a]] + xs[a + 1..b];
  }

  lemma WindowLast(xs: seq<nat>, a: nat, b: nat)
    requires a < b <= |xs|
    ensures Window(xs, a, b) == Window(xs, a, b - 1) + multiset{xs[b - 1]}
  {
    assert xs[a..b] == xs[a..b - 1] + [xs[b - 1]];
  }

  lemma WindowOfPrefix(xs: seq<nat>, n: nat, a: nat, b: nat)
    requires a <= b <= n <= |xs|
    ensures Window(xs[..n], a, b) == Window(xs, a, b)
  {
    assert xs[..n][a..b] == xs[a..b];
  }

  /** Retained(xs) is what was retained before, without `gone` and with the newest sample. */
  ghost predicate Replaces(xs: seq<nat>, gone: nat)
    requires |xs| > 0
  {
    gone in Retained(xs[..|xs| - 1]) &&
    Retained(xs) == Retained(xs[..|xs| - 1]) - multiset{gone} + multiset{xs[|xs| - 1]}
  }

  lemma StepFull(xs: seq<nat>)
    requires |xs| == CAPACITY + 1
    ensures Replaces(xs, xs[1])
  {
    hide Window;
    WindowLast(xs, 2, |xs|);
    WindowFirst(xs, 1, CAPACITY);
    WindowFirst(xs, 0, CAPACITY);
    WindowOfPrefix(xs, CAPACITY, 0, CAPACITY);
  }

  lemma MiddleForm(xs: seq<nat>)
    requires CAPACITY < |xs| < 2 * CAPACITY
    ensures Retained(xs) == multiset{xs[0]} + Window(xs, |xs| - (CAPACITY - 1), |xs|)
  {
  }

  lemma ExchangeOne(fixed: multiset<nat>, kept: multiset<nat>, gone: nat, added: nat)
    ensures fixed + (kept + multiset{added}) == fixed + (multiset{gone} + kept) - multiset{gone} + multiset{added}
    ensures gone in fixed + (multiset{gone} + kept)
  {
  }

  lemma ReplacesOne(xs: seq<nat>, fixed: multiset<nat>, kept: multiset<nat>, gone: nat)
    requires |xs| > 0
    requires Retained(xs[..|xs| - 1]) == fixed + (multiset{gone} + kept)
    requires Retained(xs) == fixed + (kept + multiset{xs[|xs| - 1]})
    ensures Replaces(xs, gone)
  {
    hide Retained;
    ExchangeOne(fixed, kept, gone, xs[|xs| - 1]);
  }

  lemma StepMiddle(xs: seq<nat>)
    requires CAPACITY + 1 < |xs| < 2 * CAPACITY
    ensures Replaces(xs, xs[|xs| - CAPACITY])
  {
    hide Window, Retained, Replaces;
    var n, a := |xs|, |xs| - CAPACITY;
    MiddleForm(xs);
    MiddleForm(xs[..n - 1]);
    WindowLast(xs, a + 1, n);
    WindowFirst(xs, a, n - 1);
    WindowOfPrefix(xs, n - 1, a, n - 1);
    ReplacesOne(xs, multiset{xs[0]}, Window(xs, a + 1, n - 1), xs[a]);
  }

  lemma StepTurn(xs: seq<nat>)
    requires |xs| == 2 * CAPACITY
    ensures Replaces(xs, xs[0])
  {
    hide Window;
    WindowLast(xs, CAPACITY, |xs|);
    WindowOfPrefix(xs, |xs| - 1, CAPACITY, |xs| - 1);
  }

  lemma StepLate(xs: seq<nat>)
    requires |xs| > 2 * CAPACITY
    ensures Replaces(xs, xs[|xs| - CAPACITY - 1])
  {
    hide Window;
    var n, a := |xs|, |xs| - CAPACITY;
    WindowLast(xs, a, n);
    WindowFirst(xs, a - 1, n - 1);
    WindowOfPrefix(xs, n - 1, a - 1, n - 1);
  }

  /** Dropping the overwritten sample and adding the new one shifts what is retained by one. */
  lemma RetainedStep(xs: seq<nat>)
    requires |xs| > CAPACITY
    ensures Replaces(xs, xs[SlotSample(|xs| - 1, |xs| % CAPACITY) - 1])
  {
    hide Replaces, Retained;
    OverwrittenSample(|xs|);
    if |xs| == CAPACITY + 1 {
      StepFull(xs);
    } else if |xs| < 2 * CAPACITY {
      StepMiddle(xs);
    } else if |xs| == 2 * CAPACITY {
      StepTurn(xs);
    } else {
      StepLate(xs);
    }
  }

  // ----- percentiles

  function AtMost(): (nat, nat) -> bool {
    (a: nat, b: nat) => a <= b
  }

  /** Rounded half up; a negative number becomes zero. */
  function RoundHalfUp(x: real): nat {
    if x <= 0.0 then 0 else (x + 0.5).Floor
  }

  function ExactRank(p: real, n: nat): real {
    p / 100.0 * (n - 1) as real
  }

  function PercentileIndex(p: real, n: nat): nat
    requires n > 0
  {
    RoundHalfUp(ExactRank(p, n))
  }

  function PercentileRank(p: real, n: nat): (k: nat)
    requires n > 0
    ensures k < n
  {
    var idx := PercentileIndex(p, n);
    if idx < n - 1 then idx else n - 1
  }

  function PercentileOf(samples: seq<nat>, p: real): Option<nat> {
    if samples == [] then None
    else
      var sorted := Sorting.Sort(AtMost(), samples);
      Sorting.SortSorts(AtMost(), samples);
      Some(sorted[PercentileRank(p, |sorted|)])
  }

  // ----- what a percentile is, without sorting

  function CountBelow(s: seq<nat>, v: nat): nat {
    if s == [] then 0 else (if s[0] < v then 1 else 0) + CountBelow(s[1..], v)
  }

  function CountUpTo(s: seq<nat>, v: nat): nat {
    if s == [] then 0 else (if s[0] <= v then 1 else 0) + CountUpTo(s[1..], v)
  }

  /** v is a sample, at most k samples are smaller, and more than k are no larger. */
  ghost predicate IsOrderStatistic(s: seq<nat>, k: nat, v: nat) {
    v in s && CountBelow(s, v) <= k < CountUpTo(s, v)
  }

  lemma {:induction false} InsertCounts(x: nat, s: seq<nat>, v: nat)
    ensures CountBelow(Sorting.Insert(AtMost(), x, s), v) == (if x < v then 1 else 0) + CountBelow(s, v)
    ensures CountUpTo(Sorting.Insert(AtMost(), x, s), v) == (if x <= v then 1 else 0) + CountUpTo(s, v)
  {
    if s == [] || AtMost()(x, s[0]) {
      assert ([x] + s)[1..] == s;
    } else {
      var rest := Sorting.Insert(AtMost(), x, s[1..]);
      assert ([s[0]] + rest)[1..] == rest;
      InsertCounts(x, s[1..], v);
    }
  }

  lemma {:induction false} SortCounts(s: seq<nat>, v: nat)
    ensures CountBelow(Sorting.Sort(AtMost(), s), v) == CountBelow(s, v)
    ensures CountUpTo(Sorting.Sort(AtMost(), s), v) == CountUpTo(s, v)
  {
    if s != [] {
      SortCounts(s[1..], v);
      InsertCounts(s[0], Sorting.Sort(AtMost(), s[1..]), v);
    }
  }

  lemma {:induction false} NoneBelow(s: seq<nat>, v: nat)
    requires forall k | 0 <= k < |s| :: v <= s[k]
    ensures CountBelow(s, v) == 0
  {
    if s != [] {
      NoneBelow(s[1..], v);
    }
  }

  lemma {:induction false} SortedCounts(s: seq<nat>, k: nat)
    requires k < |s| && forall i, j | 0 <= i <= j < |s| :: s[i] <= s[j]
    ensures CountBelow(s, s[k]) <= k < CountUpTo(s, s[k])
  {
    if k == 0 {
      NoneBelow(s, s[0]);
    } else {
      assert s[1..][k - 1] == s[k];
      SortedCounts(s[1..], k - 1);
    }
  }

  lemma PercentileIsOrderStatistic(samples: seq<nat>, p: real)
    requires samples != []
    ensures PercentileOf(samples, p).Some?
    ensures IsOrderStatistic(samples, PercentileRank(p, |samples|), PercentileOf(samples, p).value)
  {
    SortedSamples(samples);
    var sorted := Sorting.Sort(AtMost(), samples);
    var k := PercentileRank(p, |samples|);
    SortedCounts(sorted, k);
    SortCounts(samples, sorted[k]);
  }

  /** k is the exact rank, a fraction, rounded to the nearest number, and up from halves. */
  ghost predicate IsNearestRank(k: nat, p: real, n: nat) {
    var exact := p / 100.0 * (n - 1) as real;
    exact - 0.5 < k as real <= exact + 0.5
  }

  lemma NearestRankUnique(k: nat, m: nat, p: real, n: nat)
    requires IsNearestRank(k, p, n) && IsNearestRank(m, p, n)
    ensures k == m
  {
  }

  /** Between 0 and 100, a percentile is the order statistic of the nearest rank. */
  lemma PercentileRounds(samples: seq<nat>, p: real)
    requires samples != [] && 0.0 <= p <= 100.0
    ensures PercentileOf(samples, p).Some?
    ensures exists k: nat ::
      IsNearestRank(k, p, |samples|) && IsOrderStatistic(samples, k, PercentileOf(samples, p).value)
  {
    PercentileIsOrderStatistic(samples, p);
    hide IsOrderStatistic, PercentileOf;
    RankIsNearest(p, |samples|);
  }

  lemma ShareOf(q: real, m: real, r: real)
    requires r == q * m && 0.0 <= q <= 1.0 && m >= 0.0
    ensures 0.0 <= r <= m
  {
  }

  lemma ExactRankInRange(p: real, n: nat)
    requires n > 0 && 0.0 <= p <= 100.0
    ensures 0.0 <= ExactRank(p, n) <= (n - 1) as real
  {
    var q, m := p / 100.0, (n - 1) as real;
    assert q <= 1.0;
    assert ExactRank(p, n) == q * m;
    hide ExactRank;
    ShareOf(q, m, ExactRank(p, n));
  }

  lemma RoundIsNearest(exact: real, n: nat)
    requires 0.0 <= exact <= (n - 1) as real
    ensures exact - 0.5 < RoundHalfUp(exact) as real <= exact + 0.5 && RoundHalfUp(exact) < n
  {
  }

  lemma NearestToExact(k: nat, p: real, n: nat)
    ensures IsNearestRank(k, p, n) <==> ExactRank(p, n) - 0.5 < k as real <= ExactRank(p, n) + 0.5
  {
  }

  lemma RankIsNearest(p: real, n: nat)
    requires n > 0 && 0.0 <= p <= 100.0
    ensures IsNearestRank(PercentileRank(p, n), p, n)
  {
    hide RoundHalfUp, ExactRank, IsNearestRank;
    ExactRankInRange(p, n);
    RoundIsNearest(ExactRank(p, n), n);
    NearestToExact(PercentileRank(p, n), p, n);
  }

  /** There is only one sample of each rank. */
  lemma OrderStatisticUnique(s: seq<nat>, k: nat, v: nat, w: nat)
    requires IsOrderStatistic(s, k, v) && IsOrderStatistic(s, k, w)
    ensures v == w
  {
    if v < w {
      CountsOrdered(s, v, w);
    } else if w < v {
      CountsOrdered(s, w, v);
    }
  }

  lemma {:induction false} CountsOrdered(s: seq<nat>, v: nat, w: nat)
    requires v < w
    ensures CountUpTo(s, v) <= CountBelow(s, w)
  {
    if s != [] {
      CountsOrdered(s[1..], v, w);
    }
  }

  lemma SortedSamples(samples: seq<nat>)
    ensures var s := Sorting.Sort(AtMost(), samples);
      && |s| == |samples|
      && (forall x :: x in s <==> x in samples)
      && forall i, j | 0 <= i <= j < |s| :: s[i] <= s[j]
  {
    Sorting.SortSorts(AtMost(), samples);
    var s := Sorting.Sort(AtMost(), samples);
    assert forall x :: x in s <==> x in multiset(s);
    assert forall x :: x in samples <==> x in multiset(samples);
    forall i, j | 0 <= i < j < |s|
      ensures s[i] <= s[j]
    {
      assert AtMost()(s[i], s[j]);
    }
  }

  /** A percentile is one of the buffered samples. */
  lemma PercentileIsSample(samples: seq<nat>, p: real)
    requires samples != []
    ensures PercentileOf(samples, p).Some? && PercentileOf(samples, p).value in samples
  {
    PercentileIsOrderStatistic(samples, p);
  }

  lemma IndexMonotone(p: real, q: real, n: nat)
    requires n > 0 && p <= q
    ensures PercentileIndex(p, n) <= PercentileIndex(q, n)
  {
    var a, b := p / 100.0 * (n - 1) as real, q / 100.0 * (n - 1) as real;
    assert a <= b;
    FloorMonotone(a + 0.5, b + 0.5);
  }

  lemma FloorMonotone(a: real, b: real)
    requires a <= b
    ensures a.Floor <= b.Floor
  {
  }

  /** A higher percentage never gives a lower percentile. */
  lemma PercentileMonotone(samples: seq<nat>, p: real, q: real)
    requires samples != [] && p <= q
    ensures PercentileOf(samples, p).value <= PercentileOf(samples, q).value
  {
    SortedSamples(samples);
    IndexMonotone(p, q, |samples|);
  }

  /** At 0 and below it is the buffer's minimum, at 100 and above its maximum. */
  lemma PercentileEnds(samples: seq<nat>, p: real)
    requires samples != []
    ensures p <= 0.0 ==> IsMin(samples, PercentileOf(samples, p))
    ensures p >= 100.0 ==> IsMax(samples, PercentileOf(samples, p))
  {
    SortedSamples(samples);
    var s := Sorting.Sort(AtMost(), samples);
    if p <= 0.0 {
      assert PercentileIndex(0.0, |s|) == 0;
      IndexMonotone(p, 0.0, |s|);
    }
    if p >= 100.0 {
      assert PercentileIndex(100.0, |s|) == |s| - 1;
      IndexMonotone(100.0, p, |s|);
    }
  }
}
