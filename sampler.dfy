/**
 * The commit sampler of `history` in miner/miner.py: an evenly spaced
 * selection from the newest-first commit list, truncated to the requested
 * count, reversed to oldest-first, then thinned to every `skip`-th position.
 * `maxCommits` and `skip` are the command's integers; only 0 is excluded,
 * because the source divides by it.
 */
module Sampler {

  function Min(a: int, b: int): int { if a <= b then a else b }

  function Max(a: int, b: int): int { if a >= b then a else b }

  function Abs(a: int): nat { if a >= 0 then a else -a }

  /** Python's `//`, which rounds toward negative infinity. */
  function FloorDiv(a: int, b: int): (r: int)
    requires b != 0
    ensures b > 0 ==> r * b <= a < r * b + b
    ensures b < 0 ==> r * b + b < a <= r * b
  {
    if b > 0 then a / b else (-a) / (-b)
  }

  /** `step = max(1, total // max_commits)`. */
  function Step(total: nat, maxCommits: int): (step: nat)
    requires maxCommits != 0
    ensures step >= 1
  {
    var q := FloorDiv(total, maxCommits);
    if q < 1 then 1 else q
  }

  /** The step is 1 whenever no thinning is needed, and for a negative count. */
  lemma StepIsOne(total: nat, maxCommits: int)
    requires maxCommits >= total || maxCommits < 0
    requires maxCommits != 0
    ensures Step(total, maxCommits) == 1
  {
  }

  /** With a positive count, `step` whole strides of `maxCommits` commits fit in the history. */
  lemma StepFits(total: nat, maxCommits: int)
    requires maxCommits >= 1
    ensures Step(total, maxCommits) == 1 || Step(total, maxCommits) * maxCommits <= total
  {
  }

  /** Python's `s[::step]` for `step >= 1`: the elements at 0, step, 2*step, ... */
  function Stride<T>(s: seq<T>, step: nat): (r: seq<T>)
    requires step >= 1
    ensures |r| <= |s|
    decreases |s|
  {
    if |s| == 0 then [] else [s[0]] + Stride(s[Min(step, |s|)..], step)
  }

  /** `s[::step]` has ceil(|s| / step) elements. */
  lemma {:induction false} StrideLength<T>(s: seq<T>, step: nat)
    requires step >= 1
    ensures |Stride(s, step)| == 0 <==> |s| == 0
    ensures |s| > 0 ==> (|Stride(s, step)| - 1) * step < |s| <= |Stride(s, step)| * step
  {
    if |s| > step {
      var rest := s[step..];
      assert Min(step, |s|) == step;
      assert Stride(s, step) == [s[0]] + Stride(rest, step);
      StrideLength(rest, step);
      var n := |Stride(rest, step)|;
      assert |rest| == |s| - step && n >= 1;
      MulSucc(n - 1, step);
      MulSucc(n, step);
    } else if |s| > 0 {
      assert s[Min(step, |s|)..] == [];
    }
  }

  /** The k-th element of `s[::step]` is `s[k * step]`. */
  lemma {:induction false} StrideAt<T>(s: seq<T>, step: nat, k: nat)
    requires step >= 1 && k < |Stride(s, step)|
    ensures k * step < |s| && Stride(s, step)[k] == s[k * step]
  {
    if k > 0 {
      if |s| <= step {
        assert false;
      }
      var rest := s[step..];
      StrideAt(rest, step, k - 1);
      MulSucc(k - 1, step);
    }
  }

  /** A stride of 1 keeps everything. */
  lemma {:induction false} StrideOne<T>(s: seq<T>)
    ensures Stride(s, 1) == s
  {
    if |s| > 0 {
      StrideOne(s[1..]);
    }
  }

  lemma MulSucc(k: nat, step: nat)
    ensures (k + 1) * step == k * step + step
  {
  }

  /** Python's `s[:n]`; a negative `n` drops the last `-n` elements. */
  function Take<T>(s: seq<T>, n: int): (r: seq<T>)
    ensures n >= 0 ==> |r| == Min(n, |s|)
    ensures n < 0 ==> |r| == Max(0, |s| + n)
    ensures r == s[..|r|]
  {
    if n >= 0 then s[..Min(n, |s|)] else s[..Max(0, |s| + n)]
  }

  /** `all_commits[::step][:max_commits]`. */
  function Select<T>(all: seq<T>, maxCommits: int): (r: seq<T>)
    requires maxCommits != 0
    ensures |r| <= |all|
  {
    Take(Stride(all, Step(|all|, maxCommits)), maxCommits)
  }

  lemma MulMono(a: nat, b: nat, c: nat)
    requires a <= b
    ensures a * c <= b * c
  {
  }

  /** n strides of `step` that cover `total >= m * step` elements number at least m. */
  lemma CoverAtLeast(n: nat, m: nat, step: nat, total: nat)
    requires step >= 1 && total <= n * step && step * m <= total
    ensures n >= m
  {
    if n < m {
      assert (m - 1) * step == m * step - step;
      MulMono(n, m - 1, step);
      assert false;
    }
  }

  /**
   * The selection is never short: a positive count yields exactly
   * min(max_commits, total) commits, a negative one all but the last |max_commits|.
   */
  lemma SelectLength<T>(all: seq<T>, maxCommits: int)
    requires maxCommits != 0
    ensures maxCommits >= 1 ==> |Select(all, maxCommits)| == Min(maxCommits, |all|)
    ensures maxCommits < 0 ==> |Select(all, maxCommits)| == Max(0, |all| + maxCommits)
  {
    var step := Step(|all|, maxCommits);
    var strided := Stride(all, step);
    StrideLength(all, step);
    if maxCommits < 0 || maxCommits >= |all| {
      StepIsOne(|all|, maxCommits);
      StrideOne(all);
    } else if step == 1 {
      StrideOne(all);
    } else {
      StepFits(|all|, maxCommits);
      CoverAtLeast(|strided|, maxCommits, step, |all|);
    }
  }

  /** The k-th selected commit is `all_commits[k * step]`. */
  lemma SelectAt<T>(all: seq<T>, maxCommits: int, k: nat)
    requires maxCommits != 0 && k < |Select(all, maxCommits)|
    ensures k * Step(|all|, maxCommits) < |all|
    ensures Select(all, maxCommits)[k] == all[k * Step(|all|, maxCommits)]
  {
    StrideAt(all, Step(|all|, maxCommits), k);
  }

  function Reverse<T>(s: seq<T>): (r: seq<T>)
    ensures |r| == |s|
  {
    if s == [] then [] else Reverse(s[1..]) + [s[0]]
  }

  lemma {:induction false} ReverseAt<T>(s: seq<T>, k: nat)
    requires k < |s|
    ensures |Reverse(s)| == |s| && Reverse(s)[k] == s[|s| - 1 - k]
  {
    if |s| > 1 {
      ReverseAt(s[1..], if k < |s| - 1 then k else 0);
    }
  }

  lemma {:induction false} ReverseLength<T>(s: seq<T>)
    ensures |Reverse(s)| == |s|
  {
    if s != [] {
      ReverseLength(s[1..]);
    }
  }

  /** The selection after `commits.reverse()`: oldest first. */
  function SampleOrder<T>(all: seq<T>, maxCommits: int): (r: seq<T>)
    requires maxCommits != 0
    ensures |r| == |Select(all, maxCommits)| <= |all|
  {
    Reverse(Select(all, maxCommits))
  }

  /**
   * The k-th commit walked is the (n - 1 - k)-th selected one, for a selection
   * of n commits; with SelectAt, that is `all_commits[(n - 1 - k) * step]`, so
   * positions in the newest-first history fall as k rises: the walk goes from
   * older to newer commits.
   */
  lemma SampleOrderAt<T>(all: seq<T>, maxCommits: int, k: nat)
    requires maxCommits != 0 && k < |SampleOrder(all, maxCommits)|
    ensures |SampleOrder(all, maxCommits)| == |Select(all, maxCommits)|
    ensures SampleOrder(all, maxCommits)[k] == Select(all, maxCommits)[|Select(all, maxCommits)| - 1 - k]
  {
    var sel := Select(all, maxCommits);
    ReverseLength(sel);
    ReverseAt(sel, k);
  }

  /** Every sampled commit comes from the listed history. */
  lemma SampleMembers<T>(all: seq<T>, maxCommits: int, x: T)
    requires maxCommits != 0 && x in SampleOrder(all, maxCommits)
    ensures x in all
  {
    var step := Step(|all|, maxCommits);
    ReverseMembers(Select(all, maxCommits), x);
    StrideMembers(all, step, x);
  }

  lemma {:induction false} StrideMembers<T>(s: seq<T>, step: nat, x: T)
    requires step >= 1 && x in Stride(s, step)
    ensures x in s
  {
    if x != s[0] {
      StrideMembers(s[Min(step, |s|)..], step, x);
    }
  }

  lemma {:induction false} ReverseMembers<T>(s: seq<T>, x: T)
    ensures x in Reverse(s) <==> x in s
  {
    if s != [] {
      ReverseMembers(s[1..], x);
      assert x in s <==> x == s[0] || x in s[1..];
    }
  }

  /**
   * The positions of the `history` loop that are not skipped, from `idx` on:
   * those with `idx % skip == 0`. Dafny's `%` is Euclidean and Python's follows
   * the sign of the divisor, but the two agree on when the remainder is zero.
   */
  function VisitedFrom<T>(s: seq<T>, skip: int, idx: nat): (r: seq<T>)
    requires skip != 0
    ensures idx >= |s| ==> r == []
    ensures idx < |s| ==> |r| <= |s| - idx
    decreases |s| - idx
  {
    if idx >= |s| then []
    else (if idx % skip == 0 then [s[idx]] else []) + VisitedFrom(s, skip, idx + 1)
  }

  function Visited<T>(s: seq<T>, skip: int): (r: seq<T>)
    requires skip != 0
    ensures |r| <= |s|
  {
    VisitedFrom(s, skip, 0)
  }

  /** Euclidean division is unique: `q * a + t` leaves remainder `t` when `0 <= t < a`. */
  lemma ModShift(q: int, a: nat, t: nat)
    requires a >= 1 && t < a
    ensures (q * a + t) % a == t
  {
    var x := q * a + t;
    var q', r := x / a, x % a;
    assert (q - q') * a == r - t;
    if q > q' {
      MulMono(1, q - q', a);
      assert false;
    } else if q < q' {
      MulMono(1, q' - q, a);
      assert false;
    }
  }

  /** A zero remainder does not depend on the divisor's sign. */
  lemma ModSign(x: int, skip: int)
    requires skip != 0
    ensures x % skip == x % Abs(skip)
  {
    if skip < 0 {
      var q, r := x / skip, x % skip;
      assert x == q * skip + r;
      assert q * skip == (-q) * Abs(skip);
      ModShift(-q, Abs(skip), r);
    }
  }

  lemma NotMultiple(base: nat, a: nat, j: nat)
    requires a >= 1 && base % a == 0 && base < j < base + a
    ensures j % a != 0
  {
    assert base == (base / a) * a;
    ModShift(base / a, a, j - base);
  }

  lemma NextMultiple(idx: nat, a: nat)
    requires a >= 1 && idx % a == 0
    ensures (idx + a) % a == 0
  {
    assert idx == (idx / a) * a;
    assert (idx / a + 1) * a + 0 == idx + a;
    ModShift(idx / a + 1, a, 0);
  }

  /** Between two multiples of |skip| no position is visited. */
  lemma {:induction false} VisitedGap<T>(s: seq<T>, skip: int, base: nat, j: nat)
    requires skip != 0 && base % Abs(skip) == 0
    requires base < j <= base + Abs(skip)
    ensures VisitedFrom(s, skip, j) == VisitedFrom(s, skip, Min(base + Abs(skip), |s|))
    decreases base + Abs(skip) - j
  {
    var a := Abs(skip);
    if j < base + a && j < |s| {
      NotMultiple(base, a, j);
      ModSign(j, skip);
      VisitedGap(s, skip, base, j + 1);
    }
  }

  lemma {:induction false} VisitedFromStride<T>(s: seq<T>, skip: int, idx: nat)
    requires skip != 0 && idx <= |s| && idx % Abs(skip) == 0
    ensures VisitedFrom(s, skip, idx) == Stride(s[idx..], Abs(skip))
    decreases |s| - idx
  {
    var a := Abs(skip);
    if idx < |s| {
      ModSign(idx, skip);
      var next := Min(idx + a, |s|);
      var tail := s[idx..];
      assert tail[Min(a, |tail|)..] == s[next..];
      assert Stride(tail, a) == [s[idx]] + Stride(s[next..], a);
      VisitedGap(s, skip, idx, idx + 1);
      assert VisitedFrom(s, skip, idx) == [s[idx]] + VisitedFrom(s, skip, next);
      if next < |s| {
        NextMultiple(idx, a);
        VisitedFromStride(s, skip, next);
      } else {
        assert s[next..] == [];
      }
    }
  }

  /** Keeping the positions with `idx % skip == 0` is the stride `s[::|skip|]`. */
  lemma VisitedIsStride<T>(s: seq<T>, skip: int)
    requires skip != 0
    ensures Visited(s, skip) == Stride(s, Abs(skip))
  {
    VisitedFromStride(s, skip, 0);
    assert s[0..] == s;
  }

  /**
   * ceil(|s| / |skip|) positions are visited, in order, the k-th being `s[k * |skip|]`.
   */
  lemma VisitedCount<T>(s: seq<T>, skip: int)
    requires skip != 0
    ensures |Visited(s, skip)| == 0 <==> |s| == 0
    ensures |s| > 0 ==> (|Visited(s, skip)| - 1) * Abs(skip) < |s| <= |Visited(s, skip)| * Abs(skip)
    ensures forall k :: 0 <= k < |Visited(s, skip)| ==>
              k * Abs(skip) < |s| && Visited(s, skip)[k] == s[k * Abs(skip)]
  {
    VisitedIsStride(s, skip);
    StrideLength(s, Abs(skip));
    forall k | 0 <= k < |Visited(s, skip)|
      ensures k * Abs(skip) < |s| && Visited(s, skip)[k] == s[k * Abs(skip)]
    {
      StrideAt(s, Abs(skip), k);
    }
  }

  /** With `skip = 1` (or -1) every sampled commit is visited. */
  lemma VisitedAll<T>(s: seq<T>, skip: int)
    requires skip == 1 || skip == -1
    ensures Visited(s, skip) == s
  {
    VisitedIsStride(s, skip);
    StrideOne(s);
  }

  /** Ten commits, three requested: step 3, positions 0, 3, 6, walked as 6, 3, 0. */
  lemma TenCommitsThreeSamples(all: seq<int>)
    requires all == [0, 1, 2, 3, 4, 5, 6, 7, 8, 9]
    ensures Step(|all|, 3) == 3
    ensures Select(all, 3) == [0, 3, 6]
    ensures SampleOrder(all, 3) == [6, 3, 0]
  {
    var s1, s2, s3 := all[3..], all[3..][3..], all[3..][3..][3..];
    assert s3 == [9] && s3[1..] == [];
    assert Stride(s3, 3) == [9];
    assert Stride(s2, 3) == [6, 9];
    assert Stride(s1, 3) == [3, 6, 9];
    assert Stride(all, 3) == [0, 3, 6, 9];
    assert [0, 3, 6][1..] == [3, 6];
    assert [3, 6][1..] == [6];
  }

  /** Five sampled commits with skip = 2: positions 0, 2 and 4 are visited. */
  lemma FiveCommitsSkipTwo(s: seq<int>)
    requires s == [10, 11, 12, 13, 14]
    ensures Visited(s, 2) == [10, 12, 14]
  {
    VisitedCount(s, 2);
  }
}
