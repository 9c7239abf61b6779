/**
 * The scoring rules of miner/miner.py: the letter grade of one maintainability
 * score (classify_radon_rating) and the mean score of a per-file report
 * (compute_average_mi). Scores are idealised as reals.
 */
module Scoring {
  import opened Wrappers

  /** The `mi` field of one report entry: a number, or anything else (a string, a missing key). */
  datatype MiValue = Number(value: real) | NotNumber

  /** One item of the scorer's report: a file path and its entry. */
  datatype FileScore = FileScore(path: string, mi: MiValue)

  /** A report, as the items of the scorer's dictionary in iteration order. */
  type Report = seq<FileScore>

  datatype Grade = A | B | C | D | E

  /** A = 4 down to E = 0: a larger rank is a better grade. */
  function Rank(g: Grade): nat
  {
    match g
    case A => 4
    case B => 3
    case C => 2
    case D => 1
    case E => 0
  }

  /** classify_radon_rating: each grade owns a half-open band of scores; lower bounds are inclusive. */
  function Classify(mi: real): (g: Grade)
    ensures g == A <==> 85.0 <= mi
    ensures g == B <==> 70.0 <= mi < 85.0
    ensures g == C <==> 50.0 <= mi < 70.0
    ensures g == D <==> 30.0 <= mi < 50.0
    ensures g == E <==> mi < 30.0
  {
    if mi >= 85.0 then A
    else if mi >= 70.0 then B
    else if mi >= 50.0 then C
    else if mi >= 30.0 then D
    else E
  }

  /** A higher score never gets a worse grade. */
  lemma ClassifyMonotone(x: real, y: real)
    requires x <= y
    ensures Rank(Classify(x)) <= Rank(Classify(y))
  {
  }

  /** The numeric `mi` values of a report, in report order. */
  function NumericValues(report: Report): (vals: seq<real>)
    ensures |vals| <= |report|
    ensures forall v :: v in vals ==> exists i :: 0 <= i < |report| && report[i].mi == Number(v)
  {
    if report == [] then []
    else
      var rest := NumericValues(report[1..]);
      assert forall v :: v in rest ==> exists i :: 0 <= i < |report| && report[i].mi == Number(v) by {
        forall v | v in rest ensures exists i :: 0 <= i < |report| && report[i].mi == Number(v) {
          var j :| 0 <= j < |report[1..]| && report[1..][j].mi == Number(v);
          assert report[j + 1].mi == Number(v);
        }
      }
      match report[0].mi
      case Number(v) => [v] + rest
      case NotNumber => rest
  }

  /** Every numeric `mi` of the report is among its numeric values. */
  lemma {:induction false} NumericValuesComplete(report: Report, i: nat)
    requires i < |report| && report[i].mi.Number?
    ensures report[i].mi.value in NumericValues(report)
  {
    if i > 0 {
      NumericValuesComplete(report[1..], i - 1);
      assert report[1..][i - 1] == report[i];
    }
  }

  /** Splitting a report splits its numeric values the same way. */
  lemma {:induction false} NumericValuesAppend(r1: Report, r2: Report)
    ensures NumericValues(r1 + r2) == NumericValues(r1) + NumericValues(r2)
  {
    if r1 != [] {
      assert (r1 + r2)[1..] == r1[1..] + r2;
      NumericValuesAppend(r1[1..], r2);
    } else {
      assert r1 + r2 == r2;
    }
  }

  function Sum(vals: seq<real>): real
  {
    if vals == [] then 0.0 else vals[0] + Sum(vals[1..])
  }

  function Lowest(vals: seq<real>): (m: real)
    requires vals != []
    ensures m in vals
    ensures forall v :: v in vals ==> m <= v
  {
    if |vals| == 1 then vals[0]
    else
      var rest := Lowest(vals[1..]);
      assert forall v :: v in vals ==> v == vals[0] || v in vals[1..];
      if vals[0] <= rest then vals[0] else rest
  }

  function Highest(vals: seq<real>): (m: real)
    requires vals != []
    ensures m in vals
    ensures forall v :: v in vals ==> v <= m
  {
    if |vals| == 1 then vals[0]
    else
      var rest := Highest(vals[1..]);
      assert forall v :: v in vals ==> v == vals[0] || v in vals[1..];
      if vals[0] >= rest then vals[0] else rest
  }

  /**
   * compute_average_mi: no value (not zero) when the report is empty or has no
   * numeric `mi`; otherwise the mean of the numeric values alone.
   */
  function Average(report: Report): (avg: Option<real>)
    ensures avg.None? <==> NumericValues(report) == []
    ensures avg.Some? ==> avg.value * (|NumericValues(report)| as real) == Sum(NumericValues(report))
  {
    if |report| == 0 then None
    else
      var vals := NumericValues(report);
      if |vals| == 0 then None else Some(Sum(vals) / (|vals| as real))
  }

  /** `count` copies of `x` added up. */
  function Scale(count: nat, x: real): real
  {
    if count == 0 then 0.0 else x + Scale(count - 1, x)
  }

  lemma {:induction false} ScaleIsProduct(count: nat, x: real)
    ensures Scale(count, x) == (count as real) * x
  {
    if count > 0 {
      ScaleIsProduct(count - 1, x);
    }
  }

  /** A sum of values in [lo, hi] lies between n copies of lo and n copies of hi. */
  lemma {:induction false} SumBounds(vals: seq<real>, lo: real, hi: real)
    requires forall v :: v in vals ==> lo <= v <= hi
    ensures Scale(|vals|, lo) <= Sum(vals) <= Scale(|vals|, hi)
  {
    if vals != [] {
      assert vals[0] in vals;
      assert forall v :: v in vals[1..] ==> v in vals;
      SumBounds(vals[1..], lo, hi);
    }
  }

  /** The mean lies between the smallest and the largest numeric value. */
  lemma AverageBetweenExtremes(report: Report)
    requires Average(report).Some?
    ensures Lowest(NumericValues(report)) <= Average(report).value <= Highest(NumericValues(report))
  {
    MeanBetweenExtremes(NumericValues(report));
  }

  lemma MeanBetweenExtremes(vals: seq<real>)
    requires vals != []
    ensures Lowest(vals) <= Sum(vals) / (|vals| as real) <= Highest(vals)
  {
    SumBounds(vals, Lowest(vals), Highest(vals));
    QuotientBetween(Sum(vals), |vals|, Lowest(vals), Highest(vals));
  }

  lemma QuotientBetween(total: real, count: nat, lo: real, hi: real)
    requires count > 0 && Scale(count, lo) <= total <= Scale(count, hi)
    ensures lo <= total / (count as real) <= hi
  {
    ScaleIsProduct(count, lo);
    ScaleIsProduct(count, hi);
    var n := count as real;
    var q := total / n;
    assert q * n == total;
    assert n * (q - lo) == total - n * lo;
    assert n * (hi - q) == n * hi - total;
  }

  /** The average depends on the numeric values alone. */
  lemma AverageOfValues(r1: Report, r2: Report)
    requires NumericValues(r1) == NumericValues(r2)
    ensures Average(r1) == Average(r2)
  {
  }

  /** Dropping an entry whose `mi` is not numeric never changes the average. */
  lemma AverageIgnoresNonNumeric(r1: Report, e: FileScore, r2: Report)
    requires e.mi.NotNumber?
    ensures Average(r1 + [e] + r2) == Average(r1 + r2)
  {
    NumericValuesAppend(r1 + [e], r2);
    NumericValuesAppend(r1, [e]);
    NumericValuesAppend(r1, r2);
    assert NumericValues([e]) == [] by {
      assert [e][1..] == [];
    }
    AverageOfValues(r1 + [e] + r2, r1 + r2);
  }

  /** Scores 90 and 70 average to 80; a non-numeric entry beside a 60 leaves 60. */
  lemma AverageExamples()
    ensures Average([FileScore("a.py", Number(90.0)), FileScore("b.py", Number(70.0))]) == Some(80.0)
    ensures Average([FileScore("a.py", NotNumber), FileScore("b.py", Number(60.0))]) == Some(60.0)
    ensures Average([]) == None
  {
    var r1 := [FileScore("a.py", Number(90.0)), FileScore("b.py", Number(70.0))];
    assert r1[1..][1..] == [];
    assert NumericValues(r1) == [90.0, 70.0];
    var r2 := [FileScore("a.py", NotNumber), FileScore("b.py", Number(60.0))];
    assert r2[1..][1..] == [];
    assert NumericValues(r2) == [60.0];
  }
}
