/**
 * The front half shared by plot_mi_time_series and render_mi_plot_bytes in
 * miner/miner.py: parse each entry's date, drop the entries whose date does
 * not parse, keep a missing average as a gap (NaN) at its date, and fail when
 * no date is left. Date parsing is the given function `parseDate`.
 */
module Series {
  import opened Wrappers
  import opened History

  /** `RuntimeError("No valid date points to plot")`. */
  datatype PlotError = NoValidDatePoints

  /** One plotted point; a `None` value is a gap in the line. */
  datatype Point<D> = Point(date: D, value: Option<real>)

  /** The points of a series, in series order. */
  function Points<D>(results: seq<SampleResult>, parseDate: string -> Option<D>): (r: seq<Point<D>>)
    ensures |r| <= |results|
  {
    if results == [] then []
    else
      (match parseDate(results[0].date)
       case None => []
       case Some(d) => [Point(d, results[0].avgMi)])
      + Points(results[1..], parseDate)
  }

  /** Splitting a series splits its points the same way: order is kept. */
  lemma {:induction false} PointsAppend<D>(r1: seq<SampleResult>, r2: seq<SampleResult>,
                                           parseDate: string -> Option<D>)
    ensures Points(r1 + r2, parseDate) == Points(r1, parseDate) + Points(r2, parseDate)
  {
    if r1 == [] {
      assert r1 + r2 == r2;
    } else {
      assert (r1 + r2)[1..] == r1[1..] + r2;
      PointsAppend(r1[1..], r2, parseDate);
    }
  }

  /**
   * A point is plotted exactly when some entry's date parses to its date and
   * the entry's average (a value or a gap) is its value.
   */
  lemma {:induction false} PointsMembers<D>(results: seq<SampleResult>, parseDate: string -> Option<D>,
                                            p: Point<D>)
    ensures p in Points(results, parseDate) <==>
            exists i :: 0 <= i < |results| && parseDate(results[i].date) == Some(p.date)
                        && results[i].avgMi == p.value
  {
    if results != [] {
      PointsMembers(results[1..], parseDate, p);
      if exists i :: 0 <= i < |results| && parseDate(results[i].date) == Some(p.date)
                     && results[i].avgMi == p.value {
        var i :| 0 <= i < |results| && parseDate(results[i].date) == Some(p.date)
                 && results[i].avgMi == p.value;
        if i > 0 {
          assert results[1..][i - 1] == results[i];
        }
      }
      if p in Points(results[1..], parseDate) {
        var j :| 0 <= j < |results[1..]| && parseDate(results[1..][j].date) == Some(p.date)
                 && results[1..][j].avgMi == p.value;
        assert results[j + 1] == results[1..][j];
      }
    }
  }

  /** An entry without an average but with a parsable date stays on the chart, as a gap. */
  lemma GapKept<D>(results: seq<SampleResult>, parseDate: string -> Option<D>, i: nat)
    requires i < |results| && parseDate(results[i].date).Some? && results[i].avgMi.None?
    ensures Point(parseDate(results[i].date).value, None) in Points(results, parseDate)
  {
    PointsMembers(results, parseDate, Point(parseDate(results[i].date).value, None));
  }

  /** There is nothing to plot exactly when no entry's date parses. */
  lemma {:induction false} PointsEmpty<D>(results: seq<SampleResult>, parseDate: string -> Option<D>)
    ensures Points(results, parseDate) == [] <==>
            forall i :: 0 <= i < |results| ==> parseDate(results[i].date).None?
  {
    if results != [] {
      PointsEmpty(results[1..], parseDate);
      assert forall i :: 1 <= i < |results| ==> results[i] == results[1..][i - 1];
    }
  }

  /**
   * The `for r in results` loop and the check after it: the dates and the
   * values (a gap for a missing average) of the plotted points, or the
   * "no valid date points" error.
   */
  method CollectPoints<D>(results: seq<SampleResult>, parseDate: string -> Option<D>)
    returns (r: Result<(seq<D>, seq<Option<real>>), PlotError>)
    ensures r.Err? <==> Points(results, parseDate) == []
    ensures r.Ok? ==> |r.value.0| == |Points(results, parseDate)| && |r.value.1| == |r.value.0|
    ensures r.Ok? ==> forall k :: 0 <= k < |r.value.0| ==>
              r.value.0[k] == Points(results, parseDate)[k].date
              && r.value.1[k] == Points(results, parseDate)[k].value
  {
    var dates: seq<D> := [];
    var values: seq<Option<real>> := [];
    var i := 0;
    while i < |results|
      invariant 0 <= i <= |results|
      invariant |dates| == |values| == |Points(results[..i], parseDate)|
      invariant forall k :: 0 <= k < |dates| ==>
                  dates[k] == Points(results[..i], parseDate)[k].date
                  && values[k] == Points(results[..i], parseDate)[k].value
    {
      assert results[..i + 1] == results[..i] + [results[i]];
      PointsAppend(results[..i], [results[i]], parseDate);
      assert [results[i]][1..] == [];
      var parsed := parseDate(results[i].date);
      if parsed.Some? {
        dates := dates + [parsed.value];
        values := values + [results[i].avgMi];
      }
      i := i + 1;
    }
    assert results[..i] == results;
    if |dates| == 0 {
      return Err(NoValidDatePoints);
    }
    r := Ok((dates, values));
  }
}
