/**
 * The `static` command of miner/miner.py: score the tree once and print one
 * line per file whose grade is not A, in report order. Classifying an entry
 * whose `mi` is not a number raises, which ends the command after the lines
 * already printed.
 */
module StaticCommand {
  import opened Scoring

  /** One printed line: `- <relative path>: <rounded score>, <grade>`. */
  datatype Line = Line(relPath: string, shown: real, grade: Grade)

  /**
   * What one run of `static` shows: the lines printed, how many entries were
   * classified (none for an empty report), and whether the classifier raised
   * on a non-numeric `mi`, which ends the command.
   */
  datatype Run = Run(lines: seq<Line>, classified: nat, failed: bool)

  /** How many leading entries have a numeric `mi`: the classifier fails on the entry after them. */
  function NumericPrefix(report: Report): (n: nat)
    ensures n <= |report|
    ensures forall i :: 0 <= i < n ==> report[i].mi.Number?
    ensures n < |report| ==> report[n].mi.NotNumber?
  {
    if report == [] || report[0].mi.NotNumber? then 0
    else 1 + NumericPrefix(report[1..])
  }

  /**
   * A listed file: its path and its numeric score. It is a `FileScore` whose
   * `mi` is known to be a number, so that `Render` needs no precondition.
   */
  datatype Listing = Listing(path: string, mi: real)

  /** The entries `static` lists: those of the numeric prefix whose grade is not A, in order. */
  function Listed(report: Report): (r: seq<Listing>)
    ensures |r| <= NumericPrefix(report)
  {
    if report == [] || report[0].mi.NotNumber? then []
    else (if Classify(report[0].mi.value) == A then [] else [Listing(report[0].path, report[0].mi.value)])
         + Listed(report[1..])
  }

  /** The line printed for a listed entry; `relPath` and `round2` stand for `os.path.relpath` and `round(., 2)`. */
  function Render(e: Listing, relPath: string -> string, round2: real -> real): Line
  {
    Line(relPath(e.path), round2(e.mi), Classify(e.mi))
  }

  function RenderAll(entries: seq<Listing>, relPath: string -> string, round2: real -> real): (r: seq<Line>)
    ensures |r| == |entries|
  {
    if entries == [] then []
    else [Render(entries[0], relPath, round2)] + RenderAll(entries[1..], relPath, round2)
  }

  /**
   * A file is listed exactly when it lies before the first non-numeric entry
   * and its grade is not A; in particular no listed file is graded A.
   */
  lemma {:induction false} ListedMembers(report: Report, path: string, mi: real)
    ensures Listing(path, mi) in Listed(report) <==>
            FileScore(path, Number(mi)) in report[..NumericPrefix(report)] && Classify(mi) != A
  {
    if report != [] && report[0].mi.Number? {
      ListedMembers(report[1..], path, mi);
      assert report[..NumericPrefix(report)] == [report[0]] + report[1..][..NumericPrefix(report[1..])];
    }
  }

  /** Listing a report split after numeric entries lists each part in turn: the order is kept. */
  lemma {:induction false} ListedAppend(r1: Report, r2: Report)
    requires forall i :: 0 <= i < |r1| ==> r1[i].mi.Number?
    ensures Listed(r1 + r2) == Listed(r1) + Listed(r2)
  {
    if r1 == [] {
      assert r1 + r2 == r2;
    } else {
      assert (r1 + r2)[1..] == r1[1..] + r2;
      ListedAppend(r1[1..], r2);
    }
  }

  /** The lines `static` prints for a report, one per listed file. */
  function Lines(report: Report, relPath: string -> string, round2: real -> real): (r: seq<Line>)
    ensures |r| == |Listed(report)|
  {
    RenderAll(Listed(report), relPath, round2)
  }

  lemma LinesStep(report: Report, relPath: string -> string, round2: real -> real)
    requires report != [] && report[0].mi.Number?
    ensures Lines(report, relPath, round2)
            == (if Classify(report[0].mi.value) == A then [] else [Render(Listing(report[0].path, report[0].mi.value), relPath, round2)])
               + Lines(report[1..], relPath, round2)
  {
    var tail := Listed(report[1..]);
    if Classify(report[0].mi.value) != A {
      assert ([Listing(report[0].path, report[0].mi.value)] + tail)[1..] == tail;
    } else {
      assert Listed(report) == tail;
    }
  }

  /** The classifier raises at the first non-numeric entry, and nothing from there on is listed. */
  lemma StopStep(report: Report, i: nat, relPath: string -> string, round2: real -> real)
    requires i <= NumericPrefix(report) && i < |report| && report[i].mi.NotNumber?
    ensures NumericPrefix(report) == i
    ensures Lines(report[i..], relPath, round2) == []
  {
    assert Listed(report[i..]) == [];
  }

  /** A numeric entry adds its own line, unless graded A, in front of the lines of the rest. */
  lemma ContinueStep(report: Report, i: nat, lines: seq<Line>, relPath: string -> string, round2: real -> real)
    requires i < |report| && report[i].mi.Number?
    requires Lines(report, relPath, round2) == lines + Lines(report[i..], relPath, round2)
    ensures Classify(report[i].mi.value) == A ==>
              Lines(report, relPath, round2) == lines + Lines(report[i + 1..], relPath, round2)
    ensures Classify(report[i].mi.value) != A ==>
              Lines(report, relPath, round2)
              == (lines + [Render(Listing(report[i].path, report[i].mi.value), relPath, round2)])
                 + Lines(report[i + 1..], relPath, round2)
  {
    assert report[i..][1..] == report[i + 1..];
    LinesStep(report[i..], relPath, round2);
  }

  /**
   * The `for file, score in radon_report.items()` loop. The run fails exactly
   * when the report holds a non-numeric `mi`, after classifying every entry up
   * to and including the first such one.
   */
  method Static(report: Report, relPath: string -> string, round2: real -> real) returns (run: Run)
    ensures run.lines == Lines(report, relPath, round2)
    ensures run.failed ==> NumericPrefix(report) < |report| && run.classified == NumericPrefix(report) + 1
    ensures !run.failed ==> NumericPrefix(report) == |report| && run.classified == |report|
  {
    var lines, classified, failed := [], 0, false;
    var i := 0;
    while i < |report| && !failed
      invariant i <= NumericPrefix(report)
      invariant classified == (if failed then i + 1 else i)
      invariant failed ==> i == NumericPrefix(report) < |report|
      invariant failed ==> Lines(report, relPath, round2) == lines
      invariant !failed ==> Lines(report, relPath, round2) == lines + Lines(report[i..], relPath, round2)
      decreases |report| - i, !failed
    {
      classified := classified + 1;
      var entry := report[i];
      if entry.mi.NotNumber? {
        StopStep(report, i, relPath, round2);
        failed := true;
      } else {
        ContinueStep(report, i, lines, relPath, round2);
        var grade := Classify(entry.mi.value);
        if grade != A {
          lines := lines + [Render(Listing(entry.path, entry.mi.value), relPath, round2)];
        }
        i := i + 1;
      }
    }
    run := Run(lines, classified, failed);
  }

  /** Of a file scoring 90 and one scoring 60, only the second is listed. */
  lemma ListedExample()
    ensures Listed([FileScore("a.py", Number(90.0)), FileScore("b.py", Number(60.0))])
            == [Listing("b.py", 60.0)]
  {
    var r := [FileScore("a.py", Number(90.0)), FileScore("b.py", Number(60.0))];
    assert r[1..][1..] == [];
  }
}
