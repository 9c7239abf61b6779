/**
 * The checkout controller of `history` in miner/miner.py: walk the sampled
 * commits oldest-first, check each one out, score the working tree, record
 * one entry per successful checkout, then try once to restore the revision
 * that was checked out at the start.
 */
module History {
  import opened Wrappers
  import opened Scoring
  import opened Sampler

  type Sha = string

  /** A commit as the history walk sees it: its hash and its ISO-formatted commit date. */
  datatype Commit = Commit(sha: Sha, date: string)

  /** One entry of `results`: `{sha, date, avg_mi, files}`. */
  datatype SampleResult = SampleResult(sha: Sha, date: string, avgMi: Option<real>, files: nat)

  /**
   * The repository's working tree: the checked-out revision (None when HEAD
   * cannot be resolved) and the log of every checkout attempted on it. Whether
   * a checkout succeeds is given by `accepts`.
   */
  class Repository {
    var head: Option<Sha>
    var checkouts: seq<Sha>
    const accepts: Sha -> bool

    constructor (head: Option<Sha>, accepts: Sha -> bool)
      ensures this.head == head && this.accepts == accepts && checkouts == []
    {
      this.head := head;
      this.accepts := accepts;
      checkouts := [];
    }

    /** `repo_obj.head.commit.hexsha`, or None when that raises. */
    method CurrentRevision() returns (rev: Option<Sha>)
      ensures rev == head
    {
      rev := head;
    }

    /** `repo_obj.git.checkout(sha)`: logged whatever happens; moves HEAD only on success. */
    method Checkout(sha: Sha) returns (ok: bool)
      modifies this
      ensures ok == accepts(sha)
      ensures checkouts == old(checkouts) + [sha]
      ensures head == (if ok then Some(sha) else old(head))
    {
      ok := accepts(sha);
      checkouts := checkouts + [sha];
      if ok {
        head := Some(sha);
      }
    }
  }

  /** The revision checked out after attempting `shas` in order, starting from `head`. */
  function Replay(head: Option<Sha>, shas: seq<Sha>, accepts: Sha -> bool): Option<Sha>
    decreases |shas|
  {
    if shas == [] then head
    else Replay(if accepts(shas[0]) then Some(shas[0]) else head, shas[1..], accepts)
  }

  /** `if current_ref:` -- a recorded, non-empty revision is restored. */
  predicate Restores(currentRef: Option<Sha>)
  {
    currentRef.Some? && currentRef.value != ""
  }

  function RestoreAttempt(currentRef: Option<Sha>): (r: seq<Sha>)
    ensures |r| <= 1
    ensures r != [] ==> Restores(currentRef) && r[0] == currentRef.value
  {
    if Restores(currentRef) then [currentRef.value] else []
  }

  function Shas(commits: seq<Commit>): (r: seq<Sha>)
    ensures |r| == |commits|
    ensures forall k :: 0 <= k < |r| ==> r[k] == commits[k].sha
  {
    if commits == [] then [] else [commits[0].sha] + Shas(commits[1..])
  }

  /** The entry recorded for a commit whose checkout succeeded and whose tree scored `report`. */
  function Entry(c: Commit, report: Report, round2: real -> real): (e: SampleResult)
    ensures e.sha == c.sha && e.date == c.date
    ensures e.files == |report|
    ensures e.avgMi.None? <==> NumericValues(report) == []
    ensures e.avgMi.Some? ==> e.avgMi.value == round2(Average(report).value)
  {
    SampleResult(c.sha, c.date,
                 match Average(report) case None => None case Some(m) => Some(round2(m)),
                 |report|)
  }

  /** The entries the walk records for `visits`: one per successful checkout, in visit order. */
  function Recorded(visits: seq<Commit>, accepts: Sha -> bool, scorer: Sha -> Report,
                    round2: real -> real): (r: seq<SampleResult>)
    ensures |r| <= |visits|
  {
    if visits == [] then []
    else
      (if accepts(visits[0].sha) then [Entry(visits[0], scorer(visits[0].sha), round2)] else [])
      + Recorded(visits[1..], accepts, scorer, round2)
  }

  /** The commits among `visits` whose checkout succeeds, in order. */
  function Succeeded(visits: seq<Commit>, accepts: Sha -> bool): (r: seq<Commit>)
    ensures |r| <= |visits|
    ensures forall c :: c in r <==> c in visits && accepts(c.sha)
  {
    if visits == [] then []
    else
      var rest := Succeeded(visits[1..], accepts);
      assert forall c :: c in visits <==> c == visits[0] || c in visits[1..];
      (if accepts(visits[0].sha) then [visits[0]] else []) + rest
  }

  /** Splitting the visits splits the successful ones the same way: visit order is kept. */
  lemma {:induction false} SucceededAppend(a: seq<Commit>, b: seq<Commit>, accepts: Sha -> bool)
    ensures Succeeded(a + b, accepts) == Succeeded(a, accepts) + Succeeded(b, accepts)
  {
    if a == [] {
      assert a + b == b;
    } else {
      assert (a + b)[1..] == a[1..] + b;
      SucceededAppend(a[1..], b, accepts);
    }
  }

  /**
   * The recorded series holds exactly one entry per successful checkout, in
   * visit order, whatever the scorer returned for it; failed checkouts leave no trace.
   */
  lemma {:induction false} RecordedIsSucceeded(visits: seq<Commit>, accepts: Sha -> bool,
                                               scorer: Sha -> Report, round2: real -> real)
    ensures |Recorded(visits, accepts, scorer, round2)| == |Succeeded(visits, accepts)|
    ensures forall k :: 0 <= k < |Succeeded(visits, accepts)| ==>
              Recorded(visits, accepts, scorer, round2)[k]
              == Entry(Succeeded(visits, accepts)[k], scorer(Succeeded(visits, accepts)[k].sha), round2)
  {
    if visits != [] {
      var c := visits[0];
      RecordedIsSucceeded(visits[1..], accepts, scorer, round2);
      var recorded, succeeded := Recorded(visits[1..], accepts, scorer, round2), Succeeded(visits[1..], accepts);
      if accepts(c.sha) {
        assert Recorded(visits, accepts, scorer, round2) == [Entry(c, scorer(c.sha), round2)] + recorded;
        assert Succeeded(visits, accepts) == [c] + succeeded;
      } else {
        assert Recorded(visits, accepts, scorer, round2) == recorded;
        assert Succeeded(visits, accepts) == succeeded;
      }
    }
  }

  /** When every checkout succeeds, every visited commit is recorded. */
  lemma {:induction false} AllSucceed(visits: seq<Commit>, accepts: Sha -> bool)
    requires forall c :: c in visits ==> accepts(c.sha)
    ensures Succeeded(visits, accepts) == visits
  {
    if visits != [] {
      assert forall c :: c in visits[1..] ==> c in visits;
      AllSucceed(visits[1..], accepts);
    }
  }

  /**
   * The `history` command over an already listed history `all` (newest first):
   * sample, remember HEAD, walk, then restore HEAD once. The scorer maps the
   * checked-out revision to its report; `round2` is `round(., 2)`.
   */
  method History(repo: Repository, all: seq<Commit>, maxCommits: int, skip: int,
                 scorer: Sha -> Report, round2: real -> real)
    returns (results: seq<SampleResult>)
    requires maxCommits != 0 && skip != 0
    modifies repo
    ensures results == Recorded(Visited(SampleOrder(all, maxCommits), skip), repo.accepts, scorer, round2)
    ensures repo.checkouts == old(repo.checkouts) + Shas(Visited(SampleOrder(all, maxCommits), skip))
                                                  + RestoreAttempt(old(repo.head))
    ensures Restores(old(repo.head)) && repo.accepts(old(repo.head).value) ==> repo.head == old(repo.head)
    ensures !(Restores(old(repo.head)) && repo.accepts(old(repo.head).value)) ==>
              repo.head == Replay(old(repo.head), Shas(Visited(SampleOrder(all, maxCommits), skip)), repo.accepts)
  {
    var commits := SampleOrder(all, maxCommits);
    var currentRef := repo.CurrentRevision();
    results := Walk(repo, commits, skip, scorer, round2);
    if currentRef.Some? && currentRef.value != "" {
      var _ := repo.Checkout(currentRef.value);
    }
  }

  /**
   * The `for idx, commit in enumerate(commits)` loop: positions with
   * `idx % skip != 0` are passed over, a failed checkout is passed over,
   * and a successful one appends its entry.
   */
  method Walk(repo: Repository, commits: seq<Commit>, skip: int,
              scorer: Sha -> Report, round2: real -> real)
    returns (results: seq<SampleResult>)
    requires skip != 0
    modifies repo
    ensures results == Recorded(Visited(commits, skip), repo.accepts, scorer, round2)
    ensures repo.checkouts == old(repo.checkouts) + Shas(Visited(commits, skip))
    ensures repo.head == Replay(old(repo.head), Shas(Visited(commits, skip)), repo.accepts)
  {
    ghost var visits := Visited(commits, skip);
    ghost var accepts := repo.accepts;
    ghost var start, log := repo.head, repo.checkouts;
    results := [];
    var idx := 0;
    while idx < |commits|
      invariant 0 <= idx <= |commits|
      invariant repo.accepts == accepts
      invariant Recorded(visits, accepts, scorer, round2)
                == results + Recorded(VisitedFrom(commits, skip, idx), accepts, scorer, round2)
      invariant log + Shas(visits) == repo.checkouts + Shas(VisitedFrom(commits, skip, idx))
      invariant Replay(start, Shas(visits), accepts)
                == Replay(repo.head, Shas(VisitedFrom(commits, skip, idx)), accepts)
    {
      if idx % skip != 0 {
        assert VisitedFrom(commits, skip, idx) == VisitedFrom(commits, skip, idx + 1);
        idx := idx + 1;
        continue;
      }
      var commit := commits[idx];
      ghost var rest := VisitedFrom(commits, skip, idx + 1);
      ghost var before, headBefore, logBefore := results, repo.head, repo.checkouts;
      WalkStep(commits, skip, idx, accepts, scorer, round2);
      ReplayStep(headBefore, commit.sha, Shas(rest), accepts);
      var entry := Visit(repo, commit, scorer, round2);
      results := results + entry;
      SeqShift(logBefore, [commit.sha], Shas(rest));
      SeqShift(before, entry, Recorded(rest, accepts, scorer, round2));
      idx := idx + 1;
    }
  }

  /**
   * One iteration of the loop for a position that is not skipped: try the
   * checkout, and on success score the tree and build its entry.
   */
  method Visit(repo: Repository, commit: Commit, scorer: Sha -> Report, round2: real -> real)
    returns (entry: seq<SampleResult>)
    modifies repo
    ensures entry == (if repo.accepts(commit.sha) then [Entry(commit, scorer(commit.sha), round2)] else [])
    ensures repo.checkouts == old(repo.checkouts) + [commit.sha]
    ensures repo.head == (if repo.accepts(commit.sha) then Some(commit.sha) else old(repo.head))
  {
    var ok := repo.Checkout(commit.sha);
    if !ok {
      return [];
    }
    var report := scorer(commit.sha);
    entry := [Entry(commit, report, round2)];
  }

  /**
   * Concatenation regrouped. Dafny proves it on its own, but proving it inside
   * `Walk`'s loop body, among the invariants, exhausts the solver.
   */
  lemma SeqShift<T>(a: seq<T>, b: seq<T>, c: seq<T>)
    ensures a + (b + c) == (a + b) + c
  {
  }

  lemma ReplayStep(head: Option<Sha>, sha: Sha, rest: seq<Sha>, accepts: Sha -> bool)
    ensures Replay(head, [sha] + rest, accepts)
            == Replay(if accepts(sha) then Some(sha) else head, rest, accepts)
  {
    assert ([sha] + rest)[1..] == rest;
  }

  /** One visited position of the walk: what it adds to the entries, the log and the head. */
  lemma WalkStep(commits: seq<Commit>, skip: int, idx: nat, accepts: Sha -> bool,
                 scorer: Sha -> Report, round2: real -> real)
    requires skip != 0 && idx < |commits| && idx % skip == 0
    ensures VisitedFrom(commits, skip, idx) == [commits[idx]] + VisitedFrom(commits, skip, idx + 1)
    ensures Shas(VisitedFrom(commits, skip, idx)) == [commits[idx].sha] + Shas(VisitedFrom(commits, skip, idx + 1))
    ensures Recorded(VisitedFrom(commits, skip, idx), accepts, scorer, round2)
            == (if accepts(commits[idx].sha) then [Entry(commits[idx], scorer(commits[idx].sha), round2)] else [])
               + Recorded(VisitedFrom(commits, skip, idx + 1), accepts, scorer, round2)
  {
    var v := VisitedFrom(commits, skip, idx);
    assert v[1..] == VisitedFrom(commits, skip, idx + 1);
  }

  /** The series never has more entries than commits requested or commits available. */
  lemma SeriesBound(all: seq<Commit>, maxCommits: int, skip: int, accepts: Sha -> bool,
                    scorer: Sha -> Report, round2: real -> real)
    requires maxCommits >= 1 && skip != 0
    ensures |Recorded(Visited(SampleOrder(all, maxCommits), skip), accepts, scorer, round2)|
            <= Min(maxCommits, |all|)
  {
    var visits := Visited(SampleOrder(all, maxCommits), skip);
    SelectLength(all, maxCommits);
    ReverseLength(Select(all, maxCommits));
    RecordedIsSucceeded(visits, accepts, scorer, round2);
  }

  /**
   * With skip = 1 and every checkout succeeding, the series has exactly
   * min(max_commits, total) entries.
   */
  lemma SeriesComplete(all: seq<Commit>, maxCommits: int, accepts: Sha -> bool,
                       scorer: Sha -> Report, round2: real -> real)
    requires maxCommits >= 1
    requires forall c :: c in all ==> accepts(c.sha)
    ensures |Recorded(Visited(SampleOrder(all, maxCommits), 1), accepts, scorer, round2)|
            == Min(maxCommits, |all|)
  {
    var sample := SampleOrder(all, maxCommits);
    SelectLength(all, maxCommits);
    ReverseLength(Select(all, maxCommits));
    VisitedAll(sample, 1);
    forall c | c in sample ensures accepts(c.sha) {
      SampleMembers(all, maxCommits, c);
    }
    AllSucceed(sample, accepts);
    RecordedIsSucceeded(sample, accepts, scorer, round2);
  }

  /**
   * The walk where the second of three commits fails to check out: the first
   * and the third are recorded, in that order.
   */
  lemma MiddleCheckoutFails(c1: Commit, c2: Commit, c3: Commit, accepts: Sha -> bool,
                            scorer: Sha -> Report, round2: real -> real)
    requires accepts(c1.sha) && !accepts(c2.sha) && accepts(c3.sha)
    ensures Recorded(Visited([c1, c2, c3], 1), accepts, scorer, round2)
            == [Entry(c1, scorer(c1.sha), round2), Entry(c3, scorer(c3.sha), round2)]
  {
    VisitedAll([c1, c2, c3], 1);
    assert [c1, c2, c3][1..] == [c2, c3];
    assert [c2, c3][1..] == [c3];
    assert Recorded([c3], accepts, scorer, round2) == [Entry(c3, scorer(c3.sha), round2)];
    assert Recorded([c2, c3], accepts, scorer, round2) == Recorded([c3], accepts, scorer, round2);
  }
}
