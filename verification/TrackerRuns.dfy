/** Trackers over many jobs: how their errors count, and how long they are left alone. */
module TrackerRuns {
  import opened Wrappers
  import opened TrackerBackoff

  /** One job: the time it ran, and what it got. */
  datatype Round = Round(now: real, results: seq<Result>)

  function After(ts: Trackers, rounds: seq<Round>, c: Config): (r: Trackers)
    ensures r.Keys == ts.Keys
  {
    if rounds == [] then ts
    else
      var n := |rounds| - 1;
      AfterJob(After(ts, rounds[..n], c), rounds[n].results, c, rounds[n].now)
  }

  predicate Fails(r: Round, u: Url) {
    FirstError(AllErrors(r.results), u).Some?
  }

  /** The tracker failed and the job recorded it. */
  predicate Counts(r: Round, u: Url) {
    Fails(r, u) && Recorded(r.results)
  }

  predicate Works(r: Round, u: Url) {
    !Fails(r, u) && u in AllResponders(r.results)
  }

  /** The tracker is in the round's results at all. */
  predicate Scraped(r: Round, u: Url) {
    Fails(r, u) || Works(r, u)
  }

  // ---------------------------------------------------------------- the trailing run of failures

  /** The last round in which the tracker worked, or -1. */
  ghost predicate LastWorked(rounds: seq<Round>, u: Url, i: int) {
    && -1 <= i < |rounds|
    && (i >= 0 ==> Works(rounds[i], u))
    && forall j :: i < j < |rounds| ==> !Works(rounds[j], u)
  }

  function FailuresAfter(rounds: seq<Round>, u: Url, i: int): set<int>
    requires -1 <= i
  {
    set j | i < j < |rounds| && Counts(rounds[j], u)
  }

  /** How many recorded failures a tracker has behind it at the end, given when it last worked. */
  function Failures(ts: Trackers, rounds: seq<Round>, u: Url, w: int): nat
    requires u in ts && -1 <= w
  {
    |FailuresAfter(rounds, u, w)| + if w < 0 then ts[u].nErrors else 0
  }

  lemma LastWorkedFound(rounds: seq<Round>, u: Url) returns (i: int)
    ensures LastWorked(rounds, u, i)
  {
    i := |rounds| - 1;
    while i >= 0 && !Works(rounds[i], u)
      invariant -1 <= i < |rounds|
      invariant forall j :: i < j < |rounds| ==> !Works(rounds[j], u)
    {
      i := i - 1;
    }
  }

  /** The number of errors is the number of recorded failures since the last round in which the
      tracker worked; if it never did, those it started with count as well. */
  lemma {:induction false} ErrorsCounted(ts: Trackers, rounds: seq<Round>, c: Config, u: Url, i: int)
    requires u in ts && LastWorked(rounds, u, i)
    ensures After(ts, rounds, c)[u].nErrors == Failures(ts, rounds, u, i)
    decreases |rounds|
  {
    if rounds == [] {
      assert FailuresAfter(rounds, u, i) == {};
    } else {
      var n := |rounds| - 1;
      if i == n {
        assert FailuresAfter(rounds, u, i) == {};
      } else {
        var past := rounds[..n];
        ErrorsCounted(ts, past, c, u, i);
        FailuresStep(rounds, u, i);
      }
    }
  }

  lemma FailuresStep(rounds: seq<Round>, u: Url, i: int)
    requires -1 <= i < |rounds| - 1
    ensures var n := |rounds| - 1;
            |FailuresAfter(rounds, u, i)| ==
            |FailuresAfter(rounds[..n], u, i)| + if Counts(rounds[n], u) then 1 else 0
  {
    var n := |rounds| - 1;
    var past, all := FailuresAfter(rounds[..n], u, i), FailuresAfter(rounds, u, i);
    assert forall j :: 0 <= j < n ==> rounds[..n][j] == rounds[j];
    assert n !in past;
    assert all == past + if Counts(rounds[n], u) then {n} else {};
  }

  // ---------------------------------------------------------------- jobs

  /** What scraping one tracker brings: errors, of a hash or its own, and how many responses. */
  datatype Answer = Answer(errors: seq<(Option<string>, Kind)>, responses: nat)
  datatype Job = Job(now: real, links: seq<Link>, answers: Url -> Answer)

  /** Every error and response names the tracker that was asked. */
  function Named(u: Url, a: Answer): Result {
    Result(seq(|a.errors|, i requires 0 <= i < |a.errors| => TrackerError(Some(u), a.errors[i].0, a.errors[i].1)),
           seq(a.responses, i => u))
  }

  function RoundOf(ts: Trackers, job: Job, c: Config): Round {
    var g := Gathered(ts, job.links, job.now, c);
    Round(job.now, seq(|g|, i requires 0 <= i < |g| => Named(g[i].0, job.answers(g[i].0))))
  }

  /** Each job gathers what is due after the rounds before it, scrapes it, and records the results. */
  ghost predicate RunOf(ts: Trackers, jobs: seq<Job>, rounds: seq<Round>, c: Config) {
    && |rounds| == |jobs|
    && forall k :: 0 <= k < |jobs| ==> rounds[k] == RoundOf(After(ts, rounds[..k], c), jobs[k], c)
  }

  /** Whatever the jobs, there is a run of them. */
  lemma {:induction false} RunFound(ts: Trackers, jobs: seq<Job>, c: Config) returns (rounds: seq<Round>)
    ensures RunOf(ts, jobs, rounds, c)
    decreases |jobs|
  {
    rounds := [];
    if jobs != [] {
      var n := |jobs| - 1;
      var before := RunFound(ts, jobs[..n], c);
      rounds := before + [RoundOf(After(ts, before, c), jobs[n], c)];
      forall k | 0 <= k < |jobs|
        ensures rounds[k] == RoundOf(After(ts, rounds[..k], c), jobs[k], c)
      {
        assert rounds[..k] == before[..k];
        assert before[..n] == before;
      }
    }
  }

  lemma {:induction false} ErrorNamed(es: seq<TrackerError>, u: Url)
    requires FirstError(es, u).Some?
    ensures exists e :: e in es && e.url == Some(u)
  {
    if OfTracker(es[0], u) {
      assert es[0] in es;
    } else {
      ErrorNamed(es[1..], u);
    }
  }

  lemma {:induction false} ErrorFrom(results: seq<Result>, e: TrackerError)
    requires e in AllErrors(results)
    ensures exists i :: 0 <= i < |results| && e in results[i].errors
  {
    var n := |results| - 1;
    if e !in results[n].errors {
      ErrorFrom(results[..n], e);
    }
  }

  lemma {:induction false} ResponderFrom(results: seq<Result>, u: Url)
    requires u in AllResponders(results)
    ensures exists i :: 0 <= i < |results| && u in results[i].responders
  {
    var n := |results| - 1;
    if u !in results[n].responders {
      ResponderFrom(results[..n], u);
    }
  }

  /** A job's results are about trackers that were due when it ran. */
  lemma ScrapedDue(ts: Trackers, job: Job, c: Config, u: Url)
    requires Scraped(RoundOf(ts, job, c), u)
    ensures u in ts && Due(ts[u], job.now)
  {
    var g, results := Gathered(ts, job.links, job.now, c), RoundOf(ts, job, c).results;
    var i: int;
    if Fails(RoundOf(ts, job, c), u) {
      ErrorNamed(AllErrors(results), u);
      var e :| e in AllErrors(results) && e.url == Some(u);
      ErrorFrom(results, e);
      i :| 0 <= i < |results| && e in results[i].errors;
    } else {
      ResponderFrom(results, u);
      i :| 0 <= i < |results| && u in results[i].responders;
    }
    assert results[i] == Named(g[i].0, job.answers(g[i].0));
    assert g[i].0 == u;
    GatheredDue(ts, job.links, job.now, c, i);
  }

  /** No job before this one has recorded anything about the tracker since that one. */
  predicate Silent(rounds: seq<Round>, u: Url, i: nat, k: nat)
    requires k <= |rounds|
  {
    forall m :: i <= m < k ==> !(Scraped(rounds[m], u) && Recorded(rounds[m].results))
  }

  lemma {:induction false} Unscraped(ts: Trackers, rounds: seq<Round>, c: Config, u: Url, i: nat, k: nat)
    requires u in ts && i <= k <= |rounds| && Silent(rounds, u, i, k)
    ensures After(ts, rounds[..k], c)[u] == After(ts, rounds[..i], c)[u]
    decreases k
  {
    if i < k {
      Unscraped(ts, rounds, c, u, i, k - 1);
      assert rounds[..k][..k - 1] == rounds[..k - 1];
    }
  }

  lemma FailureRecorded(ts: Trackers, rounds: seq<Round>, c: Config, u: Url, i: nat, w: int)
    requires u in ts && i < |rounds| && Counts(rounds[i], u) && LastWorked(rounds[..i + 1], u, w)
    ensures var n, kind := Failures(ts, rounds[..i + 1], u, w), FirstError(AllErrors(rounds[i].results), u).get;
            n > 0 && After(ts, rounds[..i + 1], c)[u] ==
                     Tracker(n, Some(kind), Some(rounds[i].now + Backoff(c, n, kind)))
  {
    assert rounds[..i + 1][..i] == rounds[..i];
    ErrorsCounted(ts, rounds[..i + 1], c, u, w);
  }

  /** When a tracker on which a job failed is due again, as long as nothing more is recorded: after
      the backoff for as many failures as there were since it last worked; but at once if no
      tracker at all responded to that job, since then its failure is not recorded. */
  lemma DueAgainExactly(
    ts: Trackers, jobs: seq<Job>, rounds: seq<Round>, c: Config, u: Url, i: nat, k: nat, w: int, now: real)
    requires RunOf(ts, jobs, rounds, c) && i < k <= |rounds| && Silent(rounds, u, i + 1, k)
    requires Fails(rounds[i], u) && LastWorked(rounds[..i + 1], u, w) && now >= jobs[i].now
    ensures u in ts &&
            var n, kind := Failures(ts, rounds[..i + 1], u, w), FirstError(AllErrors(rounds[i].results), u).get;
            Due(After(ts, rounds[..k], c)[u], now) <==>
            (Recorded(rounds[i].results) ==> now > jobs[i].now + Backoff(c, n, kind))
  {
    ScrapedDue(After(ts, rounds[..i], c), jobs[i], c, u);
    Unscraped(ts, rounds, c, u, i + 1, k);
    if Recorded(rounds[i].results) {
      FailureRecorded(ts, rounds, c, u, i, w);
    } else {
      assert rounds[..i + 1][..i] == rounds[..i];
    }
  }

  /** Once a job has recorded a failure of a tracker, the next job to scrape it runs only after
      the backoff for as many failures as there were since it last worked. */
  lemma WaitsLongEnough(
    ts: Trackers, jobs: seq<Job>, rounds: seq<Round>, c: Config, u: Url, i: nat, k: nat, w: int)
    requires RunOf(ts, jobs, rounds, c) && i < k < |rounds| && Silent(rounds, u, i + 1, k)
    requires Counts(rounds[i], u) && Scraped(rounds[k], u) && LastWorked(rounds[..i + 1], u, w)
    ensures u in ts &&
            var n, kind := Failures(ts, rounds[..i + 1], u, w), FirstError(AllErrors(rounds[i].results), u).get;
            n > 0 && jobs[k].now > jobs[i].now + Backoff(c, n, kind)
  {
    ScrapedDue(After(ts, rounds[..k], c), jobs[k], c, u);
    Unscraped(ts, rounds, c, u, i + 1, k);
    FailureRecorded(ts, rounds, c, u, i, w);
  }

  /** However often trackers fail, as long as none responds they are never left alone. */
  lemma {:induction false} NeverBackedOff(ts: Trackers, jobs: seq<Job>, rounds: seq<Round>, c: Config, k: nat)
    requires RunOf(ts, jobs, rounds, c) && k <= |jobs|
    requires forall j, u :: 0 <= j < |jobs| ==> jobs[j].answers(u).responses == 0
    ensures After(ts, rounds[..k], c) == ts
  {
    if k > 0 {
      NeverBackedOff(ts, jobs, rounds, c, k - 1);
      assert rounds[..k][..k - 1] == rounds[..k - 1];
      NobodyResponded(ts, jobs[k - 1], c);
    }
  }

  lemma NobodyResponded(ts: Trackers, job: Job, c: Config)
    requires forall u :: job.answers(u).responses == 0
    ensures !Recorded(RoundOf(ts, job, c).results)
  {
    var results, g := RoundOf(ts, job, c).results, Gathered(ts, job.links, job.now, c);
    forall i | 0 <= i < |results|
      ensures results[i].responders == []
    {
      assert results[i] == Named(g[i].0, job.answers(g[i].0));
    }
    NoResponders(results);
  }

  /** A failure that is not waited for: the only tracker times out, and does so again in a job a
      minute later, though its backoff is two hours. */
  lemma AskedAgain(c: Config) returns (ts: Trackers, jobs: seq<Job>, rounds: seq<Round>)
    requires c == Config(30, 1.0, 1.0, 2.0, 5.0, 10.0, 43200.0)
    ensures |jobs| == 2 && jobs[1].now == jobs[0].now + 1.0 && RunOf(ts, jobs, rounds, c)
    ensures Fails(rounds[0], "u") && Fails(rounds[1], "u") && Backoff(c, 1, TimedOut) == 120.0
  {
    var answers: Url -> Answer := u => Answer([(None, TimedOut)], 0);
    var links := [Link("u", Some("h"), None, false, true)];
    ts := map["u" := Tracker(0, None, None)];
    jobs := [Job(0.0, links, answers), Job(1.0, links, answers)];
    rounds := RunFound(ts, jobs, c);
    NeverBackedOff(ts, jobs, rounds, c, 0);
    NeverBackedOff(ts, jobs, rounds, c, 1);
    OnlyOne(ts, jobs[0], c);
    OnlyOne(ts, jobs[1], c);
  }

  lemma OnlyOne(ts: Trackers, job: Job, c: Config)
    requires ts == map["u" := Tracker(0, None, None)] && job.answers("u") == Answer([(None, TimedOut)], 0)
    requires job.links == [Link("u", Some("h"), None, false, true)]
    ensures Fails(RoundOf(ts, job, c), "u")
  {
    assert job.links[..0] == [];
    assert Gathered(ts, job.links, job.now, c) == [("u", ["h"])];
    var results := RoundOf(ts, job, c).results;
    assert results == [Named("u", Answer([(None, TimedOut)], 0))];
    assert results[..0] == [];
    assert AllErrors(results) == [] + results[0].errors == [TrackerError(Some("u"), None, TimedOut)];
  }

  lemma {:induction false} NoResponders(results: seq<Result>)
    requires forall i :: 0 <= i < |results| ==> results[i].responders == []
    ensures !Recorded(results)
  {
    if results != [] {
      NoResponders(results[..|results| - 1]);
    }
  }
}
