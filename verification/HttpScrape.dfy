/** Scraping a tracker over HTTP: all at once, and one by one where that does not work. */
module HttpScrape {
  import opened Wrappers
  import opened Numbers
  import opened ScrapeResults

  datatype Stats = Stats(seeders: int, completed: int, leechers: int)
  datatype ErrorKind = Default | TimedOut | NoResponse
  /** Errors are all of the tracker as a whole. */
  type Result = Scraped<ErrorKind, Stats>

  /** What a request asks for, and what comes of it: a failing status, or a body; `files` is absent
      when the decoded body has no such entry, and a body that cannot be decoded is `Broken`. */
  datatype Query = Everything | For(hashes: seq<Hash>)
  datatype Reply =
    | Late
    | Broken
    | Status(code: int)
    | Decoded(failure: bool, files: Option<map<Hash, Stats>>)

  /** The tracker as it answers each query, whether it is one of those asked one by one, and the
      choice made when only one hash of many can be asked for. */
  datatype Tracker = Tracker(answer: Query -> Reply, singleOnly: bool, pick: seq<Hash> -> nat)

  const NOTHING: Result := Scraped([], map[])
  const TOO_MANY := 429

  // ---------------------------------------------------------------- one page

  function Picked(t: Tracker, hashes: seq<Hash>): Hash
    requires hashes != []
  {
    hashes[t.pick(hashes) % |hashes|]
  }

  /** The files of a page; of a scrape of everything, those that were asked about. */
  function Kept(files: map<Hash, Stats>, hashes: seq<Hash>, all: bool): map<Hash, Stats> {
    map h | h in files && (h in hashes || !all) :: files[h]
  }

  /** The result of a page, and how many requests it took. */
  function Page(t: Tracker, hashes: seq<Hash>, all: bool): (Result, nat)
    decreases |hashes|, 0
  {
    match t.answer(if all then Everything else For(hashes))
    case Late => (Scraped([TimedOut], map[]), 1)
    case Broken => (Scraped([Default], map[]), 1)
    case Status(code) =>
      if |hashes| > 1 && code != TOO_MANY && t.singleOnly then OneMore(Singles(t, hashes, |hashes|))
      else if code == TOO_MANY then (NOTHING, 1)
      else (Scraped([Default], map[]), 1)
    case Decoded(failure, files) =>
      if files.None? then (Scraped([Default], map[]), 1)
      else if |files.get| <= 1 && |hashes| > 1 then
        if t.singleOnly then OneMore(Singles(t, hashes, |hashes|))
        else OneMore(Page(t, [Picked(t, hashes)], false))
      else (Scraped(if failure then [Default] else [], Kept(files.get, hashes, all)), 1)
  }

  function OneMore(r: (Result, nat)): (Result, nat) {
    (r.0, r.1 + 1)
  }

  /** The first `n` hashes, each by itself, added up. */
  function Singles(t: Tracker, hashes: seq<Hash>, n: nat): (Result, nat)
    requires n <= |hashes| && |hashes| > 1
    decreases |hashes|, 0, n
  {
    if n == 0 then (NOTHING, 0)
    else
      var before, last := Singles(t, hashes, n - 1), Page(t, [hashes[n - 1]], false);
      (Plus(before.0, last.0), before.1 + last.1)
  }

  /** A failed status of a single hash, or one that the tracker is not asked again about, is an
      error; a refusal for too many requests is none. */
  method ScrapePage(t: Tracker, hashes: seq<Hash>, all: bool) returns (r: Result, ghost requests: nat)
    ensures r == Page(t, hashes, all).0
    ensures requests == Page(t, hashes, all).1
    decreases |hashes|, 0
  {
    var reply := t.answer(if all then Everything else For(hashes));
    if reply.Late? {
      return Scraped([TimedOut], map[]), 1;
    }
    if reply.Status? && |hashes| > 1 && reply.code != TOO_MANY && t.singleOnly {
      r, requests := ScrapeSingle(t, hashes);
      return r, requests + 1;
    }
    if reply.Status? && reply.code == TOO_MANY {
      return NOTHING, 1;
    }
    if reply.Status? || reply.Broken? || reply.files.None? {
      return Scraped([Default], map[]), 1;
    }
    var files := reply.files.get;
    if |files| <= 1 && |hashes| > 1 {
      if t.singleOnly {
        r, requests := ScrapeSingle(t, hashes);
      } else {
        r, requests := ScrapePage(t, [Picked(t, hashes)], false);
      }
      return r, requests + 1;
    }
    return Scraped(if reply.failure then [Default] else [], Kept(files, hashes, all)), 1;
  }

  method ScrapeSingle(t: Tracker, hashes: seq<Hash>) returns (r: Result, ghost requests: nat)
    requires |hashes| > 1
    ensures r == Singles(t, hashes, |hashes|).0
    ensures requests == Singles(t, hashes, |hashes|).1
    decreases |hashes|, 0, 0
  {
    r, requests := NOTHING, 0;
    for i := 0 to |hashes|
      invariant (r, requests) == Singles(t, hashes, i)
    {
      var one, n := ScrapePage(t, [hashes[i]], false);
      r, requests := Plus(r, one), requests + n;
    }
  }

  // ---------------------------------------------------------------- the whole list

  function PagesFrom(t: Tracker, hashes: seq<Hash>, max: nat): Result
    requires max >= 1
    decreases |hashes|
  {
    if hashes == [] then NOTHING
    else
      var n := Least(max, |hashes|);
      Plus(Page(t, hashes[..n], false).0, PagesFrom(t, hashes[n..], max))
  }

  function Collected(t: Tracker, hashes: seq<Hash>, max: nat, all: bool): Result
    requires max >= 1
  {
    if all then Page(t, hashes, true).0 else PagesFrom(t, hashes, max)
  }

  /** A scrape that brought nothing, not even an error, is made an error. */
  function Completed(r: Result): Result {
    if r == NOTHING then Scraped([NoResponse], map[]) else r
  }

  method Scrape(t: Tracker, hashes: seq<Hash>, max: nat, all: bool) returns (r: Result)
    requires max >= 1
    ensures r == Completed(Collected(t, hashes, max, all))
  {
    ghost var requests: nat;
    r := NOTHING;
    if all {
      r, requests := ScrapePage(t, hashes, true);
    } else {
      var todo := hashes;
      PlusNothing(PagesFrom(t, hashes, max));
      while todo != []
        invariant Plus(r, PagesFrom(t, todo, max)) == PagesFrom(t, hashes, max)
        decreases |todo|
      {
        var n := Least(max, |todo|);
        var one: Result;
        one, requests := ScrapePage(t, todo[..n], false);
        PlusAssociative(r, one, PagesFrom(t, todo[n..], max));
        r, todo := Plus(r, one), todo[n..];
      }
      PlusNothing(r);
    }
    if |r.responses| == 0 && |r.errors| == 0 {
      assert r == NOTHING;
      r := r.(errors := r.errors + [NoResponse]);
    }
  }

  // ---------------------------------------------------------------- what it comes to

  lemma {:induction false} SinglesRequests(t: Tracker, hashes: seq<Hash>, n: nat)
    requires n <= |hashes| && |hashes| > 1
    ensures Singles(t, hashes, n).1 == n
  {
    if n > 0 {
      SinglesRequests(t, hashes, n - 1);
    }
  }

  /** A page takes one request; or one more for one hash chosen; or one more for each hash. */
  lemma RequestsExactly(t: Tracker, hashes: seq<Hash>, all: bool)
    ensures Page(t, hashes, all).1 in {1, 2, 1 + |hashes|}
    ensures |hashes| <= 1 ==> Page(t, hashes, all).1 == 1
    ensures Page(t, hashes, all).1 > 2 ==> t.singleOnly
  {
    if |hashes| > 1 {
      SinglesRequests(t, hashes, |hashes|);
    }
  }

  /** Whether a page is asked for again, hash by hash or for one of its hashes. */
  predicate FallsBack(t: Tracker, hashes: seq<Hash>, all: bool) {
    |hashes| > 1 &&
    match t.answer(if all then Everything else For(hashes))
    case Status(code) => code != 429 && t.singleOnly
    case Decoded(_, Some(files)) => |files| <= 1
    case _ => false
  }

  /** A page that is not asked for again: what its one answer brings, hash by hash, and the kind of
      its error, if it has one. */
  lemma AnswerExactly(t: Tracker, hashes: seq<Hash>, all: bool, h: Hash)
    requires !FallsBack(t, hashes, all)
    ensures var r := Page(t, hashes, all).0;
            match t.answer(if all then Everything else For(hashes))
            case Late => r == Scraped([TimedOut], map[])
            case Broken => r == Scraped([Default], map[])
            case Status(code) => r == if code == 429 then Scraped([], map[]) else Scraped([Default], map[])
            case Decoded(_, None) => r == Scraped([Default], map[])
            case Decoded(failure, Some(files)) =>
              && r.errors == (if failure then [Default] else [])
              && (h in r.responses <==> h in files && (all ==> h in hashes))
              && (h in r.responses ==> r.responses[h] == files[h])
  {
  }

  /** A page that is asked for again: the answers for its hashes one by one, if the tracker is asked
      so, or else for the one picked; nothing of the first answer is kept. */
  lemma FallbackExactly(t: Tracker, hashes: seq<Hash>, all: bool)
    requires FallsBack(t, hashes, all)
    ensures Page(t, hashes, all).0 ==
            if t.singleOnly then Singles(t, hashes, |hashes|).0
            else Page(t, [hashes[t.pick(hashes) % |hashes|]], false).0
  {
  }

  /** Asked for `x` alone, the tracker gives an error. */
  predicate Faulty(t: Tracker, x: Hash) {
    match t.answer(For([x]))
    case Status(code) => code != 429
    case Decoded(failure, Some(_)) => failure
    case _ => true
  }

  function FaultySet(t: Tracker, hashes: seq<Hash>, n: nat): set<int>
    requires n <= |hashes|
  {
    set i | 0 <= i < n && Faulty(t, hashes[i])
  }

  lemma OneFault(t: Tracker, x: Hash)
    ensures |Page(t, [x], false).0.errors| == if Faulty(t, x) then 1 else 0
  {
  }

  /** Asked hash by hash, each hash that the tracker faults at adds one error. */
  lemma {:induction false} SinglesFaults(t: Tracker, hashes: seq<Hash>, n: nat)
    requires n <= |hashes| && |hashes| > 1
    ensures |Singles(t, hashes, n).0.errors| == |FaultySet(t, hashes, n)|
  {
    if n > 0 {
      SinglesFaults(t, hashes, n - 1);
      OneFault(t, hashes[n - 1]);
      FaultyNext(t, hashes, n);
      SinglesNext(t, hashes, n);
    }
  }

  lemma SinglesNext(t: Tracker, hashes: seq<Hash>, n: nat)
    requires 0 < n <= |hashes| && |hashes| > 1
    ensures |Singles(t, hashes, n).0.errors| ==
            |Singles(t, hashes, n - 1).0.errors| + |Page(t, [hashes[n - 1]], false).0.errors|
  {
  }

  lemma FaultyNext(t: Tracker, hashes: seq<Hash>, n: nat)
    requires 0 < n <= |hashes|
    ensures |FaultySet(t, hashes, n)| == |FaultySet(t, hashes, n - 1)| + if Faulty(t, hashes[n - 1]) then 1 else 0
  {
    var before := FaultySet(t, hashes, n - 1);
    assert n - 1 !in before;
    assert FaultySet(t, hashes, n) == before + if Faulty(t, hashes[n - 1]) then {n - 1} else {};
  }

  /** Of the hashes asked one by one, the last that is answered with statistics of `h` counts. */
  lemma {:induction false} SinglesStats(t: Tracker, hashes: seq<Hash>, n: nat, h: Hash, i: nat)
    requires n <= |hashes| && |hashes| > 1 && i < n && Reports(t, hashes[i], h)
    requires forall k :: i < k < n ==> !Reports(t, hashes[k], h)
    ensures h in Singles(t, hashes, n).0.responses
    ensures Singles(t, hashes, n).0.responses[h] == t.answer(For([hashes[i]])).files.get[h]
  {
    AloneReported(t, hashes[n - 1], h);
    if i < n - 1 {
      SinglesStats(t, hashes, n - 1, h, i);
    } else {
      AloneStats(t, hashes[i], h);
    }
  }

  lemma AloneStats(t: Tracker, x: Hash, h: Hash)
    requires Reports(t, x, h)
    ensures h in Page(t, [x], false).0.responses
    ensures Page(t, [x], false).0.responses[h] == t.answer(For([x])).files.get[h]
  {
  }

  /** Asked for `x` alone, the tracker reports on `h`. */
  predicate Reports(t: Tracker, x: Hash, h: Hash) {
    match t.answer(For([x]))
    case Decoded(_, Some(files)) => h in files
    case _ => false
  }

  lemma {:induction false} SinglesReported(t: Tracker, hashes: seq<Hash>, n: nat, h: Hash)
    requires n <= |hashes| && |hashes| > 1
    ensures h in Singles(t, hashes, n).0.responses <==> exists i :: 0 <= i < n && Reports(t, hashes[i], h)
  {
    if n > 0 {
      SinglesReported(t, hashes, n - 1, h);
      AloneReported(t, hashes[n - 1], h);
    }
  }

  lemma AloneReported(t: Tracker, x: Hash, h: Hash)
    ensures h in Page(t, [x], false).0.responses <==> Reports(t, x, h)
  {
  }

  /** A scrape of everything reports only on what was asked about; should it fall back to single
      hashes, it reports what the tracker answers when asked for one of these. */
  lemma EverythingFiltered(t: Tracker, hashes: seq<Hash>, h: Hash)
    requires h in Page(t, hashes, true).0.responses
    ensures h in hashes || exists x :: x in hashes && Reports(t, x, h)
    ensures (forall x :: x in hashes && Reports(t, x, h) ==> h == x) ==> h in hashes
  {
    if |hashes| > 1 {
      SinglesReported(t, hashes, |hashes|, h);
      assert Picked(t, hashes) in hashes;
    }
  }

  /** The tracker answers for this hash when it is asked for it alone. */
  predicate Answers(t: Tracker, h: Hash, s: Stats) {
    match t.answer(For([h]))
    case Decoded(_, Some(files)) => files == map[h := s]
    case _ => false
  }

  lemma {:induction false} SinglesAnswer(t: Tracker, hashes: seq<Hash>, n: nat, stats: map<Hash, Stats>)
    requires n <= |hashes| && |hashes| > 1
    requires forall h :: h in hashes ==> h in stats && Answers(t, h, stats[h])
    ensures Singles(t, hashes, n).0.responses == map h | h in hashes[..n] :: stats[h]
  {
    if n > 0 {
      SinglesAnswer(t, hashes, n - 1, stats);
      SingleAnswer(t, hashes[n - 1], stats[hashes[n - 1]]);
      OneMoreAnswer(hashes, n, stats);
    }
  }

  lemma SingleAnswer(t: Tracker, h: Hash, s: Stats)
    requires Answers(t, h, s)
    ensures Page(t, [h], false).0.responses == map[h := s]
  {
  }

  lemma OneMoreAnswer(hashes: seq<Hash>, n: nat, stats: map<Hash, Stats>)
    requires 0 < n <= |hashes| && forall h :: h in hashes ==> h in stats
    ensures (map h | h in hashes[..n - 1] :: stats[h]) + map[hashes[n - 1] := stats[hashes[n - 1]]]
         == map h | h in hashes[..n] :: stats[h]
  {
    assert hashes[..n] == hashes[..n - 1] + [hashes[n - 1]];
  }

  /** A tracker that refuses many hashes at once, but answers for each, still gives them all, if
      it is one of those asked one by one. */
  lemma FallbackAnswers(t: Tracker, hashes: seq<Hash>, stats: map<Hash, Stats>)
    requires |hashes| > 1 && t.singleOnly
    requires forall h :: h in hashes ==> h in stats && Answers(t, h, stats[h])
    requires match t.answer(For(hashes))
             case Status(code) => code != TOO_MANY
             case Decoded(_, Some(files)) => |files| <= 1
             case _ => false
    ensures Page(t, hashes, false).0.responses == map h | h in hashes :: stats[h]
  {
    SinglesAnswer(t, hashes, |hashes|, stats);
    assert hashes[..|hashes|] == hashes;
  }

  /** What is asked at once is a page; of more, `k` full pages can be asked first, and the rest after. */
  lemma {:induction false} PagesSplit(t: Tracker, a: seq<Hash>, b: seq<Hash>, max: nat, k: nat)
    requires max >= 1 && |a| == k * max
    ensures PagesFrom(t, a + b, max) == Plus(PagesFrom(t, a, max), PagesFrom(t, b, max))
    ensures 1 <= |b| <= max ==> PagesFrom(t, b, max) == Page(t, b, false).0
    decreases k
  {
    if k == 0 {
      assert a + b == b;
      PlusNothing(PagesFrom(t, b, max));
    } else {
      assert k * max == (k - 1) * max + max;
      var first, rest := a[..max], a[max..];
      assert (a + b)[..max] == first && (a + b)[max..] == rest + b;
      PagesSplit(t, rest, b, max, k - 1);
      PlusAssociative(Page(t, first, false).0, PagesFrom(t, rest, max), PagesFrom(t, b, max));
    }
    if 1 <= |b| <= max {
      assert b[..|b|] == b && b[|b|..] == [];
      PlusNothing(Page(t, b, false).0);
    }
  }

  // ---------------------------------------------------------------- too many requests

  /** Asked for this hash alone, the tracker refuses for too many requests, or knows nothing. */
  predicate QuietAlone(t: Tracker, h: Hash) {
    match t.answer(For([h]))
    case Status(code) => code == TOO_MANY
    case Decoded(failure, Some(files)) => !failure && files == map[]
    case _ => false
  }

  predicate AllQuietAlone(t: Tracker, hashes: seq<Hash>) {
    forall i :: 0 <= i < |hashes| ==> QuietAlone(t, hashes[i])
  }

  predicate NothingKept(files: map<Hash, Stats>, hashes: seq<Hash>, all: bool) {
    forall h :: h in files ==> all && h !in hashes
  }

  /** The answers to a page's request, and to those it falls back to, hold nothing to report. */
  predicate Quiet(t: Tracker, hashes: seq<Hash>, all: bool) {
    match t.answer(if all then Everything else For(hashes))
    case Status(code) => code == TOO_MANY || (|hashes| > 1 && t.singleOnly && AllQuietAlone(t, hashes))
    case Decoded(failure, Some(files)) =>
      if |files| <= 1 && |hashes| > 1 then
        if t.singleOnly then AllQuietAlone(t, hashes) else QuietAlone(t, Picked(t, hashes))
      else !failure && NothingKept(files, hashes, all)
    case _ => false
  }

  predicate QuietScrape(t: Tracker, hashes: seq<Hash>, max: nat, all: bool)
    requires max >= 1
    decreases |hashes|
  {
    if all then Quiet(t, hashes, true)
    else
      hashes == [] ||
      (var n := Least(max, |hashes|);
       Quiet(t, hashes[..n], false) && QuietScrape(t, hashes[n..], max, false))
  }

  lemma PlusSilent(a: Result, b: Result)
    ensures Plus(a, b) == NOTHING <==> a == NOTHING && b == NOTHING
  {
    assert a.responses.Keys <= Plus(a, b).responses.Keys && b.responses.Keys <= Plus(a, b).responses.Keys;
    if Plus(a, b) == NOTHING {
      assert a.responses.Keys == {} && b.responses.Keys == {};
      assert |a.errors| + |b.errors| == 0;
    }
  }

  lemma AloneExactly(t: Tracker, h: Hash)
    ensures Page(t, [h], false).0 == NOTHING <==> QuietAlone(t, h)
  {
    match t.answer(For([h]))
    case Decoded(failure, Some(files)) => assert Kept(files, [h], false) == files;
    case _ =>
  }

  lemma {:induction false} SinglesQuiet(t: Tracker, hashes: seq<Hash>, n: nat)
    requires n <= |hashes| && |hashes| > 1
    ensures Singles(t, hashes, n).0 == NOTHING <==> AllQuietAlone(t, hashes[..n])
  {
    if n > 0 {
      SinglesQuiet(t, hashes, n - 1);
      AloneExactly(t, hashes[n - 1]);
      SinglesSilent(t, hashes, n);
      QuietNext(t, hashes, n);
    }
  }

  lemma SinglesSilent(t: Tracker, hashes: seq<Hash>, n: nat)
    requires 0 < n <= |hashes| && |hashes| > 1
    ensures Singles(t, hashes, n).0 == NOTHING <==>
            Singles(t, hashes, n - 1).0 == NOTHING && Page(t, [hashes[n - 1]], false).0 == NOTHING
  {
    PlusSilent(Singles(t, hashes, n - 1).0, Page(t, [hashes[n - 1]], false).0);
  }

  lemma QuietNext(t: Tracker, hashes: seq<Hash>, n: nat)
    requires 0 < n <= |hashes|
    ensures AllQuietAlone(t, hashes[..n]) <==> AllQuietAlone(t, hashes[..n - 1]) && QuietAlone(t, hashes[n - 1])
  {
    assert hashes[..n] == hashes[..n - 1] + [hashes[n - 1]];
  }

  /** A page comes to nothing exactly when it is quiet, whichever way it was asked for. */
  lemma PageQuietExactly(t: Tracker, hashes: seq<Hash>, all: bool)
    ensures Page(t, hashes, all).0 == NOTHING <==> Quiet(t, hashes, all)
  {
    if |hashes| > 1 {
      SinglesQuiet(t, hashes, |hashes|);
      assert hashes[..|hashes|] == hashes;
      AloneExactly(t, Picked(t, hashes));
    }
    match t.answer(if all then Everything else For(hashes))
    case Decoded(failure, Some(files)) =>
      KeptNothing(files, hashes, all);
    case _ =>
  }

  lemma KeptNothing(files: map<Hash, Stats>, hashes: seq<Hash>, all: bool)
    ensures Kept(files, hashes, all) == map[] <==> NothingKept(files, hashes, all)
  {
    assert forall h :: h in Kept(files, hashes, all) <==> h in files && (h in hashes || !all);
  }

  lemma {:induction false} QuietExactly(t: Tracker, hashes: seq<Hash>, max: nat, all: bool)
    requires max >= 1
    ensures Collected(t, hashes, max, all) == NOTHING <==> QuietScrape(t, hashes, max, all)
    decreases |hashes|
  {
    if all {
      PageQuietExactly(t, hashes, true);
    } else if hashes != [] {
      var n := Least(max, |hashes|);
      PageQuietExactly(t, hashes[..n], false);
      QuietExactly(t, hashes[n..], max, false);
      PlusSilent(Page(t, hashes[..n], false).0, PagesFrom(t, hashes[n..], max));
    }
  }

  lemma {:induction false} SinglesOwnErrors(t: Tracker, hashes: seq<Hash>, n: nat)
    requires n <= |hashes| && |hashes| > 1
    ensures NoResponse !in Singles(t, hashes, n).0.errors
  {
    if n > 0 {
      SinglesOwnErrors(t, hashes, n - 1);
    }
  }

  lemma PageOwnErrors(t: Tracker, hashes: seq<Hash>, all: bool)
    ensures NoResponse !in Page(t, hashes, all).0.errors
  {
    if |hashes| > 1 {
      SinglesOwnErrors(t, hashes, |hashes|);
    }
  }

  lemma {:induction false} OwnErrors(t: Tracker, hashes: seq<Hash>, max: nat)
    requires max >= 1
    ensures NoResponse !in PagesFrom(t, hashes, max).errors
    decreases |hashes|
  {
    if hashes != [] {
      var n := Least(max, |hashes|);
      PageOwnErrors(t, hashes[..n], false);
      OwnErrors(t, hashes[n..], max);
    }
  }

  /** A page refused for too many requests is left without an error, so as not to delay the next
      scrape. The scrape ends in an error of the tracker all the same if and only if all of its
      pages are quiet. */
  lemma NoResponseExactly(t: Tracker, hashes: seq<Hash>, max: nat, all: bool)
    requires max >= 1
    ensures NoResponse in Completed(Collected(t, hashes, max, all)).errors <==> QuietScrape(t, hashes, max, all)
  {
    QuietExactly(t, hashes, max, all);
    PageOwnErrors(t, hashes, true);
    OwnErrors(t, hashes, max);
  }

  /** One that does: a tracker that refuses every request, whatever is asked and in whatever way. */
  lemma {:induction false} RefusedDelayed(t: Tracker, hashes: seq<Hash>, max: nat, all: bool)
    requires max >= 1 && forall q :: t.answer(q) == Status(TOO_MANY)
    ensures QuietScrape(t, hashes, max, all)
    ensures Completed(Collected(t, hashes, max, all)) == Scraped([NoResponse], map[])
    decreases |hashes|
  {
    if !all && hashes != [] {
      RefusedDelayed(t, hashes[Least(max, |hashes|)..], max, false);
    }
    QuietExactly(t, hashes, max, all);
  }
}
