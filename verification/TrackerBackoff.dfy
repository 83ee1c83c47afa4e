/** Trackers that fail are left alone for longer and longer. */
module TrackerBackoff {
  import opened Wrappers

  type Url = string

  datatype Kind = Dns | TimedOut | Connection | Unpack | Protocol | NoResponse | Default

  /** `interval` and `maxBackoff` in minutes, and the multiplier of each kind that has one. */
  datatype Config = Config(
    interval: int, default_: real, unpack: real, timeout: real, connection: real, dns: real, maxBackoff: real)

  datatype Tracker = Tracker(nErrors: nat, errorKind: Option<Kind>, nextScrape: Option<real>)
  type Trackers = map<Url, Tracker>

  /** A torrent on a tracker: its v1 infohash if it has one, when it was last scraped there, and
      whether its upload is removed and the tracker's protocol one of those scraped. */
  datatype Link = Link(url: Url, v1: Option<string>, lastScraped: Option<real>, removed: bool, supported: bool)
  /** What to ask which tracker, in the order in which the trackers come up. */
  type Gathering = seq<(Url, seq<string>)>

  /** An error is the tracker's own when it names the tracker and no infohash. */
  datatype TrackerError = TrackerError(url: Option<Url>, hash: Option<string>, kind: Kind)
  /** One tracker's results: its errors, and the tracker named in each response. */
  datatype Result = Result(errors: seq<TrackerError>, responders: seq<Url>)

  function Multiplier(c: Config, kind: Kind): real {
    match kind
    case Dns => c.dns
    case TimedOut => c.timeout
    case Connection => c.connection
    case Unpack => c.unpack
    case _ => c.default_
  }

  function Power(n: nat): real {
    if n == 0 then 1.0 else 2.0 * Power(n - 1)
  }

  function Times(a: real, b: real): real {
    a * b
  }

  function Base(c: Config, kind: Kind): real {
    Times(c.interval as real, Multiplier(c, kind))
  }

  function Uncapped(c: Config, n: nat, kind: Kind): real {
    Times(Base(c, kind), Power(n))
  }

  function Backoff(c: Config, n: nat, kind: Kind): real {
    if Uncapped(c, n, kind) <= c.maxBackoff then Uncapped(c, n, kind) else c.maxBackoff
  }

  // ---------------------------------------------------------------- what is due

  predicate Due(t: Tracker, now: real) {
    t.nextScrape.None? || t.nextScrape.get < now
  }

  predicate Wanted(ts: Trackers, l: Link, now: real, c: Config) {
    && l.url in ts && l.supported && !l.removed
    && (l.lastScraped.None? || l.lastScraped.get <= now - c.interval as real)
    && Due(ts[l.url], now)
  }

  /** `gathered[url].append(hash)` */
  function Put(g: Gathering, u: Url, hash: string): Gathering {
    if g == [] then [(u, [hash])]
    else if g[0].0 == u then [(u, g[0].1 + [hash])] + g[1..]
    else [g[0]] + Put(g[1..], u, hash)
  }

  /** The wanted torrents by tracker; one without a v1 infohash is skipped. */
  function Gathered(ts: Trackers, links: seq<Link>, now: real, c: Config): Gathering {
    if links == [] then []
    else
      var g, l := Gathered(ts, links[..|links| - 1], now, c), links[|links| - 1];
      if Wanted(ts, l, now, c) && l.v1.Some? then Put(g, l.url, l.v1.get) else g
  }

  ghost predicate Asks(g: Gathering, u: Url, hash: string) {
    exists i :: 0 <= i < |g| && g[i].0 == u && hash in g[i].1
  }

  lemma {:induction false} PutAsks(g: Gathering, u: Url, hash: string, v: Url, other: string)
    ensures Asks(Put(g, u, hash), v, other) <==> Asks(g, v, other) || (v == u && other == hash)
  {
    var r := Put(g, u, hash);
    if g == [] {
      assert r[0] == (u, [hash]);
    } else if g[0].0 == u {
      assert r[0] == (u, g[0].1 + [hash]);
      assert forall i :: 0 < i < |g| ==> r[i] == g[i];
    } else {
      PutAsks(g[1..], u, hash, v, other);
      assert r[0] == g[0] && r[1..] == Put(g[1..], u, hash);
      AsksTail(g, v, other);
      AsksTail(r, v, other);
    }
  }

  lemma AsksTail(g: Gathering, u: Url, hash: string)
    requires g != []
    ensures Asks(g, u, hash) <==> (g[0].0 == u && hash in g[0].1) || Asks(g[1..], u, hash)
  {
    assert forall i :: 0 < i < |g| ==> g[i] == g[1..][i - 1];
  }

  /** A tracker is asked about exactly the torrents of uploads that are not removed, if they have a
      v1 infohash and were not scraped there within the interval; and only one of a protocol that is
      scraped, that is not told to wait, or no longer. */
  lemma GatheredExactly(ts: Trackers, links: seq<Link>, now: real, c: Config, u: Url, hash: string)
    ensures Asks(Gathered(ts, links, now, c), u, hash) <==>
            && u in ts && (ts[u].nextScrape.Some? ==> ts[u].nextScrape.get < now)
            && exists l :: l in links && l.url == u && l.v1 == Some(hash) && !l.removed && l.supported
                           && (l.lastScraped.Some? ==> now - l.lastScraped.get >= c.interval as real)
  {
    GatheredWanted(ts, links, now, c, u, hash);
  }

  ghost predicate Named(g: Gathering, u: Url) {
    exists i :: 0 <= i < |g| && g[i].0 == u
  }

  ghost predicate EachOnce(g: Gathering) {
    forall i, k :: 0 <= i < k < |g| ==> g[i].0 != g[k].0
  }

  /** The v1 infohashes to ask this tracker about, link by link. */
  function WantedHashes(ts: Trackers, links: seq<Link>, now: real, c: Config, u: Url): seq<string> {
    if links == [] then []
    else
      var before, l := WantedHashes(ts, links[..|links| - 1], now, c, u), links[|links| - 1];
      if l.url == u && Wanted(ts, l, now, c) && l.v1.Some? then before + [l.v1.get] else before
  }

  /** Each tracker comes up once, with its torrents in the order in which they were found. */
  lemma {:induction false} GatheredInOrder(ts: Trackers, links: seq<Link>, now: real, c: Config)
    ensures EachOnce(Gathered(ts, links, now, c))
    ensures forall i :: 0 <= i < |Gathered(ts, links, now, c)| ==>
              Gathered(ts, links, now, c)[i].1 == WantedHashes(ts, links, now, c, Gathered(ts, links, now, c)[i].0)
  {
    if links != [] {
      var n := |links| - 1;
      var g := Gathered(ts, links[..n], now, c);
      var l := links[n];
      GatheredInOrder(ts, links[..n], now, c);
      if Wanted(ts, l, now, c) && l.v1.Some? {
        PutInOrder(g, l.url, l.v1.get);
        if !Named(g, l.url) {
          NeverWanted(ts, links[..n], now, c, l.url);
        }
      }
    }
  }

  lemma {:induction false} NeverWanted(ts: Trackers, links: seq<Link>, now: real, c: Config, u: Url)
    requires !Named(Gathered(ts, links, now, c), u)
    ensures WantedHashes(ts, links, now, c, u) == []
  {
    if links != [] {
      var n := |links| - 1;
      var g := Gathered(ts, links[..n], now, c);
      var l := links[n];
      if Wanted(ts, l, now, c) && l.v1.Some? {
        PutNamed(g, l.url, l.v1.get, u);
      }
      NeverWanted(ts, links[..n], now, c, u);
    }
  }

  lemma NamedTail(g: Gathering, v: Url)
    requires g != []
    ensures Named(g, v) <==> g[0].0 == v || Named(g[1..], v)
  {
    if Named(g[1..], v) {
      var i :| 0 <= i < |g[1..]| && g[1..][i].0 == v;
      assert g[i + 1].0 == v;
    }
    if i :| 0 < i < |g| && g[i].0 == v {
      assert g[1..][i - 1].0 == v;
    }
  }

  lemma {:induction false} PutNamed(g: Gathering, u: Url, hash: string, v: Url)
    ensures Named(Put(g, u, hash), v) <==> Named(g, v) || v == u
  {
    var r := Put(g, u, hash);
    NamedTail(r, v);
    if g != [] {
      NamedTail(g, v);
      if g[0].0 == u {
        assert r[1..] == g[1..];
      } else {
        PutNamed(g[1..], u, hash, v);
        assert r[1..] == Put(g[1..], u, hash);
      }
    }
  }

  /** Putting adds to the tracker's own entry, or makes one at the end. */
  lemma {:induction false} PutInOrder(g: Gathering, u: Url, hash: string)
    requires EachOnce(g)
    ensures var r := Put(g, u, hash);
            && |r| == |g| + (if Named(g, u) then 0 else 1) && EachOnce(r)
            && (forall i :: 0 <= i < |g| ==> r[i] == (g[i].0, if g[i].0 == u then g[i].1 + [hash] else g[i].1))
            && (!Named(g, u) ==> r[|g|] == (u, [hash]))
  {
    if g != [] {
      var rest := g[1..];
      assert forall i :: 0 < i < |g| ==> g[i] == rest[i - 1];
      NamedTail(g, u);
      if g[0].0 != u {
        PutInOrder(rest, u, hash);
        assert Put(g, u, hash) == [g[0]] + Put(rest, u, hash);
      }
    }
  }

  lemma {:induction false} GatheredWanted(ts: Trackers, links: seq<Link>, now: real, c: Config, u: Url, hash: string)
    ensures Asks(Gathered(ts, links, now, c), u, hash) <==>
            exists l :: l in links && l.url == u && l.v1 == Some(hash) && Wanted(ts, l, now, c)
  {
    if links != [] {
      var n := |links| - 1;
      var g, l := Gathered(ts, links[..n], now, c), links[n];
      GatheredWanted(ts, links[..n], now, c, u, hash);
      assert links == links[..n] + [l];
      if Wanted(ts, l, now, c) && l.v1.Some? {
        PutAsks(g, l.url, l.v1.get, u, hash);
      }
    }
  }

  lemma {:induction false} PutNonempty(g: Gathering, u: Url, hash: string)
    requires forall i :: 0 <= i < |g| ==> g[i].1 != []
    ensures forall i :: 0 <= i < |Put(g, u, hash)| ==> Put(g, u, hash)[i].1 != []
  {
    if g != [] && g[0].0 != u {
      PutNonempty(g[1..], u, hash);
    }
  }

  lemma {:induction false} GatheredDue(ts: Trackers, links: seq<Link>, now: real, c: Config, i: nat)
    requires i < |Gathered(ts, links, now, c)|
    ensures var u := Gathered(ts, links, now, c)[i].0;
            u in ts && Due(ts[u], now)
  {
    GatheredNonempty(ts, links, now, c);
    var u, hashes := Gathered(ts, links, now, c)[i].0, Gathered(ts, links, now, c)[i].1;
    assert hashes[0] in hashes && Asks(Gathered(ts, links, now, c), u, hashes[0]);
    GatheredExactly(ts, links, now, c, u, hashes[0]);
  }

  lemma {:induction false} GatheredNonempty(ts: Trackers, links: seq<Link>, now: real, c: Config)
    ensures forall i :: 0 <= i < |Gathered(ts, links, now, c)| ==> Gathered(ts, links, now, c)[i].1 != []
  {
    if links != [] {
      var n := |links| - 1;
      GatheredNonempty(ts, links[..n], now, c);
      if Wanted(ts, links[n], now, c) && links[n].v1.Some? {
        PutNonempty(Gathered(ts, links[..n], now, c), links[n].url, links[n].v1.get);
      }
    }
  }

  // ---------------------------------------------------------------- what a round found

  function AllErrors(results: seq<Result>): seq<TrackerError> {
    if results == [] then [] else AllErrors(results[..|results| - 1]) + results[|results| - 1].errors
  }

  function AllResponders(results: seq<Result>): seq<Url> {
    if results == [] then [] else AllResponders(results[..|results| - 1]) + results[|results| - 1].responders
  }

  predicate OfTracker(e: TrackerError, u: Url) {
    e.url == Some(u) && e.hash == None
  }

  /** The kind of a tracker's first error of its own, if it has one. */
  function FirstError(es: seq<TrackerError>, u: Url): Option<Kind> {
    if es == [] then None
    else if OfTracker(es[0], u) then Some(es[0].kind)
    else FirstError(es[1..], u)
  }

  /** A round's outcome for one tracker: an error counts, whatever else came back. */
  function Outcome(t: Tracker, results: seq<Result>, u: Url, c: Config, now: real): Tracker {
    match FirstError(AllErrors(results), u)
    case Some(kind) => Tracker(t.nErrors + 1, Some(kind), Some(now + Backoff(c, t.nErrors + 1, kind)))
    case None => if u in AllResponders(results) then Tracker(0, None, None) else t
  }

  function AfterRound(ts: Trackers, results: seq<Result>, c: Config, now: real): Trackers {
    map u | u in ts :: Outcome(ts[u], results, u, c, now)
  }

  /** A job first writes its responses to the links, and a write without any row to write is an
      error of the database library: a job to which no tracker responded records nothing. */
  predicate Recorded(results: seq<Result>) {
    AllResponders(results) != []
  }

  function AfterJob(ts: Trackers, results: seq<Result>, c: Config, now: real): Trackers {
    if Recorded(results) then AfterRound(ts, results, c, now) else ts
  }

  // ---------------------------------------------------------------- the loops

  lemma FirstErrorLast(es: seq<TrackerError>, e: TrackerError, u: Url)
    ensures FirstError(es + [e], u) ==
            if FirstError(es, u).Some? then FirstError(es, u)
            else if OfTracker(e, u) then Some(e.kind) else None
  {
    if es == [] {
      assert [] + [e] == [e];
    } else {
      assert (es + [e])[1..] == es[1..] + [e];
      FirstErrorLast(es[1..], e, u);
    }
  }

  /** Each tracker's errors of its own, in order. */
  ghost predicate Grouped(g: map<Url, seq<Kind>>, es: seq<TrackerError>) {
    forall u :: if u in g then g[u] != [] && FirstError(es, u) == Some(g[u][0]) else FirstError(es, u) == None
  }

  lemma GroupStep(g: map<Url, seq<Kind>>, es: seq<TrackerError>, e: TrackerError)
    requires Grouped(g, es)
    ensures Grouped(Add(g, e), es + [e])
  {
    forall u
      ensures FirstError(es + [e], u) == if u in Add(g, e) then Some(Add(g, e)[u][0]) else None
    {
      FirstErrorLast(es, e, u);
    }
  }

  function Add(g: map<Url, seq<Kind>>, e: TrackerError): map<Url, seq<Kind>> {
    if e.url.None? || e.hash.Some? then g
    else g[e.url.get := (if e.url.get in g then g[e.url.get] else []) + [e.kind]]
  }

  method GroupErrors(results: seq<Result>) returns (g: map<Url, seq<Kind>>)
    ensures Grouped(g, AllErrors(results))
  {
    g := map[];
    for i := 0 to |results|
      invariant Grouped(g, AllErrors(results[..i]))
    {
      ghost var es := AllErrors(results[..i]);
      var more := results[i].errors;
      assert es + more[..0] == es;
      for k := 0 to |more|
        invariant Grouped(g, es + more[..k])
      {
        GroupStep(g, es + more[..k], more[k]);
        assert es + more[..k + 1] == (es + more[..k]) + [more[k]];
        g := Add(g, more[k]);
      }
      assert more[..|more|] == more;
      assert results[..i + 1][..i] == results[..i];
    }
    assert results[..|results|] == results;
  }

  method Working(results: seq<Result>, g: map<Url, seq<Kind>>) returns (working: set<Url>)
    ensures forall u :: u in working <==> u in AllResponders(results) && u !in g
  {
    working := {};
    for i := 0 to |results|
      invariant forall u :: u in working <==> u in AllResponders(results[..i]) && u !in g
    {
      var urls := results[i].responders;
      working := working + set u | u in urls && u !in g;
      assert results[..i + 1][..i] == results[..i];
    }
    assert results[..|results|] == results;
  }

  class TrackerTable {
    const config: Config
    var trackers: Trackers

    constructor (config: Config, trackers: Trackers)
      ensures this.config == config && this.trackers == trackers
    {
      this.config, this.trackers := config, trackers;
    }

    method GatherScrapable(links: seq<Link>, now: real) returns (g: Gathering)
      ensures g == Gathered(trackers, links, now, config)
    {
      g := [];
      for i := 0 to |links|
        invariant g == Gathered(trackers, links[..i], now, config)
      {
        assert links[..i + 1][..i] == links[..i];
        if Wanted(trackers, links[i], now, config) && links[i].v1.Some? {
          g := Put(g, links[i].url, links[i].v1.get);
        }
      }
      assert links[..|links|] == links;
    }

    function ErrorRow(kinds: seq<Kind>, t: Tracker, now: real): Tracker
      requires kinds != []
    {
      var n, kind := t.nErrors + 1, kinds[0];
      Tracker(n, Some(kind), Some(now + Backoff(config, n, kind)))
    }

    method ErrorRows(g: map<Url, seq<Kind>>, now: real) returns (rows: Trackers)
      requires forall u :: u in g ==> g[u] != []
      ensures rows == map u | u in trackers && u in g :: ErrorRow(g[u], trackers[u], now)
    {
      rows := map[];
      var failing := set u | u in trackers && u in g;
      var todo := failing;
      while todo != {}
        invariant todo <= failing && rows.Keys == failing - todo
        invariant forall u :: u in rows ==> rows[u] == ErrorRow(g[u], trackers[u], now)
        decreases |todo|
      {
        var u: Url :| u in todo;
        rows := rows[u := ErrorRow(g[u], trackers[u], now)];
        todo := todo - {u};
      }
    }

    /** Rows for the failing trackers first, then for the working ones; then all are written. */
    method HandleTrackerError(results: seq<Result>, now: real)
      modifies this`trackers
      ensures trackers == AfterRound(old(trackers), results, config, now)
    {
      var g := GroupErrors(results);
      var working := Working(results, g);
      var failing := ErrorRows(g, now);
      var rows := failing + map u | u in working :: Tracker(0, None, None);
      forall u | u in trackers
        ensures (if u in rows then rows[u] else trackers[u]) == Outcome(trackers[u], results, u, config, now)
      {
        assert FirstError(AllErrors(results), u) == if u in g then Some(g[u][0]) else None;
        assert u in g ==> u in failing && failing[u] == ErrorRow(g[u], trackers[u], now);
      }
      trackers := map u | u in trackers :: if u in rows then rows[u] else trackers[u];
    }

    method LinkRows(results: seq<Result>) returns (rows: nat)
      ensures rows == |AllResponders(results)|
    {
      rows := 0;
      for i := 0 to |results|
        invariant rows == |AllResponders(results[..i])|
      {
        assert results[..i + 1][..i] == results[..i];
        rows := rows + |results[i].responders|;
      }
      assert results[..|results|] == results;
    }

    /** The end of a job: unless writing the links fails, the trackers are written as well. */
    method Record(results: seq<Result>, now: real) returns (done: bool)
      modifies this`trackers
      ensures done == Recorded(results) && trackers == AfterJob(old(trackers), results, config, now)
    {
      var rows := LinkRows(results);
      done := rows > 0;
      if done {
        HandleTrackerError(results, now);
      }
    }
  }

  // ---------------------------------------------------------------- backoff

  lemma {:induction false} PowerGrows(m: nat, n: nat)
    requires m <= n
    ensures 1.0 <= Power(m) <= Power(n)
    decreases n
  {
    if m < n {
      PowerGrows(m, n - 1);
    } else if n > 0 {
      PowerGrows(m - 1, n - 1);
    }
  }

  lemma {:induction false} PowerLarge(n: nat)
    ensures Power(n) >= n as real + 1.0
  {
    if n > 0 {
      PowerLarge(n - 1);
      PowerGrows(0, n - 1);
    }
  }

  /** More errors never mean a shorter wait. */
  ghost predicate NeverShorter(c: Config, kind: Kind) {
    forall m: nat, n: nat :: m <= n ==> Backoff(c, m, kind) <= Backoff(c, n, kind)
  }

  /** `wait` is the interval times this multiplier, doubled `n` times, or the cap if that is less. */
  predicate IsWait(wait: real, c: Config, multiplier: real, n: nat) {
    var full := Times(Times(c.interval as real, multiplier), Power(n));
    wait <= full && wait <= c.maxBackoff && (wait == full || wait == c.maxBackoff)
  }

  /** The multiplier that counts for each kind of error; kinds without one of their own have the
      default one. */
  lemma WaitsExactly(c: Config, n: nat)
    ensures IsWait(Backoff(c, n, Dns), c, c.dns, n)
    ensures IsWait(Backoff(c, n, TimedOut), c, c.timeout, n)
    ensures IsWait(Backoff(c, n, Connection), c, c.connection, n)
    ensures IsWait(Backoff(c, n, Unpack), c, c.unpack, n)
    ensures forall kind :: kind in {Protocol, NoResponse, Default} ==> IsWait(Backoff(c, n, kind), c, c.default_, n)
  {
    forall kind: Kind
      ensures IsWait(Backoff(c, n, kind), c, Multiplier(c, kind), n)
    {
      WaitOf(c, n, kind);
    }
  }

  lemma WaitOf(c: Config, n: nat, kind: Kind)
    ensures IsWait(Backoff(c, n, kind), c, Multiplier(c, kind), n)
  {
  }

  /** No wait is longer than the cap; and the waits of one kind of error never get shorter if and
      only if interval and multiplier do not have opposite signs. */
  lemma BackoffExactly(c: Config, kind: Kind)
    ensures forall n: nat :: Backoff(c, n, kind) <= c.maxBackoff
    ensures NeverShorter(c, kind) <==> c.interval as real * Multiplier(c, kind) >= 0.0
  {
    if Base(c, kind) >= 0.0 {
      forall m: nat, n: nat | m <= n
        ensures Backoff(c, m, kind) <= Backoff(c, n, kind)
      {
        PowerGrows(m, n);
        Scale(Base(c, kind), Power(m), Power(n));
      }
    } else {
      ShorterWait(c, kind);
    }
  }

  /** Configurations for which they do get shorter: a negative multiplier, and a negative interval. */
  lemma WaitShortened()
    ensures var c := Config(1, 0.0, 0.0, 0.0, 0.0, -1.0, 0.0);
            Backoff(c, 1, Dns) == -2.0 && Backoff(c, 2, Dns) == -4.0
    ensures var c := Config(-30, 1.0, 1.0, 2.0, 5.0, 10.0, 43200.0);
            Backoff(c, 1, Default) == -60.0 && Backoff(c, 2, Default) == -120.0
  {
    assert Power(1) == 2.0 && Power(2) == 4.0;
  }

  lemma ShorterWait(c: Config, kind: Kind)
    requires Base(c, kind) < 0.0
    ensures !NeverShorter(c, kind)
  {
    var k := Base(c, kind);
    var m := if c.maxBackoff >= 0.0 then 0 else (c.maxBackoff / k).Floor;
    Below(k, c.maxBackoff, m);
    PowerGrows(0, m);
    NegativeProduct(Power(m), k);
    assert Uncapped(c, m, kind) == Times(k, Power(m)) <= c.maxBackoff;
    assert Uncapped(c, m + 1, kind) == Times(k, 2.0 * Power(m)) < Uncapped(c, m, kind) by {
      Doubled(k, Power(m));
    }
    assert Backoff(c, m + 1, kind) < Backoff(c, m, kind);
  }

  lemma Doubled(k: real, p: real)
    requires Times(p, k) < 0.0
    ensures Times(k, 2.0 * p) < Times(k, p)
  {
    assert k * (2.0 * p) == 2.0 * (p * k);
  }

  lemma Below(k: real, max: real, m: nat)
    requires k < 0.0 && m == if max >= 0.0 then 0 else (max / k).Floor
    ensures Times(k, Power(m)) <= max
  {
    PowerLarge(m);
    if max < 0.0 {
      var q := max / k;
      assert q * k == max;
      assert Power(m) >= q;
      assert (Power(m) - q) * k <= 0.0 by { Nonpositive(Power(m) - q, k); }
    }
  }

  lemma Nonpositive(a: real, b: real)
    requires a >= 0.0 && b <= 0.0
    ensures a * b <= 0.0
  {
  }

  lemma NegativeProduct(a: real, b: real)
    requires a > 0.0 && b < 0.0
    ensures Times(a, b) < 0.0
  {
  }

  lemma Scale(k: real, a: real, b: real)
    requires k >= 0.0 && a <= b
    ensures Times(k, a) <= Times(k, b)
  {
    assert k * (b - a) >= 0.0;
  }
}
