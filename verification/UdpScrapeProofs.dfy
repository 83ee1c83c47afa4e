/** What a scrape gets back, for every hash asked for. */
module UdpScrapeProofs {
  import opened Wrappers
  import opened Numbers
  import opened ScrapeResults
  import opened UdpScrape

  ghost predicate Distinct(hashes: seq<Hash>) {
    forall i, j :: 0 <= i < j < |hashes| ==> hashes[i] != hashes[j]
  }

  // ---------------------------------------------------------------- paging

  /** The pages are the list, cut up: none is empty or too long, and all but the last are full. */
  lemma {:induction false} PagesPartition(hashes: seq<Hash>, max: nat)
    requires max >= 1
    ensures Joined(Pages(hashes, max)) == hashes
    ensures forall k :: 0 <= k < |Pages(hashes, max)| ==> 1 <= |Pages(hashes, max)[k]| <= max
    ensures forall k :: 0 <= k < |Pages(hashes, max)| - 1 ==> |Pages(hashes, max)[k]| == max
    decreases |hashes|
  {
    if hashes != [] {
      var n := Least(max, |hashes|);
      PagesPartition(hashes[n..], max);
      assert hashes[..n] + hashes[n..] == hashes;
      var rest := Pages(hashes[n..], max);
      assert Pages(hashes, max) == [hashes[..n]] + rest;
      assert rest != [] ==> n == max;
    }
  }

  // ---------------------------------------------------------------- one page

  /** The first hashes, as many as the datagram has room for, get their statistics in order;
      each of the others gets exactly one error. */
  lemma PageExactly(data: seq<Byte>, hashes: seq<Hash>, i: nat)
    requires |data| >= HEADER && Distinct(hashes) && i < |hashes|
    ensures var r := Unpacked(data, hashes);
            && (hashes[i] in r.responses <==> i < Room(data))
            && (i < Room(data) ==> r.responses[hashes[i]] == StatsAt(data, HEADER + i * PER_HASH))
            && multiset(r.errors)[ScrapeError(Unpack, Some(hashes[i]))] == if i < Room(data) then 0 else 1
  {
    var n := Least(Room(data), |hashes|);
    InPart(hashes, n, i);
    if i < n {
      ResponseAt(data, hashes, n, i);
    }
    DistinctParts(hashes[..n], hashes[n..]);
    MissingCount(hashes[n..], hashes[i]);
  }

  lemma InPart(hashes: seq<Hash>, n: nat, i: nat)
    requires Distinct(hashes) && n <= |hashes| && i < |hashes|
    ensures hashes[i] in hashes[..n] <==> i < n
    ensures hashes[i] in hashes[n..] <==> n <= i
    ensures hashes[..n] + hashes[n..] == hashes
  {
    assert i < n ==> hashes[..n][i] == hashes[i];
    assert n <= i ==> hashes[n..][i - n] == hashes[i];
  }

  lemma {:induction false} ZippedAt(hashes: seq<Hash>, stats: seq<Stats>, i: nat)
    requires |hashes| == |stats| && Distinct(hashes) && i < |hashes|
    ensures hashes[i] in Zipped(hashes, stats) && Zipped(hashes, stats)[hashes[i]] == stats[i]
    decreases |hashes|
  {
    var n := |hashes| - 1;
    if i < n {
      ZippedAt(hashes[..n], stats[..n], i);
      assert hashes[i] != hashes[n];
    }
  }

  lemma ResponseAt(data: seq<Byte>, hashes: seq<Hash>, n: nat, i: nat)
    requires i < n <= |hashes| && HEADER + n * PER_HASH <= |data| && Distinct(hashes)
    ensures hashes[i] in Responses(data, hashes, n)
    ensures Responses(data, hashes, n)[hashes[i]] == StatsAt(data, HEADER + i * PER_HASH)
  {
    ZippedAt(hashes[..n], Table(data, n), i);
  }

  /** In a list without repeats everything counts once. */
  lemma {:induction false} CountOnce<T>(xs: seq<T>, x: T)
    requires forall i, j :: 0 <= i < j < |xs| ==> xs[i] != xs[j]
    ensures multiset(xs)[x] == if x in xs then 1 else 0
  {
    if xs != [] {
      CountOnce(xs[1..], x);
      assert xs == [xs[0]] + xs[1..];
    }
  }

  lemma MissingCount(hashes: seq<Hash>, h: Hash)
    requires Distinct(hashes)
    ensures multiset(Missing(hashes))[ScrapeError(Unpack, Some(h))] == if h in hashes then 1 else 0
  {
    CountOnce(Missing(hashes), ScrapeError(Unpack, Some(h)));
    if h in hashes {
      var i :| 0 <= i < |hashes| && hashes[i] == h;
      assert Missing(hashes)[i] == ScrapeError(Unpack, Some(h));
    }
  }

  // ---------------------------------------------------------------- what the tracker sends

  /** The statistics of the hashes, one after the other, as a tracker puts them in its reply. */
  function Body(stats: map<Hash, Stats>, hashes: seq<Hash>): (r: seq<Byte>)
    requires forall h :: h in hashes ==> h in stats
    ensures |r| == |hashes| * PER_HASH
  {
    if hashes == [] then [] else EncodeStats(stats[hashes[0]]) + Body(stats, hashes[1..])
  }

  function FullReply(tid: Word, stats: map<Hash, Stats>, hashes: seq<Hash>): seq<Byte>
    requires forall h :: h in hashes ==> h in stats
  {
    Encode(REQUEST_SCRAPE) + Encode(tid) + Body(stats, hashes)
  }

  lemma {:induction false} BodyAt(stats: map<Hash, Stats>, hashes: seq<Hash>, i: nat)
    requires (forall h :: h in hashes ==> h in stats) && i < |hashes|
    ensures (i + 1) * PER_HASH <= |Body(stats, hashes)|
    ensures Body(stats, hashes)[i * PER_HASH..(i + 1) * PER_HASH] == EncodeStats(stats[hashes[i]])
  {
    var first, rest := EncodeStats(stats[hashes[0]]), Body(stats, hashes[1..]);
    if i > 0 {
      BodyAt(stats, hashes[1..], i - 1);
      assert (first + rest)[i * PER_HASH..(i + 1) * PER_HASH] == rest[(i - 1) * PER_HASH..i * PER_HASH];
    } else {
      assert (first + rest)[..PER_HASH] == first;
    }
  }

  /** Whatever part of a full reply arrives, as long as the header does, each hash there is room
      for gets its own statistics. */
  lemma TruncatedReply(tid: Word, stats: map<Hash, Stats>, hashes: seq<Hash>, data: seq<Byte>, i: nat)
    requires (forall h :: h in hashes ==> h in stats) && Distinct(hashes) && i < |hashes|
    requires HEADER <= |data| <= |FullReply(tid, stats, hashes)|
    requires data == FullReply(tid, stats, hashes)[..|data|]
    ensures GoodHeader(data, tid)
    ensures var r := PageResult(hashes, Exchange(tid, Answer(data)));
            if i < Room(data) then hashes[i] in r.responses && r.responses[hashes[i]] == stats[hashes[i]]
            else hashes[i] !in r.responses
                 && multiset(r.errors)[ScrapeError(Unpack, Some(hashes[i]))] == 1
  {
    HeaderThere(tid, Body(stats, hashes), data);
    PageExactly(data, hashes, i);
    if i < Room(data) {
      StatsThere(tid, stats, hashes, data, i);
    }
  }

  lemma StatsThere(tid: Word, stats: map<Hash, Stats>, hashes: seq<Hash>, data: seq<Byte>, i: nat)
    requires (forall h :: h in hashes ==> h in stats) && i < |hashes|
    requires data <= FullReply(tid, stats, hashes) && HEADER + (i + 1) * PER_HASH <= |data|
    ensures StatsAt(data, HEADER + i * PER_HASH) == stats[hashes[i]]
  {
    var full, at := FullReply(tid, stats, hashes), HEADER + i * PER_HASH;
    BodyAt(stats, hashes, i);
    assert data[at..at + PER_HASH] == full[at..at + PER_HASH];
    assert full[at..at + PER_HASH] == Body(stats, hashes)[i * PER_HASH..(i + 1) * PER_HASH];
    StatsRoundTrip(data, at, stats[hashes[i]]);
  }

  lemma HeaderThere(tid: Word, body: seq<Byte>, data: seq<Byte>)
    requires |data| >= HEADER && data <= Encode(REQUEST_SCRAPE) + Encode(tid) + body
    ensures GoodHeader(data, tid)
  {
    assert data[0..4] == Encode(REQUEST_SCRAPE);
    assert data[4..8] == Encode(tid);
    DecodeEncode(data, 0, REQUEST_SCRAPE);
    DecodeEncode(data, 4, tid);
  }

  /** A whole reply gives every hash its statistics, and no errors. */
  lemma WholeReply(tid: Word, stats: map<Hash, Stats>, hashes: seq<Hash>)
    requires (forall h :: h in hashes ==> h in stats) && Distinct(hashes)
    ensures var r := PageResult(hashes, Exchange(tid, Answer(FullReply(tid, stats, hashes))));
            r.errors == [] && r.responses == map h | h in hashes :: stats[h]
  {
    var data := FullReply(tid, stats, hashes);
    assert data[..|data|] == data;
    var r := PageResult(hashes, Exchange(tid, Answer(data)));
    assert Room(data) == |hashes|;
    HeaderThere(tid, Body(stats, hashes), data);
    assert hashes[..|hashes|] == hashes;
    forall h | h in hashes
      ensures h in r.responses && r.responses[h] == stats[h]
    {
      var i :| 0 <= i < |hashes| && hashes[i] == h;
      TruncatedReply(tid, stats, hashes, data, i);
    }
  }

  // ---------------------------------------------------------------- the whole list

  /** The reply begins as a scrape's does: action 2, then the id of the request. */
  predicate Answered(x: Exchange) {
    x.reply.Answer? && |x.reply.data| >= 8 && x.reply.data[..8] == [0, 0, 0, 2] + Encode(x.tid)
  }

  lemma HeaderExactly(x: Exchange)
    ensures Answered(x) <==> x.reply.Answer? && GoodHeader(x.reply.data, x.tid)
  {
    if x.reply.Answer? && |x.reply.data| >= 8 {
      var data := x.reply.data;
      assert data[..8] == data[0..4] + data[4..8];
      BigEnd(0, 0, 0, 2);
      if Answered(x) {
        assert data[0..4] == ([0, 0, 0, 2] + Encode(x.tid))[..4] == Encode(REQUEST_SCRAPE);
        assert data[4..8] == ([0, 0, 0, 2] + Encode(x.tid))[4..] == Encode(x.tid);
        DecodeEncode(data, 0, REQUEST_SCRAPE);
        DecodeEncode(data, 4, x.tid);
      } else {
        EncodeDecode(data, 0);
        EncodeDecode(data, 4);
      }
    }
  }

  lemma RoomExactly(data: seq<Byte>, i: nat)
    requires |data| >= 8
    ensures i < Room(data) <==> 8 + 12 * (i + 1) <= |data|
  {
  }

  lemma PageHashes(page: seq<Hash>, x: Exchange, h: Hash)
    ensures h in PageResult(page, x).responses ==> h in page
    ensures ScrapeError(Unpack, Some(h)) in PageResult(page, x).errors ==> h in page
  {
  }

  lemma {:induction false} PagesHashes(pages: seq<seq<Hash>>, xs: seq<Exchange>, h: Hash)
    requires |pages| == |xs|
    ensures h in ScrapePages(pages, xs).responses ==> h in Joined(pages)
    ensures ScrapeError(Unpack, Some(h)) in ScrapePages(pages, xs).errors ==> h in Joined(pages)
  {
    if pages != [] {
      PageHashes(pages[0], xs[0], h);
      PagesHashes(pages[1..], xs[1..], h);
    }
  }

  lemma DistinctParts(a: seq<Hash>, b: seq<Hash>)
    requires Distinct(a + b)
    ensures Distinct(a) && Distinct(b) && forall h :: h in a ==> h !in b
  {
    var all := a + b;
    assert forall i :: 0 <= i < |a| ==> all[i] == a[i];
    assert forall i :: 0 <= i < |b| ==> all[|a| + i] == b[i];
  }

  lemma {:induction false} InPage(pages: seq<seq<Hash>>, k: nat, i: nat)
    requires k < |pages| && i < |pages[k]|
    ensures pages[k][i] in Joined(pages)
  {
    if k > 0 {
      InPage(pages[1..], k - 1, i);
    }
  }

  /** What the whole scrape says of a hash is what its own page says: its statistics, or one
      error, or nothing but the failure of the page. */
  lemma {:induction false} ScrapeExactly(pages: seq<seq<Hash>>, xs: seq<Exchange>, k: nat, i: nat)
    requires |pages| == |xs| && Distinct(Joined(pages)) && k < |pages| && i < |pages[k]|
    ensures var h, r, own := pages[k][i], ScrapePages(pages, xs), PageResult(pages[k], xs[k]);
            && (h in r.responses <==> Answered(xs[k]) && i < Room(xs[k].reply.data))
            && (h in r.responses ==>
                  r.responses[h] == StatsAt(xs[k].reply.data, HEADER + i * PER_HASH))
            && multiset(r.errors)[ScrapeError(Unpack, Some(h))] ==
               if Answered(xs[k]) && i >= Room(xs[k].reply.data) then 1 else 0
    decreases |pages|
  {
    var h := pages[k][i];
    var first, rest := PageResult(pages[0], xs[0]), ScrapePages(pages[1..], xs[1..]);
    DistinctParts(pages[0], Joined(pages[1..]));
    PagesHashes(pages[1..], xs[1..], h);
    PageHashes(pages[0], xs[0], h);
    if k == 0 {
      OnePage(pages[0], xs[0], i);
    } else {
      InPage(pages[1..], k - 1, i);
      ScrapeExactly(pages[1..], xs[1..], k - 1, i);
    }
    CountParts(first.errors, rest.errors, ScrapeError(Unpack, Some(h)));
  }

  lemma CountParts(a: seq<ScrapeError>, b: seq<ScrapeError>, e: ScrapeError)
    ensures multiset(a + b)[e] == multiset(a)[e] + multiset(b)[e]
    ensures multiset(a)[e] > 0 <==> e in a
    ensures multiset(b)[e] > 0 <==> e in b
  {
  }

  lemma OnePage(page: seq<Hash>, x: Exchange, i: nat)
    requires Distinct(page) && i < |page|
    ensures var h, r := page[i], PageResult(page, x);
            && (h in r.responses <==> Answered(x) && i < Room(x.reply.data))
            && (h in r.responses ==> r.responses[h] == StatsAt(x.reply.data, HEADER + i * PER_HASH))
            && multiset(r.errors)[ScrapeError(Unpack, Some(h))] ==
               if Answered(x) && i >= Room(x.reply.data) then 1 else 0
  {
    HeaderExactly(x);
    if Answered(x) {
      PageExactly(x.reply.data, page, i);
    } else {
      assert multiset(PageResult(page, x).errors)[ScrapeError(Unpack, Some(page[i]))] == 0;
    }
  }

  /** A page that fails adds one error of the tracker and nothing else: of the kind of the failure
      if nothing came, a default one if what came does not begin as it should. One that is answered
      adds only errors of its hashes. */
  lemma PageFailure(page: seq<Hash>, x: Exchange)
    ensures match x.reply
            case Lost(kind) => PageResult(page, x) == Scraped([ScrapeError(kind, None)], map[])
            case Answer(_) =>
              if Answered(x) then
                forall e :: e in PageResult(page, x).errors ==> e.kind == Unpack && e.hash.Some? && e.hash.get in page
              else PageResult(page, x) == Scraped([ScrapeError(Default, None)], map[])
  {
    HeaderExactly(x);
  }

  /** A tracker's refusal, action 3 with a text, is an error, however long the text. */
  lemma RefusalFails(page: seq<Hash>, tid: Word, text: seq<Byte>)
    ensures PageResult(page, Exchange(tid, Answer([0, 0, 0, 3] + Encode(tid) + text))) ==
            Scraped([ScrapeError(Default, None)], map[])
  {
    var data := [0, 0, 0, 3] + Encode(tid) + text;
    assert data[3] == 3 && data[..8][3] == 3;
    PageFailure(page, Exchange(tid, Answer(data)));
  }

  /** The tracker answers every page in full. */
  ghost predicate AnsweredInFull(pages: seq<seq<Hash>>, xs: seq<Exchange>, stats: map<Hash, Stats>)
    requires |pages| == |xs|
  {
    pages == [] ||
    (&& (forall h :: h in pages[0] ==> h in stats)
     && xs[0].reply == Answer(FullReply(xs[0].tid, stats, pages[0]))
     && AnsweredInFull(pages[1..], xs[1..], stats))
  }

  /** When every page is answered in full, the scrape is the statistics of every hash. */
  lemma {:induction false} WholeScrape(pages: seq<seq<Hash>>, xs: seq<Exchange>, stats: map<Hash, Stats>)
    requires |pages| == |xs| && Distinct(Joined(pages)) && AnsweredInFull(pages, xs, stats)
    ensures forall h :: h in Joined(pages) ==> h in stats
    ensures ScrapePages(pages, xs) == Scraped([], map h | h in Joined(pages) :: stats[h])
    decreases |pages|
  {
    if pages != [] {
      DistinctParts(pages[0], Joined(pages[1..]));
      WholeScrape(pages[1..], xs[1..], stats);
      WholeReply(xs[0].tid, stats, pages[0]);
      JoinedStats(pages[0], Joined(pages[1..]), stats);
      assert xs[0] == Exchange(xs[0].tid, Answer(FullReply(xs[0].tid, stats, pages[0])));
      OnlyResponses(PageResult(pages[0], xs[0]), ScrapePages(pages[1..], xs[1..]));
    }
  }

  lemma OnlyResponses(a: Result, b: Result)
    requires a.errors == [] && b.errors == []
    ensures Plus(a, b) == Scraped([], a.responses + b.responses)
  {
  }

  lemma JoinedStats(a: seq<Hash>, b: seq<Hash>, stats: map<Hash, Stats>)
    requires (forall h :: h in a ==> h in stats) && (forall h :: h in b ==> h in stats)
    ensures forall h :: h in a + b ==> h in stats
    ensures (map h | h in a :: stats[h]) + (map h | h in b :: stats[h]) == map h | h in a + b :: stats[h]
  {
  }
}
