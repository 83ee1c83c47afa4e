/** Scraping a tracker over UDP, page by page: the Scrape section of BEP 15. */
module UdpScrape {
  import opened Wrappers
  import opened Numbers
  import opened ScrapeResults

  type Byte = b: int | 0 <= b < 256
  type Word = n: int | 0 <= n < 0x1_0000_0000

  datatype Stats = Stats(seeders: Word, completed: Word, leechers: Word)

  datatype ErrorKind = Default | Unpack | Timeout | Connection
  /** An error of one infohash, or of the tracker as a whole. */
  datatype ScrapeError = ScrapeError(kind: ErrorKind, hash: Option<Hash>)
  type Result = Scraped<ScrapeError, Stats>

  /** The failures a page can end in; anything unforeseen is a default one. */
  type Failure = k: ErrorKind | k != Unpack witness Default

  /** What came of one request: a datagram, or the kind of failure. */
  datatype Reply = Answer(data: seq<Byte>) | Lost(kind: Failure)
  datatype Exchange = Exchange(tid: Word, reply: Reply)

  const NOTHING: Result := Scraped([], map[])
  const REQUEST_SCRAPE: Word := 2
  const HEADER := 8
  const PER_HASH := 12

  // ---------------------------------------------------------------- words, big end first

  function Encode(n: Word): (r: seq<Byte>)
    ensures |r| == 4
  {
    [n / 0x100_0000, n / 0x1_0000 % 256, n / 256 % 256, n % 256]
  }

  function Decode(data: seq<Byte>, at: nat): Word
    requires at + 4 <= |data|
  {
    var a: int, b: int, c: int, d: int := data[at], data[at + 1], data[at + 2], data[at + 3];
    a * 0x100_0000 + b * 0x1_0000 + c * 256 + d
  }

  lemma DecodeEncode(data: seq<Byte>, at: nat, n: Word)
    requires at + 4 <= |data| && data[at..at + 4] == Encode(n)
    ensures Decode(data, at) == n
  {
    var part := data[at..at + 4];
    assert part[0] == data[at] && part[1] == data[at + 1] && part[2] == data[at + 2] && part[3] == data[at + 3];
    DigitsAddUp(n);
  }

  lemma DigitsAddUp(n: Word)
    ensures n / 0x100_0000 * 0x100_0000 + n / 0x1_0000 % 256 * 0x1_0000 + n / 256 % 256 * 256 + n % 256 == n
  {
    assert n / 256 / 256 == n / 0x1_0000;
    assert n / 0x1_0000 / 256 == n / 0x100_0000;
  }

  lemma EncodeDecode(data: seq<Byte>, at: nat)
    requires at + 4 <= |data|
    ensures 0 <= Decode(data, at) < 0x1_0000_0000 && data[at..at + 4] == Encode(Decode(data, at))
  {
    BigEnd(data[at], data[at + 1], data[at + 2], data[at + 3]);
  }

  /** The first byte counts most. */
  lemma BigEnd(a: Byte, b: Byte, c: Byte, d: Byte)
    ensures a * 0x100_0000 + b * 0x1_0000 + c * 256 + d < 0x1_0000_0000
    ensures Encode(a * 0x100_0000 + b * 0x1_0000 + c * 256 + d) == [a, b, c, d]
  {
    var n := a * 0x100_0000 + b * 0x1_0000 + c * 256 + d;
    LastDigit(n, a * 0x1_0000 + b * 256 + c, d);
    LastDigit(n / 256, a * 256 + b, c);
    LastDigit(n / 256 / 256, a, b);
    assert n / 256 / 256 == n / 0x1_0000 && n / 256 / 256 / 256 == n / 0x100_0000;
  }

  lemma LastDigit(n: nat, q: nat, d: Byte)
    requires n == q * 256 + d
    ensures n / 256 == q && n % 256 == d
  {
  }

  /** `struct.unpack_from("!III", data, at)` */
  function StatsAt(data: seq<Byte>, at: nat): Stats
    requires at + PER_HASH <= |data|
  {
    Stats(Decode(data, at), Decode(data, at + 4), Decode(data, at + 8))
  }

  function EncodeStats(s: Stats): (r: seq<Byte>)
    ensures |r| == PER_HASH
  {
    Encode(s.seeders) + Encode(s.completed) + Encode(s.leechers)
  }

  lemma SliceOfSlice(data: seq<Byte>, at: nat, n: nat, from: nat, to: nat)
    requires from <= to <= n && at + n <= |data|
    ensures data[at..at + n][from..to] == data[at + from..at + to]
  {
    var part := data[at..at + n];
    forall k | 0 <= k < to - from
      ensures part[from..to][k] == data[at + from..at + to][k]
    {
      assert part[from..to][k] == part[from + k] == data[at + (from + k)];
    }
  }

  lemma StatsRoundTrip(data: seq<Byte>, at: nat, s: Stats)
    requires at + PER_HASH <= |data| && data[at..at + PER_HASH] == EncodeStats(s)
    ensures StatsAt(data, at) == s
  {
    var e := EncodeStats(s);
    SliceOfSlice(data, at, PER_HASH, 0, 4);
    assert e[0..4] == Encode(s.seeders);
    assert e[..8] == Encode(s.seeders) + Encode(s.completed);
    assert e[4..8] == e[..8][4..] == Encode(s.completed);
    SliceOfSlice(data, at, PER_HASH, 4, 8);
    SliceOfSlice(data, at, PER_HASH, 8, 12);
    assert e[8..12] == Encode(s.leechers);
    DecodeEncode(data, at, s.seeders);
    DecodeEncode(data, at + 4, s.completed);
    DecodeEncode(data, at + 8, s.leechers);
  }

  /** What is read at a place are the seeders, completed and leechers that stand there, in this order. */
  lemma StatsExactly(data: seq<Byte>, at: nat, s: Stats)
    requires at + 12 <= |data|
    ensures StatsAt(data, at) == s <==>
            data[at..at + 12] == Encode(s.seeders) + Encode(s.completed) + Encode(s.leechers)
  {
    var t := StatsAt(data, at);
    EncodeDecode(data, at);
    EncodeDecode(data, at + 4);
    EncodeDecode(data, at + 8);
    assert data[at..at + 12] == data[at..at + 4] + data[at + 4..at + 8] + data[at + 8..at + 12];
    if data[at..at + 12] == Encode(s.seeders) + Encode(s.completed) + Encode(s.leechers) {
      StatsRoundTrip(data, at, s);
    }
  }

  // ---------------------------------------------------------------- one page

  /** How many hashes a datagram has room for. */
  function Room(data: seq<Byte>): nat
    requires |data| >= HEADER
  {
    (|data| - HEADER) / PER_HASH
  }

  function Table(data: seq<Byte>, n: nat): (r: seq<Stats>)
    requires HEADER + n * PER_HASH <= |data|
    ensures |r| == n && forall i :: 0 <= i < n ==> r[i] == StatsAt(data, HEADER + i * PER_HASH)
  {
    seq(n, i requires 0 <= i < n => StatsAt(data, HEADER + i * PER_HASH))
  }

  function Zipped(hashes: seq<Hash>, stats: seq<Stats>): (r: map<Hash, Stats>)
    requires |hashes| == |stats|
    ensures forall h :: h in r <==> h in hashes
  {
    if hashes == [] then map[]
    else
      var n := |hashes| - 1;
      assert hashes == hashes[..n] + [hashes[n]];
      Zipped(hashes[..n], stats[..n])[hashes[n] := stats[n]]
  }

  function Responses(data: seq<Byte>, hashes: seq<Hash>, n: nat): map<Hash, Stats>
    requires n <= |hashes| && HEADER + n * PER_HASH <= |data|
  {
    Zipped(hashes[..n], Table(data, n))
  }

  lemma ResponsesNext(data: seq<Byte>, hashes: seq<Hash>, n: nat)
    requires n < |hashes| && HEADER + (n + 1) * PER_HASH <= |data|
    ensures Responses(data, hashes, n + 1) ==
            Responses(data, hashes, n)[hashes[n] := StatsAt(data, HEADER + n * PER_HASH)]
  {
    assert hashes[..n + 1][..n] == hashes[..n];
    assert Table(data, n + 1)[..n] == Table(data, n);
  }

  function Missing(hashes: seq<Hash>): (r: seq<ScrapeError>)
    ensures |r| == |hashes| && forall i :: 0 <= i < |r| ==> r[i] == ScrapeError(Unpack, Some(hashes[i]))
  {
    seq(|hashes|, i requires 0 <= i < |hashes| => ScrapeError(Unpack, Some(hashes[i])))
  }

  lemma MissingNext(hashes: seq<Hash>, n: nat, i: nat)
    requires n <= i < |hashes|
    ensures Missing(hashes[n..i + 1]) == Missing(hashes[n..i]) + [ScrapeError(Unpack, Some(hashes[i]))]
  {
    assert hashes[n..i + 1] == hashes[n..i] + [hashes[i]];
  }

  function Unpacked(data: seq<Byte>, hashes: seq<Hash>): Result
    requires |data| >= HEADER
  {
    var n := Least(Room(data), |hashes|);
    Scraped(Missing(hashes[n..]), Responses(data, hashes, n))
  }

  /** The loop over the hashes; the offset moves only when there is enough left. */
  method UnpackScrapeResult(data: seq<Byte>, hashes: seq<Hash>) returns (r: Result)
    requires |data| >= HEADER
    ensures r == Unpacked(data, hashes)
  {
    var offset := HEADER;
    var responses: map<Hash, Stats> := map[];
    var errors: seq<ScrapeError> := [];
    ghost var n := Least(Room(data), |hashes|);
    for i := 0 to |hashes|
      invariant offset == HEADER + Least(i, n) * PER_HASH
      invariant responses == Responses(data, hashes, Least(i, n))
      invariant errors == Missing(hashes[Least(i, n)..i])
    {
      if offset + PER_HASH > |data| {
        MissingNext(hashes, n, i);
        errors := errors + [ScrapeError(Unpack, Some(hashes[i]))];
      } else {
        ResponsesNext(data, hashes, i);
        responses := responses[hashes[i] := StatsAt(data, offset)];
        offset := offset + PER_HASH;
      }
    }
    assert hashes[n..|hashes|] == hashes[n..];
    r := Scraped(errors, responses);
  }

  /** The header is there, answers a scrape, and this one. */
  predicate GoodHeader(data: seq<Byte>, tid: Word) {
    |data| >= HEADER && Decode(data, 0) == REQUEST_SCRAPE && Decode(data, 4) == tid
  }

  /** A bad header is meant to be an `unpack` error; composing its message fails, so it ends up
      as an error of the default kind. */
  function PageResult(hashes: seq<Hash>, x: Exchange): Result {
    match x.reply
    case Lost(kind) => Scraped([ScrapeError(kind, None)], map[])
    case Answer(data) =>
      if GoodHeader(data, x.tid) then Unpacked(data, hashes)
      else Scraped([ScrapeError(Default, None)], map[])
  }

  method ScrapePage(hashes: seq<Hash>, x: Exchange) returns (r: Result)
    ensures r == PageResult(hashes, x)
  {
    if x.reply.Lost? {
      return Scraped([ScrapeError(x.reply.kind, None)], map[]);
    }
    var data := x.reply.data;
    if |data| < HEADER || Decode(data, 0) != REQUEST_SCRAPE || Decode(data, 4) != x.tid {
      return Scraped([ScrapeError(Default, None)], map[]);
    }
    r := UnpackScrapeResult(data, hashes);
  }

  // ---------------------------------------------------------------- all pages

  function Pages(hashes: seq<Hash>, max: nat): (r: seq<seq<Hash>>)
    requires max >= 1
    decreases |hashes|
  {
    if hashes == [] then []
    else
      var n := Least(max, |hashes|);
      [hashes[..n]] + Pages(hashes[n..], max)
  }

  function Joined(pages: seq<seq<Hash>>): seq<Hash> {
    if pages == [] then [] else pages[0] + Joined(pages[1..])
  }

  function ScrapePages(pages: seq<seq<Hash>>, xs: seq<Exchange>): Result
    requires |pages| == |xs|
  {
    if pages == [] then NOTHING
    else Plus(PageResult(pages[0], xs[0]), ScrapePages(pages[1..], xs[1..]))
  }

  method Scrape(hashes: seq<Hash>, max: nat, xs: seq<Exchange>) returns (r: Result)
    requires max >= 1 && |xs| == |Pages(hashes, max)|
    ensures r == ScrapePages(Pages(hashes, max), xs)
  {
    r := NOTHING;
    var i, todo := 0, xs;
    ghost var pages, total := Pages(hashes, max), ScrapePages(Pages(hashes, max), xs);
    assert Rest(hashes, 0) == hashes;
    PlusNothing(total);
    while i < |hashes|
      invariant i >= 0
      invariant pages == Pages(Rest(hashes, i), max) && |pages| == |todo|
      invariant Plus(r, ScrapePages(pages, todo)) == total
    {
      ghost var rest := NextPages(hashes, max, i, pages);
      var one := ScrapePage(hashes[i..Least(i + max, |hashes|)], todo[0]);
      NextAdded(r, one, pages, rest, todo);
      r, i, todo, pages := Plus(r, one), i + max, todo[1..], rest;
    }
    PlusNothing(r);
  }

  lemma NextAdded(r: Result, one: Result, pages: seq<seq<Hash>>, rest: seq<seq<Hash>>, xs: seq<Exchange>)
    requires pages != [] && rest == pages[1..] && |pages| == |xs| && one == PageResult(pages[0], xs[0])
    ensures Plus(Plus(r, one), ScrapePages(rest, xs[1..])) == Plus(r, ScrapePages(pages, xs))
  {
    PlusAssociative(r, one, ScrapePages(rest, xs[1..]));
  }

  lemma NextPages(hashes: seq<Hash>, max: nat, i: nat, pages: seq<seq<Hash>>) returns (rest: seq<seq<Hash>>)
    requires max >= 1 && i < |hashes| && pages == Pages(Rest(hashes, i), max)
    ensures pages == [hashes[i..Least(i + max, |hashes|)]] + rest
    ensures rest == Pages(Rest(hashes, i + max), max)
  {
    PageStep(hashes, max, i);
    rest := pages[1..];
  }

  function Rest(hashes: seq<Hash>, i: nat): seq<Hash> {
    if i <= |hashes| then hashes[i..] else []
  }

  lemma PageStep(hashes: seq<Hash>, max: nat, i: nat)
    requires max >= 1 && i < |hashes|
    ensures var pages := Pages(Rest(hashes, i), max);
            && pages != [] && pages[0] == hashes[i..Least(i + max, |hashes|)]
            && pages[1..] == Pages(Rest(hashes, i + max), max)
  {
    var rest := hashes[i..];
    var n := Least(max, |rest|);
    assert rest[..n] == hashes[i..Least(i + max, |hashes|)];
    assert rest[n..] == Rest(hashes, i + max);
  }
}
