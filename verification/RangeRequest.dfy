/** Asking a webseed for a range of bytes, with retries and a byte budget. */
module RangeRequest {
  import opened Numbers
  import opened Wrappers
  import Text

  type Byte = bv8

  /** One piece of a streamed body, and how much had been downloaded when it came. */
  datatype Chunk = Chunk(data: seq<Byte>, downloaded: nat)
  datatype Response = Response(status: int, chunks: seq<Chunk>) | ProtocolError

  datatype Outcome = Body(data: seq<Byte>) | HttpError(status: int)
  /** What a request came to, how many were made, and the retries left. */
  datatype Fetched = Fetched(outcome: Outcome, requests: nat, left: map<int, int>)

  // ---------------------------------------------------------------- the body

  predicate Enough(c: Chunk, expected: nat) {
    10 * c.downloaded >= 11 * expected
  }

  /** Reading stops with the first chunk after which a tenth too much has been downloaded. */
  function Received(chunks: seq<Chunk>, expected: nat): seq<Byte> {
    if chunks == [] then []
    else if Enough(chunks[0], expected) then chunks[0].data
    else chunks[0].data + Received(chunks[1..], expected)
  }

  function Trimmed(body: seq<Byte>, expected: nat): (r: seq<Byte>)
    ensures |r| <= expected && r <= body
  {
    if |body| > expected then body[..expected] else body
  }

  method ReadBody(chunks: seq<Chunk>, expected: nat) returns (body: seq<Byte>)
    ensures body == Trimmed(Received(chunks, expected), expected)
  {
    body := [];
    var todo, closed := chunks, false;
    while todo != [] && !closed
      invariant closed ==> body == Received(chunks, expected)
      invariant !closed ==> body + Received(todo, expected) == Received(chunks, expected)
      decreases |todo|, !closed
    {
      ghost var rest := Received(todo[1..], expected);
      assert body + (todo[0].data + rest) == (body + todo[0].data) + rest;
      body := body + todo[0].data;
      closed := Enough(todo[0], expected);
      todo := todo[1..];
    }
    assert body + [] == body;
    if |body| > expected {
      body := body[..expected];
    }
  }

  /** All that the chunks hold, put together. */
  function Sent(chunks: seq<Chunk>): seq<Byte> {
    if chunks == [] then [] else chunks[0].data + Sent(chunks[1..])
  }

  /** Up to chunk `k` no chunk finds as much as a tenth too much downloaded. */
  predicate GoesOn(chunks: seq<Chunk>, expected: nat, k: nat)
    requires k <= |chunks|
  {
    forall i :: 0 <= i < k ==> 10 * chunks[i].downloaded < 11 * expected
  }

  /** Every chunk is read, up to the first with which a tenth too much has been downloaded. */
  lemma {:induction false} ReceivedExactly(chunks: seq<Chunk>, expected: nat, k: nat)
    requires k < |chunks| && GoesOn(chunks, expected, k)
    requires k + 1 == |chunks| || 10 * chunks[k].downloaded >= 11 * expected
    ensures Received(chunks, expected) == Sent(chunks[..k + 1])
  {
    var rest := chunks[1..];
    assert chunks[..k + 1][1..] == rest[..k];
    if k > 0 {
      assert forall i :: 0 <= i < k - 1 ==> rest[i] == chunks[i + 1];
      assert 10 * chunks[0].downloaded < 11 * expected;
      ReceivedExactly(rest, expected, k - 1);
    } else if k + 1 == |chunks| {
      assert rest == [];
    }
  }

  // ---------------------------------------------------------------- the allowances

  function Allowed(left: map<int, int>, status: int): nat {
    if status in left && left[status] > 0 then left[status] else 0
  }

  /** All the retries left, over all status codes. */
  ghost function Allowance(left: map<int, int>): nat
    decreases |left|
  {
    if k: int :| k in left.Keys then Allowed(left, k) + Allowance(left - {k}) else 0
  }

  lemma {:induction false} AllowanceWithout(left: map<int, int>, k: int)
    requires k in left
    ensures Allowance(left) == Allowed(left, k) + Allowance(left - {k})
    decreases |left|
  {
    var j: int :| j in left.Keys && Allowance(left) == Allowed(left, j) + Allowance(left - {j});
    if j != k {
      AllowanceWithout(left - {j}, k);
      AllowanceWithout(left - {k}, j);
      assert left - {j} - {k} == left - {k} - {j};
      assert Allowed(left - {j}, k) == Allowed(left, k) && Allowed(left - {k}, j) == Allowed(left, j);
    }
  }

  function Spend(left: map<int, int>, status: int): map<int, int>
    requires Allowed(left, status) > 0
  {
    left[status := left[status] - 1]
  }

  lemma SpendOne(left: map<int, int>, status: int)
    requires Allowed(left, status) > 0
    ensures Allowance(Spend(left, status)) == Allowance(left) - 1
  {
    AllowanceWithout(left, status);
    AllowanceWithout(Spend(left, status), status);
    assert left - {status} == Spend(left, status) - {status};
  }

  // ---------------------------------------------------------------- the request

  /** Bytes of a file, from `start` up to but not including `end`. */
  datatype FileRange = FileRange(start: nat, end: nat) {
    ghost predicate Valid() { start <= end }
  }

  const UNIT := "bytes="

  /** The header counts its last byte in. */
  function Header(r: FileRange): string {
    UNIT + Text.IntText(r.start) + "-" + Text.IntText(r.end - 1)
  }

  /** Reading such a header: the first and the last position asked for. */
  function ReadHeader(s: string): Option<(int, int)> {
    if !Text.StartsWith(s, UNIT) then None
    else
      var parts := Text.Split(s[|UNIT|..], '-');
      if |parts| != 2 then None
      else
        match (Text.ParseInt(parts[0]), Text.ParseInt(parts[1]))
        case (Some(first), Some(last)) => Some((first, last))
        case _ => None
  }

  /** A header asks for as many bytes as its range has, from the right one on. */
  lemma HeaderReads(r: FileRange)
    requires r.start < r.end
    ensures ReadHeader(Header(r)) == Some((r.start as int, r.end - 1))
    ensures var (first, last) := ReadHeader(Header(r)).get; last - first + 1 == r.end - r.start
  {
    var a, b := Text.IntText(r.start), Text.IntText(r.end - 1);
    var tail := a + "-" + b;
    assert Header(r) == UNIT + tail;
    assert Header(r)[..|UNIT|] == UNIT && Header(r)[|UNIT|..] == tail;
    DigitsOnly(r.start);
    DigitsOnly(r.end - 1);
    Text.SplitJoin([a, b], '-');
    assert Text.Join([a, b], '-') == tail;
    Text.IntRoundTrip(r.start);
    Text.IntRoundTrip(r.end - 1);
  }

  lemma DigitsOnly(n: nat)
    ensures '-' !in Text.IntText(n)
  {
    var s := Text.IntText(n);
    assert forall i :: 0 <= i < |s| ==> Text.IsDigit(s[i]);
  }

  /** The response to each request: how many came before it, and its range header. */
  type Server = (nat, string) -> Response
  /** The responses to one range. */
  type Answers = nat -> Response

  function AnswersTo(server: Server, r: FileRange): Answers {
    (k: nat) => server(k, Header(r))
  }

  /** What a response comes to that is not tried again. */
  function Final(response: Response, expected: nat): Outcome {
    match response
    case ProtocolError => HttpError(0)
    case Response(status, chunks) =>
      if status != 206 then HttpError(status) else Body(Trimmed(Received(chunks, expected), expected))
  }

  ghost function Fetch(answers: Answers, k: nat, expected: nat, left: map<int, int>): Fetched
    decreases Allowance(left)
  {
    var response := answers(k);
    if response.Response? && Allowed(left, response.status) > 0 then
      SpendOne(left, response.status);
      var rest := Fetch(answers, k + 1, expected, Spend(left, response.status));
      rest.(requests := rest.requests + 1)
    else Fetched(Final(response, expected), 1, left)
  }

  class Retries {
    var left: map<int, int>

    constructor (left: map<int, int>)
      ensures this.left == left
    {
      this.left := left;
    }
  }

  /** The same retries object goes through all the calls, one less at each of them. */
  method RequestRange(server: Server, k: nat, r: FileRange, retries: Retries)
    returns (outcome: Outcome, ghost requests: nat)
    requires r.Valid()
    modifies retries
    ensures Fetched(outcome, requests, retries.left) ==
            Fetch(AnswersTo(server, r), k, r.end - r.start, old(retries.left))
    decreases Allowance(retries.left)
  {
    var header := UNIT + Text.IntText(r.start) + "-" + Text.IntText(r.end - 1);
    assert header == Header(r);
    var response := server(k, header);
    assert AnswersTo(server, r)(k) == response;
    if response.ProtocolError? {
      return HttpError(0), 1;
    }
    var expected := r.end - r.start;
    var body := ReadBody(response.chunks, expected);
    if Allowed(retries.left, response.status) > 0 {
      SpendOne(retries.left, response.status);
      retries.left := Spend(retries.left, response.status);
      outcome, requests := RequestRange(server, k + 1, r, retries);
      requests := requests + 1;
      return;
    }
    if response.status != 206 {
      return HttpError(response.status), 1;
    }
    return Body(body), 1;
  }

  // ---------------------------------------------------------------- what comes of it

  predicate Has(r: Response, status: int) {
    r.Response? && r.status == status
  }

  /** How many of `n` responses from the `k`-th on had this status. */
  ghost function CountStatus(answers: Answers, k: nat, n: nat, status: int): nat
    decreases n
  {
    if n == 0 then 0
    else (if Has(answers(k), status) then 1 else 0) + CountStatus(answers, k + 1, n - 1, status)
  }

  /** One request and at most as many more as there are retries. */
  lemma {:induction false} RequestsBounded(answers: Answers, k: nat, expected: nat, left: map<int, int>)
    ensures 1 <= Fetch(answers, k, expected, left).requests <= 1 + Allowance(left)
    decreases Allowance(left)
  {
    var response := answers(k);
    if response.Response? && Allowed(left, response.status) > 0 {
      SpendOne(left, response.status);
      RequestsBounded(answers, k + 1, expected, Spend(left, response.status));
    }
  }

  /** A status is given up on when it has come once more than there were retries for it, and no
      status comes more often than that. */
  lemma {:induction false} GivenUpExactly(answers: Answers, k: nat, expected: nat, left: map<int, int>, status: int)
    ensures var f := Fetch(answers, k, expected, left);
            f.requests >= 1 &&
            var last := answers(k + f.requests - 1);
            && CountStatus(answers, k, f.requests, status) ==
               Allowed(left, status) - Allowed(f.left, status) + (if Has(last, status) then 1 else 0)
            && (Has(last, status) ==> Allowed(f.left, status) == 0)
    decreases Allowance(left)
  {
    var response := answers(k);
    if response.Response? && Allowed(left, response.status) > 0 {
      var spent := Spend(left, response.status);
      SpendOne(left, response.status);
      GivenUpExactly(answers, k + 1, expected, spent, status);
    }
  }

  /** Whatever was tried again, the last response decides. */
  lemma {:induction false} LastDecides(answers: Answers, k: nat, expected: nat, left: map<int, int>)
    ensures var f := Fetch(answers, k, expected, left);
            f.requests >= 1 && f.outcome == Final(answers(k + f.requests - 1), expected)
    decreases Allowance(left)
  {
    var response := answers(k);
    if response.Response? && Allowed(left, response.status) > 0 {
      SpendOne(left, response.status);
      LastDecides(answers, k + 1, expected, Spend(left, response.status));
    }
  }

  /** Bytes are returned exactly when the last response is a partial content one, and they are
      what it sent, up to the length asked for; any other last response is the error. */
  lemma BodyExactly(answers: Answers, k: nat, expected: nat, left: map<int, int>)
    ensures var f := Fetch(answers, k, expected, left);
            f.requests >= 1 &&
            match answers(k + f.requests - 1)
            case ProtocolError => f.outcome == HttpError(0)
            case Response(status, chunks) =>
              if status == 206 then
                && f.outcome.Body? && |f.outcome.data| <= expected
                && f.outcome.data <= Received(chunks, expected)
                && (|f.outcome.data| < expected ==> f.outcome.data == Received(chunks, expected))
              else f.outcome == HttpError(status)
  {
    LastDecides(answers, k, expected, left);
  }

  /** The bytes a final partial content response comes to: its chunks put together, up to the first
      with which a tenth too much has been downloaded, cut at the length asked for. */
  lemma BytesExactly(answers: Answers, k: nat, expected: nat, left: map<int, int>, last: nat)
    requires var f := Fetch(answers, k, expected, left);
             f.requests >= 1 &&
             var r := answers(k + f.requests - 1);
             && r.Response? && r.status == 206 && last < |r.chunks| && GoesOn(r.chunks, expected, last)
             && (last + 1 == |r.chunks| || 10 * r.chunks[last].downloaded >= 11 * expected)
    ensures var f := Fetch(answers, k, expected, left);
            var sent := Sent(answers(k + f.requests - 1).chunks[..last + 1]);
            f.outcome == Body(if |sent| > expected then sent[..expected] else sent)
  {
    LastDecides(answers, k, expected, left);
    var r := answers(k + Fetch(answers, k, expected, left).requests - 1);
    ReceivedExactly(r.chunks, expected, last);
  }

  /** Chunks that come as they are, so that what has been downloaded is what they hold. */
  ghost predicate AsSent(chunks: seq<Chunk>) {
    forall i :: 0 <= i < |chunks| ==> chunks[i].downloaded == |Sent(chunks[..i + 1])|
  }

  lemma {:induction false} SentPrefix(chunks: seq<Chunk>, k: nat)
    requires k <= |chunks|
    ensures Sent(chunks[..k]) <= Sent(chunks)
  {
    if k > 0 {
      assert chunks[..k][1..] == chunks[1..][..k - 1];
      SentPrefix(chunks[1..], k - 1);
    }
  }

  /** A final partial content response with exactly the bytes asked for returns exactly these. */
  lemma RangeReturned(answers: Answers, k: nat, expected: nat, left: map<int, int>)
    requires var f := Fetch(answers, k, expected, left);
             f.requests >= 1 &&
             var r := answers(k + f.requests - 1);
             r.Response? && r.status == 206 && AsSent(r.chunks) && |Sent(r.chunks)| == expected
    ensures var f := Fetch(answers, k, expected, left);
            f.outcome == Body(Sent(answers(k + f.requests - 1).chunks))
  {
    var chunks := answers(k + Fetch(answers, k, expected, left).requests - 1).chunks;
    LastDecides(answers, k, expected, left);
    if expected == 0 {
      return;
    }
    forall i | 0 <= i < |chunks|
      ensures 10 * chunks[i].downloaded < 11 * expected
    {
      SentPrefix(chunks, i + 1);
    }
    assert chunks[..|chunks|] == chunks;
    BytesExactly(answers, k, expected, left, |chunks| - 1);
  }

  // ---------------------------------------------------------------- what is downloaded

  /** How much had been downloaded with the last chunk that was read. */
  function Transferred(chunks: seq<Chunk>, expected: nat): nat {
    if chunks == [] then 0
    else if |chunks| == 1 || Enough(chunks[0], expected) then chunks[0].downloaded
    else Transferred(chunks[1..], expected)
  }

  /** No chunk adds more than this to what had been downloaded. */
  predicate Steady(chunks: seq<Chunk>, before: nat, size: nat) {
    chunks == [] || (chunks[0].downloaded <= before + size && Steady(chunks[1..], chunks[0].downloaded, size))
  }

  /** Whatever a server sends, what is downloaded of one response is at most a tenth and a chunk
      more than was asked for. */
  lemma {:induction false} Overshoot(chunks: seq<Chunk>, expected: nat, before: nat, size: nat)
    requires Steady(chunks, before, size) && 10 * before <= 11 * expected
    ensures 10 * Transferred(chunks, expected) <= 11 * expected + 10 * size
  {
    if |chunks| > 1 && !Enough(chunks[0], expected) {
      Overshoot(chunks[1..], expected, chunks[0].downloaded, size);
    }
  }

  function Brings(response: Response, expected: nat): nat {
    match response
    case ProtocolError => 0
    case Response(_, chunks) => Transferred(chunks, expected)
  }

  /** What all the requests of a fetch bring together. */
  ghost function Traffic(answers: Answers, k: nat, expected: nat, left: map<int, int>): nat
    decreases Allowance(left)
  {
    var response := answers(k);
    Brings(response, expected) +
    if response.Response? && Allowed(left, response.status) > 0 then
      SpendOne(left, response.status);
      Traffic(answers, k + 1, expected, Spend(left, response.status))
    else 0
  }

  /** `k` times `n` */
  function Repeated(k: nat, n: nat): nat {
    if k == 0 then 0 else n + Repeated(k - 1, n)
  }

  lemma {:induction false} RepeatedIs(k: nat, n: nat)
    ensures Repeated(k, n) == k * n
  {
    if k > 0 {
      RepeatedIs(k - 1, n);
      assert k * n == n + (k - 1) * n;
    }
  }

  lemma {:induction false} RepeatedWithin(k: nat, n: nat, m: nat)
    requires n <= m
    ensures Repeated(k, n) <= k * m
  {
    if k > 0 {
      RepeatedWithin(k - 1, n, m);
      assert k * m == m + (k - 1) * m;
    }
  }

  lemma {:induction false} RepeatedSum(k: nat, a: nat, b: nat)
    ensures Repeated(k, a + b) == Repeated(k, a) + Repeated(k, b)
  {
    if k > 0 {
      RepeatedSum(k - 1, a, b);
    }
  }

  /** No response brings more than this. */
  ghost predicate Modest(answers: Answers, expected: nat, limit: nat) {
    forall k: nat :: Brings(answers(k), expected) <= limit
  }

  lemma {:induction false} TrafficBounded(answers: Answers, k: nat, expected: nat, left: map<int, int>, limit: nat)
    requires Modest(answers, expected, limit)
    ensures Traffic(answers, k, expected, left) <= Repeated(1 + Allowance(left), limit)
    decreases Allowance(left)
  {
    var response := answers(k);
    if response.Response? && Allowed(left, response.status) > 0 {
      SpendOne(left, response.status);
      TrafficBounded(answers, k + 1, expected, Spend(left, response.status), limit);
    }
  }

  lemma {:induction false} TrafficShifted(
    answers: Answers, later: Answers, k: nat, expected: nat, left: map<int, int>)
    requires forall j: nat :: answers(j + 1) == later(j)
    ensures Traffic(answers, k + 1, expected, left) == Traffic(later, k, expected, left)
    decreases Allowance(left)
  {
    var response := later(k);
    if response.Response? && Allowed(left, response.status) > 0 {
      SpendOne(left, response.status);
      TrafficShifted(answers, later, k + 1, expected, Spend(left, response.status));
    }
  }

  lemma SomeAllowed(left: map<int, int>) returns (status: int)
    requires Allowance(left) > 0
    ensures Allowed(left, status) > 0
    decreases |left|
  {
    var k: int :| k in left.Keys;
    AllowanceWithout(left, k);
    if Allowed(left, k) > 0 {
      status := k;
    } else {
      status := SomeAllowed(left - {k});
    }
  }

  lemma NoneAllowed(left: map<int, int>, status: int)
    requires Allowance(left) == 0
    ensures Allowed(left, status) == 0
  {
    if status in left {
      AllowanceWithout(left, status);
    }
  }

  function Full(status: int, limit: nat): Response {
    Response(status, [Chunk(seq(limit, _ => 0), limit)])
  }

  lemma FullBrings(status: int, limit: nat, expected: nat)
    ensures Brings(Full(status, limit), expected) == limit
  {
  }

  /** One such response, then the later ones. */
  function FullThen(status: int, limit: nat, later: Answers): Answers {
    (k: nat) => if k == 0 then Full(status, limit) else later(k - 1)
  }

  lemma FullThenModest(status: int, limit: nat, later: Answers, expected: nat)
    requires Modest(later, expected, limit)
    ensures Modest(FullThen(status, limit, later), expected, limit)
  {
    forall k: nat
      ensures Brings(FullThen(status, limit, later)(k), expected) <= limit
    {
      if k == 0 {
        FullBrings(status, limit, expected);
      } else {
        assert Brings(later(k - 1), expected) <= limit;
      }
    }
  }

  /** Responses that use up every retry, each with as much as is allowed. */
  lemma {:induction false} TrafficReached(expected: nat, left: map<int, int>, limit: nat) returns (answers: Answers)
    ensures Modest(answers, expected, limit)
    ensures Traffic(answers, 0, expected, left) == Repeated(1 + Allowance(left), limit)
    decreases Allowance(left)
  {
    FullBrings(206, limit, expected);
    if Allowance(left) == 0 {
      answers := (k: nat) => Full(206, limit);
      NoneAllowed(left, 206);
    } else {
      var status := SomeAllowed(left);
      var spent := Spend(left, status);
      SpendOne(left, status);
      var later := TrafficReached(expected, spent, limit);
      answers := FullThen(status, limit, later);
      FullBrings(status, limit, expected);
      FullThenModest(status, limit, later, expected);
      TrafficShifted(answers, later, 0, expected, spent);
      assert Traffic(answers, 0, expected, left) == limit + Traffic(answers, 1, expected, spent);
    }
  }

  /** A budget holds for all responses that stay within a limit each exactly when it has room for
      that limit once more than there are retries. */
  lemma TrafficExactly(expected: nat, left: map<int, int>, limit: nat, budget: nat)
    ensures (forall answers :: Modest(answers, expected, limit) ==> Traffic(answers, 0, expected, left) <= budget) <==>
            (1 + Allowance(left)) * limit <= budget
  {
    RepeatedIs(1 + Allowance(left), limit);
    if (1 + Allowance(left)) * limit <= budget {
      forall answers | Modest(answers, expected, limit)
        ensures Traffic(answers, 0, expected, left) <= budget
      {
        TrafficBounded(answers, 0, expected, left, limit);
      }
    } else {
      var answers := TrafficReached(expected, left, limit);
      assert Modest(answers, expected, limit);
    }
  }

  // ---------------------------------------------------------------- the budget

  function MaxPieces(nPieces: nat, maxData: nat, pieceLength: nat): nat
    requires pieceLength > 0
  {
    var byBudget := maxData / pieceLength;
    if nPieces <= byBudget then nPieces else byBudget
  }

  /** As many pieces as wanted, as long as together they stay within the budget. */
  lemma MaxPiecesExactly(nPieces: nat, maxData: nat, pieceLength: nat, n: nat)
    requires pieceLength > 0
    ensures n <= MaxPieces(nPieces, maxData, pieceLength) <==> n <= nPieces && n * pieceLength <= maxData
  {
    var q, r := maxData / pieceLength, maxData % pieceLength;
    assert maxData == q * pieceLength + r;
    if n <= q {
      assert n * pieceLength <= q * pieceLength by { Order(n, q, pieceLength); }
    } else {
      assert (q + 1) * pieceLength <= n * pieceLength by { Order(q + 1, n, pieceLength); }
    }
  }

  lemma Order(a: nat, b: nat, k: nat)
    requires a <= b
    ensures a * k <= b * k
  {
    assert (b - a) * k >= 0;
  }

  /** The ranges that make up one piece, each with the server it is asked of. */
  datatype Part = Part(range: FileRange, server: Server)
  type Piece = seq<Part>

  ghost predicate ValidPiece(piece: Piece) {
    forall i :: 0 <= i < |piece| ==> piece[i].range.Valid()
  }

  ghost function Length(piece: Piece): nat
    requires ValidPiece(piece)
  {
    if piece == [] then 0 else piece[0].range.end - piece[0].range.start + Length(piece[1..])
  }

  /** How many bytes are kept of a piece; every range has its own copy of the retries. */
  ghost function Kept(piece: Piece, retries: map<int, int>): nat
    requires ValidPiece(piece)
  {
    if piece == [] then 0
    else
      var r := piece[0].range;
      (match Fetch(AnswersTo(piece[0].server, r), 0, r.end - r.start, retries).outcome
       case Body(data) => |data|
       case HttpError(_) => 0) + Kept(piece[1..], retries)
  }

  lemma {:induction false} KeptBounded(piece: Piece, retries: map<int, int>)
    requires ValidPiece(piece)
    ensures Kept(piece, retries) <= Length(piece)
  {
    if piece != [] {
      var r := piece[0].range;
      BodyExactly(AnswersTo(piece[0].server, r), 0, r.end - r.start, retries);
      KeptBounded(piece[1..], retries);
    }
  }

  ghost function TotalKept(pieces: seq<Piece>, retries: map<int, int>): nat
    requires forall i :: 0 <= i < |pieces| ==> ValidPiece(pieces[i])
  {
    if pieces == [] then 0 else Kept(pieces[0], retries) + TotalKept(pieces[1..], retries)
  }

  lemma {:induction false} TotalBounded(pieces: seq<Piece>, retries: map<int, int>, pieceLength: nat)
    requires forall i :: 0 <= i < |pieces| ==> ValidPiece(pieces[i]) && Length(pieces[i]) <= pieceLength
    ensures TotalKept(pieces, retries) <= |pieces| * pieceLength
  {
    if pieces != [] {
      var rest := pieces[1..];
      KeptBounded(pieces[0], retries);
      TotalBounded(rest, retries, pieceLength);
      OneMore(|rest|, pieceLength, Kept(pieces[0], retries), TotalKept(rest, retries));
    }
  }

  lemma OneMore(n: nat, k: nat, first: nat, rest: nat)
    requires first <= k && rest <= n * k
    ensures first + rest <= (n + 1) * k
  {
  }

  /** As many pieces are sampled as the configuration allows, if the torrent has that many. All
      the bytes that fetching them brings stay within the configured budget, however the servers
      answer. */
  lemma WithinBudget(
    pieces: seq<Piece>, retries: map<int, int>, nPieces: nat, maxData: nat, pieceLength: nat, total: nat)
    requires pieceLength > 0 && |pieces| == Least(MaxPieces(nPieces, maxData, pieceLength), total)
    requires forall i :: 0 <= i < |pieces| ==> ValidPiece(pieces[i]) && Length(pieces[i]) <= pieceLength
    ensures TotalKept(pieces, retries) <= maxData
  {
    TotalBounded(pieces, retries, pieceLength);
    MaxPiecesExactly(nPieces, maxData, pieceLength, |pieces|);
  }

  // ---------------------------------------------------------------- the budget and the retries

  /** Every server sends at most what it is asked for. */
  ghost predicate Decent(piece: Piece)
    requires ValidPiece(piece)
  {
    forall i :: 0 <= i < |piece| ==>
      var n := piece[i].range.end - piece[i].range.start;
      Modest(AnswersTo(piece[i].server, piece[i].range), n, n)
  }

  ghost function Downloaded(piece: Piece, retries: map<int, int>): nat
    requires ValidPiece(piece)
  {
    if piece == [] then 0
    else
      var n := piece[0].range.end - piece[0].range.start;
      Traffic(AnswersTo(piece[0].server, piece[0].range), 0, n, retries) + Downloaded(piece[1..], retries)
  }

  lemma {:induction false} DownloadedBounded(piece: Piece, retries: map<int, int>)
    requires ValidPiece(piece) && Decent(piece)
    ensures Downloaded(piece, retries) <= Repeated(1 + Allowance(retries), Length(piece))
  {
    if piece == [] {
      RepeatedIs(1 + Allowance(retries), 0);
    } else {
      var n := piece[0].range.end - piece[0].range.start;
      TrafficBounded(AnswersTo(piece[0].server, piece[0].range), 0, n, retries, n);
      DownloadedBounded(piece[1..], retries);
      RepeatedSum(1 + Allowance(retries), n, Length(piece[1..]));
    }
  }

  ghost function TotalDownloaded(pieces: seq<Piece>, retries: map<int, int>): nat
    requires forall i :: 0 <= i < |pieces| ==> ValidPiece(pieces[i])
  {
    if pieces == [] then 0 else Downloaded(pieces[0], retries) + TotalDownloaded(pieces[1..], retries)
  }

  ghost function TotalLength(pieces: seq<Piece>): nat
    requires forall i :: 0 <= i < |pieces| ==> ValidPiece(pieces[i])
  {
    if pieces == [] then 0 else Length(pieces[0]) + TotalLength(pieces[1..])
  }

  lemma {:induction false} TotalDownloadedBounded(pieces: seq<Piece>, retries: map<int, int>)
    requires forall i :: 0 <= i < |pieces| ==> ValidPiece(pieces[i]) && Decent(pieces[i])
    ensures TotalDownloaded(pieces, retries) <= Repeated(1 + Allowance(retries), TotalLength(pieces))
  {
    if pieces == [] {
      RepeatedIs(1 + Allowance(retries), 0);
    } else {
      DownloadedBounded(pieces[0], retries);
      TotalDownloadedBounded(pieces[1..], retries);
      RepeatedSum(1 + Allowance(retries), Length(pieces[0]), TotalLength(pieces[1..]));
    }
  }

  lemma {:induction false} LengthBounded(pieces: seq<Piece>, pieceLength: nat)
    requires forall i :: 0 <= i < |pieces| ==> ValidPiece(pieces[i]) && Length(pieces[i]) <= pieceLength
    ensures TotalLength(pieces) <= |pieces| * pieceLength
  {
    if pieces != [] {
      LengthBounded(pieces[1..], pieceLength);
      OneMore(|pieces[1..]|, pieceLength, Length(pieces[0]), TotalLength(pieces[1..]));
    }
  }

  /** What is downloaded is within the budget once for each retry, and once more. */
  lemma DownloadBounded(
    pieces: seq<Piece>, retries: map<int, int>, nPieces: nat, maxData: nat, pieceLength: nat, total: nat)
    requires pieceLength > 0 && |pieces| == Least(MaxPieces(nPieces, maxData, pieceLength), total)
    requires forall i :: 0 <= i < |pieces| ==>
               ValidPiece(pieces[i]) && Decent(pieces[i]) && Length(pieces[i]) <= pieceLength
    ensures TotalDownloaded(pieces, retries) <= (1 + Allowance(retries)) * maxData
  {
    TotalDownloadedBounded(pieces, retries);
    LengthBounded(pieces, pieceLength);
    MaxPiecesExactly(nPieces, maxData, pieceLength, |pieces|);
    RepeatedWithin(1 + Allowance(retries), TotalLength(pieces), maxData);
  }

  /** The budget is not kept: one piece that takes all of it, and a server that refuses five times
      with as many bytes as it was asked for. */
  lemma BudgetExceeded() returns (pieces: seq<Piece>)
    ensures |pieces| == 1 == MaxPieces(25, 10, 10) && ValidPiece(pieces[0]) && Decent(pieces[0])
    ensures Length(pieces[0]) == 10 && TotalDownloaded(pieces, map[429 := 5]) == 60
  {
    var r, retries := FileRange(0, 10), map[429 := 5];
    AllowanceWithout(retries, 429);
    assert retries - {429} == map[];
    assert Allowance(retries) == 5;
    var answers := TrafficReached(10, retries, 10);
    RepeatedIs(6, 10);
    var part := Part(r, (k: nat, header: string) => answers(k));
    SameTraffic(AnswersTo(part.server, r), answers, 0, 10, retries);
    pieces := [[part]];
    assert pieces[0][1..] == [] && pieces[1..] == [];
    assert Downloaded([part], retries) == Traffic(AnswersTo(part.server, r), 0, 10, retries) + Downloaded([], retries);
    assert TotalDownloaded(pieces, retries) == Downloaded([part], retries) + TotalDownloaded([], retries);
    forall k: nat
      ensures Brings(AnswersTo(part.server, r)(k), 10) <= 10
    {
      assert AnswersTo(part.server, r)(k) == answers(k);
    }
  }

  lemma {:induction false} SameTraffic(a: Answers, b: Answers, k: nat, expected: nat, left: map<int, int>)
    requires forall j: nat :: a(j) == b(j)
    ensures Traffic(a, k, expected, left) == Traffic(b, k, expected, left)
    decreases Allowance(left)
  {
    var response := b(k);
    if response.Response? && Allowed(left, response.status) > 0 {
      SpendOne(left, response.status);
      SameTraffic(a, b, k + 1, expected, Spend(left, response.status));
    }
  }
}
