/** Magnet links: rendering (BEP 9, with the `so` extension of BEP 53) and parsing. */
module Magnet {
  import opened Wrappers
  import opened Sequences
  import opened Text
  import opened Quoting

  /** One entry of `select_files`: a file index, or a range of digits kept as it was spelled. */
  datatype FileSel = Index(i: int) | Range(first: DigitText, last: DigitText)

  datatype MagnetLink = MagnetLink(
    v1: Option<Octets>,
    v2: Option<Octets>,
    fileName: Option<Octets>,
    size: Option<int>,
    trackers: Option<seq<Octets>>,
    webSeeds: Option<seq<Octets>>,
    selectFiles: Option<seq<FileSel>>)

  datatype Error = NotAMagnetLink | NoInfohash | ValidationError | AttributeError
  datatype Result<+T> = Ok(value: T) | Err(error: Error)

  const BTIH: Octets := "urn:btih:"
  const BTMH: Octets := "urn:btmh:1220"
  const PREFIX: Octets := "magnet:?"

  // The keys of a link, and the field names accepted in their place.
  const XT: Octets := "xt"
  const TR: Octets := "tr"
  const DN: Octets := "dn"
  const SO: Octets := "so"
  const WS: Octets := "ws"
  const XL: Octets := "xl"
  const V1_INFOHASH: Octets := "v1_infohash"
  const V2_INFOHASH: Octets := "v2_infohash"
  const FILE_NAME: Octets := "file_name"
  const SIZE: Octets := "size"
  const TRACKERS: Octets := "trackers"
  const WEB_SEEDS: Octets := "web_seeds"
  const SELECT_FILES: Octets := "select_files"

  // ---------------------------------------------------------------- rendering

  /** A dumped field: a scalar, or a list whose items share one key. */
  datatype Field = Scalar(text: Octets) | Many(items: seq<Octets>)

  type Pair = (Octets, Octets)

  function SelText(sel: FileSel): Octets {
    match sel case Index(i) => IntText(i) case Range(a, b) => a + "-" + b
  }

  function SelTexts(sels: seq<FileSel>): (r: seq<Octets>)
    ensures |r| == |sels| && forall i :: 0 <= i < |r| ==> r[i] == SelText(sels[i])
  {
    if sels == [] then [] else [SelText(sels[0])] + SelTexts(sels[1..])
  }

  /** `sorted(...)` by quoted spelling: insertion keeps equal items in order. */
  function SortByQuote(items: seq<Octets>): seq<Octets> {
    if items == [] then [] else InsertByQuote(items[0], SortByQuote(items[1..]))
  }

  function InsertByQuote(item: Octets, sorted: seq<Octets>): seq<Octets> {
    if sorted == [] then [item]
    else if Leq(Quote(item), Quote(sorted[0])) then [item] + sorted
    else [sorted[0]] + InsertByQuote(item, sorted[1..])
  }

  function QuotedPairs(key: Octets, items: seq<Octets>): (r: seq<Pair>)
    ensures |r| == |items|
  {
    if items == [] then [] else [(key, Quote(items[0]))] + QuotedPairs(key, items[1..])
  }

  function FieldPairs(key: Octets, field: Option<Field>): seq<Pair> {
    match field
    case None => []
    case Some(Scalar(text)) => [(key, Quote(text))]
    case Some(Many(items)) => QuotedPairs(key, SortByQuote(items))
  }

  function HashPairs(m: MagnetLink): seq<Pair> {
    (if m.v1.Some? then [(XT, BTIH + m.v1.get)] else [])
    + (if m.v2.Some? then [(XT, BTMH + m.v2.get)] else [])
  }

  /** The dump by alias, as far as one key goes; absent fields are left out. */
  function Dump(m: MagnetLink, key: Octets): Option<Field> {
    if key == TR && m.trackers.Some? then Some(Many(m.trackers.get))
    else if key == WS && m.webSeeds.Some? then Some(Many(m.webSeeds.get))
    else if key == DN && m.fileName.Some? then Some(Scalar(m.fileName.get))
    else if key == XL && m.size.Some? then Some(Scalar(IntText(m.size.get)))
    else if key == SO && m.selectFiles.Some? then
      Some(Scalar(Join(SelTexts(m.selectFiles.get), ',')))
    else None
  }

  /** After the infohashes: trackers first, the other keys in alphabetical order. */
  const ORDER: seq<Octets> := [TR, DN, SO, WS, XL]

  function PairsFrom(m: MagnetLink, keys: seq<Octets>): seq<Pair> {
    if keys == [] then [] else FieldPairs(keys[0], Dump(m, keys[0])) + PairsFrom(m, keys[1..])
  }

  function Pairs(m: MagnetLink): seq<Pair> {
    HashPairs(m) + PairsFrom(m, ORDER)
  }

  function Fragments(pairs: seq<Pair>): (r: seq<Octets>)
    ensures |r| == |pairs|
  {
    if pairs == [] then [] else [pairs[0].0 + "=" + pairs[0].1] + Fragments(pairs[1..])
  }

  function Rendered(m: MagnetLink): Octets {
    PREFIX + Join(Fragments(Pairs(m)), '&')
  }

  // ---------------------------------------------------------------- the link pattern

  predicate KeyChar(c: char) {
    'a' <= c <= 'z' || 'A' <= c <= 'Z' || '0' <= c <= '9' || c == '_' || c == '.'
  }

  predicate ValueChar(c: char) {
    c != '=' && c != '?' && c != '&'
  }

  /** How many characters at the start of `s` pass `p`. */
  function Run(s: string, p: char -> bool): (n: nat)
    ensures n <= |s|
  {
    if s == "" || !p(s[0]) then 0 else 1 + Run(s[1..], p)
  }

  /** The length of the `[?&]key=value` that `s` starts with, or 0 when it starts with none. */
  function FieldLength(s: string): (n: nat)
    ensures n <= |s|
  {
    if s == "" || (s[0] != '?' && s[0] != '&') then 0
    else
      var k := Run(s[1..], KeyChar);
      if k == 0 || 1 + k >= |s| || s[1 + k] != '=' then 0
      else
        var v := Run(s[2 + k..], ValueChar);
        if v == 0 then 0 else 2 + k + v
  }

  /** `([?&]key=value)+` to the end of `s`, with a nonempty key and value. */
  predicate MatchFields(s: string)
    decreases |s|
  {
    var n := FieldLength(s);
    n > 0 && (s[n..] == "" || MatchFields(s[n..]))
  }

  predicate FullMatch(s: string) {
    StartsWith(s, "magnet:") && MatchFields(s[7..])
  }

  // ---------------------------------------------------------------- urlparse and parse_qs

  /** `urlparse` drops tabs and line breaks wherever they stand. */
  function Strip(s: Octets): Octets {
    if s == "" then ""
    else (if s[0] == '\t' || s[0] == '\r' || s[0] == '\n' then "" else [s[0]]) + Strip(s[1..])
  }

  function Before(s: Octets, c: char): Octets {
    if s == "" || s[0] == c then "" else [s[0]] + Before(s[1..], c)
  }

  function After(s: Octets, c: char): Octets {
    if s == "" then "" else if s[0] == c then s[1..] else After(s[1..], c)
  }

  /** The query of a link: past the first `?`, up to the fragment. */
  function QueryOf(s: Octets): Octets {
    After(Before(Strip(s), '#'), '?')
  }

  /** `parse_qs` reads `key=value`, dropping pieces without a value. */
  function ParsePiece(piece: Octets): seq<Pair> {
    if '=' !in piece || After(piece, '=') == "" then []
    else [(Unquote(Before(piece, '=')), Unquote(After(piece, '=')))]
  }

  function ParsePieces(pieces: seq<Octets>): seq<Pair> {
    if pieces == [] then [] else ParsePiece(pieces[0]) + ParsePieces(pieces[1..])
  }

  function ParseQuery(query: Octets): seq<Pair> {
    ParsePieces(Split(query, '&'))
  }

  function ValuesOf(pairs: seq<Pair>, key: Octets): seq<Octets> {
    if pairs == [] then []
    else (if pairs[0].0 == key then [pairs[0].1] else []) + ValuesOf(pairs[1..], key)
  }

  // ---------------------------------------------------------------- field validation

  function TextField(values: seq<Octets>): Result<Option<Octets>> {
    if values == [] then Ok(None)
    else if |values| == 1 then Ok(Some(values[0]))
    else Err(ValidationError)
  }

  function IntField(values: seq<Octets>): Result<Option<int>> {
    if values == [] then Ok(None)
    else if |values| == 1 && ParseInt(values[0]).Some? then Ok(ParseInt(values[0]))
    else Err(ValidationError)
  }

  /** `MaxLenURL`: at most 512 characters, then normalised by `norm`. */
  function UrlField(values: seq<Octets>, norm: Octets -> Option<Octets>): Result<Option<seq<Octets>>> {
    if values == [] then Ok(None)
    else
      match Urls(values, norm)
      case Ok(urls) => Ok(Some(urls))
      case Err(e) => Err(e)
  }

  function Urls(values: seq<Octets>, norm: Octets -> Option<Octets>): Result<seq<Octets>> {
    if values == [] then Ok([])
    else if |values[0]| > 512 || norm(values[0]).None? then Err(ValidationError)
    else
      match Urls(values[1..], norm)
      case Ok(rest) => Ok([norm(values[0]).get] + rest)
      case Err(e) => Err(e)
  }

  function ParseSel(s: Octets): Option<FileSel> {
    if ParseInt(s).Some? then Some(Index(ParseInt(s).get))
    else
      var parts := Split(s, '-');
      if |parts| == 2 && |parts[0]| > 0 && AllDigits(parts[0]) && |parts[1]| > 0 && AllDigits(parts[1])
      then Some(Range(parts[0], parts[1]))
      else None
  }

  function ParseSels(items: seq<Octets>): Result<seq<FileSel>> {
    if items == [] then Ok([])
    else if ParseSel(items[0]).None? then Err(ValidationError)
    else
      match ParseSels(items[1..])
      case Ok(rest) => Ok([ParseSel(items[0]).get] + rest)
      case Err(e) => Err(e)
  }

  /** A single value is split at commas, several are taken one by one. */
  function SelField(values: seq<Octets>): Result<Option<seq<FileSel>>> {
    if values == [] then Ok(None)
    else
      match ParseSels(if |values| == 1 then Split(values[0], ',') else values)
      case Ok(sels) => Ok(Some(sels))
      case Err(e) => Err(e)
  }

  // ---------------------------------------------------------------- parsing

  /** The last `xt` that names a version 1 hash. */
  function LastV1(xts: seq<Octets>): Option<Octets> {
    if xts == [] then None
    else if Contains(xts[|xts| - 1], "btih") then Some(xts[|xts| - 1])
    else LastV1(xts[..|xts| - 1])
  }

  /** The last `xt` that names a version 2 hash and no version 1 hash. */
  function LastV2(xts: seq<Octets>): Option<Octets> {
    if xts == [] then None
    else
      var xt := xts[|xts| - 1];
      if !Contains(xt, "btih") && Contains(xt, "btmh") then Some(xt) else LastV2(xts[..|xts| - 1])
  }

  /** A field is looked up by its alias first, then by its own name. */
  function Lookup(pairs: seq<Pair>, alias: Octets, name: Octets): seq<Octets> {
    if ValuesOf(pairs, alias) != [] then ValuesOf(pairs, alias) else ValuesOf(pairs, name)
  }

  /** A query key spelled like the field itself overrides the hash found under `xt`. Given twice
      it is a list, and a list has no `replace`. */
  function HashField(found: Option<Octets>, named: seq<Octets>, urn: Octets): Result<Option<Octets>>
    requires urn != ""
  {
    if |named| > 1 then Err(AttributeError)
    else if named != [] then Ok(Some(Without(named[0], urn)))
    else if found.Some? then Ok(Some(Without(found.get, urn)))
    else Ok(None)
  }

  /** An attribute error ends the validation, whatever else is wrong with the link. */
  function Build(
    v1: Result<Option<Octets>>, v2: Result<Option<Octets>>, dn: Result<Option<Octets>>,
    xl: Result<Option<int>>, tr: Result<Option<seq<Octets>>>, ws: Result<Option<seq<Octets>>>,
    so: Result<Option<seq<FileSel>>>): Result<MagnetLink>
  {
    if v1 == Err(AttributeError) || v2 == Err(AttributeError) then Err(AttributeError)
    else
      match (v1, v2, dn, xl, tr, ws, so)
      case (Ok(a), Ok(b), Ok(c), Ok(d), Ok(e), Ok(f), Ok(g)) =>
        if a.None? && b.None? then Err(ValidationError) else Ok(MagnetLink(a, b, c, d, e, f, g))
      case _ => Err(ValidationError)
  }

  function FromPairs(pairs: seq<Pair>, norm: Octets -> Option<Octets>): Result<MagnetLink> {
    var xts := ValuesOf(pairs, XT);
    if xts == [] then Err(NoInfohash)
    else
      Build(
        HashField(LastV1(xts), ValuesOf(pairs, V1_INFOHASH), BTIH),
        HashField(LastV2(xts), ValuesOf(pairs, V2_INFOHASH), BTMH),
        TextField(Lookup(pairs, DN, FILE_NAME)),
        IntField(Lookup(pairs, XL, SIZE)),
        UrlField(Lookup(pairs, TR, TRACKERS), norm),
        UrlField(Lookup(pairs, WS, WEB_SEEDS), norm),
        SelField(Lookup(pairs, SO, SELECT_FILES)))
  }

  function Parsed(s: Octets, norm: Octets -> Option<Octets>): Result<MagnetLink> {
    if !FullMatch(s) then Err(NotAMagnetLink) else FromPairs(ParseQuery(QueryOf(s)), norm)
  }

  method Render(m: MagnetLink) returns (s: Octets)
    ensures s == Rendered(m)
  {
    var pairs := HashPairs(m);
    var todo := ORDER;
    while todo != []
      invariant pairs + PairsFrom(m, todo) == Pairs(m)
      decreases |todo|
    {
      var key := todo[0];
      PairsStep(pairs, m, todo);
      match Dump(m, key) {
        case None =>
        case Some(Scalar(text)) => pairs := pairs + [(key, Quote(text))];
        case Some(Many(items)) => pairs := pairs + QuotedPairs(key, SortByQuote(items));
      }
      todo := todo[1..];
    }
    assert pairs + [] == pairs;
    s := PREFIX + Join(Fragments(pairs), '&');
  }

  lemma PairsStep(pairs: seq<Pair>, m: MagnetLink, keys: seq<Octets>)
    requires keys != []
    ensures pairs + PairsFrom(m, keys)
         == pairs + FieldPairs(keys[0], Dump(m, keys[0])) + PairsFrom(m, keys[1..])
  {
    AppendAssociative(pairs, FieldPairs(keys[0], Dump(m, keys[0])), PairsFrom(m, keys[1..]));
  }

  method Parse(s: Octets, norm: Octets -> Option<Octets>) returns (r: Result<MagnetLink>)
    ensures r == Parsed(s, norm)
  {
    if !FullMatch(s) {
      return Err(NotAMagnetLink);
    }
    var pairs := ParseQuery(QueryOf(s));
    var xts := ValuesOf(pairs, XT);
    if xts == [] {
      return Err(NoInfohash);
    }
    var v1: Option<Octets>, v2: Option<Octets> := None, None;
    for i := 0 to |xts|
      invariant v1 == LastV1(xts[..i]) && v2 == LastV2(xts[..i])
    {
      assert xts[..i + 1][..i] == xts[..i];
      if Contains(xts[i], "btih") {
        v1 := Some(xts[i]);
      } else if Contains(xts[i], "btmh") {
        v2 := Some(xts[i]);
      }
    }
    assert xts[..|xts|] == xts;
    r := Build(
      HashField(v1, ValuesOf(pairs, V1_INFOHASH), BTIH),
      HashField(v2, ValuesOf(pairs, V2_INFOHASH), BTMH),
      TextField(Lookup(pairs, DN, FILE_NAME)),
      IntField(Lookup(pairs, XL, SIZE)),
      UrlField(Lookup(pairs, TR, TRACKERS), norm),
      UrlField(Lookup(pairs, WS, WEB_SEEDS), norm),
      SelField(Lookup(pairs, SO, SELECT_FILES)));
  }
}
