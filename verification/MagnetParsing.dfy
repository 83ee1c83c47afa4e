/** What parsing makes of any text at all, and the order in which a link is written. */
module MagnetParsing {
  import opened Wrappers
  import opened Text
  import opened Quoting
  import opened Magnet
  import opened MagnetProofs

  // ---------------------------------------------------------------- the pattern

  /** A fragment of a link: a question mark or an ampersand, a key, an equals sign and a value. */
  datatype Fragment = Fragment(sep: char, key: string, value: string)

  predicate IsKey(s: string) {
    |s| > 0 && forall i :: 0 <= i < |s| ==>
      'a' <= s[i] <= 'z' || 'A' <= s[i] <= 'Z' || '0' <= s[i] <= '9' || s[i] in "_."
  }

  predicate IsValue(s: string) {
    |s| > 0 && '=' !in s && '?' !in s && '&' !in s
  }

  predicate IsFragment(f: Fragment) {
    f.sep in "?&" && IsKey(f.key) && IsValue(f.value)
  }

  predicate AllFragments(fs: seq<Fragment>) {
    forall i :: 0 <= i < |fs| ==> IsFragment(fs[i])
  }

  function Spelled(f: Fragment): string {
    [f.sep] + f.key + "=" + f.value
  }

  function SpelledAll(fs: seq<Fragment>): string {
    if fs == [] then "" else Spelled(fs[0]) + SpelledAll(fs[1..])
  }

  lemma {:induction false} RunHolds(s: string, p: char -> bool)
    ensures forall i :: 0 <= i < Run(s, p) ==> p(s[i])
    ensures Run(s, p) < |s| ==> !p(s[Run(s, p)])
  {
    if s != "" && p(s[0]) {
      RunHolds(s[1..], p);
    }
  }

  /** What the pattern takes from the start is a fragment, if it takes anything. */
  lemma TakenFragment(s: string) returns (f: Fragment)
    requires FieldLength(s) > 0
    ensures IsFragment(f) && s[..FieldLength(s)] == Spelled(f)
  {
    var k := Run(s[1..], KeyChar);
    var v := Run(s[2 + k..], ValueChar);
    RunHolds(s[1..], KeyChar);
    RunHolds(s[2 + k..], ValueChar);
    f := Fragment(s[0], s[1..][..k], s[2 + k..][..v]);
    assert s[..2 + k + v] == [s[0]] + s[1..][..k] + [s[1 + k]] + s[2 + k..][..v];
  }

  lemma SpelledRest(f: Fragment, rest: string)
    ensures Spelled(f) + rest == [f.sep] + (f.key + "=" + f.value + rest)
    ensures (Spelled(f) + rest)[|Spelled(f)|..] == rest
    ensures |Spelled(f)| == 2 + |f.key| + |f.value|
  {
  }

  lemma FragmentTaken(f: Fragment, rest: string)
    requires IsFragment(f) && (rest == "" || rest[0] in "?&")
    ensures FieldLength(Spelled(f) + rest) == |Spelled(f)|
    ensures (Spelled(f) + rest)[|Spelled(f)|..] == rest
  {
    var s := [f.sep] + (f.key + "=" + f.value + rest);
    SpelledRest(f, rest);
    FieldSlices(f.sep, f.key, f.value, rest);
    KeyTaken(f, "=" + (f.value + rest));
    ValueTaken(f, rest);
    LengthOf(s, |f.key|, |f.value|);
  }

  lemma KeyTaken(f: Fragment, after: string)
    requires IsFragment(f) && after != "" && after[0] == '='
    ensures Run(f.key + after, KeyChar) == |f.key|
  {
    RunExact(f.key, after, KeyChar);
  }

  lemma ValueTaken(f: Fragment, after: string)
    requires IsFragment(f) && (after == "" || after[0] in "?&")
    ensures Run(f.value + after, ValueChar) == |f.value|
  {
    RunExact(f.value, after, ValueChar);
  }

  lemma LengthOf(s: string, k: nat, v: nat)
    requires s != "" && s[0] in "?&" && Run(s[1..], KeyChar) == k > 0 && 1 + k < |s| && s[1 + k] == '='
    requires Run(s[2 + k..], ValueChar) == v > 0
    ensures FieldLength(s) == 2 + k + v
  {
  }

  lemma SpelledCons(f: Fragment, rest: seq<Fragment>)
    ensures SpelledAll([f] + rest) == Spelled(f) + SpelledAll(rest)
    ensures IsFragment(f) && AllFragments(rest) ==> AllFragments([f] + rest)
  {
    assert ([f] + rest)[1..] == rest;
  }

  lemma {:induction false} MatchedFragments(s: string) returns (fs: seq<Fragment>)
    requires MatchFields(s)
    ensures fs != [] && AllFragments(fs) && s == SpelledAll(fs)
    decreases |s|
  {
    var n := FieldLength(s);
    var f := TakenFragment(s);
    var rest: seq<Fragment> := [];
    if s[n..] != "" {
      rest := MatchedFragments(s[n..]);
    }
    fs := [f] + rest;
    SpelledCons(f, rest);
    assert SpelledAll(rest) == s[n..];
    CutTogether(s, n);
  }

  lemma CutTogether(s: string, n: nat)
    requires n <= |s|
    ensures s[..n] + s[n..] == s
  {
  }

  lemma {:induction false} FragmentsMatch(fs: seq<Fragment>)
    requires fs != [] && AllFragments(fs)
    ensures MatchFields(SpelledAll(fs))
    decreases |fs|
  {
    var rest := fs[1..];
    if rest != [] {
      FragmentsMatch(rest);
      assert SpelledAll(rest)[0] == rest[0].sep;
    }
    FragmentTaken(fs[0], SpelledAll(rest));
  }

  ghost predicate MadeOfFragments(s: string) {
    exists fs :: fs != [] && AllFragments(fs) && s == "magnet:" + SpelledAll(fs)
  }

  /** The pattern matches exactly what is `magnet:` and then fragments, one at least. */
  lemma MatchExactly(s: string)
    ensures FullMatch(s) <==> MadeOfFragments(s)
  {
    if FullMatch(s) {
      var fs := MatchedFragments(s[7..]);
      assert s == "magnet:" + SpelledAll(fs);
    }
    if MadeOfFragments(s) {
      var fs :| fs != [] && AllFragments(fs) && s == "magnet:" + SpelledAll(fs);
      FragmentsMatch(fs);
      assert s[..7] == "magnet:" && s[7..] == SpelledAll(fs);
    }
  }

  // ---------------------------------------------------------------- the query

  lemma {:induction false} StripAppend(a: Octets, b: Octets)
    ensures Strip(a + b) == Strip(a) + Strip(b)
  {
    if a == "" {
      assert a + b == b;
    } else {
      assert (a + b)[1..] == a[1..] + b;
      StripAppend(a[1..], b);
    }
  }

  lemma StripOne(c: Octet)
    ensures Strip([c]) == if c in "\t\r\n" then "" else [c]
  {
    assert [c][1..] == "";
  }

  lemma {:induction false} CutExactly(a: Octets, c: Octet, b: Octets)
    requires c !in a
    ensures Before(a + [c] + b, c) == a && After(a + [c] + b, c) == b
    ensures Before(a, c) == a && After(a, c) == ""
  {
    var s := a + [c] + b;
    if a != "" {
      assert s[1..] == a[1..] + [c] + b;
      assert forall x :: x in a[1..] ==> x in a;
      CutExactly(a[1..], c, b);
    } else {
      assert s[1..] == b;
    }
  }

  /** The query is what stands between the first question mark and the first number sign after
      it, once tabs and line breaks are gone; without a question mark it is empty. */
  lemma QueryExactly(s: Octets, before: Octets, query: Octets, fragment: Octets)
    requires '?' !in before && '#' !in before && '#' !in query
    ensures Strip(s) == before + "?" + query + "#" + fragment ==> QueryOf(s) == query
    ensures Strip(s) == before + "?" + query ==> QueryOf(s) == query
    ensures Strip(s) == before ==> QueryOf(s) == ""
  {
    var link := before + "?" + query;
    assert '#' !in link;
    CutExactly(link, '#', fragment);
    CutExactly(before, '#', fragment);
    CutExactly(before, '?', query);
  }

  /** A piece of the query is a pair, cut at its first equals sign and unquoted, unless it has none or
      nothing after it. */
  lemma PieceExactly(key: Octets, value: Octets)
    requires '=' !in key
    ensures ParsePiece(key + "=" + value) == if value == "" then [] else [(Unquote(key), Unquote(value))]
    ensures ParsePiece(key) == []
  {
    CutExactly(key, '=', value);
    assert '=' in key + "=" + value;
  }

  lemma PiecesExactly(pieces: seq<Octets>)
    ensures ParsePieces([]) == []
    ensures pieces != [] ==> ParsePieces(pieces) == ParsePiece(pieces[0]) + ParsePieces(pieces[1..])
    ensures forall query: Octets :: ParseQuery(query) == ParsePieces(Split(query, '&'))
  {
  }

  // ---------------------------------------------------------------- the fields

  predicate TextIs(values: seq<Octets>, r: Option<Octets>) {
    match r case None => values == [] case Some(text) => values == [text]
  }

  predicate SizeIs(values: seq<Octets>, r: Option<int>) {
    match r case None => values == [] case Some(n) => |values| == 1 && ParseInt(values[0]) == Some(n)
  }

  /** Each at most 512 characters long, and what validation makes of it. */
  predicate UrlsAre(values: seq<Octets>, norm: Octets -> Option<Octets>, urls: seq<Octets>) {
    |urls| == |values| && forall i :: 0 <= i < |urls| ==> |values[i]| <= 512 && norm(values[i]) == Some(urls[i])
  }

  predicate UrlFieldIs(values: seq<Octets>, norm: Octets -> Option<Octets>, r: Option<seq<Octets>>) {
    match r case None => values == [] case Some(urls) => values != [] && UrlsAre(values, norm, urls)
  }

  /** An integer, or two runs of digits with a hyphen between them. */
  predicate SelIs(s: Octets, sel: FileSel) {
    match sel
    case Index(i) => ParseInt(s) == Some(i)
    case Range(first, last) => ParseInt(s) == None && s == first + "-" + last
  }

  predicate SelsAre(items: seq<Octets>, sels: seq<FileSel>) {
    |sels| == |items| && forall i :: 0 <= i < |sels| ==> SelIs(items[i], sels[i])
  }

  predicate SelFieldIs(values: seq<Octets>, r: Option<seq<FileSel>>) {
    match r
    case None => values == []
    case Some(sels) => values != [] && SelsAre(if |values| == 1 then Split(values[0], ',') else values, sels)
  }

  lemma {:induction false} UrlsExactly(values: seq<Octets>, norm: Octets -> Option<Octets>, urls: seq<Octets>)
    ensures Urls(values, norm) == Ok(urls) <==> UrlsAre(values, norm, urls)
  {
    if values != [] {
      if urls != [] {
        UrlsExactly(values[1..], norm, urls[1..]);
        assert urls == [urls[0]] + urls[1..];
        assert forall i :: 0 < i < |urls| ==> urls[i] == urls[1..][i - 1];
        assert forall i :: 0 < i < |values| ==> values[i] == values[1..][i - 1];
      }
    }
  }

  lemma SelExactly(s: Octets, sel: FileSel)
    ensures ParseSel(s) == Some(sel) <==> SelIs(s, sel)
  {
    if ParseInt(s) == None {
      var parts := Split(s, '-');
      SplitParts(s, '-');
      match sel
      case Index(_) =>
      case Range(first, last) =>
        NoHyphen(first);
        NoHyphen(last);
        if s == first + "-" + last {
          SplitJoin([first, last], '-');
          assert Join([first, last], '-') == s;
        }
        if |parts| == 2 {
          assert Join(parts, '-') == parts[0] + ['-'] + Join([parts[1]], '-');
        }
    }
  }

  lemma NoHyphen(s: DigitText)
    ensures '-' !in s
  {
    assert forall i :: 0 <= i < |s| ==> IsDigit(s[i]);
  }

  lemma JoinCons(first: string, rest: seq<string>, sep: char)
    requires rest != []
    ensures Join([first] + rest, sep) == first + [sep] + Join(rest, sep)
  {
    assert ([first] + rest)[1..] == rest;
  }

  lemma JoinLonger(c: char, parts: seq<string>, sep: char)
    requires parts != []
    ensures Join([[c] + parts[0]] + parts[1..], sep) == [c] + Join(parts, sep)
  {
    var rest := parts[1..];
    assert parts == [parts[0]] + rest;
    if rest != [] {
      JoinCons([c] + parts[0], rest, sep);
      JoinCons(parts[0], rest, sep);
      assert [c] + parts[0] + [sep] + Join(rest, sep) == [c] + (parts[0] + [sep] + Join(rest, sep));
    }
  }

  /** Joining undoes splitting. */
  lemma {:induction false} SplitParts(s: string, sep: char)
    ensures Join(Split(s, sep), sep) == s
  {
    if s != "" {
      var rest := Split(s[1..], sep);
      SplitParts(s[1..], sep);
      if s[0] == sep {
        JoinCons("", rest, sep);
        assert "" + [sep] + s[1..] == s;
      } else {
        JoinLonger(s[0], rest, sep);
        assert [s[0]] + s[1..] == s;
      }
    }
  }

  lemma {:induction false} SelsExactly(items: seq<Octets>, sels: seq<FileSel>)
    ensures ParseSels(items) == Ok(sels) <==> SelsAre(items, sels)
  {
    if items != [] && sels != [] {
      SelExactly(items[0], sels[0]);
      SelsExactly(items[1..], sels[1..]);
      assert sels == [sels[0]] + sels[1..];
      assert forall i :: 0 < i < |sels| ==> sels[i] == sels[1..][i - 1];
      assert forall i :: 0 < i < |items| ==> items[i] == items[1..][i - 1];
    }
  }

  // ---------------------------------------------------------------- the hashes

  /** The last of these that has the word in it, if any has. */
  predicate LastWith(xts: seq<Octets>, word: string, without: string, r: Option<Octets>) {
    match r
    case None => forall i :: 0 <= i < |xts| ==> !Fits(xts[i], word, without)
    case Some(xt) =>
      exists i :: 0 <= i < |xts| && xts[i] == xt && Fits(xt, word, without)
                  && forall k :: i < k < |xts| ==> !Fits(xts[k], word, without)
  }

  predicate Fits(xt: Octets, word: string, without: string) {
    Contains(xt, word) && (without != "" ==> !Contains(xt, without))
  }

  lemma {:induction false} LastExactly(xts: seq<Octets>)
    ensures LastWith(xts, "btih", "", LastV1(xts)) && LastWith(xts, "btmh", "btih", LastV2(xts))
  {
    if xts != [] {
      var n := |xts| - 1;
      LastExactly(xts[..n]);
      LastNext(xts, "btih", "", LastV1(xts[..n]));
      LastNext(xts, "btmh", "btih", LastV2(xts[..n]));
    }
  }

  lemma LastNext(xts: seq<Octets>, word: string, without: string, r: Option<Octets>)
    requires xts != [] && LastWith(xts[..|xts| - 1], word, without, r)
    ensures LastWith(xts, word, without, if Fits(xts[|xts| - 1], word, without) then Some(xts[|xts| - 1]) else r)
  {
    var n := |xts| - 1;
    if !Fits(xts[n], word, without) && r.Some? {
      var i :| 0 <= i < n && xts[..n][i] == r.get && Fits(r.get, word, without)
               && forall k :: i < k < n ==> !Fits(xts[..n][k], word, without);
      forall k | i < k < |xts|
        ensures !Fits(xts[k], word, without)
      {
        assert k < n ==> xts[..n][k] == xts[k];
      }
      assert xts[i] == r.get;
    }
  }

  predicate Here(s: string, word: string, i: nat) {
    i + |word| <= |s| && s[i..i + |word|] == word
  }

  lemma {:induction false} ContainsExactly(s: string, word: string)
    ensures Contains(s, word) <==> exists i :: Here(s, word, i)
  {
    if StartsWith(s, word) {
      assert Here(s, word, 0);
    } else if s != "" {
      ContainsExactly(s[1..], word);
      if i: nat :| Here(s[1..], word, i) {
        HereNext(s, word, i);
      }
      if i: nat :| Here(s, word, i) {
        NotFirst(s, word, i);
        HereNext(s, word, i - 1);
      }
    }
  }

  lemma HereNext(s: string, word: string, i: nat)
    requires s != ""
    ensures Here(s[1..], word, i) <==> Here(s, word, i + 1)
  {
    if i + 1 + |word| <= |s| {
      assert s[1..][i..i + |word|] == s[i + 1..i + 1 + |word|];
    }
  }

  lemma NotFirst(s: string, word: string, i: nat)
    requires Here(s, word, i)
    ensures i == 0 ==> StartsWith(s, word)
  {
  }

  /** The hash is what its own key gives, if it is there once, or else the last `xt` of its kind; both
      without the name of the kind. */
  ghost predicate HashIs(xts: seq<Octets>, named: seq<Octets>, word: string, without: string, urn: Octets,
                         r: Option<Octets>)
    requires urn != ""
  {
    |named| <= 1 &&
    match r
    case None => named == [] && LastWith(xts, word, without, None)
    case Some(hash) =>
      if named != [] then hash == Text.Without(named[0], urn)
      else exists xt :: LastWith(xts, word, without, Some(xt)) && hash == Text.Without(xt, urn)
  }

  lemma LastUnique(xts: seq<Octets>, word: string, without: string, a: Option<Octets>, b: Option<Octets>)
    requires LastWith(xts, word, without, a) && LastWith(xts, word, without, b)
    ensures a == b
  {
  }

  lemma HashExactly(
    xts: seq<Octets>, found: Option<Octets>, named: seq<Octets>, word: string, without: string, urn: Octets,
    r: Option<Octets>)
    requires urn != "" && LastWith(xts, word, without, found)
    ensures HashField(found, named, urn) == Ok(r) <==> HashIs(xts, named, word, without, urn, r)
    ensures HashField(found, named, urn).Err? <==> |named| > 1
  {
    forall xt | LastWith(xts, word, without, Some(xt))
      ensures found == Some(xt)
    {
      LastUnique(xts, word, without, found, Some(xt));
    }
    if LastWith(xts, word, without, None) {
      LastUnique(xts, word, without, found, None);
    }
  }

  // ---------------------------------------------------------------- the whole link

  lemma {:induction false} ValuesExactly(pairs: seq<Pair>, key: Octets, value: Octets)
    ensures ValuesOf([], key) == []
    ensures ValuesOf(pairs + [(key, value)], key) == ValuesOf(pairs, key) + [value]
    ensures forall other :: other != key ==> ValuesOf(pairs + [(other, value)], key) == ValuesOf(pairs, key)
  {
    ValuesAppend(pairs, [(key, value)], key);
    assert ValuesOf([(key, value)], key) == [value];
    forall other: Octets | other != key
      ensures ValuesOf(pairs + [(other, value)], key) == ValuesOf(pairs, key)
    {
      ValuesAppend(pairs, [(other, value)], key);
      assert ValuesOf([(other, value)], key) == [];
    }
  }

  /** The values given under the short key, or, if there are none, under the long one. */
  function Given(pairs: seq<Pair>, short: Octets, long: Octets): seq<Octets> {
    if ValuesOf(pairs, short) == [] then ValuesOf(pairs, long) else ValuesOf(pairs, short)
  }

  /** The link has each of its fields as the pairs give it, and a hash at least. */
  ghost predicate LinkIs(pairs: seq<Pair>, norm: Octets -> Option<Octets>, m: MagnetLink) {
    && HashIs(ValuesOf(pairs, "xt"), ValuesOf(pairs, "v1_infohash"), "btih", "", "urn:btih:", m.v1)
    && HashIs(ValuesOf(pairs, "xt"), ValuesOf(pairs, "v2_infohash"), "btmh", "btih", "urn:btmh:1220", m.v2)
    && (m.v1.Some? || m.v2.Some?)
    && TextIs(Given(pairs, "dn", "file_name"), m.fileName)
    && SizeIs(Given(pairs, "xl", "size"), m.size)
    && UrlFieldIs(Given(pairs, "tr", "trackers"), norm, m.trackers)
    && UrlFieldIs(Given(pairs, "ws", "web_seeds"), norm, m.webSeeds)
    && SelFieldIs(Given(pairs, "so", "select_files"), m.selectFiles)
  }

  lemma {:induction false} UrlsError(values: seq<Octets>, norm: Octets -> Option<Octets>)
    ensures Urls(values, norm).Err? ==> Urls(values, norm) == Err(ValidationError)
  {
    if values != [] {
      UrlsError(values[1..], norm);
    }
  }

  lemma UrlFieldExactly(values: seq<Octets>, norm: Octets -> Option<Octets>, r: Option<seq<Octets>>)
    ensures UrlField(values, norm) == Ok(r) <==> UrlFieldIs(values, norm, r)
    ensures UrlField(values, norm) != Err(AttributeError)
  {
    UrlsError(values, norm);
    if r.Some? {
      UrlsExactly(values, norm, r.get);
    }
  }

  lemma SelFieldExactly(values: seq<Octets>, r: Option<seq<FileSel>>)
    ensures SelField(values) == Ok(r) <==> SelFieldIs(values, r)
  {
    if values != [] && r.Some? {
      SelsExactly(if |values| == 1 then Split(values[0], ',') else values, r.get);
    }
  }

  lemma BuildExactly(
    v1: Result<Option<Octets>>, v2: Result<Option<Octets>>, dn: Result<Option<Octets>>,
    xl: Result<Option<int>>, tr: Result<Option<seq<Octets>>>, ws: Result<Option<seq<Octets>>>,
    so: Result<Option<seq<FileSel>>>, m: MagnetLink)
    ensures var r := Build(v1, v2, dn, xl, tr, ws, so);
            && (r == Ok(m) <==>
                  && v1 == Ok(m.v1) && v2 == Ok(m.v2) && dn == Ok(m.fileName) && xl == Ok(m.size)
                  && tr == Ok(m.trackers) && ws == Ok(m.webSeeds) && so == Ok(m.selectFiles)
                  && (m.v1.Some? || m.v2.Some?))
            && (r == Err(AttributeError) <==> v1 == Err(AttributeError) || v2 == Err(AttributeError))
            && r != Err(NoInfohash) && r != Err(NotAMagnetLink)
  {
  }

  lemma ScalarsExactly(values: seq<Octets>, text: Option<Octets>, size: Option<int>)
    ensures TextField(values) == Ok(text) <==> TextIs(values, text)
    ensures IntField(values) == Ok(size) <==> SizeIs(values, size)
  {
  }

  /** Which link comes of pairs, and how they are refused: without any `xt`; with a hash of its own
      key given twice, as an attribute error; and everything else as a validation error. */
  lemma FromPairsExactly(pairs: seq<Pair>, norm: Octets -> Option<Octets>, m: MagnetLink)
    ensures var r, xts := FromPairs(pairs, norm), ValuesOf(pairs, "xt");
            && (r == Ok(m) <==> xts != [] && LinkIs(pairs, norm, m))
            && (r == Err(NoInfohash) <==> xts == [])
            && (r == Err(AttributeError) <==>
                  xts != [] && (|ValuesOf(pairs, "v1_infohash")| > 1 || |ValuesOf(pairs, "v2_infohash")| > 1))
            && r != Err(NotAMagnetLink)
  {
    var xts := ValuesOf(pairs, XT);
    LastExactly(xts);
    HashExactly(xts, LastV1(xts), ValuesOf(pairs, V1_INFOHASH), "btih", "", BTIH, m.v1);
    HashExactly(xts, LastV2(xts), ValuesOf(pairs, V2_INFOHASH), "btmh", "btih", BTMH, m.v2);
    ScalarsExactly(Lookup(pairs, DN, FILE_NAME), m.fileName, None);
    ScalarsExactly(Lookup(pairs, XL, SIZE), None, m.size);
    UrlFieldExactly(Lookup(pairs, TR, TRACKERS), norm, m.trackers);
    UrlFieldExactly(Lookup(pairs, WS, WEB_SEEDS), norm, m.webSeeds);
    SelFieldExactly(Lookup(pairs, SO, SELECT_FILES), m.selectFiles);
    BuildExactly(
      HashField(LastV1(xts), ValuesOf(pairs, V1_INFOHASH), BTIH),
      HashField(LastV2(xts), ValuesOf(pairs, V2_INFOHASH), BTMH),
      TextField(Lookup(pairs, DN, FILE_NAME)), IntField(Lookup(pairs, XL, SIZE)),
      UrlField(Lookup(pairs, TR, TRACKERS), norm), UrlField(Lookup(pairs, WS, WEB_SEEDS), norm),
      SelField(Lookup(pairs, SO, SELECT_FILES)), m);
  }

  /** Text that is no link is refused as such, and a link is what its query gives. */
  lemma ParsedExactly(s: Octets, norm: Octets -> Option<Octets>)
    ensures Parsed(s, norm) == Err(NotAMagnetLink) <==> !MadeOfFragments(s)
    ensures MadeOfFragments(s) ==> Parsed(s, norm) == FromPairs(ParseQuery(QueryOf(s)), norm)
  {
    MatchExactly(s);
    if FullMatch(s) {
      FromPairsExactly(
        ParseQuery(QueryOf(s)), norm, MagnetLink(None, None, None, None, None, None, None));
    }
  }

  // ---------------------------------------------------------------- the order of a rendered link

  /** Infohashes come first, then trackers, then the other keys in alphabetical order. */
  predicate InOrder(a: Octets, b: Octets) {
    a == "xt" || (b != "xt" && (a == "tr" || (b != "tr" && Leq(a, b))))
  }

  lemma {:induction false} QuotedKeys(key: Octets, items: seq<Octets>)
    ensures forall i :: 0 <= i < |QuotedPairs(key, items)| ==> QuotedPairs(key, items)[i].0 == key
  {
    if items != [] {
      QuotedKeys(key, items[1..]);
    }
  }

  lemma FieldKeys(key: Octets, field: Option<Field>)
    ensures forall i :: 0 <= i < |FieldPairs(key, field)| ==> FieldPairs(key, field)[i].0 == key
  {
    match field
    case Some(Many(items)) => QuotedKeys(key, SortByQuote(items));
    case _ =>
  }

  ghost predicate Ordered(pairs: seq<Pair>) {
    forall i, k :: 0 <= i <= k < |pairs| ==> InOrder(pairs[i].0, pairs[k].0)
  }

  lemma OrderedParts(a: seq<Pair>, b: seq<Pair>)
    requires Ordered(a) && Ordered(b)
    requires forall i, k :: 0 <= i < |a| && 0 <= k < |b| ==> InOrder(a[i].0, b[k].0)
    ensures Ordered(a + b)
  {
  }

  lemma {:induction false} FromOrdered(m: MagnetLink, keys: seq<Octets>)
    requires forall i, k :: 0 <= i <= k < |keys| ==> InOrder(keys[i], keys[k])
    ensures Ordered(PairsFrom(m, keys))
    ensures forall i :: 0 <= i < |PairsFrom(m, keys)| ==> PairsFrom(m, keys)[i].0 in keys
  {
    if keys != [] {
      var first, rest := FieldPairs(keys[0], Dump(m, keys[0])), PairsFrom(m, keys[1..]);
      FieldKeys(keys[0], Dump(m, keys[0]));
      FromOrdered(m, keys[1..]);
      forall i, k | 0 <= i < |first| && 0 <= k < |rest|
        ensures InOrder(first[i].0, rest[k].0)
      {
        var j :| 0 <= j < |keys[1..]| && keys[1..][j] == rest[k].0;
        assert InOrder(keys[0], keys[j + 1]);
      }
      assert Ordered(first);
      OrderedParts(first, rest);
    }
  }

  /** A link is written with its version 1 hash first, then its version 2 hash, and the rest in order. */
  lemma WrittenInOrder(m: MagnetLink)
    ensures Ordered(Pairs(m))
    ensures m.v1.Some? ==> Pairs(m) != [] && Pairs(m)[0] == ("xt", "urn:btih:" + m.v1.get)
    ensures m.v2.Some? ==>
              var i := if m.v1.Some? then 1 else 0;
              |Pairs(m)| > i && Pairs(m)[i] == ("xt", "urn:btmh:1220" + m.v2.get)
  {
    OrderInOrder();
    FromOrdered(m, ORDER);
    OrderedParts(HashPairs(m), PairsFrom(m, ORDER));
  }

  lemma OrderInOrder()
    ensures forall i, k :: 0 <= i <= k < |ORDER| ==> InOrder(ORDER[i], ORDER[k])
  {
    assert 'd' < 's' < 'w' < 'x';
    assert Leq("dn", "dn") && Leq("so", "so") && Leq("ws", "ws") && Leq("xl", "xl") by {
      LeqTotal("dn", "dn");
      LeqTotal("so", "so");
      LeqTotal("ws", "ws");
      LeqTotal("xl", "xl");
    }
  }
}
