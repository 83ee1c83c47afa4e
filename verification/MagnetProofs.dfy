/** Parsing a rendered magnet link gives the link back, and exactly when. */
module MagnetProofs {
  import opened Wrappers
  import opened Sequences
  import opened Text
  import opened Quoting
  import opened Magnet

  // ---------------------------------------------------------------- the links in question

  predicate Alphanumeric(s: Octets) {
    forall i :: 0 <= i < |s| ==> 'a' <= s[i] <= 'z' || 'A' <= s[i] <= 'Z' || '0' <= s[i] <= '9'
  }

  predicate Hex(s: Octets) {
    forall i :: 0 <= i < |s| ==> HexValue(s[i]).Some?
  }

  /** A link the model validator accepts, whose hashes are spelled in hex (or base32 for v1). */
  predicate HasInfohash(m: MagnetLink) {
    && (m.v1.Some? || m.v2.Some?)
    && (m.v1.Some? ==> Alphanumeric(m.v1.get))
    && (m.v2.Some? ==> Hex(m.v2.get))
  }

  /** The same link with its list fields in the order `render` writes them. */
  function Canonical(m: MagnetLink): MagnetLink {
    m.(trackers := SortField(m.trackers), webSeeds := SortField(m.webSeeds))
  }

  function SortField(urls: Option<seq<Octets>>): Option<seq<Octets>> {
    match urls case None => None case Some(us) => Some(SortByQuote(us))
  }

  /** A URL that validation lets through unchanged. */
  predicate Stable(u: Octets, norm: Octets -> Option<Octets>) {
    0 < |u| <= 512 && norm(u) == Some(u)
  }

  predicate AllStable(urls: seq<Octets>, norm: Octets -> Option<Octets>) {
    forall i :: 0 <= i < |urls| ==> Stable(urls[i], norm)
  }

  predicate StableField(urls: Option<seq<Octets>>, norm: Octets -> Option<Octets>) {
    urls.Some? ==> urls.get != [] && AllStable(urls.get, norm)
  }

  /** Nothing present is empty, and every URL is in normal form and within the length limit. */
  predicate Faithful(m: MagnetLink, norm: Octets -> Option<Octets>) {
    && (m.fileName.Some? ==> m.fileName.get != [])
    && (m.selectFiles.Some? ==> m.selectFiles.get != [])
    && StableField(m.trackers, norm)
    && StableField(m.webSeeds, norm)
  }

  // ---------------------------------------------------------------- sorting

  lemma {:induction false} InsertedItems(item: Octets, sorted: seq<Octets>)
    ensures multiset(InsertByQuote(item, sorted)) == multiset(sorted) + multiset{item}
  {
    if sorted != [] && !Leq(Quote(item), Quote(sorted[0])) {
      var rest := InsertByQuote(item, sorted[1..]);
      InsertedItems(item, sorted[1..]);
      assert sorted == [sorted[0]] + sorted[1..];
      assert multiset([sorted[0]] + rest) == multiset{sorted[0]} + multiset(rest);
    } else {
      assert multiset([item] + sorted) == multiset{item} + multiset(sorted);
    }
  }

  lemma SortedItems(items: seq<Octets>)
    ensures multiset(SortByQuote(items)) == multiset(items)
  {
    if items != [] {
      SortedItems(items[1..]);
      InsertedItems(items[0], SortByQuote(items[1..]));
      assert items == [items[0]] + items[1..];
    }
  }

  ghost predicate QuoteSorted(items: seq<Octets>) {
    forall i, j :: 0 <= i <= j < |items| ==> Leq(Quote(items[i]), Quote(items[j]))
  }

  lemma {:induction false} InsertSorted(item: Octets, sorted: seq<Octets>)
    requires QuoteSorted(sorted)
    ensures QuoteSorted(InsertByQuote(item, sorted))
  {
    LeqTotal(Quote(item), Quote(item));
    if sorted == [] {
    } else if Leq(Quote(item), Quote(sorted[0])) {
      forall j | 0 <= j < |sorted|
        ensures Leq(Quote(item), Quote(sorted[j]))
      {
        LeqTransitive(Quote(item), Quote(sorted[0]), Quote(sorted[j]));
      }
    } else {
      var rest := InsertByQuote(item, sorted[1..]);
      LeqTotal(Quote(item), Quote(sorted[0]));
      InsertSorted(item, sorted[1..]);
      InsertedItems(item, sorted[1..]);
      forall x | x in rest
        ensures Leq(Quote(sorted[0]), Quote(x))
      {
        assert x in multiset(rest);
        assert x == item || x in sorted[1..];
      }
      ConsSorted(sorted[0], rest);
    }
  }

  lemma ConsSorted(first: Octets, rest: seq<Octets>)
    requires QuoteSorted(rest) && forall x :: x in rest ==> Leq(Quote(first), Quote(x))
    ensures QuoteSorted([first] + rest)
  {
    LeqTotal(Quote(first), Quote(first));
  }

  lemma {:induction false} SortSorted(items: seq<Octets>)
    ensures QuoteSorted(SortByQuote(items))
  {
    if items != [] {
      SortSorted(items[1..]);
      InsertSorted(items[0], SortByQuote(items[1..]));
    }
  }

  lemma {:induction false} SortFixed(items: seq<Octets>)
    requires QuoteSorted(items)
    ensures SortByQuote(items) == items
  {
    if items != [] {
      SortFixed(items[1..]);
      if |items| > 1 {
        assert Leq(Quote(items[0]), Quote(items[1]));
      }
    }
  }

  lemma SortTwice(items: seq<Octets>)
    ensures SortByQuote(SortByQuote(items)) == SortByQuote(items)
  {
    SortSorted(items);
    SortFixed(SortByQuote(items));
  }

  lemma CanonicalField(m: MagnetLink, key: Octets)
    ensures FieldPairs(key, Dump(Canonical(m), key)) == FieldPairs(key, Dump(m, key))
  {
    if key == TR && m.trackers.Some? {
      SortTwice(m.trackers.get);
    } else if key == WS && m.webSeeds.Some? {
      SortTwice(m.webSeeds.get);
    }
  }

  /** Rendering is a normal form: the link that is read back renders to the same text. */
  lemma RenderCanonical(m: MagnetLink)
    ensures Rendered(Canonical(m)) == Rendered(m)
  {
    forall key: Octets
      ensures FieldPairs(key, Dump(Canonical(m), key)) == FieldPairs(key, Dump(m, key))
    {
      CanonicalField(m, key);
    }
    SamePairs(Canonical(m), m, ORDER);
  }

  lemma {:induction false} SamePairs(a: MagnetLink, b: MagnetLink, keys: seq<Octets>)
    requires forall i :: 0 <= i < |keys| ==>
               FieldPairs(keys[i], Dump(a, keys[i])) == FieldPairs(keys[i], Dump(b, keys[i]))
    ensures PairsFrom(a, keys) == PairsFrom(b, keys)
  {
    if keys != [] {
      assert FieldPairs(keys[0], Dump(a, keys[0])) == FieldPairs(keys[0], Dump(b, keys[0]));
      SamePairs(a, b, keys[1..]);
    }
  }

  // ---------------------------------------------------------------- the pattern accepts clean pairs

  /** Characters that neither separate fields nor start a fragment nor get dropped. */
  predicate Clean(s: string) {
    forall i :: 0 <= i < |s| ==> QuotedChar(s[i]) || s[i] == ':'
  }

  predicate KeyText(s: string) {
    |s| > 0 && forall i :: 0 <= i < |s| ==> KeyChar(s[i])
  }

  predicate CleanPairs(pairs: seq<Pair>) {
    forall i :: 0 <= i < |pairs| ==> KeyText(pairs[i].0) && Clean(pairs[i].1)
  }

  predicate NoEmptyValue(pairs: seq<Pair>) {
    forall i :: 0 <= i < |pairs| ==> pairs[i].1 != []
  }

  lemma {:induction false} RunExact(a: string, b: string, p: char -> bool)
    requires forall i :: 0 <= i < |a| ==> p(a[i])
    requires b == [] || !p(b[0])
    ensures Run(a + b, p) == |a|
  {
    if a == [] {
      assert a + b == b;
    } else {
      assert (a + b)[1..] == a[1..] + b;
      RunExact(a[1..], b, p);
    }
  }

  function Tail(pairs: seq<Pair>): Octets {
    if |pairs| <= 1 then [] else ['&'] + Join(Fragments(pairs[1..]), '&')
  }

  lemma JoinFragments(pairs: seq<Pair>)
    requires pairs != []
    ensures Join(Fragments(pairs), '&') == pairs[0].0 + "=" + pairs[0].1 + Tail(pairs)
  {
  }

  lemma FieldSlices(sep: char, key: string, value: string, tail: string)
    ensures var s := [sep] + (key + "=" + value + tail);
            && s[1..] == key + ("=" + (value + tail))
            && s[1 + |key|] == '='
            && s[2 + |key|..] == value + tail
            && s[2 + |key| + |value|..] == tail
  {
  }

  lemma LengthOne(sep: char, key: string, value: string, tail: string)
    requires (sep == '?' || sep == '&') && KeyText(key) && Clean(value)
    requires tail == [] || tail[0] == '&'
    ensures FieldLength([sep] + (key + "=" + value + tail))
         == if value == [] then 0 else 2 + |key| + |value|
  {
    FieldSlices(sep, key, value, tail);
    RunExact(key, "=" + (value + tail), KeyChar);
    RunExact(value, tail, ValueChar);
  }

  lemma MatchOne(sep: char, key: string, value: string, tail: string)
    requires (sep == '?' || sep == '&') && KeyText(key) && Clean(value)
    requires tail == [] || tail[0] == '&'
    ensures MatchFields([sep] + (key + "=" + value + tail))
            <==> value != [] && (tail == [] || MatchFields(tail))
  {
    FieldSlices(sep, key, value, tail);
    LengthOne(sep, key, value, tail);
  }

  lemma {:induction false} MatchJoined(pairs: seq<Pair>, sep: char)
    requires pairs != [] && CleanPairs(pairs) && (sep == '?' || sep == '&')
    ensures MatchFields([sep] + Join(Fragments(pairs), '&')) <==> NoEmptyValue(pairs)
    decreases |pairs|
  {
    JoinFragments(pairs);
    MatchOne(sep, pairs[0].0, pairs[0].1, Tail(pairs));
    if |pairs| > 1 {
      MatchJoined(pairs[1..], '&');
      assert NoEmptyValue(pairs) <==> pairs[0].1 != [] && NoEmptyValue(pairs[1..]);
    }
  }

  // ---------------------------------------------------------------- the query reads back as pairs

  predicate Plain(s: Octets) {
    forall i :: 0 <= i < |s| ==> s[i] !in {'\t', '\r', '\n', '#'}
  }

  lemma StripPlain(s: Octets)
    requires Plain(s)
    ensures Strip(s) == s && Before(s, '#') == s
  {
  }

  lemma {:induction false} CutAt(a: Octets, b: Octets, c: Octet)
    requires c !in a
    ensures Before(a + [c] + b, c) == a && After(a + [c] + b, c) == b
  {
    var s := a + [c] + b;
    if a == [] {
      assert s[1..] == b;
    } else {
      assert s[1..] == a[1..] + [c] + b;
      assert forall x :: x in a[1..] ==> x in a;
      CutAt(a[1..], b, c);
    }
  }

  lemma PlainAppend(a: Octets, b: Octets)
    requires Plain(a) && Plain(b)
    ensures Plain(a + b)
  {
  }

  lemma {:induction false} JoinPlain(pairs: seq<Pair>)
    requires CleanPairs(pairs)
    ensures Plain(Join(Fragments(pairs), '&'))
    decreases |pairs|
  {
    if pairs != [] {
      JoinPlain(pairs[1..]);
      PlainAppend("&", Join(Fragments(pairs[1..]), '&'));
      PlainAppend(pairs[0].0, "=");
      PlainAppend(pairs[0].0 + "=", pairs[0].1);
      PlainAppend(pairs[0].0 + "=" + pairs[0].1, Tail(pairs));
      JoinFragments(pairs);
    }
  }

  lemma QueryOfRendered(pairs: seq<Pair>)
    requires CleanPairs(pairs)
    ensures QueryOf(PREFIX + Join(Fragments(pairs), '&')) == Join(Fragments(pairs), '&')
  {
    var q := Join(Fragments(pairs), '&');
    JoinPlain(pairs);
    StripPlain(PREFIX + q);
    CutAt("magnet:", q, '?');
    assert PREFIX + q == "magnet:" + ['?'] + q;
  }

  /** The pairs with their values unquoted. */
  function Unquoted(pairs: seq<Pair>): seq<Pair> {
    if pairs == [] then [] else [(pairs[0].0, Unquote(pairs[0].1))] + Unquoted(pairs[1..])
  }

  lemma PieceReadsBack(pair: Pair)
    requires KeyText(pair.0) && Clean(pair.1) && pair.1 != []
    ensures var piece := pair.0 + "=" + pair.1;
            '&' !in piece && ParsePiece(piece) == [(pair.0, Unquote(pair.1))]
  {
    CutAt(pair.0, pair.1, '=');
    UnquotePlain(pair.0);
  }

  lemma {:induction false} PiecesReadBack(pairs: seq<Pair>)
    requires CleanPairs(pairs) && NoEmptyValue(pairs)
    ensures ParsePieces(Fragments(pairs)) == Unquoted(pairs)
    ensures forall i :: 0 <= i < |pairs| ==> '&' !in Fragments(pairs)[i]
    decreases |pairs|
  {
    if pairs != [] {
      PieceReadsBack(pairs[0]);
      PiecesReadBack(pairs[1..]);
    }
  }

  lemma QueryReadsBack(pairs: seq<Pair>)
    requires pairs != [] && CleanPairs(pairs) && NoEmptyValue(pairs)
    ensures ParseQuery(Join(Fragments(pairs), '&')) == Unquoted(pairs)
  {
    PiecesReadBack(pairs);
    SplitJoin(Fragments(pairs), '&');
  }

  // ---------------------------------------------------------------- a rendered link's own pairs

  lemma {:induction false} ValuesAppend(a: seq<Pair>, b: seq<Pair>, key: Octets)
    ensures ValuesOf(a + b, key) == ValuesOf(a, key) + ValuesOf(b, key)
  {
    if a == [] {
      assert a + b == b;
    } else {
      assert (a + b)[1..] == a[1..] + b;
      ValuesAppend(a[1..], b, key);
      var first := if a[0].0 == key then [a[0].1] else [];
      AppendAssociative(first, ValuesOf(a[1..], key), ValuesOf(b, key));
    }
  }

  lemma UnquotedAppend(a: seq<Pair>, b: seq<Pair>)
    ensures Unquoted(a + b) == Unquoted(a) + Unquoted(b)
  {
    if a == [] {
      assert a + b == b;
    } else {
      assert (a + b)[1..] == a[1..] + b;
      UnquotedAppend(a[1..], b);
    }
  }

  /** What one field contributes under its key, in plain text. */
  function PlainValues(field: Option<Field>): seq<Octets> {
    match field
    case None => []
    case Some(Scalar(text)) => [text]
    case Some(Many(items)) => SortByQuote(items)
  }

  lemma {:induction false} QuotedValues(key: Octets, items: seq<Octets>, other: Octets)
    ensures ValuesOf(Unquoted(QuotedPairs(key, items)), other) == if other == key then items else []
  {
    if items != [] {
      UnquoteQuote(items[0]);
      QuotedValues(key, items[1..], other);
    }
  }

  lemma FieldValues(key: Octets, field: Option<Field>, other: Octets)
    ensures ValuesOf(Unquoted(FieldPairs(key, field)), other)
         == if other == key then PlainValues(field) else []
  {
    match field
    case None =>
    case Some(Scalar(text)) =>
      QuotedValues(key, [text], other);
      assert QuotedPairs(key, [text]) == [(key, Quote(text))];
    case Some(Many(items)) => QuotedValues(key, SortByQuote(items), other);
  }

  ghost predicate DistinctKeys(keys: seq<Octets>) {
    forall i, j :: 0 <= i < j < |keys| ==> keys[i] != keys[j]
  }

  lemma {:induction false} KeyValues(m: MagnetLink, keys: seq<Octets>, key: Octets)
    requires DistinctKeys(keys)
    ensures ValuesOf(Unquoted(PairsFrom(m, keys)), key)
         == if key in keys then PlainValues(Dump(m, key)) else []
    decreases |keys|
  {
    if keys != [] {
      var first, rest := FieldPairs(keys[0], Dump(m, keys[0])), PairsFrom(m, keys[1..]);
      UnquotedAppend(first, rest);
      ValuesAppend(Unquoted(first), Unquoted(rest), key);
      FieldValues(keys[0], Dump(m, keys[0]), key);
      KeyValues(m, keys[1..], key);
    }
  }

  lemma QuotedPairsClean(key: Octets, items: seq<Octets>)
    requires KeyText(key)
    ensures CleanPairs(QuotedPairs(key, items))
    ensures NoEmptyValue(QuotedPairs(key, items)) <==> forall i :: 0 <= i < |items| ==> items[i] != []
  {
    forall i | 0 <= i < |items|
      ensures QuotedPairs(key, items)[i] == (key, Quote(items[i])) && Clean(Quote(items[i]))
    {
      QuotedPairsAt(key, items, i);
      forall j | 0 <= j < |Quote(items[i])|
        ensures QuotedChar(Quote(items[i])[j])
      {
        QuoteChars(items[i], j);
      }
    }
    forall i | 0 <= i < |items|
      ensures QuotedPairs(key, items)[i].1 == [] <==> items[i] == []
    {
      QuoteEmpty(items[i]);
    }
  }

  lemma QuotedPairsAt(key: Octets, items: seq<Octets>, i: nat)
    requires i < |items|
    ensures QuotedPairs(key, items)[i] == (key, Quote(items[i]))
  {
    if i > 0 {
      QuotedPairsAt(key, items[1..], i - 1);
    }
  }

  predicate NoEmptyField(field: Option<Field>) {
    match field
    case None => true
    case Some(Scalar(text)) => text != []
    case Some(Many(items)) => [] !in items
  }

  lemma FieldClean(key: Octets, field: Option<Field>)
    requires KeyText(key)
    ensures CleanPairs(FieldPairs(key, field))
    ensures NoEmptyValue(FieldPairs(key, field)) <==> NoEmptyField(field)
  {
    match field
    case None =>
    case Some(Scalar(text)) =>
      QuotedPairsClean(key, [text]);
      assert QuotedPairs(key, [text]) == [(key, Quote(text))];
    case Some(Many(items)) =>
      QuotedPairsClean(key, SortByQuote(items));
      SortedIn(items, []);
  }

  lemma SortedIn(items: seq<Octets>, item: Octets)
    ensures item in SortByQuote(items) <==> item in items
  {
    SortedItems(items);
    assert item in multiset(SortByQuote(items)) <==> item in multiset(items);
  }

  lemma {:induction false} FieldsClean(m: MagnetLink, keys: seq<Octets>)
    requires forall i :: 0 <= i < |keys| ==> KeyText(keys[i])
    ensures CleanPairs(PairsFrom(m, keys))
    ensures NoEmptyValue(PairsFrom(m, keys))
            <==> forall i :: 0 <= i < |keys| ==> NoEmptyField(Dump(m, keys[i]))
    decreases |keys|
  {
    if keys != [] {
      var first, rest := FieldPairs(keys[0], Dump(m, keys[0])), PairsFrom(m, keys[1..]);
      FieldClean(keys[0], Dump(m, keys[0]));
      FieldsClean(m, keys[1..]);
      NoEmptyAppend(first, rest);
      assert forall i :: 0 < i < |keys| ==> keys[i] == keys[1..][i - 1];
    }
  }

  lemma NoEmptyAppend(a: seq<Pair>, b: seq<Pair>)
    ensures NoEmptyValue(a + b) <==> NoEmptyValue(a) && NoEmptyValue(b)
  {
    if NoEmptyValue(a + b) {
      assert forall i :: 0 <= i < |a| ==> (a + b)[i] == a[i];
      assert forall i :: 0 <= i < |b| ==> (a + b)[|a| + i] == b[i];
    }
  }

  lemma HashPairsClean(m: MagnetLink)
    requires HasInfohash(m)
    ensures CleanPairs(HashPairs(m)) && NoEmptyValue(HashPairs(m)) && HashPairs(m) != []
  {
  }

  lemma PairsClean(m: MagnetLink)
    requires HasInfohash(m)
    ensures CleanPairs(Pairs(m)) && Pairs(m) != []
    ensures NoEmptyValue(Pairs(m))
            <==> forall i :: 0 <= i < |ORDER| ==> NoEmptyField(Dump(m, ORDER[i]))
  {
    HashPairsClean(m);
    FieldsClean(m, ORDER);
    NoEmptyAppend(HashPairs(m), PairsFrom(m, ORDER));
  }

  // ---------------------------------------------------------------- the fields come back

  lemma {:induction false} ContainsInside(a: Octets, word: Octets, b: Octets)
    ensures Contains(a + word + b, word)
  {
    var s := a + word + b;
    if a == [] {
      assert s[..|word|] == word;
    } else {
      assert s[1..] == a[1..] + word + b;
      ContainsInside(a[1..], word, b);
    }
  }

  lemma PrefixRemoved(urn: Octets, hash: Octets)
    requires ':' in urn && ':' !in hash
    ensures Without(urn + hash, urn) == hash
  {
    WithoutAbsent(hash, urn, ':');
    assert (urn + hash)[..|urn|] == urn && (urn + hash)[|urn|..] == hash;
  }

  lemma V1Classified(hash: Octets)
    ensures Contains(BTIH + hash, "btih")
  {
    ContainsInside("urn:", "btih", ":" + hash);
    assert BTIH + hash == "urn:" + "btih" + (":" + hash);
  }

  lemma NoIInUrn(hash: Octets)
    requires 'i' !in hash
    ensures 'i' !in BTMH + hash
  {
  }

  lemma NotV1(s: Octets)
    requires 'i' !in s
    ensures !Contains(s, "btih")
  {
    WithoutAbsent(s, "btih", 'i');
  }

  lemma V2Classified(hash: Octets)
    ensures Contains(BTMH + hash, "btmh")
  {
    ContainsInside("urn:", "btmh", ":1220" + hash);
    assert BTMH + hash == "urn:" + "btmh" + (":1220" + hash);
  }

  function HashValues(m: MagnetLink): seq<Octets> {
    (if m.v1.Some? then [BTIH + m.v1.get] else []) + (if m.v2.Some? then [BTMH + m.v2.get] else [])
  }

  lemma OneUnquoted(key: Octets, value: Octets)
    ensures Unquoted([(key, value)]) == [(key, Unquote(value))]
  {
  }

  lemma HashesPlain(m: MagnetLink)
    requires HasInfohash(m)
    ensures Unquoted(HashPairs(m)) == HashPairs(m)
  {
    var a := if m.v1.Some? then [(XT, BTIH + m.v1.get)] else [];
    var b := if m.v2.Some? then [(XT, BTMH + m.v2.get)] else [];
    UnquotedAppend(a, b);
    if m.v1.Some? {
      UnquotePlain(BTIH + m.v1.get);
      OneUnquoted(XT, BTIH + m.v1.get);
    }
    if m.v2.Some? {
      UnquotePlain(BTMH + m.v2.get);
      OneUnquoted(XT, BTMH + m.v2.get);
    }
  }

  lemma OneValue(value: Octets, key: Octets)
    ensures ValuesOf([(XT, value)], key) == if key == XT then [value] else []
  {
  }

  lemma HashValuesOf(m: MagnetLink, key: Octets)
    ensures ValuesOf(HashPairs(m), key) == if key == XT then HashValues(m) else []
  {
    var a := if m.v1.Some? then [(XT, BTIH + m.v1.get)] else [];
    var b := if m.v2.Some? then [(XT, BTMH + m.v2.get)] else [];
    ValuesAppend(a, b, key);
    if m.v1.Some? {
      OneValue(BTIH + m.v1.get, key);
    }
    if m.v2.Some? {
      OneValue(BTMH + m.v2.get, key);
    }
  }

  lemma HashesReadBack(m: MagnetLink)
    requires HasInfohash(m)
    ensures HashField(LastV1(HashValues(m)), [], BTIH) == Ok(m.v1)
    ensures HashField(LastV2(HashValues(m)), [], BTMH) == Ok(m.v2)
  {
    var xts := HashValues(m);
    if m.v1.Some? {
      V1Classified(m.v1.get);
      PrefixRemoved(BTIH, m.v1.get);
    }
    if m.v2.Some? {
      V2Classified(m.v2.get);
      NoIInUrn(m.v2.get);
      NotV1(BTMH + m.v2.get);
      PrefixRemoved(BTMH, m.v2.get);
    }
    if m.v1.Some? && m.v2.Some? {
      var one := xts[..1];
      assert one == [BTIH + m.v1.get];
      assert |one[..0]| == 0;
    } else {
      assert |xts[..0]| == 0;
    }
  }

  // ---------------------------------------------------------------- looking the fields up

  lemma OrderDistinct()
    ensures DistinctKeys(ORDER) && XT !in ORDER
  {
  }

  lemma LongName(name: Octets)
    requires |name| > 2
    ensures name !in ORDER && name != XT
  {
    assert |TR| == 2 && |DN| == 2 && |SO| == 2 && |WS| == 2 && |XL| == 2 && |XT| == 2;
  }

  lemma LinkValues(m: MagnetLink, key: Octets)
    requires HasInfohash(m)
    ensures ValuesOf(Unquoted(Pairs(m)), key) ==
            (if key == XT then HashValues(m) else [])
            + (if key in ORDER then PlainValues(Dump(m, key)) else [])
  {
    OrderDistinct();
    HashesPlain(m);
    UnquotedAppend(HashPairs(m), PairsFrom(m, ORDER));
    ValuesAppend(Unquoted(HashPairs(m)), Unquoted(PairsFrom(m, ORDER)), key);
    HashValuesOf(m, key);
    KeyValues(m, ORDER, key);
  }

  lemma LinkHashes(m: MagnetLink)
    requires HasInfohash(m)
    ensures var pairs := Unquoted(Pairs(m));
            && ValuesOf(pairs, XT) == HashValues(m)
            && ValuesOf(pairs, V1_INFOHASH) == [] && ValuesOf(pairs, V2_INFOHASH) == []
  {
    OrderDistinct();
    LongName(V1_INFOHASH);
    LongName(V2_INFOHASH);
    LinkValues(m, XT);
    LinkValues(m, V1_INFOHASH);
    LinkValues(m, V2_INFOHASH);
  }

  lemma LinkLookup(m: MagnetLink, alias: Octets, name: Octets)
    requires HasInfohash(m) && alias in ORDER && |name| > 2
    ensures Lookup(Unquoted(Pairs(m)), alias, name) == PlainValues(Dump(m, alias))
  {
    OrderDistinct();
    LongName(name);
    LinkValues(m, alias);
    LinkValues(m, name);
  }

  // ---------------------------------------------------------------- validating the fields

  lemma NoComma(sel: FileSel)
    ensures ',' !in SelText(sel)
    ensures SelText(sel) != []
  {
  }

  lemma SelReadsBack(sel: FileSel)
    ensures ParseSel(SelText(sel)) == Some(sel)
  {
    match sel
    case Index(i) => IntRoundTrip(i);
    case Range(a, b) =>
      var s := SelText(sel);
      assert s[|a|] == '-';
      assert !AllDigits(s);
      SplitAt(a, b, '-');
      SplitOne(b, '-');
  }

  lemma {:induction false} SelsReadBack(sels: seq<FileSel>)
    ensures ParseSels(SelTexts(sels)) == Ok(sels)
  {
    if sels != [] {
      SelReadsBack(sels[0]);
      SelsReadBack(sels[1..]);
      assert SelTexts(sels) == [SelText(sels[0])] + SelTexts(sels[1..]);
      assert SelTexts(sels)[1..] == SelTexts(sels[1..]);
      assert sels == [sels[0]] + sels[1..];
    }
  }

  lemma SelFieldReadsBack(sels: seq<FileSel>)
    requires sels != []
    ensures SelField([Join(SelTexts(sels), ',')]) == Ok(Some(sels))
    ensures Join(SelTexts(sels), ',') != []
  {
    forall i | 0 <= i < |sels|
      ensures ',' !in SelTexts(sels)[i]
    {
      NoComma(sels[i]);
    }
    NoComma(sels[0]);
    SplitJoin(SelTexts(sels), ',');
    SelsReadBack(sels);
  }

  lemma {:induction false} UrlsStable(urls: seq<Octets>, norm: Octets -> Option<Octets>)
    requires [] !in urls
    ensures Urls(urls, norm) == Ok(urls) <==> AllStable(urls, norm)
  {
    if urls != [] {
      var first, rest := urls[0], urls[1..];
      UrlsStable(rest, norm);
      assert urls == [first] + rest;
      assert AllStable(urls, norm) <==> Stable(first, norm) && AllStable(rest, norm) by {
        assert forall i :: 0 <= i < |rest| ==> rest[i] == urls[i + 1];
        assert forall i :: 0 < i < |urls| ==> urls[i] == rest[i - 1];
      }
      if Stable(first, norm) && Urls(rest, norm).Ok? && Urls(urls, norm) == Ok(urls) {
        assert urls[1..] == Urls(rest, norm).value;
      }
      assert first != [];
    }
  }

  lemma StableTransfers(a: seq<Octets>, b: seq<Octets>, norm: Octets -> Option<Octets>)
    requires forall u :: u in b ==> u in a
    ensures AllStable(a, norm) ==> AllStable(b, norm)
  {
    if AllStable(a, norm) {
      forall i | 0 <= i < |b|
        ensures Stable(b[i], norm)
      {
        assert b[i] in a;
      }
    }
  }

  lemma SortStable(urls: seq<Octets>, norm: Octets -> Option<Octets>)
    ensures AllStable(SortByQuote(urls), norm) <==> AllStable(urls, norm)
    ensures SortByQuote(urls) == [] <==> urls == []
  {
    var sorted := SortByQuote(urls);
    forall u: Octets
      ensures u in sorted <==> u in urls
    {
      SortedIn(urls, u);
    }
    StableTransfers(urls, sorted, norm);
    StableTransfers(sorted, urls, norm);
  }

  lemma UrlFieldStable(urls: Option<seq<Octets>>, norm: Octets -> Option<Octets>)
    requires urls.Some? ==> [] !in urls.get
    ensures var values := if urls.Some? then SortByQuote(urls.get) else [];
            UrlField(values, norm) == Ok(SortField(urls)) <==> StableField(urls, norm)
  {
    if urls.Some? {
      SortedIn(urls.get, []);
      UrlsStable(SortByQuote(urls.get), norm);
      SortStable(urls.get, norm);
    }
  }

  // ---------------------------------------------------------------- the round trip, exactly

  lemma LinkFromPairs(m: MagnetLink, norm: Octets -> Option<Octets>)
    requires HasInfohash(m) && NoEmptyValue(Pairs(m))
    ensures FromPairs(Unquoted(Pairs(m)), norm) ==
            Build(Ok(m.v1), Ok(m.v2), Ok(m.fileName), Ok(m.size),
                  UrlField(PlainValues(Dump(m, TR)), norm), UrlField(PlainValues(Dump(m, WS)), norm),
                  Ok(m.selectFiles))
  {
    LinkHashes(m);
    HashesReadBack(m);
    ScalarsReadBack(m);
    assert TR == ORDER[0] && WS == ORDER[3];
    LinkLookup(m, TR, TRACKERS);
    LinkLookup(m, WS, WEB_SEEDS);
    assert HashValues(m) != [];
  }

  /** What parsing makes of a rendered link with no empty value in it. */
  lemma ParsedRendered(m: MagnetLink, norm: Octets -> Option<Octets>)
    requires HasInfohash(m) && NoEmptyValue(Pairs(m))
    ensures Parsed(Rendered(m), norm) == FromPairs(Unquoted(Pairs(m)), norm)
  {
    RenderedMatches(m);
    PairsClean(m);
    QueryOfRendered(Pairs(m));
    QueryReadsBack(Pairs(m));
  }

  lemma PrefixMatches(q: Octets)
    ensures FullMatch(PREFIX + q) <==> MatchFields(['?'] + q)
  {
    assert (PREFIX + q)[..7] == "magnet:" && (PREFIX + q)[7..] == ['?'] + q;
  }

  lemma RenderedMatches(m: MagnetLink)
    requires HasInfohash(m)
    ensures FullMatch(Rendered(m)) <==> NoEmptyValue(Pairs(m))
  {
    PairsClean(m);
    MatchJoined(Pairs(m), '?');
    PrefixMatches(Join(Fragments(Pairs(m)), '&'));
  }

  lemma ScalarsReadBack(m: MagnetLink)
    requires HasInfohash(m) && NoEmptyValue(Pairs(m))
    ensures var pairs := Unquoted(Pairs(m));
            && TextField(Lookup(pairs, DN, FILE_NAME)) == Ok(m.fileName)
            && IntField(Lookup(pairs, XL, SIZE)) == Ok(m.size)
            && SelField(Lookup(pairs, SO, SELECT_FILES)) == Ok(m.selectFiles)
  {
    assert DN == ORDER[1] && SO == ORDER[2] && XL == ORDER[4];
    LinkLookup(m, DN, FILE_NAME);
    LinkLookup(m, XL, SIZE);
    LinkLookup(m, SO, SELECT_FILES);
    Dumped(m);
    if m.size.Some? {
      IntRoundTrip(m.size.get);
    }
    if m.selectFiles.Some? {
      NothingEmpty(m);
      SelFieldReadsBack(m.selectFiles.get);
    }
  }

  /** The dump by key, spelled out. */
  lemma Dumped(m: MagnetLink)
    ensures Dump(m, TR) == if m.trackers.Some? then Some(Many(m.trackers.get)) else None
    ensures Dump(m, DN) == if m.fileName.Some? then Some(Scalar(m.fileName.get)) else None
    ensures Dump(m, SO) == if m.selectFiles.Some?
                           then Some(Scalar(Join(SelTexts(m.selectFiles.get), ','))) else None
    ensures Dump(m, WS) == if m.webSeeds.Some? then Some(Many(m.webSeeds.get)) else None
    ensures Dump(m, XL) == if m.size.Some? then Some(Scalar(IntText(m.size.get))) else None
  {
    assert TR[0] == 't' && DN[0] == 'd' && SO[0] == 's' && WS[0] == 'w' && XL[0] == 'x';
  }

  lemma SelJoinEmpty(sels: seq<FileSel>)
    ensures Join(SelTexts(sels), ',') == [] <==> sels == []
  {
  }

  lemma NothingEmpty(m: MagnetLink)
    requires HasInfohash(m)
    ensures NoEmptyValue(Pairs(m)) <==>
            && (m.fileName.Some? ==> m.fileName.get != [])
            && (m.selectFiles.Some? ==> m.selectFiles.get != [])
            && (m.trackers.Some? ==> [] !in m.trackers.get)
            && (m.webSeeds.Some? ==> [] !in m.webSeeds.get)
  {
    PairsClean(m);
    Dumped(m);
    assert NoEmptyValue(Pairs(m)) <==>
           && NoEmptyField(Dump(m, ORDER[0])) && NoEmptyField(Dump(m, ORDER[1]))
           && NoEmptyField(Dump(m, ORDER[2])) && NoEmptyField(Dump(m, ORDER[3]))
           && NoEmptyField(Dump(m, ORDER[4]));
    if m.selectFiles.Some? {
      SelJoinEmpty(m.selectFiles.get);
    }
  }

  lemma BuildCanonical(
    m: MagnetLink, tr: Result<Option<seq<Octets>>>, ws: Result<Option<seq<Octets>>>)
    requires HasInfohash(m)
    ensures Build(Ok(m.v1), Ok(m.v2), Ok(m.fileName), Ok(m.size), tr, ws, Ok(m.selectFiles))
            == Ok(Canonical(m))
            <==> tr == Ok(SortField(m.trackers)) && ws == Ok(SortField(m.webSeeds))
  {
  }

  lemma RoundTripPresent(m: MagnetLink, norm: Octets -> Option<Octets>)
    requires HasInfohash(m) && NoEmptyValue(Pairs(m))
    ensures Parsed(Rendered(m), norm) == Ok(Canonical(m))
            <==> StableField(m.trackers, norm) && StableField(m.webSeeds, norm)
  {
    NothingEmpty(m);
    ParsedRendered(m, norm);
    LinkFromPairs(m, norm);
    Dumped(m);
    UrlFieldStable(m.trackers, norm);
    UrlFieldStable(m.webSeeds, norm);
    BuildCanonical(
      m, UrlField(PlainValues(Dump(m, TR)), norm), UrlField(PlainValues(Dump(m, WS)), norm));
  }

  lemma StableNonempty(urls: Option<seq<Octets>>, norm: Octets -> Option<Octets>)
    ensures StableField(urls, norm) && urls.Some? ==> [] !in urls.get
  {
  }

  /** `parse(render(m))` is `m` with its lists in written order for exactly the faithful links. */
  lemma RoundTripExactly(m: MagnetLink, norm: Octets -> Option<Octets>)
    requires HasInfohash(m)
    ensures Parsed(Rendered(m), norm) == Ok(Canonical(m)) <==> Faithful(m, norm)
  {
    NothingEmpty(m);
    RenderedMatches(m);
    if NoEmptyValue(Pairs(m)) {
      RoundTripPresent(m, norm);
    }
    StableNonempty(m.trackers, norm);
    StableNonempty(m.webSeeds, norm);
  }

  /** One that is not: an empty file name. */
  lemma EmptyNameLost(norm: Octets -> Option<Octets>)
    ensures var m := MagnetLink(Some("c12fe1"), None, Some([]), None, None, None, None);
            HasInfohash(m) && Parsed(Rendered(m), norm) != Ok(m)
  {
    var m := MagnetLink(Some("c12fe1"), None, Some([]), None, None, None, None);
    assert Canonical(m) == m;
    RoundTripExactly(m, norm);
  }

  /** Rendering what was parsed back changes nothing any more. */
  lemma RenderedAgain(m: MagnetLink, norm: Octets -> Option<Octets>)
    requires HasInfohash(m) && Faithful(m, norm)
    ensures match Parsed(Rendered(m), norm)
            case Ok(back) => Rendered(back) == Rendered(m)
            case Err(_) => false
  {
    RoundTripExactly(m, norm);
    RenderCanonical(m);
  }
}
