/** Percent quoting of UTF-8 text, as `quote_plus` and `parse_qs` do it. */
module Quoting {
  import opened Wrappers
  import opened Text

  predicate Unreserved(c: char) {
    || 'a' <= c <= 'z' || 'A' <= c <= 'Z' || '0' <= c <= '9'
    || c == '_' || c == '.' || c == '-' || c == '~'
  }

  function HexDigit(n: nat): char
    requires n < 16
  {
    if n < 10 then ('0' as int + n) as char else ('A' as int + n - 10) as char
  }

  function HexValue(c: char): Option<nat> {
    if '0' <= c <= '9' then Some(c as int - '0' as int)
    else if 'A' <= c <= 'F' then Some(c as int - 'A' as int + 10)
    else if 'a' <= c <= 'f' then Some(c as int - 'a' as int + 10)
    else None
  }

  function QuoteOctet(c: Octet): Octets {
    if Unreserved(c) then [c]
    else if c == ' ' then "+"
    else ['%', HexDigit(c as int / 16), HexDigit(c as int % 16)]
  }

  /** `quote_plus(s)` */
  function Quote(s: Octets): Octets {
    if s == [] then "" else QuoteOctet(s[0]) + Quote(s[1..])
  }

  /** `s.replace("+", " ")` */
  function PlusToSpace(s: Octets): Octets {
    if s == "" then "" else [if s[0] == '+' then ' ' else s[0]] + PlusToSpace(s[1..])
  }

  /** `unquote(s)`: a percent sign without two hex digits after it stays. */
  function Unpercent(s: Octets): Octets {
    if s == "" then ""
    else if |s| >= 3 && s[0] == '%' && HexValue(s[1]).Some? && HexValue(s[2]).Some? then
      [(16 * HexValue(s[1]).get + HexValue(s[2]).get) as char] + Unpercent(s[3..])
    else [s[0]] + Unpercent(s[1..])
  }

  function Unquote(s: Octets): Octets {
    Unpercent(PlusToSpace(s))
  }

  lemma HexRoundTrip(c: Octet)
    ensures HexValue(HexDigit(c as int / 16)) == Some(c as int / 16)
    ensures HexValue(HexDigit(c as int % 16)) == Some(c as int % 16)
    ensures HexDigit(c as int / 16) != '+' && HexDigit(c as int % 16) != '+'
  {
  }

  const DIGITS := "0123456789ABCDEF"
  const SMALL := "0123456789abcdef"

  /** Letters, digits and these four signs stay, a space becomes a plus, and everything else a percent
      sign with two capital hex digits. */
  lemma QuoteExactly(c: Octet)
    ensures Quote([c]) ==
            if 'a' <= c <= 'z' || 'A' <= c <= 'Z' || '0' <= c <= '9' || c in "_.-~" then [c]
            else if c == ' ' then ['+']
            else ['%', DIGITS[c as int / 16], DIGITS[c as int % 16]]
  {
    assert Quote([c]) == QuoteOctet(c) + Quote([]) == QuoteOctet(c);
    DigitExactly(c as int / 16);
    DigitExactly(c as int % 16);
  }

  lemma DigitExactly(n: nat)
    requires n < 16
    ensures HexDigit(n) == DIGITS[n]
  {
  }

  /** Hex digits are read in capitals and in small letters. */
  lemma HexExactly(c: char, n: nat)
    ensures HexValue(c) == Some(n) <==> n < 16 && (c == DIGITS[n] || c == SMALL[n])
  {
  }

  lemma PlusAppend(a: Octets, b: Octets)
    ensures PlusToSpace(a + b) == PlusToSpace(a) + PlusToSpace(b)
  {
    if a == "" {
      assert a + b == b;
    } else {
      assert (a + b)[1..] == a[1..] + b;
    }
  }

  lemma UnpercentOctet(c: Octet, rest: Octets)
    ensures Unpercent(PlusToSpace(QuoteOctet(c)) + rest) == [c] + Unpercent(rest)
  {
    var s := PlusToSpace(QuoteOctet(c)) + rest;
    if Unreserved(c) || c == ' ' {
      PlusOne(QuoteOctet(c)[0]);
      assert QuoteOctet(c) == [QuoteOctet(c)[0]];
      assert s == [c] + rest;
      assert s[1..] == rest;
    } else {
      HexRoundTrip(c);
      var h, l := HexDigit(c as int / 16), HexDigit(c as int % 16);
      PlusAppend(['%'], [h, l]);
      PlusAppend([h], [l]);
      assert QuoteOctet(c) == ['%'] + ([h] + [l]);
      PlusOne('%');
      PlusOne(h);
      PlusOne(l);
      assert s == ['%', h, l] + rest;
      assert s[3..] == rest;
    }
  }

  lemma PlusOne(c: Octet)
    ensures PlusToSpace([c]) == [if c == '+' then ' ' else c]
  {
    assert [c][1..] == "";
  }

  /** Unquoting undoes quoting on every text. */
  lemma {:induction false} UnquoteQuote(s: Octets)
    ensures Unquote(Quote(s)) == s
  {
    if s != [] {
      UnquoteQuote(s[1..]);
      PlusAppend(QuoteOctet(s[0]), Quote(s[1..]));
      UnpercentOctet(s[0], PlusToSpace(Quote(s[1..])));
    }
  }

  /** What a quoted value is made of: nothing that separates fields, keys or fragments. */
  predicate QuotedChar(c: char) {
    Unreserved(c) || c == '%' || c == '+'
  }

  lemma {:induction false} QuoteChars(s: Octets, i: nat)
    requires i < |Quote(s)|
    ensures QuotedChar(Quote(s)[i])
  {
    var first := QuoteOctet(s[0]);
    if i < |first| {
      HexUnreserved(s[0] as int / 16);
      HexUnreserved(s[0] as int % 16);
    } else {
      QuoteChars(s[1..], i - |first|);
    }
  }

  lemma HexUnreserved(n: nat)
    requires n < 16
    ensures Unreserved(HexDigit(n))
  {
  }

  lemma QuoteEmpty(s: Octets)
    ensures Quote(s) == "" <==> s == []
  {
  }

  /** Text with neither a plus nor a percent sign reads as itself. */
  lemma {:induction false} UnquotePlain(s: Octets)
    requires '+' !in s && '%' !in s
    ensures Unquote(s) == s
  {
    if s != "" {
      UnquotePlain(s[1..]);
      assert PlusToSpace(s) == [s[0]] + PlusToSpace(s[1..]);
      assert PlusToSpace(s)[1..] == PlusToSpace(s[1..]);
    }
  }
}
