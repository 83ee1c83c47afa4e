/** Splitting, joining, ordering and decimal spelling of strings. */
module Text {
  import opened Wrappers

  /** One byte of UTF-8; a text is kept as its bytes. */
  type Octet = c: char | c as int < 256 witness 'a'
  type Octets = seq<Octet>

  predicate IsOctets(s: string) {
    forall i :: 0 <= i < |s| ==> s[i] as int < 256
  }

  // ---------------------------------------------------------------- split and join

  /** `sep.join(parts)` */
  function Join(parts: seq<string>, sep: char): (r: string)
    ensures IsOctets([sep]) && (forall i :: 0 <= i < |parts| ==> IsOctets(parts[i])) ==> IsOctets(r)
  {
    if parts == [] then ""
    else if |parts| == 1 then parts[0]
    else parts[0] + [sep] + Join(parts[1..], sep)
  }

  /** `s.split(sep)` */
  function Split(s: string, sep: char): (parts: seq<string>)
    ensures |parts| > 0
    ensures IsOctets(s) ==> forall i :: 0 <= i < |parts| ==> IsOctets(parts[i])
  {
    if s == "" then [""]
    else if s[0] == sep then [""] + Split(s[1..], sep)
    else
      var rest := Split(s[1..], sep);
      [[s[0]] + rest[0]] + rest[1..]
  }

  lemma {:induction false} SplitAt(a: string, b: string, sep: char)
    requires sep !in a
    ensures Split(a + [sep] + b, sep) == [a] + Split(b, sep)
  {
    var joined := a + [sep] + b;
    if a == "" {
      assert joined[1..] == b;
    } else {
      assert joined[1..] == a[1..] + [sep] + b;
      assert forall c :: c in a[1..] ==> c in a;
      SplitAt(a[1..], b, sep);
      assert a == [a[0]] + a[1..];
    }
  }

  lemma {:induction false} SplitOne(a: string, sep: char)
    requires sep !in a
    ensures Split(a, sep) == [a]
  {
    if a != "" {
      assert forall c :: c in a[1..] ==> c in a;
      SplitOne(a[1..], sep);
      assert a == [a[0]] + a[1..];
    }
  }

  /** Splitting undoes joining when no part holds the separator. */
  lemma {:induction false} SplitJoin(parts: seq<string>, sep: char)
    requires parts != [] && forall i :: 0 <= i < |parts| ==> sep !in parts[i]
    ensures Split(Join(parts, sep), sep) == parts
  {
    SplitOne(parts[0], sep);
    if |parts| > 1 {
      SplitJoin(parts[1..], sep);
      SplitAt(parts[0], Join(parts[1..], sep), sep);
    }
  }

  // ---------------------------------------------------------------- code point order

  predicate Leq(a: string, b: string) {
    if a == "" then true
    else if b == "" then false
    else a[0] < b[0] || (a[0] == b[0] && Leq(a[1..], b[1..]))
  }

  lemma LeqTotal(a: string, b: string)
    ensures Leq(a, b) || Leq(b, a)
    ensures Leq(a, b) && Leq(b, a) ==> a == b
  {
  }

  lemma LeqTransitive(a: string, b: string, c: string)
    requires Leq(a, b) && Leq(b, c)
    ensures Leq(a, c)
  {
  }

  // ---------------------------------------------------------------- decimal integers

  /** A nonempty run of decimal digits. */
  type DigitText = s: string | |s| > 0 && AllDigits(s) witness "0"

  function Digits(n: nat): DigitText
  {
    var last := [('0' as int + n % 10) as char];
    if n < 10 then last else Digits(n / 10) + last
  }

  predicate IsDigit(c: char) {
    '0' <= c <= '9'
  }

  predicate AllDigits(s: string) {
    forall i :: 0 <= i < |s| ==> IsDigit(s[i])
  }

  /** `str(n)` */
  function IntText(n: int): Octets {
    if n < 0 then "-" + Digits(-n) else Digits(n)
  }

  function DigitsValue(s: string): nat
    requires AllDigits(s)
  {
    if s == "" then 0
    else 10 * DigitsValue(s[..|s| - 1]) + (s[|s| - 1] as int - '0' as int)
  }

  /** Decimal digits with an optional minus sign. */
  function ParseInt(s: string): Option<int>
  {
    if |s| > 0 && AllDigits(s) then Some(DigitsValue(s))
    else if |s| > 1 && s[0] == '-' && AllDigits(s[1..]) then Some(-(DigitsValue(s[1..]) as int))
    else None
  }

  lemma {:induction false} DigitsRoundTrip(n: nat)
    ensures DigitsValue(Digits(n)) == n
  {
    var s := Digits(n);
    if n >= 10 {
      DigitsRoundTrip(n / 10);
      assert s[..|s| - 1] == Digits(n / 10);
    } else {
      assert s[..0] == "";
    }
  }

  lemma IntRoundTrip(n: int)
    ensures ParseInt(IntText(n)) == Some(n)
  {
    if n < 0 {
      DigitsRoundTrip(-n);
      assert ("-" + Digits(-n))[1..] == Digits(-n);
    } else {
      DigitsRoundTrip(n);
    }
  }

  /** Integers are read from digits, one at least, after a minus sign or none. */
  lemma ParseIntExactly(s: string, digits: DigitText)
    ensures s == digits ==> ParseInt(s) == Some(DigitsValue(digits) as int)
    ensures s == "-" + digits ==> ParseInt(s) == Some(-(DigitsValue(digits) as int))
    ensures ParseInt(s).Some? ==>
              if s != "" && s[0] == '-' then |s| > 1 && AllDigits(s[1..]) else s != "" && AllDigits(s)
  {
    if s == "-" + digits {
      assert s[0] == '-' && s[1..] == digits;
      assert !IsDigit(s[0]);
    }
  }

  /** Integers are written with a minus sign only when they are negative, and without leading zeros. */
  lemma {:induction false} DigitsPlain(n: nat)
    ensures Digits(n)[0] == '0' ==> n == 0
    ensures |Digits(n)| == 1 <==> n < 10
    decreases n
  {
    if n >= 10 {
      DigitsPlain(n / 10);
      assert Digits(n) == Digits(n / 10) + [('0' as int + n % 10) as char];
    }
  }

  lemma IntTextExactly(n: int)
    ensures n >= 0 ==> AllDigits(IntText(n)) && IntText(n) != "" && (IntText(n)[0] == '0' ==> n == 0)
    ensures n < 0 ==> |IntText(n)| > 1 && IntText(n)[0] == '-' && AllDigits(IntText(n)[1..]) && IntText(n)[1] != '0'
  {
    DigitsPlain(if n < 0 then -n else n);
    if n < 0 {
      assert ("-" + Digits(-n))[1..] == Digits(-n);
    }
  }

  // ---------------------------------------------------------------- substrings

  predicate StartsWith(s: string, word: string) {
    |word| <= |s| && s[..|word|] == word
  }

  /** `word in s` */
  predicate Contains(s: string, word: string) {
    StartsWith(s, word) || (s != "" && Contains(s[1..], word))
  }

  /** `s.replace(word, "")` */
  function Without(s: Octets, word: string): Octets
    requires word != ""
  {
    if s == "" then ""
    else if StartsWith(s, word) then Without(s[|word|..], word)
    else [s[0]] + Without(s[1..], word)
  }

  /** Removing a word that cannot start inside `s` leaves `s` alone. */
  lemma {:induction false} WithoutAbsent(s: Octets, word: string, mark: char)
    requires mark in word && mark !in s
    ensures Without(s, word) == s
    ensures !Contains(s, word)
  {
    if s != "" {
      assert |word| <= |s| && s[..|word|] == word ==> mark in s;
      WithoutAbsent(s[1..], word, mark);
    }
  }
}
