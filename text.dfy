/**
 * Text helpers shared by both decoders: bounded decoding of fixed-width C
 * character windows, decimal rendering of integers (what `std::to_string`,
 * `operator<<` and Python's `str` print), splitting and joining on a
 * separator, and the dotted-quad form of an IPv4 address.
 */
module Text {
  import opened Wrappers
  import opened Bytes

  // ---------------------------------------------------------------------
  // Fixed-width C text
  // ---------------------------------------------------------------------

  /**
   * The text held in a fixed-width `char` window: the bytes before the first
   * zero byte, or the whole window when it holds no zero byte. The scan never
   * goes past the window.
   */
  function DecodeFixedText(window: seq<uint8>): (text: seq<uint8>)
    ensures text <= window
    ensures forall i :: 0 <= i < |text| ==> text[i] != 0
    ensures |text| < |window| ==> window[|text|] == 0
  {
    if |window| == 0 || window[0] == 0 then []
    else [window[0]] + DecodeFixedText(window[1..])
  }

  /** The three properties of DecodeFixedText determine its result. */
  lemma FixedTextUnique(window: seq<uint8>, t: seq<uint8>)
    requires t <= window
    requires forall i :: 0 <= i < |t| ==> t[i] != 0
    requires |t| < |window| ==> window[|t|] == 0
    ensures t == DecodeFixedText(window)
  {
  }

  /** A window without a zero byte decodes to all of its bytes. */
  lemma FixedTextFull(window: seq<uint8>)
    requires forall i :: 0 <= i < |window| ==> window[i] != 0
    ensures DecodeFixedText(window) == window
  {
  }

  /** A zero byte at offset k, the first one, gives exactly k bytes of text. */
  lemma FixedTextStopsAtZero(window: seq<uint8>, k: nat)
    requires k < |window| && window[k] == 0
    requires forall i :: 0 <= i < k ==> window[i] != 0
    ensures DecodeFixedText(window) == window[..k]
  {
    FixedTextUnique(window, window[..k]);
  }

  /** Reading on past a zero-free prefix: the text runs into what follows. */
  lemma FixedTextAppend(a: seq<uint8>, b: seq<uint8>)
    requires forall i :: 0 <= i < |a| ==> a[i] != 0
    ensures DecodeFixedText(a + b) == a + DecodeFixedText(b)
  {
    var tb := DecodeFixedText(b);
    var t := a + tb;
    forall i | 0 <= i < |t| ensures t[i] != 0 {
      if i >= |a| {
        assert t[i] == tb[i - |a|];
      }
    }
    assert |t| < |a + b| ==> (a + b)[|t|] == b[|tb|];
    FixedTextUnique(a + b, t);
  }

  /** Raw 8-bit text as characters, one character per byte. */
  function Chars(bytes: seq<uint8>): (s: string)
    ensures |s| == |bytes|
    ensures forall i :: 0 <= i < |s| ==> s[i] as int == bytes[i]
  {
    seq(|bytes|, i requires 0 <= i < |bytes| => bytes[i] as char)
  }

  // ---------------------------------------------------------------------
  // Decimal numbers
  // ---------------------------------------------------------------------

  predicate IsDigit(c: char) { '0' <= c <= '9' }

  predicate AllDigits(s: string) { forall i :: 0 <= i < |s| ==> IsDigit(s[i]) }

  function DigitChar(d: int): (c: char)
    requires 0 <= d < 10
    ensures IsDigit(c) && c as int - '0' as int == d
  {
    ('0' as int + d) as char
  }

  /** Decimal rendering of a natural number, most significant digit first. */
  function NatToDecimal(n: nat): (s: string)
    ensures |s| >= 1 && AllDigits(s)
    ensures s[0] == '0' ==> n == 0 && |s| == 1
    decreases n
  {
    if n < 10 then [DigitChar(n)] else NatToDecimal(n / 10) + [DigitChar(n % 10)]
  }

  /** The value of a string of decimal digits. */
  function DecimalValue(s: string): nat
    requires AllDigits(s)
  {
    if |s| == 0 then 0
    else 10 * DecimalValue(s[..|s| - 1]) + (s[|s| - 1] as int - '0' as int)
  }

  /** Reading the printed digits back gives the number. */
  lemma {:induction false} NatToDecimalRoundTrip(n: nat)
    ensures DecimalValue(NatToDecimal(n)) == n
    decreases n
  {
    var s := NatToDecimal(n);
    if n >= 10 {
      NatToDecimalRoundTrip(n / 10);
      assert s[..|s| - 1] == NatToDecimal(n / 10);
    }
  }

  /** A digit string with no leading zero has a positive value. */
  lemma {:induction false} LeadingDigitPositive(s: string)
    requires |s| >= 1 && AllDigits(s) && s[0] != '0'
    ensures DecimalValue(s) >= 1
    decreases |s|
  {
    if |s| > 1 {
      LeadingDigitPositive(s[..|s| - 1]);
    }
  }

  /**
   * The other half of the round trip: a digit string without a leading
   * zero is exactly the rendering of its value.
   */
  lemma {:induction false} DecimalRoundTrip(s: string)
    requires |s| >= 1 && AllDigits(s) && (s[0] == '0' ==> |s| == 1)
    ensures NatToDecimal(DecimalValue(s)) == s
    decreases |s|
  {
    var p := s[..|s| - 1];
    var d := s[|s| - 1] as int - '0' as int;
    if |s| > 1 {
      LeadingDigitPositive(p);
      DecimalRoundTrip(p);
      var v := DecimalValue(p);
      assert (10 * v + d) / 10 == v && (10 * v + d) % 10 == d;
      assert s == p + [s[|s| - 1]];
    }
  }

  /** `1234` is printed as the four characters `1234`. */
  lemma DecimalExample()
    ensures NatToDecimal(1234) == "1234"
  {
    DecimalRoundTrip("1234");
  }

  /** Decimal rendering of a signed number: a minus sign, then the magnitude. */
  function IntToDecimal(i: int): (s: string)
    ensures |s| >= 1 && (s[0] == '-' <==> i < 0)
    ensures i >= 0 ==> s == NatToDecimal(i)
    ensures forall k :: 0 < k < |s| ==> IsDigit(s[k])
  {
    if i < 0 then "-" + NatToDecimal(-i) else NatToDecimal(i)
  }

  /** The value of an optional minus sign followed by decimal digits. */
  function SignedValue(s: string): Option<int>
  {
    if |s| > 0 && s[0] == '-' then
      if AllDigits(s[1..]) then var v: int := DecimalValue(s[1..]); Some(-v) else None
    else if AllDigits(s) then Some(DecimalValue(s))
    else None
  }

  lemma IntToDecimalRoundTrip(i: int)
    ensures SignedValue(IntToDecimal(i)) == Some(i)
  {
    if i < 0 {
      var m := NatToDecimal(-i);
      assert IntToDecimal(i) == "-" + m;
      NatToDecimalRoundTrip(-i);
      SignedValueMinus(m, -i);
    } else {
      var m := NatToDecimal(i);
      assert IntToDecimal(i) == m;
      NatToDecimalRoundTrip(i);
      SignedValueDigits(m, i);
    }
  }

  lemma SignedValueDigits(s: string, n: nat)
    requires |s| >= 1 && AllDigits(s) && DecimalValue(s) == n
    ensures SignedValue(s) == Some(n)
  {
    assert IsDigit(s[0]);
  }

  lemma SignedValueMinus(m: string, n: nat)
    requires AllDigits(m) && DecimalValue(m) == n
    ensures SignedValue("-" + m) == Some(-(n as int))
  {
    assert ("-" + m)[1..] == m;
  }

  /** Digits, signs and dots leave no room for a comma. */
  lemma NumericHasNoComma(s: string)
    requires forall k :: 0 <= k < |s| ==> IsDigit(s[k]) || s[k] == '-' || s[k] == '.'
    ensures ',' !in s
  {
    forall k | 0 <= k < |s| ensures s[k] != ',' {
    }
  }

  // ---------------------------------------------------------------------
  // Separated fields
  // ---------------------------------------------------------------------

  /** The fields joined with a separator between neighbours. */
  function Join(parts: seq<string>, sep: char): (s: string)
    requires |parts| >= 1
    ensures |parts| == 1 ==> s == parts[0]
  {
    if |parts| == 1 then parts[0] else parts[0] + [sep] + Join(parts[1..], sep)
  }

  /** The fields of a string between separators (always at least one). */
  function Split(s: string, sep: char): (parts: seq<string>)
    ensures |parts| >= 1
    decreases |s|
  {
    if |s| == 0 then [[]]
    else
      var rest := Split(s[1..], sep);
      if s[0] == sep then [[]] + rest else [[s[0]] + rest[0]] + rest[1..]
  }

  lemma {:induction false} SplitNoSep(p: string, sep: char)
    requires sep !in p
    ensures Split(p, sep) == [p]
    decreases |p|
  {
    if |p| > 0 {
      SplitNoSep(p[1..], sep);
      assert [p[0]] + p[1..] == p;
    }
  }

  lemma {:induction false} SplitCons(p: string, sep: char, rest: string)
    requires sep !in p
    ensures Split(p + [sep] + rest, sep) == [p] + Split(rest, sep)
    decreases |p|
  {
    var s := p + [sep] + rest;
    if |p| == 0 {
      assert s[1..] == rest;
    } else {
      assert s[1..] == p[1..] + [sep] + rest;
      SplitCons(p[1..], sep, rest);
      assert [p[0]] + p[1..] == p;
    }
  }

  /** Splitting undoes joining when no field holds the separator. */
  lemma {:induction false} SplitJoin(parts: seq<string>, sep: char)
    requires |parts| >= 1
    requires forall k :: 0 <= k < |parts| ==> sep !in parts[k]
    ensures Split(Join(parts, sep), sep) == parts
    decreases |parts|
  {
    if |parts| == 1 {
      SplitNoSep(parts[0], sep);
    } else {
      SplitJoin(parts[1..], sep);
      SplitCons(parts[0], sep, Join(parts[1..], sep));
      assert [parts[0]] + parts[1..] == parts;
    }
  }

  /** Digits joined by a separator hold only digits and the separator. */
  lemma {:induction false} JoinDigits(parts: seq<string>, sep: char)
    requires |parts| >= 1
    requires forall k :: 0 <= k < |parts| ==> AllDigits(parts[k])
    ensures forall i :: 0 <= i < |Join(parts, sep)| ==> IsDigit(Join(parts, sep)[i]) || Join(parts, sep)[i] == sep
    decreases |parts|
  {
    if |parts| > 1 {
      JoinDigits(parts[1..], sep);
      var s := Join(parts, sep);
      var t := Join(parts[1..], sep);
      assert s == parts[0] + [sep] + t;
      forall i | 0 <= i < |s| ensures IsDigit(s[i]) || s[i] == sep {
        if i > |parts[0]| {
          assert s[i] == t[i - |parts[0]| - 1];
        }
      }
    }
  }

  // ---------------------------------------------------------------------
  // Dotted quads
  // ---------------------------------------------------------------------

  /** Four octets as decimals joined by dots, in the given order. */
  function DottedQuad(o: seq<uint8>): (s: string)
    requires |o| == 4
  {
    Join([NatToDecimal(o[0]), NatToDecimal(o[1]), NatToDecimal(o[2]), NatToDecimal(o[3])], '.')
  }

  /** A dotted quad splits at its dots into the four decimals, and holds nothing but digits and dots. */
  lemma DottedQuadParts(o: seq<uint8>)
    requires |o| == 4
    ensures var s := DottedQuad(o);
      |Split(s, '.')| == 4 &&
      (forall k :: 0 <= k < 4 ==> Split(s, '.')[k] == NatToDecimal(o[k])) &&
      (forall i :: 0 <= i < |s| ==> IsDigit(s[i]) || s[i] == '.')
  {
    var parts := [NatToDecimal(o[0]), NatToDecimal(o[1]), NatToDecimal(o[2]), NatToDecimal(o[3])];
    forall k | 0 <= k < 4 ensures '.' !in parts[k] {
      assert AllDigits(parts[k]);
    }
    SplitJoin(parts, '.');
    JoinDigits(parts, '.');
  }

  /** The octets 127, 0, 0, 1 print as `127.0.0.1`. */
  lemma DottedQuadLoopback()
    ensures DottedQuad([127, 0, 0, 1]) == "127.0.0.1"
  {
    DecimalRoundTrip("127");
    assert NatToDecimal(0) == "0" && NatToDecimal(1) == "1";
    assert Join(["0", "1"], '.') == "0.1";
    assert Join(["0", "0", "1"], '.') == "0.0.1";
  }

  /** The octets of a dotted quad: four non-empty decimals, each at most 255. */
  function ParseDottedQuad(s: string): (r: Option<seq<uint8>>)
    ensures r.Some? ==> |r.value| == 4
  {
    var parts := Split(s, '.');
    if |parts| == 4 && forall k :: 0 <= k < 4 ==> |parts[k]| >= 1 && AllDigits(parts[k]) && DecimalValue(parts[k]) < 0x100
    then Some([DecimalValue(parts[0]), DecimalValue(parts[1]), DecimalValue(parts[2]), DecimalValue(parts[3])])
    else None
  }

  /** Parsing a printed dotted quad gives back its four octets. */
  lemma DottedQuadRoundTrip(o: seq<uint8>)
    requires |o| == 4
    ensures ParseDottedQuad(DottedQuad(o)) == Some(o)
  {
    DottedQuadParts(o);
    var parts := Split(DottedQuad(o), '.');
    forall k | 0 <= k < 4
      ensures |parts[k]| >= 1 && AllDigits(parts[k]) && DecimalValue(parts[k]) == o[k]
    {
      NatToDecimalRoundTrip(o[k]);
    }
    assert [o[0], o[1], o[2], o[3]] == o;
  }
}
