/**
 * The Go standard-library text functions the ingestion pipeline relies on, each as a total
 * function over Dafny strings: strings.TrimSpace, strings.ToLower and strings.HasSuffix,
 * strconv.Atoi and strconv.Itoa, strconv.ParseFloat and strconv.FormatFloat (plain decimal
 * notation, exact values) and time.Parse / Time.Format with the layout "2006-01-02".
 * Each parser is partial and answers with an Option; each formatter is proved to be read
 * back by its parser.
 */
module GoText {
  import opened Results
  import opened Models

  // ---------------------------------------------------------------------------
  // strings.TrimSpace
  // ---------------------------------------------------------------------------

  /** unicode.IsSpace: the Latin-1 spaces and the other Unicode White_Space characters. */
  predicate IsSpace(c: char) {
    || c == ' ' || c == '\t' || c == '\n' || c == '\U{000B}' || c == '\U{000C}' || c == '\r'
    || c == '\U{0085}' || c == '\U{00A0}' || c == '\U{1680}'
    || ('\U{2000}' <= c <= '\U{200A}')
    || c == '\U{2028}' || c == '\U{2029}' || c == '\U{202F}' || c == '\U{205F}' || c == '\U{3000}'
  }

  /** s without its leading white space. */
  function TrimLeft(s: string): (r: string)
    ensures |r| <= |s| && r == s[|s| - |r|..]
    ensures r != [] ==> !IsSpace(r[0])
    ensures forall i :: 0 <= i < |s| - |r| ==> IsSpace(s[i])
  {
    if s != [] && IsSpace(s[0]) then TrimLeft(s[1..]) else s
  }

  /** s without its trailing white space. */
  function TrimRight(s: string): (r: string)
    ensures |r| <= |s| && r == s[..|r|]
    ensures r != [] ==> !IsSpace(r[|r| - 1])
    ensures forall i :: |r| <= i < |s| ==> IsSpace(s[i])
  {
    if s != [] && IsSpace(s[|s| - 1]) then TrimRight(s[..|s| - 1]) else s
  }

  /** r is s[i..j], with white space only before i and from j on. */
  predicate TrimmedSlice(r: string, s: string, i: int, j: int) {
    && 0 <= i <= j <= |s| && r == s[i..j]
    && (forall k :: 0 <= k < i ==> IsSpace(s[k]))
    && (forall k :: j <= k < |s| ==> IsSpace(s[k]))
  }

  /**
   * strings.TrimSpace: the result is the middle of s with neither end a space,
   * and it is empty exactly when s consists of white space only.
   */
  function TrimSpace(s: string): (r: string)
    ensures |r| <= |s|
    ensures exists i, j :: TrimmedSlice(r, s, i, j)
    ensures r != [] ==> !IsSpace(r[0]) && !IsSpace(r[|r| - 1])
    ensures r == [] <==> forall i :: 0 <= i < |s| ==> IsSpace(s[i])
  {
    var t := TrimLeft(s);
    var r := TrimRight(t);
    assert t != [] ==> !IsSpace(t[0]);
    assert r == [] ==> t == [];
    TrimmedTwice(s, t, r);
    r
  }

  /**
   * Cutting white space off the left end of s, giving t, then off the right end of t, giving
   * r, keeps a slice of s.
   */
  lemma TrimmedTwice(s: string, t: string, r: string)
    requires |t| <= |s| && t == s[|s| - |t|..] && forall k :: 0 <= k < |s| - |t| ==> IsSpace(s[k])
    requires |r| <= |t| && r == t[..|r|] && forall k :: |r| <= k < |t| ==> IsSpace(t[k])
    ensures TrimmedSlice(r, s, |s| - |t|, |s| - |t| + |r|)
  {
    var i := |s| - |t|;
    assert r == s[i..i + |r|];
    forall k | i + |r| <= k < |s| ensures IsSpace(s[k]) {
      assert s[k] == t[k - i];
    }
  }

  /** A string that neither starts nor ends with white space is its own trimmed form. */
  lemma TrimSpaceOfTrimmed(s: string)
    requires s != [] ==> !IsSpace(s[0]) && !IsSpace(s[|s| - 1])
    ensures TrimSpace(s) == s
  {
  }

  /** Trimming twice is trimming once. */
  lemma TrimSpaceIdempotent(s: string)
    ensures TrimSpace(TrimSpace(s)) == TrimSpace(s)
  {
    TrimSpaceOfTrimmed(TrimSpace(s));
  }

  // ---------------------------------------------------------------------------
  // strings.ToLower and strings.HasSuffix
  // ---------------------------------------------------------------------------

  /**
   * Lower-casing of one character. Only ASCII letters are mapped; no other character
   * lower-cases to one of '.', 'c', 's' or 'v', so the ".csv" test is unaffected.
   */
  function ToLowerChar(c: char): char {
    if 'A' <= c <= 'Z' then (c as int + 32) as char else c
  }

  /** strings.ToLower, character by character. */
  function ToLower(s: string): (r: string)
    ensures |r| == |s|
    ensures forall i :: 0 <= i < |s| ==> r[i] == ToLowerChar(s[i])
  {
    if s == [] then [] else [ToLowerChar(s[0])] + ToLower(s[1..])
  }

  /** strings.HasSuffix */
  predicate HasSuffix(s: string, suffix: string) {
    |suffix| <= |s| && s[|s| - |suffix|..] == suffix
  }

  // ---------------------------------------------------------------------------
  // Decimal digits
  // ---------------------------------------------------------------------------

  predicate IsDigit(c: char) {
    '0' <= c <= '9'
  }

  predicate AllDigits(s: string) {
    forall i :: 0 <= i < |s| ==> IsDigit(s[i])
  }

  function DigitValue(c: char): (d: nat)
    requires IsDigit(c)
    ensures d < 10
  {
    c as int - '0' as int
  }

  function DigitChar(d: nat): (c: char)
    requires d < 10
    ensures IsDigit(c) && DigitValue(c) == d
  {
    ('0' as int + d) as char
  }

  function Pow10(k: nat): (p: nat)
    ensures p >= 1
  {
    if k == 0 then 1 else 10 * Pow10(k - 1)
  }

  /** The value of a string of decimal digits, most significant digit first. */
  function DecimalValue(s: string): (n: nat)
    requires AllDigits(s)
    ensures n < Pow10(|s|)
  {
    if s == [] then 0 else DecimalValue(s[..|s| - 1]) * 10 + DigitValue(s[|s| - 1])
  }

  lemma DecimalValueAppend(s: string, c: char)
    requires AllDigits(s) && IsDigit(c)
    ensures AllDigits(s + [c])
    ensures DecimalValue(s + [c]) == DecimalValue(s) * 10 + DigitValue(c)
  {
    assert (s + [c])[..|s|] == s;
  }

  /** A non-zero multiple of m is at least m away from zero. */
  lemma {:induction false} MulGrows(k: nat, m: int)
    requires k >= 1 && m > 0
    ensures k * m >= m
  {
    if k > 1 {
      MulGrows(k - 1, m);
      assert k * m == (k - 1) * m + m;
    }
  }

  /** Division and remainder are determined by any decomposition n == q*m + t with 0 <= t < m. */
  lemma DivModOf(n: int, m: int, q: int, t: int)
    requires m > 0 && n == q * m + t && 0 <= t < m
    ensures n / m == q && n % m == t
  {
    var q', t' := n / m, n % m;
    assert (q' - q) * m == t - t';
    if q' > q {
      MulGrows(q' - q, m);
    } else if q' < q {
      MulGrows(q - q', m);
    }
  }

  // ---------------------------------------------------------------------------
  // strconv.Atoi and strconv.Itoa
  // ---------------------------------------------------------------------------

  const MinInt64: int := -0x8000_0000_0000_0000
  const MaxInt64: int := 0x7FFF_FFFF_FFFF_FFFF

  /**
   * strconv.Atoi on a 64-bit platform: an optional '+' or '-', then at least one decimal
   * digit and nothing else, with the value inside the range of int. No white space is
   * accepted anywhere.
   */
  function Atoi(s: string): (r: Option<int>)
    ensures r.Some? ==> MinInt64 <= r.value <= MaxInt64
    ensures r.Some? ==> s != [] && forall i :: 0 <= i < |s| ==> !IsSpace(s[i])
  {
    var digits := if s != [] && (s[0] == '+' || s[0] == '-') then s[1..] else s;
    if digits == [] || !AllDigits(digits) then None
    else
      var n := if s[0] == '-' then -(DecimalValue(digits) as int) else DecimalValue(digits) as int;
      if MinInt64 <= n <= MaxInt64 then Some(n) else None
  }

  /** Decimal digits of n without leading zeros ("0" for zero). */
  function NatToDecimal(n: nat): (s: string)
    ensures s != [] && AllDigits(s)
    ensures DecimalValue(s) == n
  {
    if n < 10 then [DigitChar(n)]
    else
      var t := NatToDecimal(n / 10);
      DecimalValueAppend(t, DigitChar(n % 10));
      t + [DigitChar(n % 10)]
  }

  /** strconv.Itoa */
  function Itoa(i: int): (s: string)
    ensures s != [] && forall k :: 0 <= k < |s| ==> s[k] == '-' || IsDigit(s[k])
  {
    if i < 0 then "-" + NatToDecimal(-i) else NatToDecimal(i)
  }

  /** Atoi reads back what Itoa writes, for every int. */
  lemma AtoiItoa(i: int)
    requires MinInt64 <= i <= MaxInt64
    ensures Atoi(Itoa(i)) == Some(i)
  {
    if i < 0 {
      assert Itoa(i)[1..] == NatToDecimal(-i);
    }
  }

  // ---------------------------------------------------------------------------
  // strconv.ParseFloat and strconv.FormatFloat(_, 'f', 2, 64)
  // ---------------------------------------------------------------------------

  /** Index of the first '.' in s, or |s| when there is none. */
  function DotIndex(s: string): (k: nat)
    ensures k <= |s|
    ensures k < |s| ==> s[k] == '.'
    ensures forall i :: 0 <= i < k ==> s[i] != '.'
  {
    if s == [] || s[0] == '.' then 0 else 1 + DotIndex(s[1..])
  }

  /** The exact value of the digits `whole` "." `frac`. */
  function DecimalParts(whole: string, frac: string): (v: real)
    requires AllDigits(whole) && AllDigits(frac)
    ensures v >= 0.0
  {
    DecimalValue(whole) as real + DecimalValue(frac) as real / Pow10(|frac|) as real
  }

  /**
   * The smallest magnitude that float64 rounding sends to infinity: 2^1024 - 2^970, halfway
   * between the largest float64, (2^53 - 1) * 2^971, and 2^1024 (a tie rounds to the even
   * neighbour 2^1024).
   */
  const FloatOverflow: real := 179769313486231580793728971405303415079934132710037826936173778980444968292764750946649017977587207096330286416692887910946555547851940402630657488671505820681908902000708383676273854845817711531764475730270069855571366959622842914819860834936475292719074168444365510704342711559699508093042880177904174497792.0

  /**
   * strconv.ParseFloat(s, 64) for plain decimal notation: an optional sign, then digits with
   * an optional '.' and fraction, with at least one digit in all. The value is exact. A value
   * that rounds to an infinity is ParseFloat's range error.
   */
  function ParseDecimal(s: string): (r: Option<real>)
    ensures r.Some? ==> s != []
    ensures r.Some? && r.value < 0.0 ==> s[0] == '-'
    ensures r.Some? ==> -FloatOverflow < r.value < FloatOverflow
  {
    var body := if s != [] && (s[0] == '+' || s[0] == '-') then s[1..] else s;
    var k := DotIndex(body);
    var whole := body[..k];
    var frac := if k < |body| then body[k + 1..] else [];
    if (whole == [] && frac == []) || !AllDigits(whole) || !AllDigits(frac) then None
    else if DecimalParts(whole, frac) >= FloatOverflow then None
    else if s[0] == '-' then Some(-DecimalParts(whole, frac))
    else Some(DecimalParts(whole, frac))
  }

  /** Digits whose value is beyond the range of float64 are rejected (ErrRange). */
  lemma ParseDecimalOverflow(s: string)
    requires s != [] && AllDigits(s) && DecimalValue(s) as real >= FloatOverflow
    ensures ParseDecimal(s) == None
  {
    assert s[0] != '+' && s[0] != '-';
    forall i | 0 <= i < |s| ensures s[i] != '.' {
      assert IsDigit(s[i]);
    }
    assert DotIndex(s) == |s|;
    assert s[..|s|] == s;
    assert DecimalParts(s, []) == DecimalValue(s) as real;
  }

  /** p * 100 rounded to the nearest integer, ties to the even neighbour. */
  function RoundCents(p: real): (c: int)
    ensures c as real - 0.5 <= p * 100.0 <= c as real + 0.5
    ensures p >= 0.0 ==> c >= 0
  {
    var x := p * 100.0;
    var f := x.Floor;
    if x - f as real > 0.5 || (x - f as real == 0.5 && f % 2 == 1) then f + 1 else f
  }

  lemma LastDigitOfCents(c: nat)
    ensures c % 100 / 10 * 10 + c % 10 == c % 100
  {
    var x := c % 100;
    DivModOf(c, 100, c / 100, x);
    DivModOf(x, 10, x / 10, x % 10);
    DivModOf(c, 10, 10 * (c / 100) + x / 10, x % 10);
  }

  /** The two decimals of an amount of cents. */
  function CentDigits(c: nat): (s: string)
    ensures |s| == 2 && AllDigits(s) && DecimalValue(s) == c % 100
  {
    var hi, lo := DigitChar(c % 100 / 10), DigitChar(c % 10);
    DecimalValueAppend([hi], lo);
    assert [hi][..0] == [];
    LastDigitOfCents(c);
    [hi] + [lo]
  }

  /** strconv.FormatFloat(p, 'f', 2, 64): a '-' for negatives, the integer part, and two decimals. */
  function FormatPrice(p: real): (s: string)
    ensures |s| >= 4 && s[|s| - 3] == '.' && IsDigit(s[|s| - 2]) && IsDigit(s[|s| - 1])
    ensures s[0] == '-' <==> p < 0.0
    ensures forall i :: 0 <= i < |s| ==> s[i] == '-' || s[i] == '.' || IsDigit(s[i])
  {
    var c: nat := RoundCents(if p < 0.0 then -p else p);
    var sign, whole, cents := if p < 0.0 then "-" else "", NatToDecimal(c / 100), CentDigits(c);
    var s := sign + whole + "." + cents;
    assert forall i :: 0 <= i < |s| ==> s[i] == (if i < |sign| then sign[i] else if i < |sign| + |whole| then whole[i - |sign|]
                                                 else if i == |sign| + |whole| then '.' else cents[i - |sign| - |whole| - 1]);
    s
  }

  lemma RoundCentsExact(cents: nat)
    ensures RoundCents(cents as real / 100.0) == cents
  {
    assert cents as real / 100.0 * 100.0 == cents as real;
  }

  /** Digits, a dot and digits parse as the value of the two digit runs. */
  lemma ParseDotted(whole: string, frac: string)
    requires whole != [] && AllDigits(whole) && AllDigits(frac)
    requires DecimalParts(whole, frac) < FloatOverflow
    ensures ParseDecimal(whole + "." + frac) == Some(DecimalParts(whole, frac))
  {
    var s := whole + "." + frac;
    assert s[0] == whole[0];
    forall i | 0 <= i < |whole| ensures s[i] != '.' {
      assert s[i] == whole[i];
    }
    DotIndexAt(s, |whole|);
    assert s[..|whole|] == whole;
    assert s[|whole| + 1..] == frac;
  }

  /** Every non-negative amount of whole cents is read back exactly from its two-decimal text. */
  lemma ParseFormatPrice(cents: nat)
    requires cents as real / 100.0 < FloatOverflow
    ensures ParseDecimal(FormatPrice(cents as real / 100.0)) == Some(cents as real / 100.0)
  {
    var p := cents as real / 100.0;
    RoundCentsExact(cents);
    var whole, frac := NatToDecimal(cents / 100), CentDigits(cents);
    assert FormatPrice(p) == whole + "." + frac;
    assert DecimalParts(whole, frac) == p by {
      assert Pow10(2) == 100;
      assert DecimalParts(whole, frac) == (cents / 100) as real + (cents % 100) as real / 100.0;
      DivModOf(cents, 100, cents / 100, cents % 100);
    }
    ParseDotted(whole, frac);
  }

  lemma DotIndexAt(s: string, k: nat)
    requires k < |s| && s[k] == '.'
    requires forall i :: 0 <= i < k ==> s[i] != '.'
    ensures DotIndex(s) == k
  {
    if k > 0 {
      DotIndexAt(s[1..], k - 1);
    }
  }

  // ---------------------------------------------------------------------------
  // time.Parse("2006-01-02", s) and Time.Format("2006-01-02")
  // ---------------------------------------------------------------------------

  /** The Gregorian leap-year rule (Go's isLeap). */
  predicate IsLeap(year: int) {
    year % 4 == 0 && (year % 100 != 0 || year % 400 == 0)
  }

  /** Days in a month of a year (Go's daysIn). */
  function DaysIn(month: int, year: int): (n: int)
    requires 1 <= month <= 12
    ensures 28 <= n <= 31
    ensures month == 2 ==> (n == 29 <==> IsLeap(year))
  {
    if month == 2 then (if IsLeap(year) then 29 else 28)
    else if month == 4 || month == 6 || month == 9 || month == 11 then 30
    else 31
  }

  /** A date that exists on the Gregorian calendar. */
  predicate ValidDate(d: Date) {
    1 <= d.month <= 12 && 1 <= d.day <= DaysIn(d.month, d.year)
  }

  /**
   * time.Parse with the layout "2006-01-02": exactly four digits, '-', two digits, '-', two
   * digits and nothing more; the month must be 1..12 and the day must exist in that month.
   */
  function ParseDate(s: string): (r: Option<Date>)
    ensures r.Some? ==> ValidDate(r.value) && 0 <= r.value.year <= 9999
    ensures r.Some? ==> |s| == 10 && s[4] == '-' && s[7] == '-' && IsDigit(s[0]) && IsDigit(s[9])
  {
    if |s| == 10 && AllDigits(s[..4]) && s[4] == '-' && AllDigits(s[5..7]) && s[7] == '-' && AllDigits(s[8..]) then
      var d := Date(DecimalValue(s[..4]), DecimalValue(s[5..7]), DecimalValue(s[8..]));
      if ValidDate(d) then Some(d) else None
    else None
  }

  /** The last `width` decimal digits of n, zero-padded. */
  function FixedDigits(n: nat, width: nat): (s: string)
    ensures |s| == width && AllDigits(s)
    ensures DecimalValue(s) == n % Pow10(width)
  {
    if width == 0 then []
    else
      var t := FixedDigits(n / 10, width - 1);
      DecimalValueAppend(t, DigitChar(n % 10));
      ModTen(n, width);
      t + [DigitChar(n % 10)]
  }

  /** Dropping the last digit of n and appending it again keeps n modulo 10^width. */
  lemma ModTen(n: nat, width: nat)
    requires width >= 1
    ensures (n / 10) % Pow10(width - 1) * 10 + n % 10 == n % Pow10(width)
  {
    var p := Pow10(width - 1);
    var a, b, r := n / 10 / p, n / 10 % p, n % 10;
    DivModOf(n, 10, n / 10, r);
    DivModOf(n / 10, p, a, b);
    assert n == a * (10 * p) + (b * 10 + r);
    DivModOf(n, 10 * p, a, b * 10 + r);
  }

  /** A string of digits is the fixed-width rendering of its own value. */
  lemma {:induction false} FixedDigitsOfValue(s: string)
    requires AllDigits(s)
    ensures FixedDigits(DecimalValue(s), |s|) == s
  {
    if s != [] {
      var t, c := s[..|s| - 1], s[|s| - 1];
      FixedDigitsOfValue(t);
      var n := DecimalValue(s);
      assert n == DecimalValue(t) * 10 + DigitValue(c);
      DivModOf(n, 10, DecimalValue(t), DigitValue(c));
      assert s == t + [c];
    }
  }

  /**
   * How Go's time formatting writes an integer field of a given width: a '-' for negatives,
   * then the digits zero-padded to the width and never truncated.
   */
  function PaddedInt(x: int, width: nat): (s: string)
    ensures forall i :: 0 <= i < |s| ==> s[i] == '-' || IsDigit(s[i])
  {
    var u: nat := if x < 0 then -x else x;
    var sign, digits := if x < 0 then "-" else "", if u < Pow10(width) then FixedDigits(u, width) else NatToDecimal(u);
    assert forall i :: 0 <= i < |sign + digits| ==> (sign + digits)[i] == (if i < |sign| then sign[i] else digits[i - |sign|]);
    sign + digits
  }

  /**
   * Time.Format("2006-01-02") of a date: signs, digits and dashes only, and the ten characters
   * YYYY-MM-DD for a date whose fields fit their widths.
   */
  function FormatDate(d: Date): (s: string)
    ensures forall i :: 0 <= i < |s| ==> s[i] == '-' || IsDigit(s[i])
    ensures 0 <= d.year <= 9999 && 1 <= d.month <= 12 && 1 <= d.day <= 31 ==> |s| == 10 && s[4] == '-' && s[7] == '-'
  {
    var y, m, dd := PaddedInt(d.year, 4), PaddedInt(d.month, 2), PaddedInt(d.day, 2);
    DashedChars(y, m, dd);
    if 0 <= d.year <= 9999 && 1 <= d.month <= 12 && 1 <= d.day <= 31 then
      FieldWidths(d);
      DashedFields(y, m, dd);
      y + "-" + m + "-" + dd
    else y + "-" + m + "-" + dd
  }

  /** Fields made of signs and digits, joined by dashes, give signs, digits and dashes. */
  lemma DashedChars(y: string, m: string, dd: string)
    requires forall i :: 0 <= i < |y| ==> y[i] == '-' || IsDigit(y[i])
    requires forall i :: 0 <= i < |m| ==> m[i] == '-' || IsDigit(m[i])
    requires forall i :: 0 <= i < |dd| ==> dd[i] == '-' || IsDigit(dd[i])
    ensures var s := y + "-" + m + "-" + dd;
            forall i :: 0 <= i < |s| ==> s[i] == '-' || IsDigit(s[i])
  {
    var s := y + "-" + m + "-" + dd;
    forall i | 0 <= i < |s| ensures s[i] == '-' || IsDigit(s[i]) {
      if i < |y| {
        assert s[i] == y[i];
      } else if |y| < i < |y| + 1 + |m| {
        assert s[i] == m[i - |y| - 1];
      } else if |y| + 1 + |m| < i {
        assert s[i] == dd[i - |y| - |m| - 2];
      }
    }
  }

  /** The fields of a date with a four-digit year are written at their exact widths. */
  lemma FieldWidths(d: Date)
    requires 0 <= d.year <= 9999 && 1 <= d.month <= 12 && 1 <= d.day <= 31
    ensures |PaddedInt(d.year, 4)| == 4 && |PaddedInt(d.month, 2)| == 2 && |PaddedInt(d.day, 2)| == 2
  {
    assert Pow10(4) == 10000 && Pow10(2) == 100;
    PaddedField(d.year, 4);
    PaddedField(d.month, 2);
    PaddedField(d.day, 2);
  }

  /** A field value below 10^width is written as exactly `width` digits that read back as it. */
  lemma PaddedField(x: nat, width: nat)
    requires x < Pow10(width)
    ensures PaddedInt(x, width) == FixedDigits(x, width)
    ensures DecimalValue(FixedDigits(x, width)) == x
  {
    DivModOf(x, Pow10(width), 0, x);
    assert PaddedInt(x, width) == "" + FixedDigits(x, width);
  }

  /** A run of digits is the padded rendering, at its own width, of its value. */
  lemma PaddedOfDigits(t: string)
    requires AllDigits(t)
    ensures PaddedInt(DecimalValue(t), |t|) == t
  {
    FixedDigitsOfValue(t);
    PaddedField(DecimalValue(t), |t|);
  }

  /** A YYYY-MM-DD shaped string and its three fields. */
  lemma DashedFields(y: string, m: string, dd: string)
    requires |y| == 4 && |m| == 2 && |dd| == 2
    ensures var s := y + "-" + m + "-" + dd;
            |s| == 10 && s[4] == '-' && s[7] == '-' && s[..4] == y && s[5..7] == m && s[8..] == dd
  {
  }

  /** ParseDate reads back every formatted date of a four-digit year. */
  lemma ParseFormatDate(d: Date)
    requires ValidDate(d) && 0 <= d.year <= 9999
    ensures ParseDate(FormatDate(d)) == Some(d)
  {
    assert Pow10(4) == 10000 && Pow10(2) == 100;
    PaddedField(d.year, 4);
    PaddedField(d.month, 2);
    PaddedField(d.day, 2);
    var y, m, dd := FixedDigits(d.year, 4), FixedDigits(d.month, 2), FixedDigits(d.day, 2);
    assert FormatDate(d) == y + "-" + m + "-" + dd;
    DashedFields(y, m, dd);
  }

  /** ParseDate accepts only the canonical text of the date it returns. */
  lemma FormatParseDate(s: string)
    requires ParseDate(s).Some?
    ensures FormatDate(ParseDate(s).value) == s
  {
    var d := ParseDate(s).value;
    var y, m, dd := s[..4], s[5..7], s[8..];
    assert s == y + "-" + m + "-" + dd;
    assert d == Date(DecimalValue(y), DecimalValue(m), DecimalValue(dd));
    PaddedOfDigits(y);
    PaddedOfDigits(m);
    PaddedOfDigits(dd);
  }

  // ---------------------------------------------------------------------------
  // Formatted fields read back after trimming
  // ---------------------------------------------------------------------------

  /** A string that starts with a digit or a '-' and ends with a digit is its own trimmed form. */
  lemma TrimmedBetweenDigits(s: string)
    requires s != [] && (IsDigit(s[0]) || s[0] == '-') && IsDigit(s[|s| - 1])
    ensures TrimSpace(s) == s
  {
    TrimSpaceOfTrimmed(s);
  }

  /** The decimal text of an int has no surrounding space and reads back as that int. */
  lemma ItoaReadBack(i: int)
    requires MinInt64 <= i <= MaxInt64
    ensures Itoa(i) != [] && TrimSpace(Itoa(i)) == Itoa(i) && Atoi(Itoa(i)) == Some(i)
  {
    TrimmedBetweenDigits(Itoa(i));
    AtoiItoa(i);
  }

  /** The two-decimal text of a whole number of cents has no surrounding space and reads back. */
  lemma FormatPriceReadBack(cents: nat)
    requires cents as real / 100.0 < FloatOverflow
    ensures var s := FormatPrice(cents as real / 100.0);
            s != [] && TrimSpace(s) == s && ParseDecimal(s) == Some(cents as real / 100.0)
  {
    var p := cents as real / 100.0;
    RoundCentsExact(cents);
    var whole, frac := NatToDecimal(cents / 100), CentDigits(cents);
    var s := FormatPrice(p);
    assert s == whole + "." + frac;
    assert s[0] == whole[0] && s[|s| - 1] == frac[1];
    TrimmedBetweenDigits(s);
    ParseFormatPrice(cents);
  }

  /** The YYYY-MM-DD text of a date with a four-digit year has no surrounding space and reads back. */
  lemma FormatDateReadBack(d: Date)
    requires ValidDate(d) && 0 <= d.year <= 9999
    ensures var s := FormatDate(d);
            s != [] && TrimSpace(s) == s && ParseDate(s) == Some(d)
  {
    ParseFormatDate(d);
    TrimmedBetweenDigits(FormatDate(d));
  }
}
