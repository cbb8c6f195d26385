/** Printing and parsing of unsigned numbers.  `unsigned` has 32 bits and `unsigned long` 64.
    Decimal models std::to_string, and Strtoul models strtoul in base 10 in the "C" locale
    (section 7.22.1.4 of ISO/IEC 9899:2011). */
module Numbers {
  import opened Encoding

  const UINT_MAX := 0xffff_ffff
  const ULONG_MAX := 0xffff_ffff_ffff_ffff

  type Unsigned = n: nat | n <= UINT_MAX

  predicate Digit(c: char) {
    '0' <= c <= '9'
  }

  predicate Numeral(s: string) {
    s != "" && forall i | 0 <= i < |s| :: Digit(s[i])
  }

  function Decimal(n: nat): (r: string)
    ensures Numeral(r)
  {
    var d := ('0' as int + n % 10) as char;
    if n < 10 then [d] else Decimal(n / 10) + [d]
  }

  function Value(s: string): nat
    requires forall i | 0 <= i < |s| :: Digit(s[i])
  {
    if s == "" then 0
    else
      assert Digit(s[|s| - 1]);
      10 * Value(s[..|s| - 1]) + (s[|s| - 1] as int - '0' as int)
  }

  lemma {:induction false} DecimalValue(n: nat)
    ensures Value(Decimal(n)) == n
  {
    if n >= 10 {
      DecimalValue(n / 10);
      var r := Decimal(n);
      assert r[..|r| - 1] == Decimal(n / 10);
    }
  }

  /** The characters a C string function sees. */
  function CString(s: string): string {
    if s == "" || s[0] == '\U{00}' then "" else [s[0]] + CString(s[1..])
  }

  predicate Space(c: char) {
    c == ' ' || '\t' <= c <= '\r'
  }

  /** The first position from `from` on without white space. */
  function SpaceEnd(c: string, from: nat): (end: nat)
    requires from <= |c|
    ensures from <= end <= |c|
    ensures forall k | from <= k < end :: Space(c[k])
    ensures end < |c| ==> !Space(c[end])
    decreases |c| - from
  {
    if from < |c| && Space(c[from]) then SpaceEnd(c, from + 1) else from
  }

  /** The first position from `from` on without a digit. */
  function DigitEnd(c: string, from: nat): (end: nat)
    requires from <= |c|
    ensures from <= end <= |c|
    ensures forall k | from <= k < end :: Digit(c[k])
    ensures end < |c| ==> !Digit(c[end])
    decreases |c| - from
  {
    if from < |c| && Digit(c[from]) then DigitEnd(c, from + 1) else from
  }

  /** Saturation and negation in an unsigned long. */
  function Clamp(v: nat, negated: bool): (r: nat)
    ensures r <= ULONG_MAX
  {
    if v > ULONG_MAX then ULONG_MAX
    else if negated && v > 0 then ULONG_MAX + 1 - v
    else v
  }

  predicate SignAt(c: string, i: nat) {
    i < |c| && (c[i] == '+' || c[i] == '-')
  }

  /** The value and how many characters were consumed. */
  function Strtoul(c: string): (r: (nat, nat))
    ensures r.0 <= ULONG_MAX && r.1 <= |c|
  {
    var sp := SpaceEnd(c, 0);
    var from := if SignAt(c, sp) then sp + 1 else sp;
    var end := DigitEnd(c, from);
    if end == from then (0, 0)
    else
      assert forall k | 0 <= k < end - from :: c[from..end][k] == c[from + k];
      (Clamp(Value(c[from..end]), from > sp && c[sp] == '-'), end)
  }

  /** UINT_MAX stands for an error. */
  function ParseUnsigned(s: string): (r: nat)
    ensures r <= UINT_MAX
  {
    var c := CString(s);
    var (v, end) := Strtoul(c);
    if end != |c| || v > UINT_MAX then UINT_MAX else v
  }

  // ---- Which texts are numbers ----

  /** White space up to `sp`, an optional sign up to `from`, digits up to `end`, and then
      something else. */
  predicate NumberAt(c: string, sp: nat, from: nat, end: nat) {
    && sp <= from < end <= |c|
    && (forall k | 0 <= k < sp :: Space(c[k]))
    && (from == sp || (from == sp + 1 && SignAt(c, sp)))
    && (forall k | from <= k < end :: Digit(c[k])) && (end < |c| ==> !Digit(c[end]))
  }

  function NumberValue(c: string, sp: nat, from: nat, end: nat): nat
    requires NumberAt(c, sp, from, end)
  {
    assert forall k | 0 <= k < end - from :: c[from..end][k] == c[from + k];
    Clamp(Value(c[from..end]), from > sp && c[sp] == '-')
  }

  /** The text starts with a number. */
  ghost predicate Begins(c: string, v: nat) {
    exists sp, from, end :: NumberAt(c, sp, from, end) && v == NumberValue(c, sp, from, end)
  }

  /** The whole text is a number. */
  ghost predicate Denotes(c: string, v: nat) {
    exists sp, from :: NumberAt(c, sp, from, |c|) && v == NumberValue(c, sp, from, |c|)
  }

  /** Numbers beyond an unsigned long saturate, whatever their sign, and a minus sign counts down
      from two to the power of 64. */
  lemma ClampReads(v: nat)
    ensures v <= 0xffff_ffff_ffff_ffff ==> Clamp(v, false) == v
    ensures 0 < v <= 0xffff_ffff_ffff_ffff ==> Clamp(v, true) + v == 0x1_0000_0000_0000_0000
    ensures v > 0xffff_ffff_ffff_ffff ==> Clamp(v, false) == Clamp(v, true) == 0xffff_ffff_ffff_ffff
    ensures Clamp(0, true) == 0
  {
  }

  /** White space in the "C" locale. */
  lemma SpaceIff(c: char)
    ensures Space(c) <==> c in " \t\n\U{0B}\U{0C}\r"
  {
  }

  /** A C string ends before its first null character. */
  lemma {:induction false} CStringEnds(s: string, t: string)
    requires forall i | 0 <= i < |s| :: s[i] != '\U{00}'
    requires t != "" ==> t[0] == '\U{00}'
    ensures CString(s + t) == s
  {
    if s == "" {
      assert s + t == t;
    } else {
      CStringEnds(s[1..], t);
      assert (s + t)[1..] == s[1..] + t && s == [s[0]] + s[1..];
    }
  }

  /** strtoul reads the number a text starts with. */
  lemma NumberReads(c: string, sp: nat, from: nat, end: nat)
    requires NumberAt(c, sp, from, end)
    ensures Strtoul(c) == (NumberValue(c, sp, from, end), end)
  {
    assert Digit(c[from]);
    assert SpaceEnd(c, 0) == sp;
    assert DigitEnd(c, from) == end;
  }

  /** And what it reads is a number, if it reads anything. */
  lemma ReadIsNumber(c: string) returns (sp: nat, from: nat, end: nat)
    requires Strtoul(c).1 > 0
    ensures NumberAt(c, sp, from, end) && end == Strtoul(c).1
  {
    sp := SpaceEnd(c, 0);
    from := if SignAt(c, sp) then sp + 1 else sp;
    end := DigitEnd(c, from);
  }

  lemma BeginsIff(c: string, v: nat)
    ensures Begins(c, v) <==> Strtoul(c).1 > 0 && v == Strtoul(c).0
  {
    if sp, from, end :| NumberAt(c, sp, from, end) && v == NumberValue(c, sp, from, end) {
      NumberReads(c, sp, from, end);
    }
    if Strtoul(c).1 > 0 {
      var sp, from, end := ReadIsNumber(c);
      NumberReads(c, sp, from, end);
    }
  }

  lemma DenotesIff(c: string, v: nat)
    ensures Denotes(c, v) <==> c != "" && Strtoul(c) == (v, |c|)
  {
    if sp, from :| NumberAt(c, sp, from, |c|) && v == NumberValue(c, sp, from, |c|) {
      NumberReads(c, sp, from, |c|);
    }
    if c != "" && Strtoul(c) == (v, |c|) {
      var sp, from, end := ReadIsNumber(c);
      NumberReads(c, sp, from, |c|);
    }
  }

  /** A word parses to a value below the largest unsigned exactly when it is a number of that
      value, or is empty and the value zero. */
  lemma ParseUnsignedIff(s: string, v: nat)
    requires v < UINT_MAX
    ensures ParseUnsigned(s) == v <==> Denotes(CString(s), v) || (CString(s) == "" && v == 0)
  {
    DenotesIff(CString(s), v);
  }

  lemma {:induction false} NumeralIsCString(s: string)
    requires forall i | 0 <= i < |s| :: Digit(s[i])
    ensures CString(s) == s
  {
    if s != "" {
      NumeralIsCString(s[1..]);
      assert s == [s[0]] + s[1..];
    }
  }

  /** strtoul takes a numeral whole, and saturates. */
  lemma NumeralReads(s: string)
    requires Numeral(s)
    ensures CString(s) == s
    ensures Strtoul(s) == (if Value(s) > ULONG_MAX then ULONG_MAX else Value(s), |s|)
  {
    NumeralIsCString(s);
    assert s[0..|s|] == s;
    NumberReads(s, 0, 0, |s|);
  }

  /** A numeral parses to its value, except that the largest unsigned and everything
      above it read as the error value. */
  lemma NumeralParses(s: string)
    requires Numeral(s)
    ensures ParseUnsigned(s) == if Value(s) < UINT_MAX then Value(s) else UINT_MAX
  {
    NumeralReads(s);
  }

  /** Printed numbers are parsed back; UINT_MAX is the one that reads as an error. */
  lemma DecimalRoundTrip(n: nat)
    requires n <= UINT_MAX
    ensures ParseUnsigned(Decimal(n)) == n
  {
    DecimalValue(n);
    NumeralParses(Decimal(n));
  }

  /** Numbers are printed in decimal, without leading zeros. */
  lemma DecimalPrinted(n: nat)
    ensures n < 10 ==> Decimal(n) == ["0123456789"[n]]
    ensures n >= 10 ==> Decimal(n) == Decimal(n / 10) + ["0123456789"[n % 10]]
  {
    DigitPrinted(n % 10);
  }

  lemma DigitPrinted(n: nat)
    requires n < 10
    ensures "0123456789"[n] == ('0' as int + n) as char
  {
    var d := "0123456789";
    assert d[0] == '0' && d[1] == '1' && d[2] == '2' && d[3] == '3' && d[4] == '4';
    assert d[5] == '5' && d[6] == '6' && d[7] == '7' && d[8] == '8' && d[9] == '9';
  }

  lemma NumeralSafe(s: string)
    requires Numeral(s)
    ensures AllSafe(s) && EncodeWord(Plain(s)) == s && EncodeWord(Quoted(s)) == s
  {
    assert s + "" == s;
    assert Plain(s)[1..] == [] && Quoted(s)[1..] == [];
  }
}
