/** `strtoull(s, &endptr, 10)` as a pure function, following the description of
    the strtoul family in section 7.22.1.4 of ISO/IEC 9899:2011 (C11). `endptr`
    becomes the number of characters consumed, and `errno == ERANGE` is the
    overflow flag of the result. */
module StrToUllModel {
  import opened Word

  /** isspace in the "C" locale: space, \t, \n, \v, \f, \r. */
  predicate IsSpace(c: char) {
    c == ' ' || c == '\t' || c == '\n' || c as int == 0x0B || c as int == 0x0C || c == '\r'
  }

  predicate IsDigit(c: char) {
    '0' <= c <= '9'
  }

  predicate AllDigits(s: seq<char>) {
    forall k :: 0 <= k < |s| ==> IsDigit(s[k])
  }

  /** What one call of strtoull yields: the returned value, how far `endptr`
      lies past the start of the string, and whether errno became ERANGE. */
  datatype Conversion = Conversion(value: u64, consumed: nat, overflow: bool)

  /** Length of the longest prefix of s made of white space. */
  function LeadingSpaces(s: seq<char>): (k: nat)
    ensures k <= |s|
    ensures forall j :: 0 <= j < k ==> IsSpace(s[j])
    ensures k == |s| || !IsSpace(s[k])
  {
    if s != [] && IsSpace(s[0]) then 1 + LeadingSpaces(s[1..]) else 0
  }

  /** Length of the longest prefix of s made of decimal digits. */
  function LeadingDigits(s: seq<char>): (k: nat)
    ensures k <= |s|
    ensures AllDigits(s[..k])
    ensures k == |s| || !IsDigit(s[k])
  {
    if s != [] && IsDigit(s[0]) then 1 + LeadingDigits(s[1..]) else 0
  }

  /** The value of a digit string, accumulated most significant digit first
      (value = value * 10 + digit), without any bound. */
  function DigitsValue(ds: seq<char>): nat
    requires AllDigits(ds)
  {
    if ds == [] then 0
    else DigitsValue(ds[..|ds| - 1]) * 10 + (ds[|ds| - 1] as int - '0' as int)
  }

  /** The subject sequence starts after the white space and an optional sign. */
  function SubjectStart(s: seq<char>): (start: nat)
    ensures start <= |s|
  {
    var ws := LeadingSpaces(s);
    if ws < |s| && (s[ws] == '+' || s[ws] == '-') then ws + 1 else ws
  }

  /** Whether the character before the subject's digits is a minus sign. */
  predicate Negative(s: seq<char>) {
    var ws := LeadingSpaces(s);
    ws < |s| && s[ws] == '-'
  }

  /** The conversion of the subject sequence `rest`, which begins `offset`
      characters into the string, after a minus sign when `negative`. With no
      leading digit there is no conversion: 0, endptr at the start of the
      string, errno untouched. A magnitude above ULLONG_MAX gives ULLONG_MAX
      and ERANGE, the endptr past every digit. Otherwise a minus sign
      negates the magnitude in unsigned arithmetic, modulo 2^64. */
  function ConvertSubject(rest: seq<char>, offset: nat, negative: bool): (r: Conversion)
    ensures var nd := LeadingDigits(rest);
      r.consumed == if nd == 0 then 0 else offset + nd
  {
    var nd := LeadingDigits(rest);
    if nd == 0 then
      Conversion(0, 0, false)
    else
      var magnitude := DigitsValue(rest[..nd]);
      if magnitude > ULLONG_MAX then
        Conversion(ULLONG_MAX as u64, offset + nd, true)
      else if negative then
        Conversion(((TWO_64 - magnitude) % TWO_64) as u64, offset + nd, false)
      else
        Conversion(magnitude as u64, offset + nd, false)
  }

  /** strtoull(s, &endptr, 10): skip white space, read an optional sign, then
      convert the longest run of decimal digits. */
  function StrToUll(s: seq<char>): (r: Conversion)
    ensures r.consumed <= |s|
    ensures r.consumed == 0 ==> r.value == 0 && !r.overflow
    ensures r.overflow ==> r.value as nat == ULLONG_MAX
    ensures r.consumed > 0 ==> IsDigit(s[r.consumed - 1]) && (r.consumed == |s| || !IsDigit(s[r.consumed]))
  {
    var start := SubjectStart(s);
    var r := ConvertSubject(s[start..], start, Negative(s));
    var nd := LeadingDigits(s[start..]);
    assert nd > 0 ==> s[start + nd - 1] == s[start..][..nd][nd - 1];
    assert start + nd < |s| ==> s[start + nd] == s[start..][nd];
    r
  }

  /** The decimal numeral of n, without leading zeros. */
  function ToDecimal(n: nat): (s: seq<char>)
    ensures |s| >= 1 && AllDigits(s)
    ensures DigitsValue(s) == n
    ensures s[0] != '0' || n == 0
  {
    var last := ['0' + (n % 10) as char];
    if n < 10 then last
    else
      var init := ToDecimal(n / 10);
      assert (init + last)[..|init + last| - 1] == init;
      init + last
  }

  /** A run of digits ends where the first non-digit begins. */
  lemma {:induction false} LeadingDigitsOfNumeral(ds: seq<char>, rest: seq<char>)
    requires AllDigits(ds) && (rest == [] || !IsDigit(rest[0]))
    ensures LeadingDigits(ds + rest) == |ds|
  {
    if ds != [] {
      assert (ds + rest)[1..] == ds[1..] + rest;
      LeadingDigitsOfNumeral(ds[1..], rest);
    }
  }

  /** A digit string followed by a non-digit (or by nothing) converts to its
      value and consumes exactly its digits; the value is ULLONG_MAX with the
      overflow flag exactly when the magnitude exceeds ULLONG_MAX. */
  lemma NumeralConversion(ds: seq<char>, rest: seq<char>)
    requires |ds| >= 1 && AllDigits(ds) && (rest == [] || !IsDigit(rest[0]))
    ensures StrToUll(ds + rest).consumed == |ds|
    ensures StrToUll(ds + rest).overflow <==> DigitsValue(ds) > ULLONG_MAX
    ensures StrToUll(ds + rest).value as nat == if DigitsValue(ds) > ULLONG_MAX then ULLONG_MAX else DigitsValue(ds)
  {
    var s := ds + rest;
    assert IsDigit(s[0]);
    assert LeadingSpaces(s) == 0;
    assert SubjectStart(s) == 0;
    assert s[0..] == s;
    LeadingDigitsOfNumeral(ds, rest);
    assert s[..|ds|] == ds;
  }

  /** Round trip: the decimal numeral of every unsigned 64-bit value converts
      back to that value, consuming the whole numeral, without overflow. */
  lemma DecimalRoundTrip(n: u64)
    ensures StrToUll(ToDecimal(n as nat)) == Conversion(n, |ToDecimal(n as nat)|, false)
  {
    var ds := ToDecimal(n as nat);
    assert ds + [] == ds;
    NumeralConversion(ds, []);
  }

  /** A leading minus sign is accepted: "-" followed by the numeral of m in
      range converts to 2^64 - m modulo 2^64, consuming the sign as well. */
  lemma NegatedNumeral(ds: seq<char>)
    requires |ds| >= 1 && AllDigits(ds) && DigitsValue(ds) <= ULLONG_MAX
    ensures StrToUll(['-'] + ds) == Conversion(((TWO_64 - DigitsValue(ds)) % TWO_64) as u64, |ds| + 1, false)
  {
    var s := ['-'] + ds;
    assert LeadingSpaces(s) == 0;
    assert SubjectStart(s) == 1 && Negative(s);
    assert s[1..] == ds + [];
    LeadingDigitsOfNumeral(ds, []);
    assert s[1..][..|ds|] == ds;
  }

  /** White space before the subject is skipped: it shifts the endptr
      of a successful conversion and changes nothing else. */
  lemma LeadingSpaceSkipped(c: char, s: seq<char>)
    requires IsSpace(c)
    ensures var r := StrToUll(s);
      StrToUll([c] + s) == Conversion(r.value, if r.consumed == 0 then 0 else r.consumed + 1, r.overflow)
  {
    var t := [c] + s;
    assert t[1..] == s;
    assert LeadingSpaces(t) == 1 + LeadingSpaces(s);
    assert SubjectStart(t) == 1 + SubjectStart(s);
    assert Negative(t) == Negative(s);
    var start := SubjectStart(s);
    assert t[start + 1..] == s[start..];
    SubjectOffsetShift(s[start..], start, Negative(s));
  }

  /** Moving the subject one character further into the string moves a
      non-zero `endptr` by one and changes nothing else. */
  lemma SubjectOffsetShift(rest: seq<char>, offset: nat, negative: bool)
    ensures var r := ConvertSubject(rest, offset, negative);
      ConvertSubject(rest, offset + 1, negative)
        == Conversion(r.value, if r.consumed == 0 then 0 else r.consumed + 1, r.overflow)
  {
  }

  /** The numeral of a 64-bit value after one white-space character converts
      to that value, consuming the space as well. */
  lemma SpacedDecimalRoundTrip(c: char, n: u64)
    requires IsSpace(c)
    ensures StrToUll([c] + ToDecimal(n as nat)) == Conversion(n, |ToDecimal(n as nat)| + 1, false)
  {
    DecimalRoundTrip(n);
    LeadingSpaceSkipped(c, ToDecimal(n as nat));
  }

  /** The value strtoull gives for digits ds after an optional sign: ULLONG_MAX
      when the magnitude overflows, the magnitude negated modulo 2^64 after a
      minus sign, the magnitude itself otherwise. */
  function SignedValue(sign: seq<char>, ds: seq<char>): nat
    requires AllDigits(ds)
  {
    var v := DigitsValue(ds);
    if v > ULLONG_MAX then ULLONG_MAX
    else if sign == ['-'] then (TWO_64 - v) % TWO_64
    else v
  }

  /** The sign part of a subject sequence: nothing, "+" or "-". */
  predicate IsSign(sign: seq<char>) {
    sign == [] || sign == ['+'] || sign == ['-']
  }

  /** A subject made of digits and a rest that does not start with a digit
      converts to the signed value, with `endptr` right after the digits. */
  lemma SubjectNumeral(ds: seq<char>, rest: seq<char>, offset: nat, sign: seq<char>)
    requires IsSign(sign) && |ds| >= 1 && AllDigits(ds) && (rest == [] || !IsDigit(rest[0]))
    ensures var r := ConvertSubject(ds + rest, offset, sign == ['-']);
      && r.consumed == offset + |ds|
      && (r.overflow <==> DigitsValue(ds) > ULLONG_MAX)
      && r.value as nat == SignedValue(sign, ds)
  {
    LeadingDigitsOfNumeral(ds, rest);
    assert (ds + rest)[..|ds|] == ds;
    var r := ConvertSubject(ds + rest, offset, sign == ['-']);
    var v := DigitsValue(ds);
    if v > ULLONG_MAX {
      assert r == Conversion(ULLONG_MAX as u64, offset + |ds|, true);
    } else if sign == ['-'] {
      assert r == Conversion(((TWO_64 - v) % TWO_64) as u64, offset + |ds|, false);
    } else {
      assert r == Conversion(v as u64, offset + |ds|, false);
    }
  }

  /** A "+" or "-" followed by digits and a rest that does not start with a
      digit: the sign is the subject's, and the digits follow it. */
  lemma SignThenNumeral(c: char, ds: seq<char>, rest: seq<char>)
    requires (c == '+' || c == '-') && |ds| >= 1 && AllDigits(ds) && (rest == [] || !IsDigit(rest[0]))
    ensures var r := StrToUll([c] + (ds + rest));
      && r.consumed == 1 + |ds|
      && (r.overflow <==> DigitsValue(ds) > ULLONG_MAX)
      && r.value as nat == SignedValue([c], ds)
  {
    var s := [c] + (ds + rest);
    assert LeadingSpaces(s) == 0;
    assert SubjectStart(s) == 1;
    assert Negative(s) <==> [c] == ['-'];
    assert s[1..] == ds + rest;
    SubjectNumeral(ds, rest, 1, [c]);
  }

  /** An optional sign, a run of digits and a rest that does not start with a
      digit convert to the signed value and consume the sign and the digits. */
  lemma SignedNumeralUnspaced(sign: seq<char>, ds: seq<char>, rest: seq<char>)
    requires IsSign(sign) && |ds| >= 1 && AllDigits(ds) && (rest == [] || !IsDigit(rest[0]))
    ensures var r := StrToUll(sign + (ds + rest));
      && r.consumed == |sign| + |ds|
      && (r.overflow <==> DigitsValue(ds) > ULLONG_MAX)
      && r.value as nat == SignedValue(sign, ds)
  {
    if sign == [] {
      assert sign + (ds + rest) == ds + rest;
      NumeralConversion(ds, rest);
    } else {
      assert sign == [sign[0]];
      SignThenNumeral(sign[0], ds, rest);
    }
  }

  /** White space, an optional sign, a run of digits and a rest that does not
      start with a digit: the value is the signed value of the digits (ULLONG_MAX
      with the overflow flag when the magnitude is too large), and `endptr` lies
      right after the digits. */
  lemma {:induction false} SignedNumeral(ws: seq<char>, sign: seq<char>, ds: seq<char>, rest: seq<char>)
    requires forall k :: 0 <= k < |ws| ==> IsSpace(ws[k])
    requires IsSign(sign) && |ds| >= 1 && AllDigits(ds) && (rest == [] || !IsDigit(rest[0]))
    ensures var r := StrToUll(ws + (sign + (ds + rest)));
      && r.consumed == |ws| + |sign| + |ds|
      && (r.overflow <==> DigitsValue(ds) > ULLONG_MAX)
      && r.value as nat == SignedValue(sign, ds)
  {
    if ws == [] {
      assert ws + (sign + (ds + rest)) == sign + (ds + rest);
      SignedNumeralUnspaced(sign, ds, rest);
    } else {
      var tail := ws[1..] + (sign + (ds + rest));
      assert ws + (sign + (ds + rest)) == [ws[0]] + tail;
      SignedNumeral(ws[1..], sign, ds, rest);
      LeadingSpaceSkipped(ws[0], tail);
    }
  }

  /** An argument made only of white space, an optional sign and a numeral in
      range converts completely, without overflow, to the signed value. */
  lemma SignedNumeralComplete(a: seq<char>, ws: seq<char>, sign: seq<char>, ds: seq<char>)
    requires a == ws + (sign + ds)
    requires forall k :: 0 <= k < |ws| ==> IsSpace(ws[k])
    requires IsSign(sign) && |ds| >= 1 && AllDigits(ds) && DigitsValue(ds) <= ULLONG_MAX
    ensures StrToUll(a) == Conversion(SignedValue(sign, ds) as u64, |a|, false)
  {
    assert ds + [] == ds;
    SignedNumeral(ws, sign, ds, []);
  }

  /** With no digit right after the sign (or, without a sign, after the white
      space), there is no conversion: 0, `endptr` at the start, no ERANGE. */
  lemma NoSubjectUnspaced(sign: seq<char>, rest: seq<char>)
    requires IsSign(sign) && (rest == [] || !IsDigit(rest[0]))
    requires sign == [] ==> rest == [] || (!IsSpace(rest[0]) && rest[0] != '+' && rest[0] != '-')
    ensures StrToUll(sign + rest) == Conversion(0, 0, false)
  {
    var s := sign + rest;
    assert LeadingSpaces(s) == 0;
    assert s[SubjectStart(s)..] == rest;
  }

  /** White space, an optional sign and then anything but a digit (and, without
      a sign, anything but further white space or a sign): no conversion. */
  lemma {:induction false} NoSubjectNoConversion(ws: seq<char>, sign: seq<char>, rest: seq<char>)
    requires forall k :: 0 <= k < |ws| ==> IsSpace(ws[k])
    requires IsSign(sign) && (rest == [] || !IsDigit(rest[0]))
    requires sign == [] ==> rest == [] || (!IsSpace(rest[0]) && rest[0] != '+' && rest[0] != '-')
    ensures StrToUll(ws + (sign + rest)) == Conversion(0, 0, false)
  {
    if ws == [] {
      assert ws + (sign + rest) == sign + rest;
      NoSubjectUnspaced(sign, rest);
    } else {
      var tail := ws[1..] + (sign + rest);
      assert ws + (sign + rest) == [ws[0]] + tail;
      NoSubjectNoConversion(ws[1..], sign, rest);
      LeadingSpaceSkipped(ws[0], tail);
    }
  }

  /** Every string splits into its leading white space, the optional sign
      strtoull reads and the subject's digits and what follows them. */
  lemma SubjectParts(s: seq<char>) returns (ws: seq<char>, sign: seq<char>, t: seq<char>)
    ensures s == ws + (sign + t) && t == s[SubjectStart(s)..]
    ensures forall k :: 0 <= k < |ws| ==> IsSpace(ws[k])
    ensures IsSign(sign) && (Negative(s) <==> sign == ['-'])
    ensures sign == [] ==> t == [] || (!IsSpace(t[0]) && t[0] != '+' && t[0] != '-')
  {
    var k := LeadingSpaces(s);
    ws, t := s[..k], s[SubjectStart(s)..];
    if SubjectStart(s) == k {
      sign := [];
      assert s == ws + t;
    } else {
      sign := [s[k]];
      assert s == ws + ([s[k]] + t);
    }
  }

  /** A conversion that consumes something found a digit at the subject. */
  lemma SubjectHasDigits(s: seq<char>)
    requires StrToUll(s).consumed > 0
    ensures LeadingDigits(s[SubjectStart(s)..]) > 0
  {
    assert StrToUll(s) == ConvertSubject(s[SubjectStart(s)..], SubjectStart(s), Negative(s));
  }

  /** Every conversion comes from white space, an optional sign, a run of
      digits and a rest that does not start with a digit; `endptr` lies right
      after the digits and the value is their signed value. */
  lemma ConversionShape(s: seq<char>) returns (ws: seq<char>, sign: seq<char>, ds: seq<char>, rest: seq<char>)
    requires StrToUll(s).consumed > 0
    ensures s == ws + (sign + (ds + rest))
    ensures forall k :: 0 <= k < |ws| ==> IsSpace(ws[k])
    ensures IsSign(sign) && |ds| >= 1 && AllDigits(ds) && (rest == [] || !IsDigit(rest[0]))
    ensures StrToUll(s).consumed == |ws| + |sign| + |ds|
    ensures StrToUll(s).overflow <==> DigitsValue(ds) > ULLONG_MAX
    ensures StrToUll(s).value as nat == SignedValue(sign, ds)
  {
    var t;
    ws, sign, t := SubjectParts(s);
    SubjectHasDigits(s);
    var nd := LeadingDigits(t);
    ds, rest := t[..nd], t[nd..];
    assert t == ds + rest;
    assert s == ws + (sign + (ds + rest));
    SignedNumeral(ws, sign, ds, rest);
  }

  /** The numeral made of k nines. */
  function Nines(k: nat): (s: seq<char>)
    ensures |s| == k && AllDigits(s)
  {
    seq(k, _ => '9')
  }

  function Pow10(k: nat): (p: nat)
    ensures p >= 1
  {
    if k == 0 then 1 else 10 * Pow10(k - 1)
  }

  /** k nines denote 10^k - 1. */
  lemma {:induction false} NinesValue(k: nat)
    ensures DigitsValue(Nines(k)) == Pow10(k) - 1
  {
    if k > 0 {
      assert Nines(k)[..k - 1] == Nines(k - 1);
      NinesValue(k - 1);
    }
  }
}
