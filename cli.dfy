/** The argument handling of `main`: which exit code it returns and what it
    writes to which stream, for every argument vector. */
module Cli {
  import opened Word
  import opened Primality
  import opened StrToUllModel

  /** A C string: argv entries end at their NUL terminator, which is not part
      of the sequence, so `*endptr != '\0'` means characters are left over. */
  type CString = s: seq<char> | '\0' !in s

  /** What the program writes, one item per message (the exact text is not modelled). */
  datatype Line =
    | Usage               // print_usage: the two usage lines
    | ArgCountError       // "Incorrect number of arguments."
    | TooLarge            // "Number is too large (maximum ULLONG_MAX)."
    | InvalidInput        // "Invalid input. ..."
    | Verdict(prime: bool) // "true" or "false"

  /** Exit code of main together with everything written to stdout and stderr. */
  datatype Outcome = Outcome(exitCode: int, stdout: seq<Line>, stderr: seq<Line>)

  predicate IsHelpFlag(a: seq<char>) {
    a == "-h" || a == "--help"
  }

  /** The outcome of `main(argc, argv)` with argc == |args|, argv[0] the
      program name, and the prime test given by its specification. Success
      writes one line to stdout only; failure writes to stderr only. */
  function Classify(args: seq<CString>): (o: Outcome)
    ensures o.exitCode == 0 || o.exitCode == 1
    ensures o.exitCode == 0 ==> |o.stdout| == 1 && o.stderr == []
    ensures o.exitCode == 1 ==> o.stdout == [] && o.stderr != []
  {
    if |args| == 2 && IsHelpFlag(args[1]) then
      Outcome(0, [Usage], [])
    else if |args| != 2 then
      Outcome(1, [], [ArgCountError, Usage])
    else
      var c := StrToUll(args[1]);
      if c.overflow then
        Outcome(1, [], [TooLarge])
      else if c.consumed == 0 || c.consumed < |args[1]| then
        Outcome(1, [], [InvalidInput, Usage])
      else
        Outcome(0, [Verdict(Prime(c.value as nat))], [])
  }

  /** main: parse the one argument and run is_prime on it. */
  method Run(args: seq<CString>) returns (o: Outcome)
    ensures o == Classify(args)
  {
    if |args| == 2 && IsHelpFlag(args[1]) {
      return Outcome(0, [Usage], []);
    }
    if |args| != 2 {
      return Outcome(1, [], [ArgCountError, Usage]);
    }
    var c := StrToUll(args[1]);
    if c.overflow {
      return Outcome(1, [], [TooLarge]);
    }
    if c.consumed == 0 || c.consumed < |args[1]| {
      return Outcome(1, [], [InvalidInput, Usage]);
    }
    var p := IsPrime(c.value);
    return Outcome(0, [Verdict(p)], []);
  }

  /** The program succeeds exactly for a help flag or for one argument that
      converts completely without overflow; then it prints the verdict on the
      converted value and nothing on stderr. */
  lemma ExitCodeZeroIff(args: seq<CString>)
    ensures Classify(args).exitCode == 0 <==>
      |args| == 2 && (IsHelpFlag(args[1]) ||
        (var c := StrToUll(args[1]); !c.overflow && 0 < c.consumed == |args[1]|))
    ensures |args| == 2 && !IsHelpFlag(args[1]) && Classify(args).exitCode == 0 ==>
      Classify(args) == Outcome(0, [Verdict(Prime(StrToUll(args[1]).value as nat))], [])
  {
  }

  /** -h or --help as the one argument: usage on stdout, exit 0 (main.c:12-15). */
  lemma HelpFlag(args: seq<CString>)
    requires |args| == 2 && IsHelpFlag(args[1])
    ensures Classify(args) == Outcome(0, [Usage], [])
  {
  }

  /** Any other argument count: error and usage on stderr, exit 1 (main.c:17-21). */
  lemma WrongArgumentCount(args: seq<CString>)
    requires |args| != 2
    ensures Classify(args) == Outcome(1, [], [ArgCountError, Usage])
  {
  }

  /** The decimal numeral of any 64-bit value reaches is_prime unchanged, and
      the program prints whether that value is prime (main.c:38-44). */
  lemma NumeralReachesPrimeTest(program: CString, n: u64)
    ensures '\0' !in ToDecimal(n as nat)
    ensures Classify([program, ToDecimal(n as nat)]) == Outcome(0, [Verdict(Prime(n as nat))], [])
  {
    var ds := ToDecimal(n as nat);
    assert IsDigit(ds[0]);
    DecimalRoundTrip(n);
  }

  /** Every argument strtoull converts completely and in range (white space,
      an optional sign, digits with any leading zeros) reaches is_prime with
      its signed value: a minus sign wraps modulo 2^64. */
  lemma SignedArgumentReachesPrimeTest(program: CString, a: CString, ws: seq<char>, sign: seq<char>, ds: seq<char>)
    requires a == ws + (sign + ds)
    requires forall k :: 0 <= k < |ws| ==> IsSpace(ws[k])
    requires IsSign(sign) && |ds| >= 1 && AllDigits(ds) && DigitsValue(ds) <= ULLONG_MAX
    ensures Classify([program, a]) == Outcome(0, [Verdict(Prime(SignedValue(sign, ds)))], [])
  {
    SignedNumeralComplete(a, ws, sign, ds);
    CompleteConversion(program, a);
  }

  /** Only an argument made of white space, an optional sign and an in-range
      numeral reaches is_prime: every other argument that is no help flag
      ends with exit code 1. */
  lemma OnlyWellFormedReachesPrimeTest(program: CString, a: CString) returns (ws: seq<char>, sign: seq<char>, ds: seq<char>)
    requires !IsHelpFlag(a) && Classify([program, a]).exitCode == 0
    ensures a == ws + (sign + ds)
    ensures forall k :: 0 <= k < |ws| ==> IsSpace(ws[k])
    ensures IsSign(sign) && |ds| >= 1 && AllDigits(ds) && DigitsValue(ds) <= ULLONG_MAX
    ensures Classify([program, a]) == Outcome(0, [Verdict(Prime(SignedValue(sign, ds)))], [])
  {
    var rest;
    ws, sign, ds, rest := ConversionShape(a);
    assert |rest| == 0;
    assert ds + rest == ds;
    CompleteConversion(program, a);
  }

  /** An argument that strtoull converts completely without overflow ends in
      a digit, so it is no help flag, and the program prints the verdict on
      the converted value. */
  lemma CompleteConversion(program: CString, a: CString)
    requires var c := StrToUll(a); !c.overflow && 0 < c.consumed == |a|
    ensures Classify([program, a]) == Outcome(0, [Verdict(Prime(StrToUll(a).value as nat))], [])
  {
    assert IsDigit(a[|a| - 1]);
  }

  /** Overflow is reported before trailing characters: digits denoting more
      than ULLONG_MAX followed by anything are "too large" (main.c:27-36). */
  lemma OverflowReportedFirst(program: CString, ds: CString, rest: CString)
    requires |ds| >= 1 && AllDigits(ds) && DigitsValue(ds) > ULLONG_MAX
    requires rest == [] || !IsDigit(rest[0])
    ensures '\0' !in ds + rest
    ensures Classify([program, ds + rest]) == Outcome(1, [], [TooLarge])
  {
    assert IsDigit((ds + rest)[0]);
    NumeralConversion(ds, rest);
  }

  /** A numeral in range followed by other characters is invalid input (main.c:32-36). */
  lemma TrailingCharactersRejected(program: CString, ds: CString, rest: CString)
    requires |ds| >= 1 && AllDigits(ds) && DigitsValue(ds) <= ULLONG_MAX
    requires rest != [] && !IsDigit(rest[0])
    ensures '\0' !in ds + rest
    ensures Classify([program, ds + rest]) == Outcome(1, [], [InvalidInput, Usage])
  {
    assert IsDigit((ds + rest)[0]);
    NumeralConversion(ds, rest);
  }

  /** A leading minus sign is not rejected: "-5" is tested as 2^64 - 5. */
  lemma MinusFiveAccepted(program: CString)
    ensures Classify([program, "-5"]) == Outcome(0, [Verdict(Prime(TWO_64 - 5))], [])
  {
    assert "-5" == ['-'] + "5";
    NegatedNumeral("5");
  }

  /** Twenty nines followed by 'x': reported as too large, not as invalid. */
  lemma TwentyNinesThenLetter(program: CString)
    ensures Classify([program, Nines(20) + "x"]) == Outcome(1, [], [TooLarge])
  {
    NinesValue(20);
    assert Pow10(5) == 100_000;
    assert Pow10(10) == 10_000_000_000;
    assert Pow10(15) == 1_000_000_000_000_000;
    assert Pow10(20) == 100_000_000_000_000_000_000;
    OverflowReportedFirst(program, Nines(20), "x");
  }

  /** Input with no digits, and the empty argument, are invalid input. */
  lemma NoDigitsRejected(program: CString)
    ensures Classify([program, "abc"]) == Outcome(1, [], [InvalidInput, Usage])
    ensures Classify([program, ""]) == Outcome(1, [], [InvalidInput, Usage])
  {
    assert !IsDigit("abc"[0]);
    assert LeadingSpaces("abc") == 0;
  }

  /** An argument with no digit after its white space and optional sign is
      invalid input, unless it is a help flag (main.c:12-15, 32-36). */
  lemma NoSubjectRejected(program: CString, a: CString, ws: seq<char>, sign: seq<char>, rest: seq<char>)
    requires a == ws + (sign + rest) && !IsHelpFlag(a)
    requires forall k :: 0 <= k < |ws| ==> IsSpace(ws[k])
    requires IsSign(sign) && (rest == [] || !IsDigit(rest[0]))
    requires sign == [] ==> rest == [] || (!IsSpace(rest[0]) && rest[0] != '+' && rest[0] != '-')
    ensures Classify([program, a]) == Outcome(1, [], [InvalidInput, Usage])
  {
    NoSubjectNoConversion(ws, sign, rest);
  }

  /** After any white space and sign, an overflowing magnitude is too large
      whatever follows it, and an in-range numeral followed by other
      characters is invalid input (main.c:27-36). */
  lemma SignedArgumentRejected(program: CString, a: CString, ws: seq<char>, sign: seq<char>, ds: seq<char>, rest: seq<char>)
    requires a == ws + (sign + (ds + rest))
    requires forall k :: 0 <= k < |ws| ==> IsSpace(ws[k])
    requires IsSign(sign) && |ds| >= 1 && AllDigits(ds) && (rest == [] || !IsDigit(rest[0]))
    ensures DigitsValue(ds) > ULLONG_MAX ==> Classify([program, a]) == Outcome(1, [], [TooLarge])
    ensures DigitsValue(ds) <= ULLONG_MAX && rest != [] ==>
      Classify([program, a]) == Outcome(1, [], [InvalidInput, Usage])
  {
    SignedNumeral(ws, sign, ds, rest);
    ConvertedArgumentOutcome(program, a);
  }

  /** An argument strtoull converts at least in part is no help flag; its
      outcome depends only on ERANGE and on what is left after `endptr`. */
  lemma ConvertedArgumentOutcome(program: CString, a: CString)
    requires StrToUll(a).consumed > 0
    ensures var c := StrToUll(a);
      Classify([program, a]) ==
        if c.overflow then Outcome(1, [], [TooLarge])
        else if c.consumed < |a| then Outcome(1, [], [InvalidInput, Usage])
        else Outcome(0, [Verdict(Prime(c.value as nat))], [])
  {
    assert IsDigit(a[StrToUll(a).consumed - 1]);
  }

  /** White space before the numeral is skipped by strtoull, so the value
      still reaches is_prime. */
  lemma LeadingSpaceAccepted(program: CString, n: u64)
    ensures '\0' !in [' '] + ToDecimal(n as nat)
    ensures Classify([program, [' '] + ToDecimal(n as nat)]) == Outcome(0, [Verdict(Prime(n as nat))], [])
  {
    var a := [' '] + ToDecimal(n as nat);
    assert a[0] == ' ';
    SpacedDecimalRoundTrip(' ', n);
  }

  /** "97" prints true and "100" prints false, both with exit code 0. */
  lemma NinetySevenAndHundred(program: CString)
    ensures Classify([program, "97"]) == Outcome(0, [Verdict(true)], [])
    ensures Classify([program, "100"]) == Outcome(0, [Verdict(false)], [])
  {
    assert ToDecimal(97) == "97";
    assert ToDecimal(100) == "100";
    NumeralReachesPrimeTest(program, 97);
    NumeralReachesPrimeTest(program, 100);
    NinetySevenIsPrime();
    DivisorNotPrime(100, 2);
  }
}
