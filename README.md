# prime_detector in Dafny

A model of the command-line prime detector: `main` reads one argument,
converts it with `strtoull(argv[1], &endptr, 10)`, rejects overflow, empty
and partially-numeric input, and prints whether the value is prime, using
`is_prime`, a trial-division test over the 6k±1 wheel on `unsigned long long`.

- `word.dfy` (`Word`): `unsigned long long` as the newtype `u64`, so every
  arithmetic step the test performs is checked to stay below 2^64, and the
  constants `ULLONG_MAX` and 2^64.
- `primality.dfy` (`Primality`): the specification `Prime(n)` (n ≥ 2 and no
  divisor in [2, n−1]) and `IsPrime`, the imperative test with its loop
  `while i <= n / i … i := i + 6`, proved exact over all of `u64`. The
  lemmas justify each trick of the loop: the guard `i <= n / i` is
  `i * i <= n`; while it holds `i < 2^32`, so `i + 2` and `i + 6` cannot
  overflow; the skipped candidates are multiples of 2 or 3; the loop ends
  because `i` grows by 6 per round while the guard keeps `i + 2` below `n`
  and the bound `n / i` never grows; and once `i * i > n` no divisor is left.
- `strtoull.dfy` (`StrToUllModel`): `strtoull` with base 10 as a pure
  function following section 7.22.1.4 of ISO/IEC 9899:2011 (C11). It
  skips leading white space and accepts an optional `+` or `-`, then reads
  the longest run of decimal digits. A `-` negates the magnitude modulo 2^64.
  A magnitude above `ULLONG_MAX` gives `ULLONG_MAX` with the overflow flag
  (errno = ERANGE). No digits means no conversion (0 characters consumed).
  `endptr` is the number of characters consumed.
- `cli.dfy` (`Cli`): `main`'s decisions as `Classify`, a function from the
  argument vector to the exit code and the abstract lines written to stdout
  and stderr, and `Run`, the same steps calling the verified `IsPrime`.

The usage message asks for a positive integer, but the code does not reject
a sign: `strtoull` accepts `+` and `-`, and `main` checks only errno and
`endptr`. So `"-5"` is tested as 2^64 − 5.
The model follows the code (`Cli.MinusFiveAccepted`). The overflow check also
comes before the `endptr` check, so `"99999999999999999999x"` is reported
as too large, not as invalid (`Cli.TwentyNinesThenLetter`).

## Model

| member | source | states |
|---|---|---|
| Primality.IsPrime | main.c:47-60 | is_prime returns true exactly when n is prime (n ≥ 2, no divisor in [2, n−1]) for every 64-bit n; the loop keeps i = 6k + 5 and no divisor below i, every `i + 2` and `i + 6` stays in range, and the loop terminates (measure n − i) |
| Primality.SmallCases | main.c:48-49 | 0 and 1 are not prime; 2 and 3 are |
| Primality.MultipleOfTwoOrThreeNotPrime | main.c:50 | every n > 3 divisible by 2 or by 3 is not prime |
| Primality.DivisorNotPrime | main.c:54-55 | finding a divisor i or i + 2 below n justifies returning false |
| Primality.WheelStart | main.c:50-53 | after 2 and 3 are excluded, n has no divisor below the first candidate 5 |
| Primality.WheelStep | main.c:50-57 | the candidates between i and i + 6 other than i and i + 2 are multiples of 2 or 3, so the invariant "no divisor below i" carries over to i + 6 |
| Primality.GuardIsSquareBound | main.c:53 | for i ≥ 1, `i <= n / i` holds exactly when `i * i <= n` |
| Primality.GuardBounds | main.c:52-54 | while the guard holds for n < 2^64: i * i ≤ n, i < 2^32, i + 6 ≤ 2^64 − 1 and i + 2 < n |
| Primality.QuotientAntitone | main.c:53 | a larger i gives a bound n / i that is not larger: while i grows by 6 the right-hand side of the guard never grows |
| Primality.NoDivisorUpToRootMeansPrime | main.c:53-59 | when the loop exits (i * i > n) with no divisor below i, n is prime |
| Primality.SeventeenIsPrime | main.c:47-60 | 17 is prime |
| Primality.NinetySevenIsPrime | main.c:47-60 | 97 is prime |
| Primality.CarmichaelNotPrime | main.c:47-60 | the Carmichael number 561 is not prime |
| Primality.MaxNotPrime | main.c:47-60 | ULLONG_MAX = 2^64 − 1 is not prime |
| StrToUllModel.LeadingSpaces | main.c:25 | strtoull skips exactly the longest prefix of white-space characters |
| StrToUllModel.LeadingDigits | main.c:25 | the subject's digits are the longest run of decimal digits |
| StrToUllModel.StrToUll | main.c:25 | `endptr` lies within the string; no conversion gives 0 without ERANGE; ERANGE gives ULLONG_MAX; a conversion ends right after a digit and before a non-digit |
| StrToUllModel.NumeralConversion | main.c:25-30 | a digit string followed by a non-digit consumes exactly its digits, and sets ERANGE with ULLONG_MAX exactly when its value exceeds ULLONG_MAX, else yields that value |
| StrToUllModel.DecimalRoundTrip | main.c:25 | the decimal numeral of every 64-bit value converts back to that value, consuming all of it, without ERANGE |
| StrToUllModel.SpacedDecimalRoundTrip | main.c:25 | the numeral of every 64-bit value after one white-space character converts back to that value, consuming the space too |
| StrToUllModel.NegatedNumeral | main.c:25 | "-" followed by a numeral m in range is accepted as (2^64 − m) mod 2^64 |
| StrToUllModel.SubjectOffsetShift | main.c:25 | starting the subject one character later shifts a non-empty conversion's `endptr` by one and keeps "no conversion" at 0; value and ERANGE are unchanged |
| StrToUllModel.SubjectNumeral | main.c:25 | after the sign, a digit string followed by a non-digit is consumed exactly; ERANGE exactly when its value exceeds ULLONG_MAX; the value is ULLONG_MAX on overflow, the magnitude negated modulo 2^64 after `-`, the magnitude itself otherwise |
| StrToUllModel.SignThenNumeral | main.c:25 | a `+` or `-` followed by such a numeral is consumed with it and gives that signed value |
| StrToUllModel.SignedNumeralUnspaced | main.c:25 | no sign, `+` or `-`, then a numeral then a non-digit: `endptr` after the digits, ERANGE exactly on magnitude overflow, the signed value |
| StrToUllModel.SignedNumeral | main.c:25 | any white space, then no sign, `+` or `-`, then digits (leading zeros allowed), then anything not starting with a digit: `endptr` right after the digits, ERANGE exactly when the magnitude exceeds ULLONG_MAX, and the value ULLONG_MAX on overflow, 2^64 − m mod 2^64 after `-`, m otherwise |
| StrToUllModel.SignedNumeralComplete | main.c:25 | such an argument with nothing after the digits and a magnitude in range is converted completely, without ERANGE, to its signed value |
| StrToUllModel.NoSubjectUnspaced | main.c:25 | no digit after the optional sign (without a sign: no digit, white space or sign first): no conversion, 0, `endptr` at the start, no ERANGE |
| StrToUllModel.NoSubjectNoConversion | main.c:25 | any white space, then an optional sign, then no digit (without a sign, nothing that could start a subject): no conversion, 0, `endptr` equal to the start of the string, no ERANGE |
| StrToUllModel.SubjectParts | main.c:25 | every string splits into its leading white space, the optional sign strtoull reads (a `-` exactly when the conversion negates) and the rest from which the digits are read |
| StrToUllModel.SubjectHasDigits | main.c:25 | a conversion that consumes anything found at least one digit right after the white space and optional sign |
| StrToUllModel.ConversionShape | main.c:25 | the converse of SignedNumeral: every conversion that consumes something comes from white space, an optional sign, digits and a rest not starting with a digit, with `endptr` right after the digits, ERANGE exactly on magnitude overflow and the signed value |
| StrToUllModel.LeadingSpaceSkipped | main.c:25 | a leading white-space character shifts `endptr` of a conversion by one and changes nothing else |
| Cli.Classify | main.c:11-45 | the exit code is 0 or 1; exit 0 writes exactly one line to stdout and nothing to stderr; exit 1 writes nothing to stdout and at least one line to stderr |
| Cli.Run | main.c:11-45 | main's outcome is the one Classify describes, with the verdict computed by IsPrime |
| Cli.ExitCodeZeroIff | main.c:11-45 | exit code 0 exactly for a help flag or one argument converted completely without overflow; otherwise exit code 1 with nothing on stdout; exit 0 on a single non-help argument prints exactly the verdict on the converted value and nothing on stderr |
| Cli.HelpFlag | main.c:12-15 | `-h` or `--help` as the only argument gives usage on stdout and exit 0 |
| Cli.WrongArgumentCount | main.c:17-21 | any other argument count gives the error and usage on stderr and exit 1 |
| Cli.NumeralReachesPrimeTest | main.c:25-44 | the numeral of any 64-bit value reaches is_prime unchanged; the program prints its primality and exits 0 |
| Cli.CompleteConversion | main.c:25-44 | an argument converted completely without ERANGE is no help flag, and the program prints the primality of the converted value and exits 0 |
| Cli.SignedArgumentReachesPrimeTest | main.c:25-44 | white space, an optional `+` or `-`, and digits (leading zeros allowed) with magnitude m ≤ ULLONG_MAX reach is_prime as m, or as (2^64 − m) mod 2^64 after `-`; the program prints that verdict and exits 0 |
| Cli.OnlyWellFormedReachesPrimeTest | main.c:25-44 | the converse of SignedArgumentReachesPrimeTest: an argument other than a help flag that gives exit 0 is white space, an optional sign and an in-range numeral, and the verdict printed is on its signed value |
| Cli.ConvertedArgumentOutcome | main.c:25-44 | an argument converted at least in part is no help flag: ERANGE gives "too large", characters left after `endptr` give invalid input with usage, otherwise the verdict on the value with exit 0 |
| Cli.NoSubjectRejected | main.c:12-36 | an argument other than a help flag with no digit after its white space and optional sign is invalid input with usage, exit 1 |
| Cli.SignedArgumentRejected | main.c:25-36 | after any white space and sign, an overflowing magnitude is too large whatever follows, and an in-range numeral followed by other characters is invalid input |
| Cli.OverflowReportedFirst | main.c:27-36 | digits above ULLONG_MAX, followed by anything, are reported as too large (exit 1, no usage), before the check for leftover characters |
| Cli.TrailingCharactersRejected | main.c:32-36 | a numeral in range followed by other characters is invalid input with usage on stderr, exit 1 |
| Cli.NoDigitsRejected | main.c:32-36 | "abc" and the empty argument are invalid input |
| Cli.MinusFiveAccepted | main.c:25-44 | "-5" is not rejected: it is tested as 2^64 − 5 and exits 0 |
| Cli.TwentyNinesThenLetter | main.c:25-36 | "99999999999999999999x" is reported as too large |
| Cli.LeadingSpaceAccepted | main.c:25-44 | a numeral after a space still reaches is_prime with its own value |
| Cli.NinetySevenAndHundred | main.c:38-44 | "97" prints true and "100" prints false, both with exit 0 |

## Left out

- print_usage and the text of every message (main.c:18, 28, 33, 39-41, 62-65) are stream I/O. Each message is an abstract line (`Usage`, `ArgCountError`, `TooLarge`, `InvalidInput`, `Verdict`) in the sequence of the stream it goes to.
- errno as a global variable: it becomes the overflow flag of the conversion result.
- strtoull in locales other than "C": only ASCII white space, the signs and decimal digits are modelled.
- `endptr` is an index into the argument. Argument strings are sequences without a NUL character, as C strings are. So `*endptr != '\0'` means characters are left over.
- Cli.Run: it calls the conversion as a pure function. The digit-by-digit accumulation and overflow detection inside the C library are not modelled, only their result as C11 defines it.
- When argc is 0, argv[0] is NULL, which print_usage would print. The model only records that usage is printed.
- Primality: that 18446744073709551557 is prime is not proved. That would need evaluating about 2^32 / 3 trial divisions.
- Running time (O(√n / 3) divisions) is not modelled.
