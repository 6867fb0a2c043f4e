/** The command-line size parser (`process_opts`): turns the optional first
    argument into a byte count held in a 64-bit `size_t`. */
module SizeParser {

  /** An optional value, used for the unit table. */
  datatype Option<T> = None | Some(value: T)

  /** 2^64: `size_t` arithmetic wraps modulo this. */
  const SIZE_MODULUS: nat := 0x1_0000_0000_0000_0000

  /** The largest value `std::stoi` returns without throwing (32-bit `int`). */
  const INT_MAX: nat := 0x7FFF_FFFF

  const ONE_GIG: nat := 1000 * 1000 * 1000

  /** Size used when no (or an empty) argument is given: 8 GB. */
  const DEFAULT_SIZE: nat := 8 * ONE_GIG

  type SizeT = x: int | 0 <= x < 0x1_0000_0000_0000_0000

  /** What `process_opts` hands back: its boolean return value ("failed")
      and the value it leaves in its `size` out-parameter. */
  datatype Opts = Opts(failed: bool, size: SizeT)

  // ---------------------------------------------------------------------
  // Characters
  // ---------------------------------------------------------------------

  /** Command-line arguments are C strings: every character is one byte. */
  predicate IsByteString(s: string)
  {
    forall i :: 0 <= i < |s| ==> s[i] as int < 256
  }

  predicate IsDigit(c: char)
  {
    '0' <= c <= '9'
  }

  /** The value a byte has as a (signed) C++ `char` on the usual x86/x86-64
      ABI: bytes 0x80..0xFF are negative. */
  function SignedChar(c: char): int
    requires c as int < 256
  {
    if c as int < 128 then c as int else c as int - 256
  }

  // ---------------------------------------------------------------------
  // std::stoi on its success path
  // ---------------------------------------------------------------------

  /** Length of the longest prefix of `s` made of decimal digits. */
  function DigitRun(s: string): (n: nat)
    ensures n <= |s|
    ensures forall i :: 0 <= i < n ==> IsDigit(s[i])
    ensures n < |s| ==> !IsDigit(s[n])
  {
    if |s| == 0 || !IsDigit(s[0]) then 0 else 1 + DigitRun(s[1..])
  }

  function DigitValue(c: char): nat
    requires IsDigit(c)
  {
    c as int - '0' as int
  }

  /** Value of a string of decimal digits, most significant first. */
  function DecimalValue(ds: string): nat
    requires forall i :: 0 <= i < |ds| ==> IsDigit(ds[i])
  {
    if |ds| == 0 then 0
    else 10 * DecimalValue(ds[..|ds| - 1]) + DigitValue(ds[|ds| - 1])
  }

  /** `std::stoi(s)` returns without throwing: `s` starts with a digit and its
      leading digit run denotes a value that fits in an `int`. */
  predicate StoiDefined(s: string)
  {
    |s| > 0 && IsDigit(s[0]) && DecimalValue(s[..DigitRun(s)]) <= INT_MAX
  }

  /** `std::stoi(s)`: the value of the leading run of digits; parsing stops
      at the first non-digit. */
  function Stoi(s: string): (r: nat)
    requires StoiDefined(s)
    ensures r <= INT_MAX
  {
    DecimalValue(s[..DigitRun(s)])
  }

  // ---------------------------------------------------------------------
  // Units and the fall-through multiplication cascade
  // ---------------------------------------------------------------------

  function Pow1000(k: nat): nat
  {
    if k == 0 then 1 else 1000 * Pow1000(k - 1)
  }

  /** The unit letters and the power of 1000 each stands for. */
  function UnitPower(c: char): Option<nat>
  {
    match c
    case 'k' | 'K' => Some(1)
    case 'm' | 'M' => Some(2)
    case 'g' | 'G' => Some(3)
    case 't' | 'T' => Some(4)
    case 'p' | 'P' => Some(5)
    case 'e' | 'E' => Some(6)
    case _ => None
  }

  /** The case labels of the `switch`: a unit letter enters the cascade of
      `size *= 1000` steps at its own depth, `'1'` enters at the `break`. */
  function SwitchPower(suffix: char): Option<nat>
  {
    if suffix == '1' then Some(0) else UnitPower(suffix)
  }

  /** `k` successive `size *= 1000` statements on a `size_t`, each wrapping.
      Since 1000 = 8 * 125 and 2^64 is a multiple of 16, a single step leaves
      a multiple of 8 (of 16 exactly when the size was even), and two or
      more steps always leave a multiple of 16, wrapped or not. */
  function Scale(size: SizeT, k: nat): (r: SizeT)
    ensures k >= 1 ==> r % 8 == 0
    ensures k == 1 ==> (r % 16 == 0 <==> size % 2 == 0)
    ensures k >= 2 ==> r % 16 == 0
  {
    if k == 0 then size
    else
      var prev := Scale(size, k - 1);
      TimesThousandModSixteen(prev);
      (prev * 1000) % SIZE_MODULUS
  }

  /** `x` written as `k` wraps of 2^64 plus a remainder `u` in range leaves
      `u` modulo 2^64. */
  lemma WrapRemainder(x: int, k: int, u: int)
    requires x == k * 0x1_0000_0000_0000_0000 + u && 0 <= u < 0x1_0000_0000_0000_0000
    ensures x % SIZE_MODULUS == u
  {
  }

  /** Division by 16 with remainder, read backwards. */
  lemma SixteenRemainder(x: int, k: int, u: int)
    requires x == 16 * k + u && 0 <= u < 16
    ensures x % 16 == u && x % 8 == u % 8
  {
  }

  /** One wrapping `* 1000` leaves 8 or 0 modulo 16, by the parity of its
      operand. */
  lemma TimesThousandModSixteen(a: nat)
    ensures var r := (a * 1000) % SIZE_MODULUS;
      && r % 16 == (a % 2) * 8
      && r % 8 == 0
      && (a % 8 == 0 ==> r % 16 == 0)
  {
    var b, odd := a / 2, a % 2;
    var q, r := (a * 1000) / 0x1_0000_0000_0000_0000, (a * 1000) % 0x1_0000_0000_0000_0000;
    assert a * 1000 == q * 0x1_0000_0000_0000_0000 + r;
    WrapRemainder(a * 1000, q, r);
    assert a == 2 * b + odd;
    var k := 125 * b + 62 * odd - q * 0x1000_0000_0000_0000;
    assert r == 16 * k + 8 * odd;
    SixteenRemainder(r, k, 8 * odd);
    if a % 8 == 0 {
      assert a == 2 * (4 * (a / 8));
      assert odd == 0;
    }
  }

  /** Reducing the size modulo 2^64 before a `* 1000` does not change the
      product modulo 2^64. */
  lemma TimesThousandMod(a: int)
    ensures ((a % SIZE_MODULUS) * 1000) % SIZE_MODULUS == (a * 1000) % SIZE_MODULUS
  {
    var q, r := a / 0x1_0000_0000_0000_0000, a % 0x1_0000_0000_0000_0000;
    var t, u := (r * 1000) / 0x1_0000_0000_0000_0000, (r * 1000) % 0x1_0000_0000_0000_0000;
    assert a == q * 0x1_0000_0000_0000_0000 + r;
    assert r * 1000 == t * 0x1_0000_0000_0000_0000 + u;
    WrapRemainder(r * 1000, t, u);
    WrapRemainder(a * 1000, q * 1000 + t, u);
  }

  /** The wrapping cascade is one multiplication by 1000^k modulo 2^64. */
  lemma {:induction false} ScaleIsPower(size: SizeT, k: nat)
    ensures Scale(size, k) == (size * Pow1000(k)) % SIZE_MODULUS
  {
    if k > 0 {
      var power := Pow1000(k - 1);
      assert Pow1000(k) == power * 1000;
      ScaleIsPower(size, k - 1);
      TimesThousandMod(size * power);
      ThousandFoldsIn(size, power);
    }
  }

  /** Multiplying by 1000 can be done before or after multiplying by `y`. */
  lemma ThousandFoldsIn(x: int, y: int)
    ensures x * (y * 1000) == (x * y) * 1000
  {
  }

  // ---------------------------------------------------------------------
  // process_opts, as written
  // ---------------------------------------------------------------------

  /** The test on the last character at line 30, `suffix < '0' && suffix <= '9'`;
      its second half is implied by its first. */
  function StripsSuffix(c: char): (r: bool)
    requires c as int < 256
    ensures r <==> c as int < '0' as int || 128 <= c as int
    ensures r ==> !IsDigit(c)
  {
    SignedChar(c) < '0' as int && SignedChar(c) <= '9' as int
  }

  function LastChar(arg: string): char
    requires |arg| > 0
  {
    arg[|arg| - 1]
  }

  /** The string handed to `stoi`: the argument, minus its last character when
      that character is stripped. Stripping never changes what `stoi` reads,
      since the stripped character is not a digit. */
  function StoiInput(arg: string): (r: string)
    requires |arg| > 0 && IsByteString(arg)
    ensures r <= arg && |arg| - 1 <= |r|
    ensures r[..DigitRun(r)] == arg[..DigitRun(arg)]
    ensures StoiDefined(r) <==> StoiDefined(arg)
  {
    if StripsSuffix(LastChar(arg)) then
      var front := arg[..|arg| - 1];
      assert arg == front + [LastChar(arg)];
      DigitRunDropsNonDigit(front, LastChar(arg));
      front
    else arg
  }

  /** A trailing non-digit does not change the digit run. */
  lemma {:induction false} DigitRunDropsNonDigit(s: string, c: char)
    requires !IsDigit(c)
    ensures DigitRun(s + [c]) == DigitRun(s)
  {
    if |s| > 0 && IsDigit(s[0]) {
      assert (s + [c])[1..] == s[1..] + [c];
      DigitRunDropsNonDigit(s[1..], c);
    }
  }

  /** What the parser needs from `argv` for `stoi` not to throw. */
  predicate ArgParsable(argv: seq<string>)
  {
    |argv| <= 1 || argv[1] == [] ||
    (IsByteString(argv[1]) && StoiDefined(StoiInput(argv[1])))
  }

  /** `process_opts(argc, argv, size)` with `argc == |argv|`. */
  function ProcessOpts(argv: seq<string>): (r: Opts)
    requires ArgParsable(argv)
    ensures (|argv| <= 1 || argv[1] == []) ==> r == Opts(false, 8_000_000_000)
    ensures r.failed ==> r.size == 0
    ensures r.failed ==> |argv| > 1 && argv[1] != [] && SwitchPower(LastChar(argv[1])) == None
  {
    if |argv| <= 1 || argv[1] == [] then Opts(false, DEFAULT_SIZE)
    else
      var arg := argv[1];
      var suffix := if StripsSuffix(LastChar(arg)) then '1' else LastChar(arg);
      var size := Stoi(StoiInput(arg));
      match SwitchPower(suffix)
      case Some(k) => Opts(false, Scale(size, k))
      case None => Opts(true, 0)
  }

  /** The four ways a non-empty argument is read, by its last character. */
  lemma ProcessOptsByLastChar(argv: seq<string>)
    requires ArgParsable(argv) && |argv| > 1 && argv[1] != []
    ensures var arg, c := argv[1], LastChar(argv[1]);
      && (UnitPower(c).Some? ==>
            ProcessOpts(argv) == Opts(false, (Stoi(arg) * Pow1000(UnitPower(c).value)) % SIZE_MODULUS))
      && (SignedChar(c) < '0' as int ==>
            ProcessOpts(argv) == Opts(false, Stoi(arg[..|arg| - 1])))
      && (c == '1' ==> ProcessOpts(argv) == Opts(false, Stoi(arg)))
      && (UnitPower(c).None? && c != '1' && SignedChar(c) >= '0' as int ==>
            ProcessOpts(argv) == Opts(true, 0))
  {
    var arg, c := argv[1], LastChar(argv[1]);
    if UnitPower(c).Some? {
      ScaleIsPower(Stoi(arg), UnitPower(c).value);
    }
    if c == '1' {
      assert Scale(Stoi(arg), 0) == Stoi(arg);
    }
  }

  // ---------------------------------------------------------------------
  // Decimal rendering, and stoi reading it back
  // ---------------------------------------------------------------------

  function DigitChar(d: nat): char
    requires d < 10
  {
    ('0' as int + d) as char
  }

  /** The decimal rendering of `n` (no leading zeros). */
  function Decimal(n: nat): (s: string)
    ensures |s| > 0
    ensures forall i :: 0 <= i < |s| ==> IsDigit(s[i])
  {
    if n < 10 then [DigitChar(n)] else Decimal(n / 10) + [DigitChar(n % 10)]
  }

  lemma {:induction false} DecimalValueOfDecimal(n: nat)
    ensures DecimalValue(Decimal(n)) == n
  {
    if n >= 10 {
      var s := Decimal(n);
      assert s[..|s| - 1] == Decimal(n / 10);
      DecimalValueOfDecimal(n / 10);
    }
  }

  lemma {:induction false} DigitRunOfDigits(ds: string, t: string)
    requires forall i :: 0 <= i < |ds| ==> IsDigit(ds[i])
    requires t == [] || !IsDigit(t[0])
    ensures DigitRun(ds + t) == |ds|
  {
    if |ds| > 0 {
      assert (ds + t)[1..] == ds[1..] + t;
      DigitRunOfDigits(ds[1..], t);
    }
  }

  /** `stoi` reads back the decimal rendering of any `int`-sized number,
      whatever non-digit text follows it. */
  lemma StoiOfDecimal(n: nat, t: string)
    requires n <= INT_MAX
    requires t == [] || !IsDigit(t[0])
    ensures StoiDefined(Decimal(n) + t) && Stoi(Decimal(n) + t) == n
  {
    var s := Decimal(n) + t;
    DigitRunOfDigits(Decimal(n), t);
    assert s[..DigitRun(s)] == Decimal(n);
    DecimalValueOfDecimal(n);
  }

  // ---------------------------------------------------------------------
  // The digit test at line 30, as written and as evidently intended
  // ---------------------------------------------------------------------

  /** The last character of a decimal rendering is the units digit. */
  lemma DecimalLastDigit(n: nat)
    ensures LastChar(Decimal(n)) == DigitChar(n % 10)
  {
  }

  /** As written, a bare number is accepted only when its last digit is 1;
      every other number is rejected as carrying an unknown unit. */
  lemma AsWrittenPlainNumber(prog: string, n: nat)
    requires n <= INT_MAX
    ensures ArgParsable([prog, Decimal(n)])
    ensures ProcessOpts([prog, Decimal(n)]) == if n % 10 == 1 then Opts(false, n) else Opts(true, 0)
  {
    var arg := Decimal(n);
    StoiOfDecimal(n, []);
    assert arg + [] == arg;
    DecimalLastDigit(n);
    var c := LastChar(arg);
    assert IsDigit(c) && !StripsSuffix(c) && UnitPower(c) == None;
    assert c == '1' <==> n % 10 == 1;
  }

  /** As written, a number followed by a unit letter is scaled by that unit's
      power of 1000, wrapping modulo 2^64. */
  lemma AsWrittenUnits(prog: string, n: nat, unit: char)
    requires n <= INT_MAX && UnitPower(unit).Some?
    ensures ArgParsable([prog, Decimal(n) + [unit]])
    ensures ProcessOpts([prog, Decimal(n) + [unit]])
      == Opts(false, (n * Pow1000(UnitPower(unit).value)) % SIZE_MODULUS)
  {
    var arg := Decimal(n) + [unit];
    StoiOfDecimal(n, [unit]);
    assert LastChar(arg) == unit && !StripsSuffix(unit);
    ScaleIsPower(n, UnitPower(unit).value);
  }

  /** As written, a number followed by a character below '0' (a space, a
      '.', a '-', ...) loses that character and is read as the bare number. */
  lemma AsWrittenTrailingMark(prog: string, n: nat, mark: char)
    requires n <= INT_MAX && mark as int < '0' as int
    ensures ArgParsable([prog, Decimal(n) + [mark]])
    ensures ProcessOpts([prog, Decimal(n) + [mark]]) == Opts(false, n)
  {
    var arg := Decimal(n) + [mark];
    assert LastChar(arg) == mark && StripsSuffix(mark);
    assert StoiInput(arg) == Decimal(n) + [];
    StoiOfDecimal(n, []);
    assert Scale(n, 0) == n;
  }

  /** As written, a number followed by a letter outside the unit table fails. */
  lemma AsWrittenUnknownLetter(prog: string, n: nat, letter: char)
    requires n <= INT_MAX && 'A' <= letter <= 'z' && UnitPower(letter).None?
    ensures ArgParsable([prog, Decimal(n) + [letter]])
    ensures ProcessOpts([prog, Decimal(n) + [letter]]) == Opts(true, 0)
  {
    var arg := Decimal(n) + [letter];
    StoiOfDecimal(n, [letter]);
    assert LastChar(arg) == letter && !StripsSuffix(letter);
  }

  /** `process_opts` with the digit test it evidently meant: a final digit
      means "no unit", any other final character must be a unit letter. */
  function ProcessOptsIntended(argv: seq<string>): (r: Opts)
    requires |argv| <= 1 || argv[1] == [] || StoiDefined(argv[1])
    ensures (|argv| <= 1 || argv[1] == []) ==> r == Opts(false, 8_000_000_000)
    ensures r.failed ==> r.size == 0
  {
    if |argv| <= 1 || argv[1] == [] then Opts(false, DEFAULT_SIZE)
    else
      var arg := argv[1];
      var size := Stoi(arg);
      if IsDigit(LastChar(arg)) then Opts(false, size)
      else
        match UnitPower(LastChar(arg))
        case Some(k) => Opts(false, Scale(size, k))
        case None => Opts(true, 0)
  }

  /** With the intended digit test every `int`-sized number round-trips,
      bare or followed by a unit letter. */
  lemma IntendedRoundTrip(prog: string, n: nat, unit: char)
    requires n <= INT_MAX
    ensures StoiDefined(Decimal(n)) && ProcessOptsIntended([prog, Decimal(n)]) == Opts(false, n)
    ensures UnitPower(unit).Some? ==>
      StoiDefined(Decimal(n) + [unit]) &&
      ProcessOptsIntended([prog, Decimal(n) + [unit]])
        == Opts(false, (n * Pow1000(UnitPower(unit).value)) % SIZE_MODULUS)
  {
    StoiOfDecimal(n, []);
    assert Decimal(n) + [] == Decimal(n);
    if UnitPower(unit).Some? {
      StoiOfDecimal(n, [unit]);
      ScaleIsPower(n, UnitPower(unit).value);
    }
  }

  /** The two readings differ only on a final digit other than '1' and on a
      final character below '0': everywhere else they agree. */
  lemma IntendedAgreesElsewhere(argv: seq<string>)
    requires |argv| > 1 && argv[1] != [] && IsByteString(argv[1]) && StoiDefined(argv[1])
    requires var c := LastChar(argv[1]); (!IsDigit(c) || c == '1') && SignedChar(c) >= '0' as int
    ensures ArgParsable(argv) && ProcessOpts(argv) == ProcessOptsIntended(argv)
  {
    var c := LastChar(argv[1]);
    assert StoiInput(argv[1]) == argv[1];
    if c == '1' {
      assert Scale(Stoi(argv[1]), 0) == Stoi(argv[1]);
    } else {
      assert SwitchPower(c) == UnitPower(c);
    }
  }

  // ---------------------------------------------------------------------
  // Worked values
  // ---------------------------------------------------------------------

  /** Units are decimal and cascade. */
  lemma UnitExamples(prog: string)
    ensures ArgParsable([prog, "1k"]) && ProcessOpts([prog, "1k"]) == Opts(false, 1000)
    ensures ArgParsable([prog, "2M"]) && ProcessOpts([prog, "2M"]) == Opts(false, 2_000_000)
    ensures ArgParsable([prog, "1G"]) && ProcessOpts([prog, "1G"]) == Opts(false, 1_000_000_000)
  {
    AsWrittenUnits(prog, 1, 'k');
    assert Decimal(1) + ['k'] == "1k";
    WrapRemainder(1 * Pow1000(1), 0, 1000);
    AsWrittenUnits(prog, 2, 'M');
    assert Decimal(2) + ['M'] == "2M";
    WrapRemainder(2 * Pow1000(2), 0, 2_000_000);
    AsWrittenUnits(prog, 1, 'G');
    assert Decimal(1) + ['G'] == "1G";
    WrapRemainder(1 * Pow1000(3), 0, 1_000_000_000);
  }



  /** An unknown letter fails; as written "16" fails too, while "11" is read as 11. */
  lemma RejectionExamples(prog: string)
    ensures ArgParsable([prog, "5x"]) && ProcessOpts([prog, "5x"]) == Opts(true, 0)
    ensures ArgParsable([prog, "16"]) && ProcessOpts([prog, "16"]) == Opts(true, 0)
    ensures ArgParsable([prog, "11"]) && ProcessOpts([prog, "11"]) == Opts(false, 11)
  {
    AsWrittenUnknownLetter(prog, 5, 'x');
    assert Decimal(5) + ['x'] == "5x";
    AsWrittenPlainNumber(prog, 16);
    assert Decimal(16) == "16";
    AsWrittenPlainNumber(prog, 11);
    assert Decimal(11) == "11";
  }
}
