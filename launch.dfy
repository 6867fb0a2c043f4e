/** The start-up decisions of `main` before the memory is touched: parse the
    size, reject a size that is not a whole number of 16-byte word pairs, and
    derive the word count that `set_zebra` and `check_and_repair_mem` use. */
module Launch {
  import opened SizeParser
  import opened Zebra
  import opened Scan

  /** How start-up ends: with exit status 1, or with a region of `sizeByte`
      bytes, that is `words` 64-bit words, to allocate and watch. */
  datatype Start = Exit(status: int) | Run(sizeByte: SizeT, words: nat)

  /** `main` up to the allocation: a failed parse or a size that is not a
      multiple of 16 exits with status 1; otherwise the region has
      `size_byte / 8` words. */
  function Startup(argv: seq<string>): (r: Start)
    requires ArgParsable(argv)
    ensures r.Exit? <==> ProcessOpts(argv).failed || ProcessOpts(argv).size % 16 != 0
    ensures r.Exit? ==> r.status == 1
    ensures r.Run? ==> r.sizeByte == ProcessOpts(argv).size && r.words * 8 == r.sizeByte
    ensures r.Run? ==> r.words % 2 == 0
  {
    var opts := ProcessOpts(argv);
    if opts.failed then Exit(1)
    else if opts.size % 16 != 0 then Exit(1)
    else
      WholePairs(opts.size);
      Run(opts.size, opts.size / 8)
  }

  /** A size that is a multiple of 16 bytes is an even number of 8-byte words. */
  lemma WholePairs(s: nat)
    requires s % 16 == 0
    ensures s == 16 * (s / 16) && (s / 8) * 8 == s && (s / 8) % 2 == 0
  {
  }

  /** As written, no number written with digits only starts the program:
      the parser accepts only one ending in 1, which is odd and fails the
      16-byte rule. */
  lemma {:induction false} NoBareNumberStarts(prog: string, n: nat)
    requires n <= INT_MAX
    ensures ArgParsable([prog, Decimal(n)]) && Startup([prog, Decimal(n)]) == Exit(1)
  {
    AsWrittenPlainNumber(prog, n);
    if n % 10 == 1 {
      assert n == 10 * (n / 10) + 1;
      assert n % 2 == 1;
    }
  }

  /** A number followed by a character below '0' starts the program exactly
      when the number is a multiple of 16: the mark is dropped and the
      number read bare. */
  lemma {:induction false} MarkedNumberStartup(prog: string, n: nat, mark: char)
    requires n <= INT_MAX && mark as int < '0' as int
    ensures ArgParsable([prog, Decimal(n) + [mark]])
    ensures Startup([prog, Decimal(n) + [mark]]).Run? <==> n % 16 == 0
  {
    AsWrittenTrailingMark(prog, n, mark);
  }

  /** "1600 " starts the program: the trailing space is dropped and 1600
      bytes, a multiple of 16, are read. */
  lemma {:induction false} StartupWithTrailingSpace(prog: string)
    ensures ArgParsable([prog, "1600 "]) && Startup([prog, "1600 "]) == Run(1600, 200)
  {
    AsWrittenTrailingMark(prog, 1600, ' ');
    assert Decimal(1600) + [' '] == "1600 ";
  }

  /** "16x1" starts the program: `stoi` stops at the 'x', and the final '1'
      selects no scaling. */
  lemma {:induction false} StartupEndingInOne(prog: string)
    ensures ArgParsable([prog, "16x1"]) && Startup([prog, "16x1"]) == Run(16, 2)
  {
    StoiOfDecimal(16, "x1");
    assert Decimal(16) + "x1" == "16x1";
    assert Scale(16, 0) == 16;
  }


  /** A number with a unit letter starts the program exactly when the scaled
      size is a multiple of 16: always for M, G, T, P and E, and for k only
      when the number is even. */
  lemma {:induction false} UnitStartup(prog: string, n: nat, unit: char)
    requires n <= INT_MAX && UnitPower(unit).Some?
    ensures ArgParsable([prog, Decimal(n) + [unit]])
    ensures Startup([prog, Decimal(n) + [unit]]).Run? <==> UnitPower(unit).value >= 2 || n % 2 == 0
  {
    AsWrittenUnits(prog, n, unit);
    ScaleIsPower(n, UnitPower(unit).value);
  }

  /** Without an argument the program watches 8 GB, that is 10^9 words. */
  lemma DefaultStartup(prog: string)
    ensures Startup([prog]) == Run(8_000_000_000, 1_000_000_000)
    ensures Startup([prog, ""]) == Run(8_000_000_000, 1_000_000_000)
  {
  }

  /** A unit-suffixed size is accepted exactly when its scaled value is a
      multiple of 16; "1k" (1000 bytes) is not, "2k" is. */
  lemma {:induction false} StartupWithUnits(prog: string)
    ensures ArgParsable([prog, "1k"]) && Startup([prog, "1k"]) == Exit(1)
    ensures ArgParsable([prog, "2k"]) && Startup([prog, "2k"]) == Run(2000, 250)
  {
    AsWrittenUnits(prog, 1, 'k');
    assert Decimal(1) + ['k'] == "1k";
    AsWrittenUnits(prog, 2, 'k');
    assert Decimal(2) + ['k'] == "2k";
  }

  /** `set_zebra` followed by a first `check_and_repair_mem` with nothing
      disturbing the region in between: the check reports no upset and
      leaves the pattern as it was. */
  method InitializeThenCheck(mem: array<bv64>, n: nat) returns (seuFound: bool)
    requires n % 2 == 0 && n <= mem.Length
    modifies mem
    ensures !seuFound
    ensures mem[..n] == Pattern(n) && mem[n..] == old(mem[n..])
  {
    SetZebra(mem, n);
    ghost var upsets;
    seuFound, upsets := CheckAndRepairMem(mem, n);
    PatternPasses(n);
  }

  /** Two presses of return with nothing disturbing the region in between:
      the second check reports again exactly the even words the first one
      reported (their repair wrote all-ones where 0 belongs) and changes
      nothing further. */
  method CheckTwice(mem: array<bv64>, n: nat)
    returns (first: bool, second: bool, ghost upsets1: seq<nat>, ghost upsets2: seq<nat>)
    requires n % 2 == 0 && n <= mem.Length
    modifies mem
    ensures upsets1 == Upsets(old(mem[..n]), n)
    ensures upsets2 == Upsets(Repaired(old(mem[..n])), n)
    ensures forall k :: k in upsets2 <==> k in upsets1 && k % 2 == 0
    ensures second ==> first
    ensures mem[..n] == Repaired(old(mem[..n])) && mem[n..] == old(mem[n..])
  {
    ghost var start := mem[..n];
    first, upsets1 := CheckAndRepairMem(mem, n);
    ghost var middle := mem[..n];
    second, upsets2 := CheckAndRepairMem(mem, n);
    SecondPass(start);
    if second {
      UpsetsEmpty(middle, n);
      UpsetsSpec(middle, n);
      assert middle[..n] == middle;
      assert upsets2[0] in upsets2;
    }
  }
}
