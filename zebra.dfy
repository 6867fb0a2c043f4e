/** The zebra pattern and its initializer (`set_zebra`): the memory region,
    seen as 64-bit words, alternates an all-zero word and an all-ones word. */
module Zebra {

  /** `(uint64_t) -1`. */
  const ALL_ONES: bv64 := 0xFFFF_FFFF_FFFF_FFFF

  /** The word the pattern puts at index `i`, which `check_and_repair_mem`
      compares word `i` with: 0 at even indices, all-ones at odd ones. */
  function Expected(i: nat): bv64
  {
    if i % 2 == 0 then 0 else ALL_ONES
  }

  /** The expected words alternate between exactly two values: 0 at even
      indices and all-ones at odd ones. */
  lemma ExpectedAlternates(i: nat)
    ensures Expected(i) == 0 <==> i % 2 == 0
    ensures Expected(i) == ALL_ONES <==> i % 2 == 1
    ensures Expected(i + 1) != Expected(i)
  {
  }

  /** The first `n` words of the pattern. */
  function Pattern(n: nat): (z: seq<bv64>)
    ensures |z| == n
    ensures forall i :: 0 <= i < n && i % 2 == 0 ==> z[i] == 0
    ensures forall i :: 0 <= i < n && i % 2 == 1 ==> z[i] == ALL_ONES
  {
    seq(n, i requires 0 <= i => Expected(i))
  }

  /** `set_zebra(mem, n)`: walks the first `n` words two at a time, writing
      0 then all-ones; `n` is even and no word past `n` is written. */
  method SetZebra(mem: array<bv64>, n: nat)
    requires n % 2 == 0 && n <= mem.Length
    modifies mem
    ensures mem[..n] == Pattern(n)
    ensures mem[n..] == old(mem[n..])
  {
    var p := 0;
    while p < n
      invariant p % 2 == 0 && p <= n
      invariant forall j :: 0 <= j < p ==> mem[j] == Expected(j)
      invariant forall j :: p <= j < mem.Length ==> mem[j] == old(mem[j])
    {
      ExpectedAlternates(p);
      mem[p] := 0;
      p := p + 1;
      mem[p] := ALL_ONES;
      p := p + 1;
    }
  }
}
