/** The verifier/repairer (`check_next`, `check_and_repair_mem`): one pass
    over the region compares every word with the zebra pattern and
    overwrites every mismatch with all-ones. */
module Scan {
  import opened Zebra

  /** What the pass leaves in word `i` that held `w`: a matching word is
      kept, a mismatching one becomes all-ones whatever was expected. */
  function RepairWord(w: bv64, i: nat): (r: bv64)
    ensures r == Expected(i) || r == ALL_ONES
    ensures w != Expected(i) ==> r == ALL_ONES
    ensures r != w ==> w != Expected(i)
  {
    if w == Expected(i) then w else ALL_ONES
  }

  /** The region after one pass, given the region before it. */
  function Repaired(s: seq<bv64>): (r: seq<bv64>)
    ensures |r| == |s|
    ensures forall i :: 0 <= i < |s| && s[i] == Expected(i) ==> r[i] == s[i]
    ensures forall i :: 0 <= i < |s| && s[i] != Expected(i) ==> r[i] == ALL_ONES
    ensures forall i :: 0 <= i < |s| && i % 2 == 1 ==> r[i] == ALL_ONES
    ensures forall i :: 0 <= i < |s| && i % 2 == 0 ==> r[i] == 0 || r[i] == ALL_ONES
  {
    seq(|s|, i requires 0 <= i < |s| => RepairWord(s[i], i))
  }

  /** The report, if any, that word `p` draws when it holds `w`. */
  function Report(w: bv64, p: nat): seq<nat>
  {
    if w != Expected(p) then [p] else []
  }

  /** The indices at which a pass over the first `m` words of `s` reports
      an upset, in scan order. */
  function Upsets(s: seq<bv64>, m: nat): (r: seq<nat>)
    requires m <= |s|
    ensures |r| <= m
  {
    if m == 0 then [] else Upsets(s, m - 1) + Report(s[m - 1], m - 1)
  }

  /** A pass reports every word that differs from the pattern, nothing else,
      and each once, in increasing order. */
  lemma {:induction false} UpsetsSpec(s: seq<bv64>, m: nat)
    requires m <= |s|
    ensures forall k :: k in Upsets(s, m) ==> k < m && s[k] != Expected(k)
    ensures forall k :: 0 <= k < m && s[k] != Expected(k) ==> k in Upsets(s, m)
    ensures forall a, b :: 0 <= a < b < |Upsets(s, m)| ==> Upsets(s, m)[a] < Upsets(s, m)[b]
  {
    if m > 0 {
      var prefix := Upsets(s, m - 1);
      UpsetsSpec(s, m - 1);
      assert forall a :: 0 <= a < |prefix| ==> prefix[a] < m - 1 by {
        forall a | 0 <= a < |prefix|
          ensures prefix[a] < m - 1
        {
          assert prefix[a] in prefix;
        }
      }
    }
  }

  /** A pass reports nothing exactly when the words it scans hold the pattern. */
  lemma UpsetsEmpty(s: seq<bv64>, m: nat)
    requires m <= |s|
    ensures Upsets(s, m) == [] <==> s[..m] == Pattern(m)
  {
    UpsetsSpec(s, m);
    var u := Upsets(s, m);
    if u != [] {
      assert u[0] in u;
    }
    if s[..m] != Pattern(m) {
      var i :| 0 <= i < m && s[..m][i] != Pattern(m)[i];
      assert i in u;
    }
  }

  /** The reports of a pass over the first `m` words depend on those words only. */
  lemma {:induction false} UpsetsPrefix(s: seq<bv64>, m: nat, n: nat)
    requires m <= n <= |s|
    ensures Upsets(s, m) == Upsets(s[..n], m)
  {
    if m > 0 {
      UpsetsPrefix(s, m - 1, n);
    }
  }

  /** The region part-way through a pass: the words before `p` repaired,
      the others as they were. */
  function Scanned(before: seq<bv64>, p: nat): (r: seq<bv64>)
    requires p <= |before|
    ensures |r| == |before|
  {
    seq(|before|, j requires 0 <= j < |before| => if j < p then RepairWord(before[j], j) else before[j])
  }

  /** One round of the scan, on the region and on the reports: it moves
      the pass two words on and appends the reports of those two words. */
  lemma ScanPair(before: seq<bv64>, p: nat, prev: seq<bv64>, next: seq<bv64>,
                 upsets: seq<nat>, reports: seq<nat>)
    requires p + 2 <= |before|
    requires prev == Scanned(before, p)
    requires next == prev[p := RepairWord(prev[p], p)][p + 1 := RepairWord(prev[p + 1], p + 1)]
    requires upsets == Upsets(before, p)
    requires reports == Report(prev[p], p) + Report(prev[p + 1], p + 1)
    ensures next == Scanned(before, p + 2)
    ensures upsets + reports == Upsets(before, p + 2)
  {
    assert prev[p] == before[p] && prev[p + 1] == before[p + 1];
  }

  /** What the loop of `check_and_repair_mem` has established once it has
      scanned all `n` words, restated for the scanned words as a whole: the
      reports, whether there were any, and the repaired region. */
  lemma ScanComplete(before: seq<bv64>, n: nat, upsets: seq<nat>)
    requires n <= |before|
    requires upsets == Upsets(before, n)
    ensures upsets == Upsets(before[..n], n)
    ensures |upsets| > 0 <==> before[..n] != Pattern(n)
    ensures Scanned(before, n)[..n] == Repaired(before[..n])
    ensures Scanned(before, n)[n..] == before[n..]
  {
    UpsetsPrefix(before, n, n);
    UpsetsEmpty(before, n);
  }

  /** `check_next`: compares word `p` with `expected`; on a mismatch reports
      `p`, raises the flag and overwrites the word with all-ones. No other
      word changes. */
  method CheckNext(mem: array<bv64>, p: nat, expected: bv64, seuFound: bool)
    returns (found: bool, ghost report: seq<nat>)
    requires p < mem.Length
    modifies mem
    ensures report == if old(mem[p]) != expected then [p] else []
    ensures found == (seuFound || old(mem[p]) != expected)
    ensures mem[..] == old(mem[..])[p := if old(mem[p]) == expected then old(mem[p]) else ALL_ONES]
  {
    found, report := seuFound, [];
    if mem[p] != expected {
      found, report := true, [p];
      mem[p] := ALL_ONES;
    }
  }

  /** One round of the loop in `check_and_repair_mem`: `check_next` on the
      even word `p` against 0, then on the odd word `p + 1` against
      all-ones. */
  method CheckPair(mem: array<bv64>, p: nat, seuFound: bool) returns (found: bool, ghost reports: seq<nat>)
    requires p % 2 == 0 && p + 1 < mem.Length
    modifies mem
    ensures reports == Report(old(mem[p]), p) + Report(old(mem[p + 1]), p + 1)
    ensures found == (seuFound || |reports| > 0)
    ensures mem[..] == old(mem[..])[p := RepairWord(old(mem[p]), p)][p + 1 := RepairWord(old(mem[p + 1]), p + 1)]
  {
    ghost var report;
    assert Expected(p) == 0 && Expected(p + 1) == ALL_ONES;
    found, reports := CheckNext(mem, p, 0, seuFound);
    found, report := CheckNext(mem, p + 1, ALL_ONES, found);
    reports := reports + report;
  }

  /** `check_and_repair_mem(mem, n)`: scans all `n` words, with no early
      exit, and repairs them; the result says whether any word differed
      from the pattern on entry. `upsets` lists the words it reports. */
  method CheckAndRepairMem(mem: array<bv64>, n: nat) returns (seuFound: bool, ghost upsets: seq<nat>)
    requires n % 2 == 0 && n <= mem.Length
    modifies mem
    ensures upsets == Upsets(old(mem[..n]), n)
    ensures seuFound <==> old(mem[..n]) != Pattern(n)
    ensures mem[..n] == Repaired(old(mem[..n]))
    ensures mem[n..] == old(mem[n..])
  {
    ghost var before := mem[..];
    ghost var pairs, q := n / 2, 0;
    assert n == 2 * pairs;
    seuFound, upsets := false, [];
    var p := 0;
    while p < n
      invariant p == 2 * q && q <= pairs
      invariant mem[..] == Scanned(before, p)
      invariant upsets == Upsets(before, p)
      invariant seuFound <==> |upsets| > 0
    {
      ghost var reports, prev := [], mem[..];
      seuFound, reports := CheckPair(mem, p, seuFound);
      ScanPair(before, p, prev, mem[..], upsets, reports);
      upsets := upsets + reports;
      p := p + 2;
      q := q + 1;
    }
    assert p == n;
    ScanComplete(before, n, upsets);
  }

  /** A pattern just written by `set_zebra` passes the check unreported and
      untouched. */
  lemma PatternPasses(n: nat)
    ensures Upsets(Pattern(n), n) == []
    ensures Repaired(Pattern(n)) == Pattern(n)
  {
    UpsetsEmpty(Pattern(n), n);
    assert Pattern(n)[..n] == Pattern(n);
  }

  /** Scanning the first `m` words of a region whose only mismatch is word
      `k` reports `k` once it has been passed, and nothing before. */
  lemma {:induction false} UpsetsOfOneMismatch(s: seq<bv64>, k: nat, m: nat)
    requires k < |s| && m <= |s| && s[k] != Expected(k)
    requires forall i :: 0 <= i < |s| && i != k ==> s[i] == Expected(i)
    ensures Upsets(s, m) == if k < m then [k] else []
  {
    if m > 0 {
      UpsetsOfOneMismatch(s, k, m - 1);
    }
  }

  /** One corrupted word is reported exactly once, and after the pass it
      holds all-ones whether 0 or all-ones was expected there. */
  lemma SingleUpset(n: nat, k: nat, v: bv64)
    requires k < n && v != Expected(k)
    ensures Upsets(Pattern(n)[k := v], n) == [k]
    ensures Repaired(Pattern(n)[k := v]) == Pattern(n)[k := ALL_ONES]
  {
    UpsetsOfOneMismatch(Pattern(n)[k := v], k, n);
  }

  /** A second pass reports again exactly the even-index words the first pass
      reported (their repair wrote all-ones where 0 is expected); it rewrites
      nothing, since a repaired region only holds 0 and all-ones. */
  lemma SecondPass(s: seq<bv64>)
    ensures forall k :: k in Upsets(Repaired(s), |s|) <==> k in Upsets(s, |s|) && k % 2 == 0
    ensures Repaired(Repaired(s)) == Repaired(s)
  {
    UpsetsSpec(s, |s|);
    UpsetsSpec(Repaired(s), |s|);
  }
}
