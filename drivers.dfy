/** The driver functions of the k=3..8 scripts: load the signature sets, run
    the scan over the script's interval and assemble the computed fields of
    the saved results. */
module ClosureDrivers {
  import opened Options
  import opened Decimal
  import opened Histogram
  import opened ClosureSet
  import opened ClosureSweep
  import opened SweepProperties

  /** The computed fields of a results file: numbers tested, candidates,
      the verdict, the full violation count, the saved examples, the image
      histogram and (k=8) the observed k=9 signatures and their count. */
  datatype Report = Report(
    tested: nat,
    candidates: nat,
    closureHeld: bool,
    violationCount: nat,
    examples: seq<Violation>,
    histogram: map<int, nat>,
    observedK9: set<seq<int>>,
    observedK9Count: nat)

  /** The verdict and the saved fields at the end of a scan; the examples are
      the first `cap` violations (10 for k=3..6, 100 for k=7/8). */
  function Finalize(st: SweepState, cap: nat): (r: Report)
    ensures r.closureHeld <==> |st.violations| == 0
    ensures r.violationCount == |st.violations|
    ensures |r.examples| == if |st.violations| < cap then |st.violations| else cap
    ensures r.examples == st.violations[..|r.examples|]
    ensures r.observedK9Count == |r.observedK9|
    ensures (r.tested, r.candidates, r.histogram, r.observedK9) == (st.tested, st.candidates, st.histogram, st.observedK9)
  {
    var examples := if |st.violations| <= cap then st.violations else st.violations[..cap];
    Report(st.tested, st.candidates, |st.violations| == 0, |st.violations|, examples,
           st.histogram, st.observedK9, |st.observedK9|)
  }

  /** The saved violation fields of a scan of [lo, hi): the count is the
      number of escaping candidates, and the examples are the `cap` (or all,
      when fewer) smallest of them, in ascending order. */
  ghost predicate ReportsEscapes(r: Report, f: Flavor, gates: set<seq<int>>, closure: set<seq<int>>, lo: nat, hi: nat, cap: nat)
  {
    && r.violationCount == |EscapingIn(f, gates, closure, lo, hi)|
    && |r.examples| == (if r.violationCount < cap then r.violationCount else cap)
    && Earliest(r.examples, EscapingIn(f, gates, closure, lo, hi))
  }

  /** `distribution_images` of a scan of [lo, hi): a length is a key exactly
      when a counted candidate has an image signature of that length, and its
      count is the number of those candidates. */
  ghost predicate HistogramMatches(h: map<int, nat>, f: Flavor, gates: set<seq<int>>, closure: set<seq<int>>, lo: nat, hi: nat)
  {
    forall len ::
      && (len in h <==> CountedAt(f, gates, closure, lo, hi, len) != {})
      && (len in h ==> h[len] == |CountedAt(f, gates, closure, lo, hi, len)|)
  }

  /** The violation fields and the histogram of any finished scan. */
  lemma SweepReport(f: Flavor, gates: set<seq<int>>, closure: set<seq<int>>, lo: nat, hi: nat, cap: nat)
    ensures ReportsEscapes(Finalize(SweepFrom(f, gates, closure, lo, hi), cap), f, gates, closure, lo, hi, cap)
    ensures HistogramMatches(Finalize(SweepFrom(f, gates, closure, lo, hi), cap).histogram, f, gates, closure, lo, hi)
  {
    var st := SweepFrom(f, gates, closure, lo, hi);
    var r := Finalize(st, cap);
    ViolationCount(f, gates, closure, lo, hi);
    EarliestViolations(f, gates, closure, lo, hi, |r.examples|);
    HistogramKeys(f, gates, closure, lo, hi);
  }

  /** What the results of a k=3..6 run over [lo, hi) = [10^(k-1), 10^k) say:
      the whole interval was tested, the candidates are the numbers whose
      full signature is in S_k, the verdict holds exactly when every
      candidate's image signature is in S, the histogram counts every
      candidate at an image length k or k+1, and at most 10 sound examples
      are kept. */
  ghost predicate MirroredOutcome(r: Report, gates: set<seq<int>>, closure: set<seq<int>>, k: nat, lo: nat, hi: nat)
  {
    && r.tested == hi - lo
    && r.candidates == |CandidatesIn(Mirrored, gates, lo, hi)|
    && (r.closureHeld <==>
          forall n: nat :: lo <= n < hi && IsCandidate(Mirrored, gates, n) ==> ImageOf(Mirrored, n) in closure)
    && Total(r.histogram) == r.candidates
    && (forall key :: key in r.histogram ==> key == k || key == k + 1)
    && |r.examples| <= 10
    && (forall v :: v in r.examples ==> RecordsViolation(Mirrored, gates, closure, v))
    && ReportsEscapes(r, Mirrored, gates, closure, lo, hi, 10)
    && HistogramMatches(r.histogram, Mirrored, gates, closure, lo, hi)
  }

  lemma MirroredFacts(gates: set<seq<int>>, closure: set<seq<int>>, k: nat, lo: nat, hi: nat)
    requires 1 <= k && lo == Pow10(k - 1) && hi == Pow10(k)
    ensures MirroredOutcome(Finalize(SweepFrom(Mirrored, gates, closure, lo, hi), 10), gates, closure, k, lo, hi)
  {
    Pow10Monotone(k - 1, k);
    var st := SweepFrom(Mirrored, gates, closure, lo, hi);
    SweepCounts(Mirrored, gates, closure, lo, hi);
    CandidateCount(Mirrored, gates, closure, lo, hi);
    ClosureVerdict(Mirrored, gates, closure, lo, hi);
    HistogramBalance(Mirrored, gates, closure, lo, hi);
    MirroredHistogramKeys(gates, closure, k, lo, hi);
    ViolationsSound(Mirrored, gates, closure, lo, hi);
    SweepReport(Mirrored, gates, closure, lo, hi, 10);
    var report := Finalize(st, 10);
    assert forall v :: v in report.examples ==> v in st.violations;
  }

  /** `verifier_fermeture_k{3,4,5,6}_exhaustif()` for k = 3..6: the k-digit
      numbers [10^(k-1), 10^k) against S_k. None when a stored half cannot be
      rebuilt (the script stops with an IndexError). */
  method VerifyMirrored(halves: StoredHalves, k: nat) returns (r: Option<Report>)
    requires 1 <= k
    ensures r.None? <==> PortesOfLength(halves, k).None? || AllPortes(halves).None?
    ensures r.Some? ==> r.value == Finalize(SweepFrom(Mirrored, PortesOfLength(halves, k).value, AllPortes(halves).value, Pow10(k - 1), Pow10(k)), 10)
    ensures r.Some? ==> MirroredOutcome(r.value, PortesOfLength(halves, k).value, AllPortes(halves).value, k, Pow10(k - 1), Pow10(k))
  {
    var gates := ExtractPortesOfLength(halves, k);
    if gates.None? {
      return None;
    }
    var closure := ExtractAllPortes(halves);
    if closure.None? {
      return None;
    }
    var st := RunMirroredSweep(gates.value, closure.value, Pow10(k - 1), Pow10(k));
    MirroredFacts(gates.value, closure.value, k, Pow10(k - 1), Pow10(k));
    r := Some(Finalize(st, 10));
  }

  /** What the results of the k=7 run over [lo, hi) say: hi - lo numbers tested, the
      candidates are the numbers whose signature is in K7, the verdict holds
      exactly when every candidate's image signature is in S, each candidate
      is either one histogram count (always at length 4) or one violation,
      and at most 100 sound examples are kept. */
  ghost predicate K7Outcome(r: Report, gates: set<seq<int>>, closure: set<seq<int>>, lo: nat, hi: nat)
  {
    && r.tested == hi - lo
    && r.candidates == |CandidatesIn(K7, gates, lo, hi)|
    && (r.closureHeld <==>
          forall n: nat :: lo <= n < hi && IsCandidate(K7, gates, n) ==> ImageOf(K7, n) in closure)
    && Total(r.histogram) + r.violationCount == r.candidates
    && (forall key :: key in r.histogram ==> key == 4)
    && |r.examples| <= 100
    && (forall v :: v in r.examples ==> RecordsViolation(K7, gates, closure, v))
    && ReportsEscapes(r, K7, gates, closure, lo, hi, 100)
    && HistogramMatches(r.histogram, K7, gates, closure, lo, hi)
  }

  lemma K7Facts(gates: set<seq<int>>, closure: set<seq<int>>, lo: nat, hi: nat)
    requires lo <= hi
    ensures K7Outcome(Finalize(SweepFrom(K7, gates, closure, lo, hi), 100), gates, closure, lo, hi)
  {
    var st := SweepFrom(K7, gates, closure, lo, hi);
    SweepCounts(K7, gates, closure, lo, hi);
    CandidateCount(K7, gates, closure, lo, hi);
    ClosureVerdict(K7, gates, closure, lo, hi);
    HistogramBalance(K7, gates, closure, lo, hi);
    CompressedHistogramKeys(K7, gates, closure, lo, hi);
    ViolationsSound(K7, gates, closure, lo, hi);
    SweepReport(K7, gates, closure, lo, hi, 100);
    var report := Finalize(st, 100);
    assert report.tested == st.tested && report.candidates == st.candidates && report.histogram == st.histogram;
    assert report.violationCount == |st.violations| && (report.closureHeld <==> |st.violations| == 0);
    assert forall v :: v in report.examples ==> v in st.violations;
  }

  /** `verifier_fermeture_k7_correct()`: the seven-digit numbers
      [1 000 000, 10 000 000) against K7, 9 000 000 numbers tested.
      None when no K7 file was loaded (the script stops with a KeyError). */
  method VerifyK7(files: GateFiles) returns (r: Option<Report>)
    ensures r.None? <==> 7 !in files
    ensures r.Some? ==> r.value == Finalize(SweepFrom(K7, GatesByLength(files)[7], AllGates(files), 1_000_000, 10_000_000), 100)
    ensures r.Some? ==> K7Outcome(r.value, GatesByLength(files)[7], AllGates(files), 1_000_000, 10_000_000)
  {
    var toutesPortes, portesParK := LoadGates(files);
    if 7 !in portesParK {
      return None;
    }
    var st := RunK7Sweep(portesParK[7], toutesPortes, 1_000_000, 10_000_000);
    K7Facts(portesParK[7], toutesPortes, 1_000_000, 10_000_000);
    r := Some(Finalize(st, 100));
  }

  /** What the results of the k=8 run over [lo, hi) say: hi - lo numbers tested, the
      candidates are the numbers whose signature is in K8, the verdict holds
      exactly when every candidate's image signature is in S or has length 5,
      every candidate is one histogram count (at length 4 or 5), the observed
      k=9 signatures are exactly the length-5 misses and are counted, and at
      most 100 sound examples are kept, none of length 5. */
  ghost predicate K8Outcome(r: Report, gates: set<seq<int>>, closure: set<seq<int>>, lo: nat, hi: nat)
  {
    && r.tested == hi - lo
    && r.candidates == |CandidatesIn(K8, gates, lo, hi)|
    && (r.closureHeld <==>
          forall n: nat :: lo <= n < hi && IsCandidate(K8, gates, n) ==>
            ImageOf(K8, n) in closure || |ImageOf(K8, n)| == 5)
    && Total(r.histogram) == r.candidates
    && (forall key :: key in r.histogram ==> key == 4 || key == 5)
    && r.observedK9 == NineImages(K8, gates, closure, lo, hi)
    && r.observedK9Count == |r.observedK9|
    && |r.examples| <= 100
    && (forall v :: v in r.examples ==> RecordsViolation(K8, gates, closure, v) && |v.imagePorte| != 5)
    && ReportsEscapes(r, K8, gates, closure, lo, hi, 100)
    && HistogramMatches(r.histogram, K8, gates, closure, lo, hi)
  }

  lemma K8Facts(gates: set<seq<int>>, closure: set<seq<int>>, lo: nat, hi: nat)
    requires lo <= hi
    ensures K8Outcome(Finalize(SweepFrom(K8, gates, closure, lo, hi), 100), gates, closure, lo, hi)
  {
    var st := SweepFrom(K8, gates, closure, lo, hi);
    SweepCounts(K8, gates, closure, lo, hi);
    CandidateCount(K8, gates, closure, lo, hi);
    K8ViolationsNotNine(gates, closure, lo, hi);
    HistogramBalance(K8, gates, closure, lo, hi);
    CompressedHistogramKeys(K8, gates, closure, lo, hi);
    ObservedK9(K8, gates, closure, lo, hi);
    ViolationsSound(K8, gates, closure, lo, hi);
    SweepReport(K8, gates, closure, lo, hi, 100);
    var report := Finalize(st, 100);
    assert forall v :: v in report.examples ==> v in st.violations;
  }

  /** `verifier_fermeture_k8()`: the eight-digit numbers
      [10 000 000, 100 000 000) against K8, 90 000 000 tested, with the
      length-5 misses kept apart. None when no K8 file was loaded. */
  method VerifyK8(files: GateFiles) returns (r: Option<Report>)
    ensures r.None? <==> 8 !in files
    ensures r.Some? ==> r.value == Finalize(SweepFrom(K8, GatesByLength(files)[8], AllGates(files), 10_000_000, 100_000_000), 100)
    ensures r.Some? ==> K8Outcome(r.value, GatesByLength(files)[8], AllGates(files), 10_000_000, 100_000_000)
  {
    var toutesPortes, portesParK := LoadGates(files);
    if 8 !in portesParK {
      return None;
    }
    var st := RunK8Sweep(portesParK[8], toutesPortes, 10_000_000, 100_000_000);
    K8Facts(portesParK[8], toutesPortes, 10_000_000, 100_000_000);
    r := Some(Finalize(st, 100));
  }
}
