/** The exhaustive closure sweep shared by the k=3..8 scripts: every n of an
    interval is tested; when its signature lies in the candidate set the
    signature of T(n) is looked up in the closure set S, misses are recorded
    and a histogram of image signature lengths is kept.

    The three variants differ only in the signature convention and in what a
    candidate contributes:
    - Mirrored (k=3..6): full mirrored signatures; the histogram is bumped
      for every candidate, hit or miss.
    - K7: compressed signatures; a miss is a violation, only a hit bumps the
      histogram, and the record keeps the image's digit count.
    - K8: compressed signatures; every candidate bumps the histogram, and a
      miss of length 5 (a nine-digit image) is set aside as an observed k=9
      signature instead of a violation. */
module ClosureSweep {
  import opened Options
  import opened Decimal
  import opened Porte
  import opened Histogram

  datatype Flavor = Mirrored | K7 | K8

  /** The signature the candidate test looks up (`calculer_porte_k3`,
      `calculer_porte`, `calculer_porte_k7`, `calculer_porte_k8`). */
  function CandidatePorte(f: Flavor, n: nat): (r: Option<seq<int>>)
    ensures f == Mirrored ==> r == Some(FullPorte(Digits(n)))
    ensures f != Mirrored ==> (r.Some? <==> NumDigits(n) == if f == K7 then 7 else 8)
    ensures f != Mirrored && r.Some? ==> r.value == CompressedPorte(Digits(n))
  {
    match f
    case Mirrored => Some(FullPorte(Digits(n)))
    case K7 => PorteK7(n)
    case K8 => PorteK8(n)
  }

  /** The signature of an image: full form for k=3..6, `calculer_porte_generale`
      for k=7/8. */
  function ImagePorte(f: Flavor, m: nat): seq<int>
  {
    if f == Mirrored then FullPorte(Digits(m)) else CompressedPorte(Digits(m))
  }

  /** The signature of T(n). Since T(n) has as many digits as n or one
      more, a full signature has n's digit count w or w + 1 entries and a
      compressed one (w + 1) / 2 or (w + 2) / 2. */
  function ImageOf(f: Flavor, n: nat): (r: seq<int>)
    ensures f == Mirrored ==> |r| == NumDigits(n) || |r| == NumDigits(n) + 1
    ensures f != Mirrored ==> |r| == (NumDigits(n) + 1) / 2 || |r| == (NumDigits(n) + 2) / 2
  {
    ImagePorte(f, ReverseAndAdd(n))
  }

  /** `porte_n in S_k` / `porte_n in portes_k7` (a None signature is in no set). */
  predicate IsCandidate(f: Flavor, candidates: set<seq<int>>, n: nat)
  {
    CandidatePorte(f, n).Some? && CandidatePorte(f, n).value in candidates
  }

  /** A candidate whose image signature is a violation: outside S, and for
      k=8 not of length 5. */
  predicate Escapes(f: Flavor, closure: set<seq<int>>, n: nat)
  {
    ImageOf(f, n) !in closure && !(f == K8 && |ImageOf(f, n)| == 5)
  }

  /** A candidate that bumps the histogram: every candidate, except for k=7
      where only a hit (image signature in S) is counted. */
  predicate Counted(f: Flavor, candidates: set<seq<int>>, closure: set<seq<int>>, n: nat)
  {
    IsCandidate(f, candidates, n) && (f != K7 || ImageOf(f, n) in closure)
  }

  /** A violation record: n, its signature, T(n), for k=7 the digit count of
      T(n) (`k_image`), and the signature of T(n). */
  datatype Violation = Violation(n: nat, porte: seq<int>, image: nat, imageLength: Option<nat>, imagePorte: seq<int>)

  /** The loop variables of the scan. */
  datatype SweepState = SweepState(
    tested: nat,
    candidates: nat,
    violations: seq<Violation>,
    histogram: map<int, nat>,
    observedK9: set<seq<int>>)

  const Initial := SweepState(0, 0, [], map[], {})

  /** The record written for candidate n. */
  function RecordOf(f: Flavor, candidates: set<seq<int>>, n: nat): Violation
    requires IsCandidate(f, candidates, n)
  {
    var image := ReverseAndAdd(n);
    Violation(n, CandidatePorte(f, n).value, image, if f == K7 then Some(NumDigits(image)) else None, ImagePorte(f, image))
  }

  /** The violation list after n: one record more for an escaping candidate. */
  function StepViolations(f: Flavor, candidates: set<seq<int>>, closure: set<seq<int>>, vs: seq<Violation>, n: nat): seq<Violation>
  {
    if IsCandidate(f, candidates, n) && Escapes(f, closure, n) then vs + [RecordOf(f, candidates, n)] else vs
  }

  /** The histogram after n: bumped at the image signature length for every
      candidate, except for a k=7 candidate that misses S. */
  function StepHistogram(f: Flavor, candidates: set<seq<int>>, closure: set<seq<int>>, h: map<int, nat>, n: nat): map<int, nat>
  {
    if Counted(f, candidates, closure, n) then Bump(h, |ImageOf(f, n)|) else h
  }

  /** The k=9 signatures after n: a k=8 candidate missing S with a length-5
      image signature adds it. */
  function StepObserved(f: Flavor, candidates: set<seq<int>>, closure: set<seq<int>>, o: set<seq<int>>, n: nat): set<seq<int>>
  {
    if f == K8 && IsCandidate(f, candidates, n) && ImageOf(f, n) !in closure && |ImageOf(f, n)| == 5 then o + {ImageOf(f, n)} else o
  }

  /** One iteration of the scan, on number n. */
  function Step(f: Flavor, candidates: set<seq<int>>, closure: set<seq<int>>, st: SweepState, n: nat): SweepState
  {
    SweepState(
      st.tested + 1,
      st.candidates + (if IsCandidate(f, candidates, n) then 1 else 0),
      StepViolations(f, candidates, closure, st.violations, n),
      StepHistogram(f, candidates, closure, st.histogram, n),
      StepObserved(f, candidates, closure, st.observedK9, n))
  }

  /** The state after scanning lo, lo+1, ..., hi-1 in ascending order
      (`for n in range(lo, hi)`). */
  function SweepFrom(f: Flavor, candidates: set<seq<int>>, closure: set<seq<int>>, lo: nat, hi: nat): SweepState
    decreases hi
  {
    if hi <= lo then Initial
    else Step(f, candidates, closure, SweepFrom(f, candidates, closure, lo, hi - 1), hi - 1)
  }

  /** The scan loop of the k=3..6 scripts over [lo, hi): full signatures,
      the histogram bumped for every candidate. */
  method RunMirroredSweep(candidateSet: set<seq<int>>, closure: set<seq<int>>, lo: nat, hi: nat)
    returns (st: SweepState)
    ensures st == SweepFrom(Mirrored, candidateSet, closure, lo, hi)
  {
    var tested := 0;
    var candidates := 0;
    var violations: seq<Violation> := [];
    var histogram: map<int, nat> := map[];
    var n := lo;
    while n < hi
      invariant lo <= n && (n <= hi || n == lo)
      invariant SweepState(tested, candidates, violations, histogram, {}) == SweepFrom(Mirrored, candidateSet, closure, lo, n)
    {
      tested := tested + 1;
      var porte := ComputeFullPorte(n);
      if porte in candidateSet {
        candidates := candidates + 1;
        var image := ReverseAndAdd(n);
        var imagePorte := ComputeFullPorte(image);
        if imagePorte !in closure {
          violations := violations + [Violation(n, porte, image, None, imagePorte)];
        }
        histogram := Bump(histogram, |imagePorte|);
      }
      n := n + 1;
    }
    st := SweepState(tested, candidates, violations, histogram, {});
  }

  /** The scan loop of the k=7 script: a miss is a violation recording the
      image's digit count, a hit bumps the histogram. */
  method RunK7Sweep(candidateSet: set<seq<int>>, closure: set<seq<int>>, lo: nat, hi: nat)
    returns (st: SweepState)
    ensures st == SweepFrom(K7, candidateSet, closure, lo, hi)
  {
    var tested := 0;
    var candidates := 0;
    var violations: seq<Violation> := [];
    var histogram: map<int, nat> := map[];
    var n := lo;
    while n < hi
      invariant lo <= n && (n <= hi || n == lo)
      invariant SweepState(tested, candidates, violations, histogram, {}) == SweepFrom(K7, candidateSet, closure, lo, n)
    {
      tested := tested + 1;
      var porte := PorteK7(n);
      if porte.Some? && porte.value in candidateSet {
        candidates := candidates + 1;
        var image := ReverseAndAdd(n);
        var imagePorte := ComputeGeneralPorte(image);
        if imagePorte !in closure {
          violations := violations + [Violation(n, porte.value, image, Some(NumDigits(image)), imagePorte)];
        } else {
          histogram := Bump(histogram, |imagePorte|);
        }
      }
      n := n + 1;
    }
    st := SweepState(tested, candidates, violations, histogram, {});
  }

  /** The scan loop of the k=8 script: every candidate bumps the histogram; a
      miss of length 5 is kept as an observed k=9 signature, any other miss is
      a violation. */
  method RunK8Sweep(candidateSet: set<seq<int>>, closure: set<seq<int>>, lo: nat, hi: nat)
    returns (st: SweepState)
    ensures st == SweepFrom(K8, candidateSet, closure, lo, hi)
  {
    var tested := 0;
    var candidates := 0;
    var violations: seq<Violation> := [];
    var histogram: map<int, nat> := map[];
    var observedK9: set<seq<int>> := {};
    var n := lo;
    while n < hi
      invariant lo <= n && (n <= hi || n == lo)
      invariant SweepState(tested, candidates, violations, histogram, observedK9) == SweepFrom(K8, candidateSet, closure, lo, n)
    {
      assert SweepFrom(K8, candidateSet, closure, lo, n + 1)
        == Step(K8, candidateSet, closure, SweepState(tested, candidates, violations, histogram, observedK9), n);
      tested := tested + 1;
      var porte := PorteK8(n);
      if porte.Some? && porte.value in candidateSet {
        candidates := candidates + 1;
        var image := ReverseAndAdd(n);
        var imagePorte := ComputeGeneralPorte(image);
        assert imagePorte == ImageOf(K8, n);
        histogram := Bump(histogram, |imagePorte|);
        if imagePorte !in closure {
          if |imagePorte| == 5 {
            observedK9 := observedK9 + {imagePorte};
          } else {
            violations := violations + [Violation(n, porte.value, image, None, imagePorte)];
          }
        }
      }
      n := n + 1;
    }
    st := SweepState(tested, candidates, violations, histogram, observedK9);
  }
}
