/** What a completed sweep means: its counters, the violation list, the
    histogram and the set of observed k=9 signatures, each characterised over
    the scanned interval independently of the order of the updates. */
module SweepProperties {
  import opened Options
  import opened Decimal
  import opened Histogram
  import opened ClosureSweep

  /** The numbers of [lo, hi) whose signature is in the candidate set. */
  ghost function CandidatesIn(f: Flavor, candidates: set<seq<int>>, lo: nat, hi: nat): set<nat>
  {
    set n: nat | lo <= n < hi && IsCandidate(f, candidates, n)
  }

  /** v is the record the scan writes for a candidate n that escapes S. */
  ghost predicate RecordsViolation(f: Flavor, candidates: set<seq<int>>, closure: set<seq<int>>, v: Violation)
  {
    && IsCandidate(f, candidates, v.n)
    && Escapes(f, closure, v.n)
    && v.porte == CandidatePorte(f, v.n).value
    && v.image == ReverseAndAdd(v.n)
    && v.imagePorte == ImagePorte(f, v.image)
    && v.imageLength == (if f == K7 then Some(NumDigits(v.image)) else None)
  }

  /** `nombres_testes` counts the whole interval, and the candidate counter
      counts exactly the numbers whose signature is in the candidate set. */
  lemma {:induction false} SweepCounts(f: Flavor, candidates: set<seq<int>>, closure: set<seq<int>>, lo: nat, hi: nat)
    ensures SweepFrom(f, candidates, closure, lo, hi).tested == if hi <= lo then 0 else hi - lo
    ensures SweepFrom(f, candidates, closure, lo, hi).candidates <= SweepFrom(f, candidates, closure, lo, hi).tested
    decreases hi
  {
    if hi > lo {
      SweepCounts(f, candidates, closure, lo, hi - 1);
    }
  }

  lemma CandidatesInStep(f: Flavor, candidates: set<seq<int>>, lo: nat, hi: nat)
    requires lo < hi
    ensures hi - 1 !in CandidatesIn(f, candidates, lo, hi - 1)
    ensures CandidatesIn(f, candidates, lo, hi) ==
      CandidatesIn(f, candidates, lo, hi - 1) + (if IsCandidate(f, candidates, hi - 1) then {hi - 1} else {})
  {
    var c, c0 := CandidatesIn(f, candidates, lo, hi), CandidatesIn(f, candidates, lo, hi - 1);
    forall n ensures n in c <==> n in c0 || (n == hi - 1 && IsCandidate(f, candidates, n)) {
    }
  }

  lemma {:induction false} CandidateCount(f: Flavor, candidates: set<seq<int>>, closure: set<seq<int>>, lo: nat, hi: nat)
    ensures SweepFrom(f, candidates, closure, lo, hi).candidates == |CandidatesIn(f, candidates, lo, hi)|
    decreases hi
  {
    if hi > lo {
      CandidateCount(f, candidates, closure, lo, hi - 1);
      CandidatesInStep(f, candidates, lo, hi);
    } else {
      assert CandidatesIn(f, candidates, lo, hi) == {};
    }
  }

  /** Every violation record is the record of an escaping candidate of the
      interval. */
  lemma {:induction false} ViolationsSound(f: Flavor, candidates: set<seq<int>>, closure: set<seq<int>>, lo: nat, hi: nat)
    ensures forall v :: v in SweepFrom(f, candidates, closure, lo, hi).violations ==>
      lo <= v.n < hi && RecordsViolation(f, candidates, closure, v)
    decreases hi
  {
    if hi > lo {
      ViolationsSound(f, candidates, closure, lo, hi - 1);
      var vs0 := SweepFrom(f, candidates, closure, lo, hi - 1).violations;
      var vs := SweepFrom(f, candidates, closure, lo, hi).violations;
      assert vs == StepViolations(f, candidates, closure, vs0, hi - 1);
      if IsCandidate(f, candidates, hi - 1) && Escapes(f, closure, hi - 1) {
        var r := RecordOf(f, candidates, hi - 1);
        assert RecordsViolation(f, candidates, closure, r);
        assert vs == vs0 + [r];
      }
    }
  }

  /** The records are in strictly ascending order of n. */
  ghost predicate Ascending(vs: seq<Violation>)
  {
    forall i, j :: 0 <= i < j < |vs| ==> vs[i].n < vs[j].n
  }

  /** The records are in ascending order of n: each number is reported at
      most once. */
  lemma {:induction false} ViolationsAscending(f: Flavor, candidates: set<seq<int>>, closure: set<seq<int>>, lo: nat, hi: nat)
    ensures forall v :: v in SweepFrom(f, candidates, closure, lo, hi).violations ==> lo <= v.n < hi
    ensures Ascending(SweepFrom(f, candidates, closure, lo, hi).violations)
    decreases hi
  {
    if hi > lo {
      ViolationsAscending(f, candidates, closure, lo, hi - 1);
      var vs0 := SweepFrom(f, candidates, closure, lo, hi - 1).violations;
      var vs := SweepFrom(f, candidates, closure, lo, hi).violations;
      assert vs == StepViolations(f, candidates, closure, vs0, hi - 1);
      if IsCandidate(f, candidates, hi - 1) && Escapes(f, closure, hi - 1) {
        var r := RecordOf(f, candidates, hi - 1);
        assert vs == vs0 + [r];
        forall i, j | 0 <= i < j < |vs| ensures vs[i].n < vs[j].n {
          assert vs[i] == vs0[i] && vs0[i] in vs0;
          if j < |vs0| {
            assert vs[j] == vs0[j];
          } else {
            assert vs[j] == r;
          }
        }
      }
    }
  }

  /** The numbers a violation list is about. */
  ghost function Reported(vs: seq<Violation>): set<nat>
  {
    set v | v in vs :: v.n
  }

  /** The candidates of [lo, hi) whose image escapes S. */
  ghost function EscapingIn(f: Flavor, candidates: set<seq<int>>, closure: set<seq<int>>, lo: nat, hi: nat): set<nat>
  {
    set n: nat | lo <= n < hi && IsCandidate(f, candidates, n) && Escapes(f, closure, n)
  }

  lemma EscapingInStep(f: Flavor, candidates: set<seq<int>>, closure: set<seq<int>>, lo: nat, hi: nat)
    requires lo < hi
    ensures EscapingIn(f, candidates, closure, lo, hi) ==
      EscapingIn(f, candidates, closure, lo, hi - 1)
      + (if IsCandidate(f, candidates, hi - 1) && Escapes(f, closure, hi - 1) then {hi - 1} else {})
  {
    var e, e0 := EscapingIn(f, candidates, closure, lo, hi), EscapingIn(f, candidates, closure, lo, hi - 1);
    forall n ensures n in e <==> n in e0 || (n == hi - 1 && IsCandidate(f, candidates, n) && Escapes(f, closure, n)) {
    }
  }

  lemma ReportedAppend(vs: seq<Violation>, r: Violation)
    ensures Reported(vs + [r]) == Reported(vs) + {r.n}
  {
    assert forall v :: v in vs + [r] <==> v in vs || v == r;
  }

  /** The numbers reported are exactly the escaping candidates of the
      interval. */
  lemma {:induction false} ViolationsComplete(f: Flavor, candidates: set<seq<int>>, closure: set<seq<int>>, lo: nat, hi: nat)
    ensures Reported(SweepFrom(f, candidates, closure, lo, hi).violations) == EscapingIn(f, candidates, closure, lo, hi)
    decreases hi
  {
    if hi > lo {
      ViolationsComplete(f, candidates, closure, lo, hi - 1);
      EscapingInStep(f, candidates, closure, lo, hi);
      var vs0 := SweepFrom(f, candidates, closure, lo, hi - 1).violations;
      if IsCandidate(f, candidates, hi - 1) && Escapes(f, closure, hi - 1) {
        ReportedAppend(vs0, RecordOf(f, candidates, hi - 1));
      }
    } else {
      assert EscapingIn(f, candidates, closure, lo, hi) == {};
    }
  }

  /** Dropping the last record keeps a list ascending, and the last record's
      number is not among the others. */
  lemma AscendingInit(vs: seq<Violation>)
    requires Ascending(vs) && |vs| > 0
    ensures Ascending(vs[..|vs| - 1])
    ensures vs[|vs| - 1].n !in Reported(vs[..|vs| - 1])
  {
    var vs0 := vs[..|vs| - 1];
    forall v | v in vs0 ensures v.n < vs[|vs| - 1].n {
      var i :| 0 <= i < |vs0| && vs0[i] == v;
      assert vs[i] == v;
    }
  }

  /** An ascending list reports as many distinct numbers as it has records. */
  lemma {:induction false} AscendingDistinct(vs: seq<Violation>)
    requires Ascending(vs)
    ensures |Reported(vs)| == |vs|
    decreases |vs|
  {
    if |vs| > 0 {
      var vs0 := vs[..|vs| - 1];
      assert vs == vs0 + [vs[|vs| - 1]];
      AscendingInit(vs);
      AscendingDistinct(vs0);
      ReportedAppend(vs0, vs[|vs| - 1]);
    } else {
      assert Reported(vs) == {};
    }
  }

  /** `'violations': len(violations)`: the saved count is the number of
      escaping candidates of the interval. */
  lemma ViolationCount(f: Flavor, candidates: set<seq<int>>, closure: set<seq<int>>, lo: nat, hi: nat)
    ensures |SweepFrom(f, candidates, closure, lo, hi).violations| == |EscapingIn(f, candidates, closure, lo, hi)|
  {
    ViolationsAscending(f, candidates, closure, lo, hi);
    ViolationsComplete(f, candidates, closure, lo, hi);
    AscendingDistinct(SweepFrom(f, candidates, closure, lo, hi).violations);
  }

  /** vs lists, in ascending order, numbers of `escaping`, and no number of
      `escaping` it leaves out is smaller than one it lists: vs are the |vs|
      smallest members of `escaping`. */
  ghost predicate Earliest(vs: seq<Violation>, escaping: set<nat>)
  {
    && Ascending(vs)
    && Reported(vs) <= escaping
    && (forall v, n :: v in vs && n in escaping && n !in Reported(vs) ==> v.n < n)
  }

  /** A prefix of an ascending list holds its smallest numbers. */
  lemma PrefixEarliest(vs: seq<Violation>, m: nat)
    requires Ascending(vs)
    requires m <= |vs|
    ensures Earliest(vs[..m], Reported(vs))
  {
    var p := vs[..m];
    forall v, n | v in p && n in Reported(vs) && n !in Reported(p) ensures v.n < n {
      var i :| 0 <= i < m && p[i] == v;
      var w :| w in vs && w.n == n;
      var j :| 0 <= j < |vs| && vs[j] == w;
      assert vs[i] == v;
    }
  }

  /** `violations[:cap]`: the saved examples are the `cap` (or all, when
      fewer) smallest escaping candidates of the interval, in ascending
      order. */
  lemma EarliestViolations(f: Flavor, candidates: set<seq<int>>, closure: set<seq<int>>, lo: nat, hi: nat, m: nat)
    requires m <= |SweepFrom(f, candidates, closure, lo, hi).violations|
    ensures Earliest(SweepFrom(f, candidates, closure, lo, hi).violations[..m], EscapingIn(f, candidates, closure, lo, hi))
  {
    ViolationsAscending(f, candidates, closure, lo, hi);
    ViolationsComplete(f, candidates, closure, lo, hi);
    PrefixEarliest(SweepFrom(f, candidates, closure, lo, hi).violations, m);
  }

  /** The verdict `fermeture`: no violation exactly when every candidate of
      the interval has its image signature in S (or, for k=8, of length 5). */
  lemma ClosureVerdict(f: Flavor, candidates: set<seq<int>>, closure: set<seq<int>>, lo: nat, hi: nat)
    ensures |SweepFrom(f, candidates, closure, lo, hi).violations| == 0 <==>
      forall n: nat :: lo <= n < hi && IsCandidate(f, candidates, n) ==> !Escapes(f, closure, n)
  {
    var vs := SweepFrom(f, candidates, closure, lo, hi).violations;
    ViolationsComplete(f, candidates, closure, lo, hi);
    if |vs| > 0 {
      assert vs[0].n in Reported(vs);
    } else {
      assert Reported(vs) == {};
    }
  }

  /** One number adds one to the candidate counter exactly when it adds one
      to the histogram total, or (k=7) one violation. */
  lemma StepBalance(f: Flavor, candidates: set<seq<int>>, closure: set<seq<int>>, h: map<int, nat>, vs: seq<Violation>, n: nat)
    ensures Total(StepHistogram(f, candidates, closure, h, n))
          + (if f == K7 then |StepViolations(f, candidates, closure, vs, n)| else 0)
         == Total(h) + (if f == K7 then |vs| else 0) + (if IsCandidate(f, candidates, n) then 1 else 0)
  {
    if Counted(f, candidates, closure, n) {
      BumpTotal(h, |ImageOf(f, n)|);
    }
  }

  /** The histogram's counts add up to the candidates it was bumped for: all
      of them for k=3..6 and k=8, the hits only for k=7, where every candidate
      adds either one violation or one count, never both. */
  lemma {:induction false} HistogramBalance(f: Flavor, candidates: set<seq<int>>, closure: set<seq<int>>, lo: nat, hi: nat)
    ensures var st := SweepFrom(f, candidates, closure, lo, hi);
      Total(st.histogram) + (if f == K7 then |st.violations| else 0) == st.candidates
    decreases hi
  {
    if hi > lo {
      HistogramBalance(f, candidates, closure, lo, hi - 1);
      var st0 := SweepFrom(f, candidates, closure, lo, hi - 1);
      StepBalance(f, candidates, closure, st0.histogram, st0.violations, hi - 1);
    } else {
      assert SweepFrom(f, candidates, closure, lo, hi).histogram == map[];
    }
  }

  /** The numbers of [lo, hi) counted in the histogram at image signature
      length `len`. */
  ghost function CountedAt(f: Flavor, candidates: set<seq<int>>, closure: set<seq<int>>, lo: nat, hi: nat, len: int): set<nat>
  {
    set n: nat | lo <= n < hi && Counted(f, candidates, closure, n) && |ImageOf(f, n)| == len
  }

  lemma CountedAtStep(f: Flavor, candidates: set<seq<int>>, closure: set<seq<int>>, lo: nat, hi: nat, len: int)
    requires lo < hi
    ensures hi - 1 !in CountedAt(f, candidates, closure, lo, hi - 1, len)
    ensures CountedAt(f, candidates, closure, lo, hi, len) ==
      CountedAt(f, candidates, closure, lo, hi - 1, len)
      + (if Counted(f, candidates, closure, hi - 1) && |ImageOf(f, hi - 1)| == len then {hi - 1} else {})
  {
    var c, c0 := CountedAt(f, candidates, closure, lo, hi, len), CountedAt(f, candidates, closure, lo, hi - 1, len);
    forall n ensures n in c <==> n in c0 || (n == hi - 1 && Counted(f, candidates, closure, n) && |ImageOf(f, n)| == len) {
    }
  }

  /** One bump keeps a key's count equal to the size of the set of the
      elements counted under it. */
  lemma CountKeyStep(h0: map<int, nat>, c0: set<nat>, c: set<nat>, hit: bool, key: int, x: nat, len: int)
    requires len in h0 <==> c0 != {}
    requires len in h0 ==> h0[len] == |c0|
    requires x !in c0
    requires c == c0 + (if hit && key == len then {x} else {})
    ensures var h := if hit then Bump(h0, key) else h0;
      (len in h <==> c != {}) && (len in h ==> h[len] == |c|)
  {
    if hit && key == len {
      assert x in c;
    }
  }

  /** The histogram after [lo, hi) is the one after [lo, hi - 1) stepped on
      hi - 1. */
  lemma HistogramUnfold(f: Flavor, candidates: set<seq<int>>, closure: set<seq<int>>, lo: nat, hi: nat)
    requires lo < hi
    ensures SweepFrom(f, candidates, closure, lo, hi).histogram ==
      if Counted(f, candidates, closure, hi - 1)
      then Bump(SweepFrom(f, candidates, closure, lo, hi - 1).histogram, |ImageOf(f, hi - 1)|)
      else SweepFrom(f, candidates, closure, lo, hi - 1).histogram
  {
  }

  /** One length of `distribution_images`: present exactly when some counted
      candidate has an image signature of that length, and then counting
      exactly those candidates. */
  lemma {:induction false} HistogramCount(f: Flavor, candidates: set<seq<int>>, closure: set<seq<int>>, lo: nat, hi: nat, len: int)
    ensures len in SweepFrom(f, candidates, closure, lo, hi).histogram <==>
      CountedAt(f, candidates, closure, lo, hi, len) != {}
    ensures len in SweepFrom(f, candidates, closure, lo, hi).histogram ==>
      SweepFrom(f, candidates, closure, lo, hi).histogram[len] == |CountedAt(f, candidates, closure, lo, hi, len)|
    decreases hi
  {
    if hi > lo {
      HistogramCount(f, candidates, closure, lo, hi - 1, len);
      CountedAtStep(f, candidates, closure, lo, hi, len);
      HistogramUnfold(f, candidates, closure, lo, hi);
      CountKeyStep(SweepFrom(f, candidates, closure, lo, hi - 1).histogram,
        CountedAt(f, candidates, closure, lo, hi - 1, len), CountedAt(f, candidates, closure, lo, hi, len),
        Counted(f, candidates, closure, hi - 1), |ImageOf(f, hi - 1)|, hi - 1, len);
    } else {
      assert CountedAt(f, candidates, closure, lo, hi, len) == {};
    }
  }

  /** Every histogram key is the image signature length of some counted
      candidate of the interval. */
  lemma {:induction false} HistogramWitnesses(f: Flavor, candidates: set<seq<int>>, closure: set<seq<int>>, lo: nat, hi: nat)
    ensures forall len :: len in SweepFrom(f, candidates, closure, lo, hi).histogram ==>
      exists n: nat :: lo <= n < hi && Counted(f, candidates, closure, n) && len == |ImageOf(f, n)|
    decreases hi
  {
    if hi > lo {
      HistogramWitnesses(f, candidates, closure, lo, hi - 1);
    }
  }

  /** `distribution_images`: the keys are exactly the image signature lengths
      that occur among the counted candidates (all candidates, or the k=7
      hits), and each count is the number of those candidates with that
      length. */
  lemma HistogramKeys(f: Flavor, candidates: set<seq<int>>, closure: set<seq<int>>, lo: nat, hi: nat)
    ensures forall len :: len in SweepFrom(f, candidates, closure, lo, hi).histogram <==>
      CountedAt(f, candidates, closure, lo, hi, len) != {}
    ensures forall len :: len in SweepFrom(f, candidates, closure, lo, hi).histogram ==>
      SweepFrom(f, candidates, closure, lo, hi).histogram[len] == |CountedAt(f, candidates, closure, lo, hi, len)|
    ensures forall len :: len in SweepFrom(f, candidates, closure, lo, hi).histogram ==>
      exists n: nat :: lo <= n < hi && Counted(f, candidates, closure, n) && len == |ImageOf(f, n)|
  {
    forall len
      ensures len in SweepFrom(f, candidates, closure, lo, hi).histogram <==>
        CountedAt(f, candidates, closure, lo, hi, len) != {}
      ensures len in SweepFrom(f, candidates, closure, lo, hi).histogram ==>
        SweepFrom(f, candidates, closure, lo, hi).histogram[len] == |CountedAt(f, candidates, closure, lo, hi, len)|
    {
      HistogramCount(f, candidates, closure, lo, hi, len);
    }
    HistogramWitnesses(f, candidates, closure, lo, hi);
  }

  /** k=3..6: over an interval of k-digit numbers, the image lengths
      recorded are k and k+1. */
  lemma MirroredHistogramKeys(candidates: set<seq<int>>, closure: set<seq<int>>, k: nat, lo: nat, hi: nat)
    requires 1 <= k && Pow10(k - 1) <= lo && hi <= Pow10(k)
    ensures forall key :: key in SweepFrom(Mirrored, candidates, closure, lo, hi).histogram ==> key == k || key == k + 1
  {
    HistogramKeys(Mirrored, candidates, closure, lo, hi);
    forall key | key in SweepFrom(Mirrored, candidates, closure, lo, hi).histogram
      ensures key == k || key == k + 1
    {
      var n: nat :| lo <= n < hi && Counted(Mirrored, candidates, closure, n) && key == |ImageOf(Mirrored, n)|;
      NumDigitsFromBounds(n, k);
    }
  }

  /** k=7: every candidate has seven digits, so every recorded image has a
      signature of length 4; k=8: of length 4 or 5. This holds on any
      interval, since the signature is None off the right digit count. */
  lemma CompressedHistogramKeys(f: Flavor, candidates: set<seq<int>>, closure: set<seq<int>>, lo: nat, hi: nat)
    requires f != Mirrored
    ensures forall key :: key in SweepFrom(f, candidates, closure, lo, hi).histogram ==>
      if f == K7 then key == 4 else key == 4 || key == 5
  {
    HistogramKeys(f, candidates, closure, lo, hi);
    forall key | key in SweepFrom(f, candidates, closure, lo, hi).histogram
      ensures if f == K7 then key == 4 else key == 4 || key == 5
    {
      var n: nat :| lo <= n < hi && Counted(f, candidates, closure, n) && key == |ImageOf(f, n)|;
    }
  }

  /** The k=9 signatures a k=8 scan of [lo, hi) meets: the length-5 image
      signatures outside S of its candidates. */
  ghost function NineImages(f: Flavor, candidates: set<seq<int>>, closure: set<seq<int>>, lo: nat, hi: nat): set<seq<int>>
  {
    set n: nat | lo <= n < hi && f == K8 && IsCandidate(f, candidates, n) && ImageOf(f, n) !in closure && |ImageOf(f, n)| == 5
      :: ImageOf(f, n)
  }

  lemma NineImagesStep(f: Flavor, candidates: set<seq<int>>, closure: set<seq<int>>, lo: nat, hi: nat)
    requires lo < hi
    ensures NineImages(f, candidates, closure, lo, hi) ==
      StepObserved(f, candidates, closure, NineImages(f, candidates, closure, lo, hi - 1), hi - 1)
  {
  }

  /** `portes_k9_observees` is exactly the set of length-5 image signatures
      outside S of the k=8 candidates; it stays empty for k=3..7. */
  lemma {:induction false} ObservedK9(f: Flavor, candidates: set<seq<int>>, closure: set<seq<int>>, lo: nat, hi: nat)
    ensures SweepFrom(f, candidates, closure, lo, hi).observedK9 == NineImages(f, candidates, closure, lo, hi)
    decreases hi
  {
    if hi > lo {
      ObservedK9(f, candidates, closure, lo, hi - 1);
      NineImagesStep(f, candidates, closure, lo, hi);
    } else {
      assert NineImages(f, candidates, closure, lo, hi) == {};
    }
  }

  /** k=8: no violation record has a length-5 image signature, and the
      verdict ignores the observed k=9 signatures. */
  lemma K8ViolationsNotNine(candidates: set<seq<int>>, closure: set<seq<int>>, lo: nat, hi: nat)
    ensures forall v :: v in SweepFrom(K8, candidates, closure, lo, hi).violations ==> |v.imagePorte| != 5
    ensures |SweepFrom(K8, candidates, closure, lo, hi).violations| == 0 <==>
      forall n: nat :: lo <= n < hi && IsCandidate(K8, candidates, n) ==>
        ImageOf(K8, n) in closure || |ImageOf(K8, n)| == 5
  {
    ViolationsSound(K8, candidates, closure, lo, hi);
    ClosureVerdict(K8, candidates, closure, lo, hi);
  }
}
