/** The k=9 check: are the palindromes found elsewhere among the nine-digit
    signatures K9 reached from 196? Each declared palindrome is checked
    (really a palindrome, declared signature equal to the computed one) and
    then filed under `dans_k9` or `hors_k9`; the `hors_k9` entries are then
    grouped by the first and last signature entries, and a verdict is drawn. */
module Palindromes {
  import opened Decimal
  import opened Porte
  import opened Histogram

  /** One entry of the palindrome file: the number and its declared signature. */
  datatype Entry = Entry(number: int, declared: seq<int>)

  /** A `{'palindrome': ..., 'porte': ...}` record of `dans_k9` / `hors_k9`. */
  datatype Classified = Classified(palindrome: int, porte: seq<int>)

  /** A record of `erreurs`, the reason as a constructor. */
  datatype Error =
    | NotAPalindrome(palindrome: int)
    | InconsistentPorte(palindrome: int, computed: seq<int>, declared: seq<int>)

  /** The `resultats` dictionary. */
  datatype Results = Results(total: nat, dansK9: seq<Classified>, horsK9: seq<Classified>, erreurs: seq<Error>)

  /** Where one entry goes. */
  datatype Outcome = Rejected(error: Error) | Inside(record: Classified) | Outside(record: Classified)

  /** `est_palindrome(n)` on an integer: `str(n)` of a negative number starts
      with '-', so it is never its own reverse. */
  predicate IsPalindromeNumber(n: int)
  {
    n >= 0 && IsPalindrome(n)
  }

  /** An integer passes `est_palindrome` exactly when it is a natural number
      that digit reversal fixes. */
  lemma PalindromeNumberIffReverseFixed(n: int)
    ensures IsPalindromeNumber(n) <==> n >= 0 && ReverseNumber(n) == n
  {
    if n >= 0 {
      PalindromeIffReverseFixed(n);
    }
  }

  /** An entry that passes both checks. */
  predicate Consistent(e: Entry)
  {
    IsPalindromeNumber(e.number) && CompletePorte(e.number, 9) == e.declared
  }

  /** One iteration of the classification loop, the `continue`s in order. */
  function Classify(e: Entry, k9: set<seq<int>>): (o: Outcome)
    ensures o.Rejected? <==> !Consistent(e)
    ensures o.Inside? <==> Consistent(e) && e.declared in k9
    ensures !o.Rejected? ==> o.record == Classified(e.number, e.declared)
    ensures o.Rejected? && o.error.NotAPalindrome? <==> !IsPalindromeNumber(e.number)
  {
    if !IsPalindromeNumber(e.number) then Rejected(NotAPalindrome(e.number))
    else
      var computed := CompletePorte(e.number, 9);
      if computed != e.declared then Rejected(InconsistentPorte(e.number, computed, e.declared))
      else if computed in k9 then Inside(Classified(e.number, computed))
      else Outside(Classified(e.number, computed))
  }

  function File(r: Results, o: Outcome): Results
  {
    match o
    case Rejected(err) => r.(erreurs := r.erreurs + [err])
    case Inside(x) => r.(dansK9 := r.dansK9 + [x])
    case Outside(x) => r.(horsK9 := r.horsK9 + [x])
  }

  /** The results after the entries cs, in input order. */
  function ClassifyAll(cs: seq<Entry>, k9: set<seq<int>>): Results
  {
    if |cs| == 0 then Results(0, [], [], [])
    else
      var r := ClassifyAll(cs[..|cs| - 1], k9);
      File(r.(total := r.total + 1), Classify(cs[|cs| - 1], k9))
  }

  /** The loop turning `k9['portes']` into `portes_k9_set`. */
  method LoadK9Set(portes: seq<seq<int>>) returns (s: set<seq<int>>)
    ensures forall p :: p in s <==> p in portes
  {
    s := {};
    var j := 0;
    while j < |portes|
      invariant 0 <= j <= |portes|
      invariant forall p :: p in s <==> p in portes[..j]
    {
      assert portes[..j + 1] == portes[..j] + [portes[j]];
      s := s + {portes[j]};
      j := j + 1;
    }
    assert portes[..j] == portes;
  }

  /** `verifier_palindromes_dans_k9` on the loaded data: build the K9 set,
      then check and file every entry. */
  method CheckPalindromes(k9Portes: seq<seq<int>>, palindromes: seq<Entry>) returns (resultats: Results)
    ensures resultats == ClassifyAll(palindromes, set p | p in k9Portes)
  {
    var portesK9Set := LoadK9Set(k9Portes);
    ghost var k9 := set p | p in k9Portes;
    assert portesK9Set == k9;
    resultats := Results(|palindromes|, [], [], []);
    var j := 0;
    while j < |palindromes|
      invariant 0 <= j <= |palindromes|
      invariant resultats == ClassifyAll(palindromes[..j], k9).(total := |palindromes|)
    {
      var palindrome := palindromes[j].number;
      var porteDeclaree := palindromes[j].declared;
      assert palindromes[..j + 1][..j] == palindromes[..j];
      j := j + 1;
      if !(palindrome >= 0 && IsPalindrome(palindrome)) {
        resultats := resultats.(erreurs := resultats.erreurs + [NotAPalindrome(palindrome)]);
        continue;
      }
      var porteCalculee := ComputeCompletePorte(palindrome, 9);
      if porteCalculee != porteDeclaree {
        resultats := resultats.(erreurs := resultats.erreurs + [InconsistentPorte(palindrome, porteCalculee, porteDeclaree)]);
        continue;
      }
      if porteCalculee in portesK9Set {
        resultats := resultats.(dansK9 := resultats.dansK9 + [Classified(palindrome, porteCalculee)]);
      } else {
        resultats := resultats.(horsK9 := resultats.horsK9 + [Classified(palindrome, porteCalculee)]);
      }
    }
    assert palindromes[..j] == palindromes;
    ClassifyCounts(palindromes, k9);
  }

  /** Every entry lands in exactly one list, so the lengths add up to the total. */
  lemma {:induction false} ClassifyCounts(cs: seq<Entry>, k9: set<seq<int>>)
    ensures ClassifyAll(cs, k9).total == |cs|
    ensures |ClassifyAll(cs, k9).dansK9| + |ClassifyAll(cs, k9).horsK9| + |ClassifyAll(cs, k9).erreurs| == |cs|
  {
    if |cs| > 0 {
      ClassifyCounts(cs[..|cs| - 1], k9);
    }
  }

  /** A filed record comes from an entry that passed both checks. */
  ghost predicate Justified(x: Classified, cs: seq<Entry>)
  {
    exists c :: c in cs && Consistent(c) && x == Classified(c.number, c.declared)
  }

  /** An error record names an entry of the input that failed for that reason. */
  ghost predicate ErrorJustified(err: Error, cs: seq<Entry>)
  {
    match err
    case NotAPalindrome(n) =>
      !IsPalindromeNumber(n) && exists c :: c in cs && c.number == n
    case InconsistentPorte(n, computed, declared) =>
      && IsPalindromeNumber(n)
      && computed == CompletePorte(n, 9)
      && computed != declared
      && Entry(n, declared) in cs
  }

  lemma JustifiedGrows(x: Classified, cs: seq<Entry>, more: seq<Entry>)
    requires Justified(x, cs)
    ensures Justified(x, cs + more)
  {
    var c :| c in cs && Consistent(c) && x == Classified(c.number, c.declared);
    assert c in cs + more;
  }

  lemma ErrorJustifiedGrows(err: Error, cs: seq<Entry>, more: seq<Entry>)
    requires ErrorJustified(err, cs)
    ensures ErrorJustified(err, cs + more)
  {
    if err.NotAPalindrome? {
      var c :| c in cs && c.number == err.palindrome;
      assert c in cs + more;
    }
  }

  /** Soundness of each list: `dans_k9` holds checked palindromes whose
      signature is in K9, `hors_k9` checked palindromes whose signature is
      not, `erreurs` entries that failed a check. */
  lemma {:induction false} ClassifySound(cs: seq<Entry>, k9: set<seq<int>>)
    ensures forall x :: x in ClassifyAll(cs, k9).dansK9 ==> Justified(x, cs) && x.porte in k9
    ensures forall x :: x in ClassifyAll(cs, k9).horsK9 ==> Justified(x, cs) && x.porte !in k9
    ensures forall err :: err in ClassifyAll(cs, k9).erreurs ==> ErrorJustified(err, cs)
  {
    if |cs| > 0 {
      var init := cs[..|cs| - 1];
      var last := cs[|cs| - 1];
      assert cs == init + [last];
      ClassifySound(init, k9);
      var r := ClassifyAll(init, k9);
      forall x | x in r.dansK9 || x in r.horsK9
        ensures Justified(x, cs)
      {
        JustifiedGrows(x, init, [last]);
      }
      forall err | err in r.erreurs
        ensures ErrorJustified(err, cs)
      {
        ErrorJustifiedGrows(err, init, [last]);
      }
      assert last in cs;
    }
  }

  /** Completeness: every entry of the input is filed where it belongs. */
  lemma {:induction false} ClassifyComplete(cs: seq<Entry>, k9: set<seq<int>>)
    ensures forall c :: c in cs && Consistent(c) && c.declared in k9 ==>
      Classified(c.number, c.declared) in ClassifyAll(cs, k9).dansK9
    ensures forall c :: c in cs && Consistent(c) && c.declared !in k9 ==>
      Classified(c.number, c.declared) in ClassifyAll(cs, k9).horsK9
    ensures forall c :: c in cs && !Consistent(c) ==>
      exists err :: err in ClassifyAll(cs, k9).erreurs && err.palindrome == c.number
  {
    if |cs| > 0 {
      var init := cs[..|cs| - 1];
      var last := cs[|cs| - 1];
      assert cs == init + [last];
      ClassifyComplete(init, k9);
      var r := ClassifyAll(init, k9);
      forall c | c in init && !Consistent(c)
        ensures exists err :: err in ClassifyAll(cs, k9).erreurs && err.palindrome == c.number
      {
        var err :| err in r.erreurs && err.palindrome == c.number;
        assert err in ClassifyAll(cs, k9).erreurs;
      }
      if !Consistent(last) {
        assert Classify(last, k9).error in ClassifyAll(cs, k9).erreurs;
      }
    }
  }

  /** A palindromic digit string pairs each digit with itself, so every
      entry of its signature before the centre is twice a digit. */
  lemma PalindromicDigitsPorte(d: seq<nat>)
    requires d == Reversed(d)
    ensures forall i :: 0 <= i < |d| / 2 ==> CompressedPorte(d)[i] == 2 * d[i]
  {
    forall i | 0 <= i < |d| / 2
      ensures CompressedPorte(d)[i] == 2 * d[i]
    {
      assert CompressedPorte(d)[i] == FullPorte(d)[i] == d[i] + d[|d| - 1 - i];
      assert Reversed(d)[i] == d[|d| - 1 - i];
    }
  }

  /** The signature of a nine-digit palindrome: five entries, the four outer
      ones even. */
  lemma PalindromePorteEven(n: nat)
    requires IsPalindrome(n) && NumDigits(n) == 9
    ensures |CompletePorte(n, 9)| == 5
    ensures forall i :: 0 <= i < 4 ==> CompletePorte(n, 9)[i] == 2 * Digits(n)[i]
  {
    CompletePorteAgrees(n, 9);
    PalindromicDigitsPorte(Digits(n));
  }

  // ---------------------------------------------------------------------
  // `analyser_distribution_palindromes`: grouping `hors_k9`

  /** `(porte[0], porte[-1])`. */
  function SignatureOf(porte: seq<int>): (int, int)
    requires |porte| > 0
  {
    (porte[0], porte[|porte| - 1])
  }

  predicate AllNonEmpty(xs: seq<Classified>)
  {
    forall x :: x in xs ==> |x.porte| > 0
  }

  /** The dict `signatures_hors` after the records xs, in order. */
  function Group(xs: seq<Classified>): map<(int, int), seq<int>>
    requires AllNonEmpty(xs)
  {
    if |xs| == 0 then map[]
    else
      var g := Group(xs[..|xs| - 1]);
      var x := xs[|xs| - 1];
      var sig := SignatureOf(x.porte);
      g[sig := (if sig in g then g[sig] else []) + [x.palindrome]]
  }

  /** The grouping loop of `analyser_distribution_palindromes`. */
  method GroupBySignature(horsK9: seq<Classified>) returns (signaturesHors: map<(int, int), seq<int>>)
    requires AllNonEmpty(horsK9)
    ensures signaturesHors == Group(horsK9)
  {
    signaturesHors := map[];
    var j := 0;
    while j < |horsK9|
      invariant 0 <= j <= |horsK9|
      invariant signaturesHors == Group(horsK9[..j])
    {
      var pal := horsK9[j];
      var sig := (pal.porte[0], pal.porte[|pal.porte| - 1]);
      assert horsK9[..j + 1][..j] == horsK9[..j];
      if sig !in signaturesHors {
        signaturesHors := signaturesHors[sig := []];
      }
      signaturesHors := signaturesHors[sig := signaturesHors[sig] + [pal.palindrome]];
      j := j + 1;
    }
    assert horsK9[..j] == horsK9;
  }

  /** Records filed by the classification have five-entry signatures, so the
      grouping can index them. */
  lemma ClassifiedPortes(cs: seq<Entry>, k9: set<seq<int>>)
    ensures AllNonEmpty(ClassifyAll(cs, k9).horsK9)
    ensures forall x :: x in ClassifyAll(cs, k9).horsK9 ==> |x.porte| == 5
  {
    ClassifySound(cs, k9);
    forall x | x in ClassifyAll(cs, k9).horsK9
      ensures |x.porte| == 5
    {
      var c :| c in cs && Consistent(c) && x == Classified(c.number, c.declared);
      CompletePorteAgrees(c.number, 9);
    }
  }

  /** The keys are exactly the signatures that occur. */
  lemma {:induction false} GroupKeys(xs: seq<Classified>)
    requires AllNonEmpty(xs)
    ensures Group(xs).Keys == set x | x in xs :: SignatureOf(x.porte)
  {
    if |xs| > 0 {
      var init := xs[..|xs| - 1];
      assert xs == init + [xs[|xs| - 1]];
      GroupKeys(init);
    }
  }

  /** A number is in the group of a signature exactly when some record with
      that signature carries it. */
  lemma {:induction false} GroupMembers(xs: seq<Classified>)
    requires AllNonEmpty(xs)
    ensures forall sig, n :: sig in Group(xs) && n in Group(xs)[sig] ==>
      exists x :: x in xs && SignatureOf(x.porte) == sig && x.palindrome == n
    ensures forall x :: x in xs ==> SignatureOf(x.porte) in Group(xs) && x.palindrome in Group(xs)[SignatureOf(x.porte)]
  {
    if |xs| > 0 {
      var init := xs[..|xs| - 1];
      var last := xs[|xs| - 1];
      assert xs == init + [last];
      GroupMembers(init);
      var g := Group(init);
      var top := SignatureOf(last.porte);
      assert Group(xs) == g[top := (if top in g then g[top] else []) + [last.palindrome]];
      forall x | x in xs
        ensures SignatureOf(x.porte) in Group(xs) && x.palindrome in Group(xs)[SignatureOf(x.porte)]
      {
        if x != last {
          assert x in init;
        }
      }
      forall sig, n | sig in Group(xs) && n in Group(xs)[sig]
        ensures exists x :: x in xs && SignatureOf(x.porte) == sig && x.palindrome == n
      {
        if sig == top && n == last.palindrome {
          assert last in xs;
        } else {
          assert sig in g && n in g[sig];
          var x :| x in init && SignatureOf(x.porte) == sig && x.palindrome == n;
          assert x in xs;
        }
      }
    }
  }

  /** The group sizes. */
  function Sizes(g: map<(int, int), seq<int>>): (r: map<(int, int), nat>)
    ensures r.Keys == g.Keys
  {
    map sig | sig in g :: |g[sig]|
  }

  /** No record is lost or counted twice: the group sizes add up to the
      number of records. */
  lemma {:induction false} GroupSizes(xs: seq<Classified>)
    requires AllNonEmpty(xs)
    ensures Total(Sizes(Group(xs))) == |xs|
  {
    if |xs| > 0 {
      var init := xs[..|xs| - 1];
      var g := Group(init);
      var sig := SignatureOf(xs[|xs| - 1].porte);
      GroupSizes(init);
      assert Sizes(Group(xs)) == Bump(Sizes(g), sig);
      BumpTotal(Sizes(g), sig);
    }
  }

  // ---------------------------------------------------------------------
  // The summary saved by `main`

  datatype Verdict = PalindromesInK9 | NoPalindromeInK9

  /** The `resultats_json` dictionary. */
  datatype Summary = Summary(
    total: nat,
    nbDansK9: nat,
    nbHorsK9: nat,
    nbErreurs: nat,
    palindromesDansK9: seq<Classified>,
    palindromesHorsK9: seq<int>,
    verdict: Verdict)

  function Summarize(r: Results): (s: Summary)
    ensures s.verdict == PalindromesInK9 <==> |r.dansK9| > 0
    ensures s.total == r.total && s.nbDansK9 == |r.dansK9| && s.nbHorsK9 == |r.horsK9| && s.nbErreurs == |r.erreurs|
    ensures s.palindromesDansK9 == r.dansK9
    ensures |s.palindromesHorsK9| == if |r.horsK9| < 100 then |r.horsK9| else 100
    ensures forall i :: 0 <= i < |s.palindromesHorsK9| ==> s.palindromesHorsK9[i] == r.horsK9[i].palindrome
  {
    var kept := if |r.horsK9| < 100 then |r.horsK9| else 100;
    Summary(
      r.total, |r.dansK9|, |r.horsK9|, |r.erreurs|, r.dansK9,
      seq(kept, i requires 0 <= i < kept => r.horsK9[i].palindrome),
      if |r.dansK9| > 0 then PalindromesInK9 else NoPalindromeInK9)
  }

  /** The verdict of the whole check: 'PALINDROMES_DANS_K9' exactly when some
      entry is a genuine palindrome, declared with its true signature, and
      that signature is in K9. */
  lemma VerdictMeaning(cs: seq<Entry>, k9: set<seq<int>>)
    ensures Summarize(ClassifyAll(cs, k9)).verdict == PalindromesInK9 <==>
      exists c :: c in cs && Consistent(c) && c.declared in k9
  {
    var r := ClassifyAll(cs, k9);
    ClassifySound(cs, k9);
    ClassifyComplete(cs, k9);
    if |r.dansK9| > 0 {
      assert r.dansK9[0] in r.dansK9;
    }
  }
}
