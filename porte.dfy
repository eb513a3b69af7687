/** The digit-pair-sum signature ("porte") of a number, in the two
    conventions the scripts use, and the reconstruction of a full signature
    from the half that is stored on disk.

    - Full (mirrored) form, `calculer_porte_k3` / `calculer_porte` of the
      k=3..6 scripts: k entries, entry i = d[i] + d[k-1-i]; for odd k the
      middle entry is twice the middle digit.
    - Compressed form, `calculer_porte_generale` / `calculer_porte_k7` /
      `calculer_porte_k8` / `calculer_porte_complete`: ceil(k/2) entries, the
      pair sums and, for odd k, the middle digit on its own. */
module Porte {
  import opened Options
  import opened Decimal

  ghost predicate Mirrored(s: seq<int>)
  {
    forall i :: 0 <= i < |s| ==> s[i] == s[|s| - 1 - i]
  }

  /** Full form: every position summed with its mirror position. */
  function FullPorte(d: seq<nat>): (r: seq<int>)
    ensures |r| == |d|
    ensures Mirrored(r)
    ensures |d| % 2 == 1 ==> r[|d| / 2] == 2 * d[|d| / 2]
  {
    seq(|d|, i requires 0 <= i < |d| => d[i] + d[|d| - 1 - i])
  }

  /** Compressed form: the first ceil(k/2) entries, the centre of an odd k
      kept as the digit alone. */
  function CompressedPorte(d: seq<nat>): (r: seq<int>)
    ensures |r| == (|d| + 1) / 2
    ensures |d| % 2 == 1 ==> r[|d| / 2] == d[|d| / 2]
    ensures forall i :: 0 <= i < |d| / 2 ==> r[i] == FullPorte(d)[i]
  {
    seq((|d| + 1) / 2, i requires 0 <= i < (|d| + 1) / 2 =>
      if i == |d| - 1 - i then d[i] else d[i] + d[|d| - 1 - i])
  }

  function Zeros(m: nat): (z: seq<nat>)
    ensures |z| == m
  {
    seq(m, _ => 0)
  }

  /** `str(n).zfill(k)`: left-padded with zeros to k digits, unchanged when
      n already has k digits or more. */
  function ZeroFill(d: seq<nat>, k: nat): (s: seq<nat>)
    ensures |s| == if |d| < k then k else |d|
  {
    if |d| < k then Zeros(k - |d|) + d else d
  }

  /** `calculer_porte_complete(n, k)` as a value: the compressed form of the
      first k characters of `str(n).zfill(k)`. */
  function CompletePorte(n: nat, k: nat): seq<int>
  {
    CompressedPorte(ZeroFill(Digits(n), k)[..k])
  }

  /** `calculer_porte_k7`: None unless n has exactly 7 digits, otherwise
      (A+G, B+F, C+E, D). */
  function PorteK7(n: nat): (r: Option<seq<int>>)
    ensures r.Some? <==> NumDigits(n) == 7
    ensures r.Some? ==> r.value == CompressedPorte(Digits(n)) && |r.value| == 4
  {
    if NumDigits(n) != 7 then None
    else
      var d := Digits(n);
      Some([d[0] + d[6], d[1] + d[5], d[2] + d[4], d[3]])
  }

  /** `calculer_porte_k8`: None unless n has exactly 8 digits, otherwise
      (A+H, B+G, C+F, D+E). */
  function PorteK8(n: nat): (r: Option<seq<int>>)
    ensures r.Some? <==> NumDigits(n) == 8
    ensures r.Some? ==> r.value == CompressedPorte(Digits(n)) && |r.value| == 4
  {
    if NumDigits(n) != 8 then None
    else
      var d := Digits(n);
      Some([d[0] + d[7], d[1] + d[6], d[2] + d[5], d[3] + d[4]])
  }

  /** Over the k=7 scan interval [1 000 000, 9 999 999] the signature is never None. */
  lemma PorteK7DefinedOnScan(n: nat)
    requires 1_000_000 <= n < 10_000_000
    ensures PorteK7(n).Some?
  {
    assert Pow10(6) == 1_000_000 && Pow10(7) == 10_000_000;
    NumDigitsFromBounds(n, 7);
  }

  /** Over the k=8 scan interval [10 000 000, 99 999 999] the signature is never None. */
  lemma PorteK8DefinedOnScan(n: nat)
    requires 10_000_000 <= n < 100_000_000
    ensures PorteK8(n).Some?
  {
    assert Pow10(7) == 10_000_000 && Pow10(8) == 100_000_000;
    NumDigitsFromBounds(n, 8);
  }

  /** `calculer_porte_k3(n)` / `calculer_porte(n)`: the loop appending
      `digits[i] + reverse_digits[i]` for every position. */
  method ComputeFullPorte(n: nat) returns (porte: seq<int>)
    ensures porte == FullPorte(Digits(n))
  {
    var digits := Digits(n);
    var k := |digits|;
    var reverseDigits := Reversed(digits);
    porte := [];
    var i := 0;
    while i < k
      invariant 0 <= i <= k
      invariant porte == FullPorte(digits)[..i]
    {
      porte := porte + [digits[i] + reverseDigits[i]];
      i := i + 1;
    }
  }

  /** `calculer_porte_generale(n)`: pair sums for the first k/2 positions,
      then the middle digit when k is odd. */
  method ComputeGeneralPorte(n: nat) returns (porte: seq<int>)
    ensures porte == CompressedPorte(Digits(n))
  {
    var digits := Digits(n);
    var k := |digits|;
    porte := [];
    var i := 0;
    while i < k / 2
      invariant 0 <= i <= k / 2
      invariant porte == CompressedPorte(digits)[..i]
    {
      porte := porte + [digits[i] + digits[k - 1 - i]];
      i := i + 1;
    }
    if k % 2 == 1 {
      var milieu := k / 2;
      porte := porte + [digits[milieu]];
    }
    assert porte == CompressedPorte(digits)[..(k + 1) / 2];
  }

  /** `calculer_porte_complete(n, k)`: zero-fill to k digits, then for each of
      the (k+1)/2 positions the digit alone at the centre, else the pair sum. */
  method ComputeCompletePorte(n: nat, k: nat) returns (porte: seq<int>)
    ensures porte == CompletePorte(n, k)
  {
    var s := ZeroFill(Digits(n), k);
    var m := (k + 1) / 2;
    porte := [];
    var i := 0;
    while i < m
      invariant 0 <= i <= m
      invariant porte == CompletePorte(n, k)[..i]
    {
      if i == k - 1 - i {
        porte := porte + [s[i]];
      } else {
        porte := porte + [s[i] + s[k - 1 - i]];
      }
      i := i + 1;
    }
  }

  /** Zero-filling keeps the value, so the signature of the padded string is
      that of a k-digit spelling of the same number. */
  lemma {:induction false} ZeroFillValue(d: seq<nat>, k: nat)
    ensures Value(ZeroFill(d, k)) == Value(d)
    decreases k - |d|
  {
    if |d| < k {
      ZeroFillValue([0] + d, k);
      assert ZeroFill(d, k) == ZeroFill([0] + d, k) by {
        assert Zeros(k - |d|) == [0] + Zeros(k - |d| - 1);
      }
      ValueLeadingZero(d);
    }
  }

  /** On a number with exactly k digits the k=9 codec and the general codec agree;
      on a shorter number it is the general codec on the zero-filled digits. */
  lemma CompletePorteAgrees(n: nat, k: nat)
    ensures NumDigits(n) == k ==> CompletePorte(n, k) == CompressedPorte(Digits(n))
    ensures NumDigits(n) <= k ==> CompletePorte(n, k) == CompressedPorte(ZeroFill(Digits(n), k))
    ensures |CompletePorte(n, k)| == (k + 1) / 2
  {
    var s := ZeroFill(Digits(n), k);
    assert |s| >= k;
    if NumDigits(n) <= k {
      assert s[..k] == s;
    }
  }

  /** `extraire_portes_par_k` / `extraire_toutes_portes_S`: the full form
      rebuilt from a stored half. For odd k the last stored entry is the
      centre and the rest is mirrored around it (`porte_half[-1]` fails on an
      empty half); for even k the half is followed by its reverse. The arity
      is not checked against k. */
  function Reconstruct(half: seq<int>, k: int): (r: Option<seq<int>>)
    ensures r.None? <==> (k % 2 == 1 && |half| == 0)
    ensures r.Some? ==> |r.value| == if k % 2 == 1 then 2 * |half| - 1 else 2 * |half|
    ensures r.Some? ==> Mirrored(r.value) && r.value[..|half|] == half
  {
    if k % 2 == 1 then
      if |half| == 0 then None
      else
        var debut := half[..|half| - 1];
        var full := debut + [half[|half| - 1]] + Reversed(debut);
        assert full[..|half|] == half;
        Some(full)
    else
      var full := half + Reversed(half);
      assert full[..|half|] == half;
      Some(full)
  }

  /** Storing the first ceil(k/2) entries of a mirrored full form and
      reconstructing gives the full form back. */
  lemma CompressThenReconstruct(f: seq<int>, k: nat)
    requires |f| == k && Mirrored(f)
    ensures Reconstruct(f[..(k + 1) / 2], k) == Some(f)
  {
    var m := (k + 1) / 2;
    var h := f[..m];
    var r := Reconstruct(h, k);
    if k % 2 == 1 {
      assert r.Some? && |r.value| == k;
      forall i | m <= i < k ensures r.value[i] == f[i] {
        assert r.value[i] == r.value[k - 1 - i];
      }
      assert r.value == f;
    } else {
      assert r.Some? && |r.value| == k;
      forall i | m <= i < k ensures r.value[i] == f[i] {
        assert r.value[i] == r.value[k - 1 - i];
      }
      assert r.value == f;
    }
  }

  /** Even k: the two conventions coincide, the stored compressed form
      reconstructs to the full form computed from the digits. */
  lemma EvenConventionsAgree(d: seq<nat>)
    requires |d| % 2 == 0
    ensures Reconstruct(CompressedPorte(d), |d|) == Some(FullPorte(d))
  {
    var f := FullPorte(d);
    assert f[..(|d| + 1) / 2] == CompressedPorte(d);
    CompressThenReconstruct(f, |d|);
  }

  /** Odd k: the full form's centre is twice the middle digit, the compressed
      form's is the digit. Reconstruction gives the full form only from a
      half whose centre is doubled, and from the compressed form exactly when
      the middle digit is 0: the two conventions cannot be mixed. */
  lemma OddConventionsDiffer(d: seq<nat>)
    requires |d| % 2 == 1
    ensures Reconstruct(CompressedPorte(d)[|d| / 2 := 2 * d[|d| / 2]], |d|) == Some(FullPorte(d))
    ensures Reconstruct(CompressedPorte(d), |d|) == Some(FullPorte(d)) <==> d[|d| / 2] == 0
  {
    var f := FullPorte(d);
    var mid := |d| / 2;
    var c := CompressedPorte(d);
    assert f[..(|d| + 1) / 2] == c[mid := 2 * d[mid]];
    CompressThenReconstruct(f, |d|);
    var r := Reconstruct(c, |d|);
    assert r.Some? && r.value[mid] == c[mid] == d[mid];
    if d[mid] == 0 {
      assert c == c[mid := 2 * d[mid]];
    }
  }
}
