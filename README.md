# Closure of the Lychrel "portes" under reverse-and-add

The scripts `Scripts_Verification/verifier_fermeture_k{3..9}_exhaustif.py`
check, by exhaustive scan, that a family of digit-pair signatures ("portes")
is closed under the reverse-and-add map T(n) = n + reverse(n). For a number
n with k digits d[0..k-1], the porte pairs the digits from both ends:

- the full mirrored form (k = 3..6) has k entries, d[i] + d[k-1-i];
- the compressed form (k = 7..9) has (k+1)/2 entries, with the odd-k middle
  digit kept alone.

Each script loads the candidate set S_k and the closure set S, then scans
every k-digit number. A number whose porte lies in S_k is a candidate. Its
image porte, the porte of T(n), is looked up in S. Misses are recorded, and
a histogram of image porte lengths is kept. The k=9 script checks instead
that a list of declared palindromes is consistent, and whether their
signatures lie in K9.

This project models that core in Dafny and proves what the scripts'
results mean.

- `Decimal` (decimal.dfy): decimal digits of a natural number, `reverse_number`,
  T, and the palindrome test. It also proves digit-count bounds, including
  that T adds at most one digit.
- `Porte` (porte.dfy): the signature conventions.
  - `calculer_porte_k3` / `calculer_porte` give the full form.
  - `calculer_porte_generale`, `calculer_porte_k7` and `calculer_porte_k8`
    give the compressed form.
  - `calculer_porte_complete` gives the zero-filled compressed form.
  - The rebuilding of a full form from a stored half is also here.
  - The append loops are methods proved equal to the spec functions.
- `ClosureSet` (closure_set.dfy): `extraire_portes_par_k` and
  `extraire_toutes_portes_S` (k=3..6), and `charger_toutes_portes` (k=7/8).
- `Histogram` (histogram.dfy): `d[key] = d.get(key, 0) + 1` and the sum of a
  count dictionary.
- `ClosureSweep` (sweep.dfy): the scan loop in three flavours.
  - Mirrored: k=3..6.
  - K7: a miss is a violation; only a hit is counted in the histogram.
  - K8: a miss with a length-5 image porte is an observed k=9 signature,
    not a violation.
  - Each loop is a method proved equal to `SweepFrom`, a fold over the
    interval.
- `SweepProperties` (sweep_properties.dfy): what the scan computes.
  - counts;
  - soundness and completeness of the violation list;
  - the closure verdict;
  - histogram totals and keys;
  - the observed k=9 set.
- `ClosureDrivers` (drivers.dfy): the `verifier_fermeture_*` drivers. Each
  ties the loaded data, the interval and the saved fields to the properties
  above.
- `Palindromes` (palindromes.dfy): the k=9 script. It covers the
  classification into `erreurs` / `dans_k9` / `hors_k9`, the grouping of
  `hors_k9` by first and last signature entry, and the saved verdict.

Shared code appears once. The k3..k6 scripts carry identical copies of
`reverse_number`, `reverse_and_add`, the full-form porte, and the two
extractors:

| script | porte | extractors |
|---|---|---|
| k4 | lines 19-40 | lines 50-87 |
| k5 | lines 22-43 | lines 53-90 |
| k6 | lines 21-42 | lines 52-89 |

They differ from k3 only in the scanned interval: [10^(k-1), 10^k). k8
repeats k7's `calculer_porte_generale` (lines 78-98) and `reverse_add`
(lines 100-102). Its `charger_toutes_portes` (lines 26-65) computes the same
two sets as k7's (lines 21-57).

Two conventions coexist for odd k. The full form doubles the middle digit.
The compressed form keeps it alone. `Porte.OddConventionsDiffer` proves that
rebuilding a compressed odd-length porte as if it were a stored half gives
the full form only when the middle digit is 0. `Porte.EvenConventionsAgree`
proves that for even k the two conventions coincide.

The loaded JSON data are parameters:

- the stored halves as a map from length to lists;
- the K{k} files as a map from length to entry lists, with a missing file
  being a missing key;
- the K9 list and the palindrome list as sequences.

## Model

| member | source | states |
|---|---|---|
| Decimal.Digits | Scripts_Verification/verifier_fermeture_k3_exhaustif.py:50 | `[int(d) for d in str(n)]`: at least one digit, every entry a digit, no leading zero unless n is 0 |
| Decimal.ValueOfDigits | Scripts_Verification/verifier_fermeture_k3_exhaustif.py:33 | reading back the decimal digits of n gives n, so `int(str(n))` is the identity |
| Decimal.DigitsOfValue | Scripts_Verification/verifier_fermeture_k3_exhaustif.py:33 | a digit string without leading zero is the decimal spelling of its value (the other half of the round trip) |
| Decimal.DigitsBounds | Scripts_Verification/verifier_fermeture_k3_exhaustif.py:177 | a positive n with w digits lies in [10^(w-1), 10^w) |
| Decimal.NumDigitsFromBounds | Scripts_Verification/verifier_fermeture_k7_exhaustif.py:134 | every number of a scan interval [10^(k-1), 10^k) has exactly k digits |
| Decimal.ReverseNumber | Scripts_Verification/verifier_fermeture_k3_exhaustif.py:31-33 | `int(str(n)[::-1])` never has more digits than n, and when n does not end in 0 its decimal string is exactly n's string reversed |
| Decimal.ReverseDropsTrailingZero | Scripts_Verification/verifier_fermeture_k3_exhaustif.py:31-33 | trailing zeros of n become leading zeros of the reversal and are dropped by `int` |
| Decimal.TrailingZeroNotFixed | Scripts_Verification/verifier_fermeture_k3_exhaustif.py:31-33 | a number ending in 0 (other than 0) loses a digit on reversal, so its reversal is strictly smaller |
| Decimal.ReverseAndAdd | Scripts_Verification/verifier_fermeture_k3_exhaustif.py:36-38 | T(n) = n + reverse(n) is at least n and has as many digits as n or one more (the carry), never fewer |
| Decimal.SumDigitGrowth | Scripts_Verification/verifier_fermeture_k7_exhaustif.py:88-90 | adding to n a number with at most as many digits as n keeps n's digit count or adds one, which is why T(n) of a k-digit n has k or k+1 digits |
| Decimal.PalindromeIffReverseFixed | Scripts_Verification/verifier_fermeture_k9_exhaustif.py:38-41 | `est_palindrome` on a natural number (`s == s[::-1]`) holds exactly when reversing the digits gives n back, so a palindrome satisfies T(n) == 2n |
| Porte.FullPorte | Scripts_Verification/verifier_fermeture_k3_exhaustif.py:41-61 | the full porte has one entry per digit, is mirror-symmetric, and for odd length its centre is twice the middle digit |
| Porte.ComputeFullPorte | Scripts_Verification/verifier_fermeture_k3_exhaustif.py:50-61 | the append loop of `calculer_porte_k3` / `calculer_porte` computes the full porte of n's digits |
| Porte.CompressedPorte | Scripts_Verification/verifier_fermeture_k7_exhaustif.py:68-86 | the compressed porte has (k+1)/2 entries, agrees with the full porte before the centre, and keeps the odd-k middle digit alone |
| Porte.ComputeGeneralPorte | Scripts_Verification/verifier_fermeture_k7_exhaustif.py:68-86 | the two-branch loop of `calculer_porte_generale` computes the compressed porte of n's digits |
| Porte.PorteK7 | Scripts_Verification/verifier_fermeture_k7_exhaustif.py:59-66 | None exactly when n does not have 7 digits, else (A+G, B+F, C+E, D), the compressed porte, of length 4 |
| Porte.PorteK8 | Scripts_Verification/verifier_fermeture_k8_exhaustif.py:67-76 | None exactly when n does not have 8 digits, else (A+H, B+G, C+F, D+E), the compressed porte, of length 4 |
| Porte.PorteK7DefinedOnScan | Scripts_Verification/verifier_fermeture_k7_exhaustif.py:134 | on the scanned interval `calculer_porte_k7` never returns None |
| Porte.PorteK8DefinedOnScan | Scripts_Verification/verifier_fermeture_k8_exhaustif.py:142 | on the scanned interval `calculer_porte_k8` never returns None |
| Porte.ZeroFill | Scripts_Verification/verifier_fermeture_k9_exhaustif.py:25 | `zfill(k)` gives k characters for a shorter string and keeps the length of a longer one |
| Porte.ZeroFillValue | Scripts_Verification/verifier_fermeture_k9_exhaustif.py:25 | zero-filling does not change the value of the digit string |
| Porte.ComputeCompletePorte | Scripts_Verification/verifier_fermeture_k9_exhaustif.py:23-35 | the loop of `calculer_porte_complete` computes the compressed porte of the first k characters of the zero-filled string |
| Porte.CompletePorteAgrees | Scripts_Verification/verifier_fermeture_k9_exhaustif.py:23-35 | `calculer_porte_complete(n, k)` has (k+1)/2 entries and equals `calculer_porte_generale(n)` when n has k digits |
| Porte.Reconstruct | Scripts_Verification/verifier_fermeture_k3_exhaustif.py:100-110 | the rebuilt porte fails (IndexError) exactly for an empty half at odd k; otherwise it has length 2h-1 or 2h, is mirror-symmetric, and starts with the stored half |
| Porte.CompressThenReconstruct | Scripts_Verification/verifier_fermeture_k3_exhaustif.py:100-110 | storing the first (k+1)/2 entries of a mirrored porte and rebuilding gives the porte back |
| Porte.EvenConventionsAgree | Scripts_Verification/verifier_fermeture_k3_exhaustif.py:108-110 | for even k, rebuilding the compressed porte gives the full porte |
| Porte.OddConventionsDiffer | Scripts_Verification/verifier_fermeture_k3_exhaustif.py:100-107 | for odd k, rebuilding gives the full porte from the compressed one with its centre doubled, and from the compressed one itself only when the middle digit is 0 |
| Histogram.Bump | Scripts_Verification/verifier_fermeture_k3_exhaustif.py:202 | `d[k] = d.get(k, 0) + 1`: the key set grows by exactly that key |
| Histogram.TotalRemove | Scripts_Verification/verifier_fermeture_k7_exhaustif.py:205 | `sum(d.values())` does not depend on the order the keys are taken |
| Histogram.BumpTotal | Scripts_Verification/verifier_fermeture_k3_exhaustif.py:202 | one bump adds exactly one to the sum of the counts, whether the key was new or not |
| ClosureSet.AddRebuilt | Scripts_Verification/verifier_fermeture_k3_exhaustif.py:95-113 | the loop over the halves of one length succeeds exactly when every half can be rebuilt, and adds exactly their rebuilt portes |
| ClosureSet.ExtractPortesOfLength | Scripts_Verification/verifier_fermeture_k3_exhaustif.py:81-115 | `extraire_portes_par_k` returns the rebuilt portes of length k, the empty set for an absent length, and fails when a half fails |
| ClosureSet.AddLength | Scripts_Verification/verifier_fermeture_k3_exhaustif.py:125-139 | one iteration of `extraire_toutes_portes_S` extends the union to one more length |
| ClosureSet.ExtractAllPortes | Scripts_Verification/verifier_fermeture_k3_exhaustif.py:118-141 | `extraire_toutes_portes_S` returns the rebuilt portes of every length, whatever order the lengths are visited in, and fails when any half fails |
| ClosureSet.AllPortesIsUnion | Scripts_Verification/verifier_fermeture_k3_exhaustif.py:118-141 | S exists exactly when every S_k exists, and S is the union of the S_k |
| ClosureSet.PortesOfLengthWithinAll | Scripts_Verification/verifier_fermeture_k3_exhaustif.py:159-160 | S_k is a subset of S |
| ClosureSet.Normalize | Scripts_Verification/verifier_fermeture_k7_exhaustif.py:40-52 | at k=8 both a bare list and a `{"porte": ...}` record give their list; elsewhere only bare lists give an integer porte |
| ClosureSet.LoadGates | Scripts_Verification/verifier_fermeture_k7_exhaustif.py:21-57 | `charger_toutes_portes` keys exactly the present lengths 3..8, each per-length set holds its normalised entries, the set of all is their union, and every k=8 entry's payload is in K8 |
| ClosureSet.GatesUnion | Scripts_Verification/verifier_fermeture_k8_exhaustif.py:26-65 | the set of all portes is the union of the per-length sets, and at k=8 both entry formats land in K8 |
| ClosureSweep.CandidatePorte | Scripts_Verification/verifier_fermeture_k7_exhaustif.py:152-155 | the porte tested for membership: the full porte for k=3..6; for k=7/8 None exactly off the digit count, otherwise the compressed porte |
| ClosureSweep.RunMirroredSweep | Scripts_Verification/verifier_fermeture_k3_exhaustif.py:172-202 | the k=3..6 scan loop leaves its counters, violation list and histogram equal to the fold `SweepFrom` over the interval |
| ClosureSweep.RunK7Sweep | Scripts_Verification/verifier_fermeture_k7_exhaustif.py:122-174 | the k=7 scan loop computes the fold `SweepFrom` in the K7 flavour |
| ClosureSweep.RunK8Sweep | Scripts_Verification/verifier_fermeture_k8_exhaustif.py:134-175 | the k=8 scan loop computes the fold `SweepFrom` in the K8 flavour, including the observed k=9 set |
| SweepProperties.SweepCounts | Scripts_Verification/verifier_fermeture_k3_exhaustif.py:177-185 | every number of the interval is counted once as tested, and candidates never exceed tested numbers |
| SweepProperties.CandidateCount | Scripts_Verification/verifier_fermeture_k3_exhaustif.py:184-185 | the candidate counter is the number of n in the interval whose porte is in S_k |
| SweepProperties.ViolationsSound | Scripts_Verification/verifier_fermeture_k3_exhaustif.py:192-198 | every recorded violation is a candidate n in the interval whose image porte is outside S (for k=8, and not of length 5), with n, its porte, T(n) and the image porte recorded correctly |
| SweepProperties.ViolationsAscending | Scripts_Verification/verifier_fermeture_k3_exhaustif.py:177 | violations lie in the interval and appear in strictly increasing order of n |
| SweepProperties.ViolationsComplete | Scripts_Verification/verifier_fermeture_k7_exhaustif.py:155-170 | the numbers of the violation list are exactly the escaping candidates of the interval |
| SweepProperties.AscendingDistinct | Scripts_Verification/verifier_fermeture_k3_exhaustif.py:192-198 | a violation list in ascending order of n reports as many distinct numbers as it has records |
| SweepProperties.ViolationCount | Scripts_Verification/verifier_fermeture_k3_exhaustif.py:253 | `len(fermeture_violee)` is the number of escaping candidates of the interval |
| SweepProperties.PrefixEarliest | Scripts_Verification/verifier_fermeture_k3_exhaustif.py:254 | a prefix of an ascending violation list holds its smallest numbers, in order |
| SweepProperties.EarliestViolations | Scripts_Verification/verifier_fermeture_k7_exhaustif.py:225 | `violations[:cap]` lists, in ascending order, the smallest escaping candidates of the interval |
| SweepProperties.ClosureVerdict | Scripts_Verification/verifier_fermeture_k3_exhaustif.py:222-234 | no violation was recorded exactly when no candidate of the interval escapes, i.e. every candidate's image porte is in S (for k=8: in S or of length 5) |
| SweepProperties.HistogramBalance | Scripts_Verification/verifier_fermeture_k7_exhaustif.py:162-174 | the histogram counts sum to the candidates (k=3..6, k=8), or to the candidates minus the violations (k=7) |
| SweepProperties.HistogramKeys | Scripts_Verification/verifier_fermeture_k3_exhaustif.py:200-202 | a length is a histogram key exactly when some counted candidate of the interval (every candidate; for k=7 only the hits) has an image porte of that length, and its count is the number of those candidates |
| SweepProperties.HistogramCount | Scripts_Verification/verifier_fermeture_k7_exhaustif.py:169-172 | for one length: it is a key exactly when a counted candidate has that image length, with the count of those candidates |
| SweepProperties.HistogramWitnesses | Scripts_Verification/verifier_fermeture_k3_exhaustif.py:200-202 | every histogram key is the image-porte length of some counted candidate of the interval |
| ClosureSweep.ImageOf | Scripts_Verification/verifier_fermeture_k3_exhaustif.py:64-71 | `calculer_porte_apres_T`: the porte of T(n) for a w-digit n has w or w+1 entries (full form) or (w+1)/2 or (w+2)/2 entries (compressed form) |
| SweepProperties.MirroredHistogramKeys | Scripts_Verification/verifier_fermeture_k3_exhaustif.py:200-202 | on the k-digit interval the only image lengths are k and k+1 |
| SweepProperties.CompressedHistogramKeys | Scripts_Verification/verifier_fermeture_k8_exhaustif.py:163-164 | k=7 hits always have a length-4 image porte; k=8 candidates have length 4 or 5 |
| SweepProperties.ObservedK9 | Scripts_Verification/verifier_fermeture_k8_exhaustif.py:166-168 | the observed k=9 set is exactly the length-5 image portes of k=8 candidates that are outside S |
| SweepProperties.K8ViolationsNotNine | Scripts_Verification/verifier_fermeture_k8_exhaustif.py:166-175 | no k=8 violation has a length-5 image porte, and the k=8 verdict holds exactly when every candidate's image is in S or of length 5 |
| ClosureDrivers.Finalize | Scripts_Verification/verifier_fermeture_k8_exhaustif.py:200-258 | `fermeture` holds exactly when there is no violation; the full count is kept; the saved list is the first min(count, cap) violations; `portes_k9_count` is the size of the observed set |
| ClosureDrivers.SweepReport | Scripts_Verification/verifier_fermeture_k3_exhaustif.py:246-261 | after any scan the saved count is the number of escaping candidates, the saved examples are the min(cap, count) smallest of them in ascending order, and each histogram count is the number of counted candidates at that length |
| ClosureDrivers.MirroredFacts | Scripts_Verification/verifier_fermeture_k3_exhaustif.py:172-261 | on [10^(k-1), 10^k): tested is 10^k - 10^(k-1), candidates are the numbers with porte in S_k, the verdict holds exactly when every candidate's image is in S, the histogram counts each candidate once at its image length (k or k+1), `violations` is the number of escaping candidates and the saved examples are the min(10, count) smallest of them in ascending order |
| ClosureDrivers.VerifyMirrored | Scripts_Verification/verifier_fermeture_k3_exhaustif.py:144-261 | `verifier_fermeture_k3_exhaustif` (and the k4-k6 copies) fails exactly when S_k or S cannot be rebuilt, and otherwise returns the finalized scan of [10^(k-1), 10^k), whose meaning MirroredFacts states |
| ClosureDrivers.K7Facts | Scripts_Verification/verifier_fermeture_k7_exhaustif.py:122-228 | on [lo, hi): the candidates are the numbers with porte in K7, the verdict holds exactly when every candidate's image is in S, the histogram counts each hit once at length 4 and the histogram total plus the violation count equals the candidates, `violations_count` is the number of escaping candidates and the saved examples are the min(100, count) smallest of them in ascending order |
| ClosureDrivers.VerifyK7 | Scripts_Verification/verifier_fermeture_k7_exhaustif.py:92-228 | `verifier_fermeture_k7_correct` fails (KeyError) exactly when no K7 file exists, and otherwise returns the finalized scan of [1 000 000, 10 000 000), whose meaning K7Facts states |
| ClosureDrivers.K8Facts | Scripts_Verification/verifier_fermeture_k8_exhaustif.py:134-258 | on [lo, hi): the candidates are the numbers with porte in K8, the histogram counts each candidate once at its image length (4 or 5), the verdict holds exactly when every candidate's image is in S or of length 5, the observed k=9 set is exactly the length-5 misses, the violation count is the number of escaping candidates and the saved examples are the min(100, count) smallest of them in ascending order, none of length 5 |
| ClosureDrivers.VerifyK8 | Scripts_Verification/verifier_fermeture_k8_exhaustif.py:104-258 | `verifier_fermeture_k8` fails (KeyError) exactly when no K8 file exists, and otherwise returns the finalized scan of [10 000 000, 100 000 000), whose meaning K8Facts states |
| Palindromes.PalindromeNumberIffReverseFixed | Scripts_Verification/verifier_fermeture_k9_exhaustif.py:38-41 | `est_palindrome(n)` on an integer holds exactly when n is not negative (`str` puts '-' in front) and reversing its digits gives n back |
| Palindromes.Classify | Scripts_Verification/verifier_fermeture_k9_exhaustif.py:89-124 | an entry goes to `erreurs` exactly when it is not a palindrome or its declared porte differs from the computed one, to `dans_k9` exactly when it passes and its porte is in K9, and the filed record carries the number and the porte |
| Palindromes.LoadK9Set | Scripts_Verification/verifier_fermeture_k9_exhaustif.py:63-65 | `portes_k9_set` holds exactly the listed portes |
| Palindromes.CheckPalindromes | Scripts_Verification/verifier_fermeture_k9_exhaustif.py:48-132 | the loop with its `continue`s computes the in-order classification `ClassifyAll` of the entries against the loaded K9 set, with `total_palindromes` the number of entries |
| Palindromes.ClassifyCounts | Scripts_Verification/verifier_fermeture_k9_exhaustif.py:82-124 | every entry lands in exactly one list: the three lengths sum to `total_palindromes` |
| Palindromes.ClassifySound | Scripts_Verification/verifier_fermeture_k9_exhaustif.py:94-124 | `dans_k9` and `hors_k9` hold only entries that passed both checks, with porte in K9 and not in K9 respectively; every error names an input that failed for the stated reason |
| Palindromes.ClassifyComplete | Scripts_Verification/verifier_fermeture_k9_exhaustif.py:94-124 | every passing entry is in `dans_k9` or `hors_k9` according to K9, and every failing entry has an error record |
| Palindromes.PalindromicDigitsPorte | Scripts_Verification/verifier_fermeture_k9_exhaustif.py:29-33 | for a palindromic digit string, each porte entry before the centre is twice a digit |
| Palindromes.PalindromePorteEven | Scripts_Verification/verifier_fermeture_k9_exhaustif.py:102 | the computed porte of a nine-digit palindrome has 5 entries, the four outer ones even |
| Palindromes.ClassifiedPortes | Scripts_Verification/verifier_fermeture_k9_exhaustif.py:243-244 | every `hors_k9` record has a 5-entry porte, so `porte[0]` and `porte[-1]` exist |
| Palindromes.GroupBySignature | Scripts_Verification/verifier_fermeture_k9_exhaustif.py:242-247 | the grouping loop computes the in-order grouping `Group` by (porte[0], porte[-1]) |
| Palindromes.GroupKeys | Scripts_Verification/verifier_fermeture_k9_exhaustif.py:242-247 | the keys of `signatures_hors` are exactly the signatures that occur |
| Palindromes.GroupMembers | Scripts_Verification/verifier_fermeture_k9_exhaustif.py:242-247 | a number is in a group exactly when a record with that signature carries it |
| Palindromes.GroupSizes | Scripts_Verification/verifier_fermeture_k9_exhaustif.py:242-247 | the group sizes sum to `len(hors_k9)`: nothing is lost or duplicated |
| Palindromes.Summarize | Scripts_Verification/verifier_fermeture_k9_exhaustif.py:304-312 | the verdict is 'PALINDROMES_DANS_K9' exactly when `dans_k9` is non-empty; the counts are the list lengths; `palindromes_hors_k9` is the numbers of the first min(100, n) `hors_k9` records |
| Palindromes.VerdictMeaning | Scripts_Verification/verifier_fermeture_k9_exhaustif.py:82-124 | the saved verdict is 'PALINDROMES_DANS_K9' exactly when some entry is a genuine palindrome, declared with its true porte, and that porte is in K9 |

## Left out

- File I/O, hard-coded paths, `Path.exists` and JSON reading and writing are
  not modelled. The loaded data are parameters.
- A missing K{k} file is a missing map key. A missing `portes` key behaves
  like an empty list, which is the same as an empty entry list here.
- Timing, speeds, ETA, progress output and the "prediction" comparisons are
  left out. They are wall-clock and floating-point output.
- The printed reports are left out: `generer_rapport_final`, the sorted
  histogram print-out, and the first 10 signature groups with 3 examples.
  They are output only.
- The percentage analyses are left out: the k6 stability percentage and the
  k8 STABLE/MONTER thresholds. They are floating point over printed values.
- The interactive `input()` confirmation of the k5 script and timestamps
  are left out. They are terminal I/O and the clock.
- The saved `portes_S{k}` lists, their sizes and the constant fields
  (dimension, method, interval) are not modelled. They are copied from
  loaded data or written as literals.
- The k8 observed set is saved sorted. It is modelled as a set, since the
  order is output formatting.
- ClosureSet.Normalize: a `{"porte": ...}` record at a length other than 8
  becomes, in Python, the tuple of its key strings. That tuple can never
  equal an integer porte, so the model drops the entry rather than keeping
  a string tuple.
- ClosureSet.ExtractAllPortes: the order in which Python iterates over the
  lengths is not modelled. The result is proved independent of it.
- Porte.Reconstruct: a stored half that is not a list of integers (another
  JSON type) is not modelled. Halves are integer sequences.
- Palindromes.Classify: `pal_info['nombre']` is taken to be an integer. A
  negative integer is never a palindrome, because `str` puts '-' in front.
- ClosureDrivers.VerifyMirrored: no concrete totals for k = 3..6 are
  derived. The contract is stated generically for every k >= 1.
- ClosureDrivers.VerifyK7: the violation count and histogram for the real
  K7 data are not computed, because the data are not part of this model.
  The same holds for ClosureDrivers.VerifyK8.
- Palindromes.CheckPalindromes: the report printed every 50 entries is not
  modelled.
