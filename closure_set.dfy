/** Assembling the closure set S and the per-length candidate sets from the
    data loaded from disk.

    - k=3..6 scripts: the closure file maps each length k to a list of stored
      halves; `extraire_portes_par_k` rebuilds the full forms of one length,
      `extraire_toutes_portes_S` those of every length.
    - k=7/8 scripts: `charger_toutes_portes` reads one list per length
      k = 3..8 (a missing file is skipped), accepts at k = 8 both bare lists
      and `{"porte": [...]}` records, and keeps the compressed form as is. */
module ClosureSet {
  import opened Options
  import opened Porte

  /** The stored halves, keyed by length (the `portes_par_longueur` object). */
  type StoredHalves = map<int, seq<seq<int>>>

  /** Every half of the list can be rebuilt at length k. */
  ghost predicate WellFormed(list: seq<seq<int>>, k: int)
  {
    forall h :: h in list ==> Reconstruct(h, k).Some?
  }

  ghost function Rebuilt(list: seq<seq<int>>, k: int): set<seq<int>>
  {
    set h | h in list && Reconstruct(h, k).Some? :: Reconstruct(h, k).value
  }

  /** The full forms of length k, or None when some half of that length
      cannot be rebuilt (the IndexError on an empty half at odd k). */
  ghost function PortesOfLength(halves: StoredHalves, k: int): Option<set<seq<int>>>
  {
    if k !in halves then Some({})
    else if !WellFormed(halves[k], k) then None
    else Some(Rebuilt(halves[k], k))
  }

  ghost predicate AllWellFormed(halves: StoredHalves, keys: set<int>)
  {
    forall k :: k in keys && k in halves ==> WellFormed(halves[k], k)
  }

  ghost function RebuiltOver(halves: StoredHalves, keys: set<int>): set<seq<int>>
  {
    set k, h | k in keys && k in halves && h in halves[k] && Reconstruct(h, k).Some? :: Reconstruct(h, k).value
  }

  /** The full forms of every length, or None when any half fails. */
  ghost function AllPortes(halves: StoredHalves): Option<set<seq<int>>>
  {
    if AllWellFormed(halves, halves.Keys) then Some(RebuiltOver(halves, halves.Keys))
    else None
  }

  lemma RebuiltAppend(list: seq<seq<int>>, k: int, j: nat)
    requires j < |list| && Reconstruct(list[j], k).Some?
    ensures Rebuilt(list[..j + 1], k) == Rebuilt(list[..j], k) + {Reconstruct(list[j], k).value}
  {
    assert list[..j + 1] == list[..j] + [list[j]];
  }

  lemma RebuiltOverAdd(halves: StoredHalves, keys: set<int>, k: int)
    requires k in halves
    ensures RebuiltOver(halves, keys + {k}) == RebuiltOver(halves, keys) + Rebuilt(halves[k], k)
  {
  }

  /** The inner loop of both extractors: add the full form of every half of
      one length to `portes`, failing on the first half that cannot be rebuilt. */
  method AddRebuilt(list: seq<seq<int>>, k: int, portes: set<seq<int>>) returns (r: Option<set<seq<int>>>)
    ensures r.Some? <==> WellFormed(list, k)
    ensures r.Some? ==> r.value == portes + Rebuilt(list, k)
  {
    var acc := portes;
    var j := 0;
    while j < |list|
      invariant 0 <= j <= |list|
      invariant WellFormed(list[..j], k)
      invariant acc == portes + Rebuilt(list[..j], k)
    {
      var porteComplete := Reconstruct(list[j], k);
      if porteComplete.None? {
        return None;
      }
      RebuiltAppend(list, k, j);
      assert list[..j + 1] == list[..j] + [list[j]];
      acc := acc + {porteComplete.value};
      j := j + 1;
    }
    assert list[..j] == list;
    return Some(acc);
  }

  /** `extraire_portes_par_k(S_data, k)`. */
  method ExtractPortesOfLength(halves: StoredHalves, k: int) returns (r: Option<set<seq<int>>>)
    ensures r == PortesOfLength(halves, k)
  {
    if k in halves {
      r := AddRebuilt(halves[k], k, {});
      assert {} + Rebuilt(halves[k], k) == Rebuilt(halves[k], k);
    } else {
      r := Some({});
    }
  }

  /** One iteration of `extraire_toutes_portes_S`: the halves of length k
      added to the union of the lengths already done. */
  method AddLength(halves: StoredHalves, done: set<int>, k: int, toutes: set<seq<int>>) returns (r: Option<set<seq<int>>>)
    requires k in halves
    requires toutes == RebuiltOver(halves, done)
    ensures r.Some? <==> WellFormed(halves[k], k)
    ensures r.Some? ==> r.value == RebuiltOver(halves, done + {k})
  {
    r := AddRebuilt(halves[k], k, toutes);
    RebuiltOverAdd(halves, done, k);
  }

  /** A non-empty set has an element. */
  lemma Member<T>(s: set<T>) returns (x: T)
    requires s != {}
    ensures x in s
  {
    x :| x in s;
  }

  /** `extraire_toutes_portes_S(S_data)`. The lengths are visited in an
      unspecified order; the result does not depend on it. */
  method ExtractAllPortes(halves: StoredHalves) returns (r: Option<set<seq<int>>>)
    ensures r == AllPortes(halves)
  {
    var toutes: set<seq<int>> := {};
    var remaining := halves.Keys;
    var done: set<int> := {};
    while remaining != {}
      invariant done + remaining == halves.Keys && done !! remaining
      invariant AllWellFormed(halves, done)
      invariant toutes == RebuiltOver(halves, done)
      decreases remaining
    {
      // a witness that `remaining` has a member, so the pick below exists
      ghost var someKey := Member(remaining);
      var k :| k in remaining;
      var added := AddLength(halves, done, k, toutes);
      if added.None? {
        assert !AllWellFormed(halves, halves.Keys);
        return None;
      }
      toutes := added.value;
      done := done + {k};
      remaining := remaining - {k};
    }
    assert done == halves.Keys;
    return Some(toutes);
  }

  /** The all-lengths set exists exactly when every per-length set does, and
      it is their union; in particular each per-length set lies inside it. */
  lemma AllPortesIsUnion(halves: StoredHalves)
    ensures AllPortes(halves).Some? <==> forall k :: PortesOfLength(halves, k).Some?
    ensures AllPortes(halves).Some? ==>
      forall p :: p in AllPortes(halves).value <==>
        exists k :: k in halves && p in PortesOfLength(halves, k).value
  {
    if AllPortes(halves).None? {
      var k :| k in halves && !WellFormed(halves[k], k);
      assert PortesOfLength(halves, k).None?;
    }
  }

  lemma PortesOfLengthWithinAll(halves: StoredHalves, k: int)
    requires AllPortes(halves).Some?
    ensures PortesOfLength(halves, k).Some?
    ensures PortesOfLength(halves, k).value <= AllPortes(halves).value
  {
    AllPortesIsUnion(halves);
  }

  // ---------------------------------------------------------------------
  // The loader of the k=7 and k=8 scripts

  /** A list entry in a `K{k}_portes.json` file: a bare list of integers, or
      a record holding the list under the key "porte". */
  datatype Entry = Bare(values: seq<int>) | Wrapped(porte: seq<int>)

  function Payload(e: Entry): seq<int>
  {
    match e
    case Bare(xs) => xs
    case Wrapped(xs) => xs
  }

  /** `tuple(entry["porte"])` or `tuple(entry)`: both formats are unwrapped
      at k = 8; elsewhere only bare lists give an integer signature. */
  function Normalize(k: int, e: Entry): (r: Option<seq<int>>)
    ensures k == 8 ==> r == Some(Payload(e))
    ensures e.Bare? ==> r == Some(e.values)
    ensures e.Wrapped? && k != 8 ==> r.None?
  {
    match e
    case Bare(xs) => Some(xs)
    case Wrapped(xs) => if k == 8 then Some(xs) else None
  }

  /** The files read: length k |-> the "portes" list of K{k}_portes.json,
      for the files that exist. */
  type GateFiles = map<int, seq<Entry>>

  ghost function GatesOfLength(list: seq<Entry>, k: int): set<seq<int>>
  {
    set e | e in list && Normalize(k, e).Some? :: Normalize(k, e).value
  }

  ghost function GatesByLength(files: GateFiles): map<int, set<seq<int>>>
  {
    map k | k in files && 3 <= k <= 8 :: GatesOfLength(files[k], k)
  }

  ghost function GatesBelow(files: GateFiles, bound: int): set<seq<int>>
  {
    set k, e | k in files && 3 <= k < bound && k <= 8 && e in files[k] && Normalize(k, e).Some? :: Normalize(k, e).value
  }

  ghost function AllGates(files: GateFiles): set<seq<int>>
  {
    GatesBelow(files, 9)
  }

  lemma GatesAppend(list: seq<Entry>, k: int, j: nat)
    requires j < |list|
    ensures GatesOfLength(list[..j + 1], k) ==
      GatesOfLength(list[..j], k) + (if Normalize(k, list[j]).Some? then {Normalize(k, list[j]).value} else {})
  {
    assert list[..j + 1] == list[..j] + [list[j]];
  }

  /** `charger_toutes_portes()`: for k = 3..8, every normalised entry of an
      existing file goes into that length's set and into the set of all. */
  method LoadGates(files: GateFiles) returns (toutesPortes: set<seq<int>>, portesParK: map<int, set<seq<int>>>)
    ensures portesParK == GatesByLength(files)
    ensures toutesPortes == AllGates(files)
    ensures portesParK.Keys == set k | k in files && 3 <= k <= 8
    ensures forall p :: p in toutesPortes <==> exists k :: k in portesParK && p in portesParK[k]
    ensures 8 in files ==> forall e :: e in files[8] ==> Payload(e) in portesParK[8]
  {
    toutesPortes := {};
    portesParK := map[];
    var k := 3;
    while k < 9
      invariant 3 <= k <= 9
      invariant toutesPortes == GatesBelow(files, k)
      invariant portesParK == map k' | k' in files && 3 <= k' < k :: GatesOfLength(files[k'], k')
    {
      if k in files {
        var portesList := files[k];
        var portesK: set<seq<int>> := {};
        var j := 0;
        while j < |portesList|
          invariant 0 <= j <= |portesList|
          invariant portesK == GatesOfLength(portesList[..j], k)
          invariant toutesPortes == GatesBelow(files, k) + portesK
        {
          var porte := Normalize(k, portesList[j]);
          GatesAppend(portesList, k, j);
          if porte.Some? {
            portesK := portesK + {porte.value};
            toutesPortes := toutesPortes + {porte.value};
          }
          j := j + 1;
        }
        assert portesList[..j] == portesList;
        portesParK := portesParK[k := portesK];
      }
      assert GatesBelow(files, k + 1) == GatesBelow(files, k) + (if k in files then GatesOfLength(files[k], k) else {});
      k := k + 1;
    }
    GatesUnion(files);
  }

  /** The set of all gates is the union of the per-length sets, and at k = 8
      a bare list and a wrapped record with the same payload are the same gate. */
  lemma GatesUnion(files: GateFiles)
    ensures forall p :: p in AllGates(files) <==> exists k :: k in GatesByLength(files) && p in GatesByLength(files)[k]
    ensures 8 in files ==> forall e :: e in files[8] ==> Payload(e) in GatesByLength(files)[8]
  {
    forall p | p in AllGates(files)
      ensures exists k :: k in GatesByLength(files) && p in GatesByLength(files)[k]
    {
      var k, e :| k in files && 3 <= k < 9 && k <= 8 && e in files[k] && Normalize(k, e).Some? && Normalize(k, e).value == p;
      assert p in GatesByLength(files)[k];
    }
  }
}
