/** Which part to ask for next (core/download/ics.py: `ics_mode`, `_c_pref`, `choose_part`). */
module IcsSelect {
  import opened Base
  import opened Ics

  const CM_SPREAD_MINSRC := 10
  const CM_SHARE_MINSRC := 25
  const CM_MAX_SRC_CHUNK := 3

  datatype Mode = Release | Spread | Share

  // ----- mode -----

  /** The source count of a part, when the part has one. */
  ghost predicate SourcesAtMost(frequencies: seq<int>, gapParts: set<int>, bound: int) {
    exists p :: p in gapParts && 0 <= p < |frequencies| && frequencies[p] <= bound
  }

  ghost function ModeFor(frequencies: seq<int>, gapParts: set<int>): Mode {
    if SourcesAtMost(frequencies, gapParts, CM_SPREAD_MINSRC) then Release
    else if SourcesAtMost(frequencies, gapParts, CM_SHARE_MINSRC) then Spread
    else Share
  }

  function PartSet(parts: seq<int>): set<int> {
    set p | p in parts
  }

  /** `ics_mode`: by the scarcest part still missing bytes. */
  method IcsMode(frequencies: seq<int>, gapParts: seq<int>) returns (mode: Mode)
    ensures mode == ModeFor(frequencies, PartSet(gapParts))
  {
    if gapParts == [] || frequencies == [] {
      return Share;
    }
    var minSrc: Option<int> := None;
    var i := 0;
    while i < |gapParts|
      invariant i <= |gapParts|
      invariant forall j :: 0 <= j < i && 0 <= gapParts[j] < |frequencies| ==>
                  minSrc.Some? && minSrc.value <= frequencies[gapParts[j]]
      invariant minSrc.Some? ==>
                  exists p :: p in gapParts && 0 <= p < |frequencies| && frequencies[p] == minSrc.value
    {
      var p := gapParts[i];
      if 0 <= p < |frequencies| {
        var f := frequencies[p];
        if minSrc.None? || f < minSrc.value {
          minSrc := Some(f);
        }
      }
      i := i + 1;
    }
    if minSrc.None? {
      return Share;
    }
    if minSrc.value <= CM_SPREAD_MINSRC {
      return Release;
    }
    if minSrc.value <= CM_SHARE_MINSRC {
      return Spread;
    }
    return Share;
  }

  /** The mode is that of the scarcest missing part, when any has a source count. */
  lemma {:induction false} ScarcestDecides(frequencies: seq<int>, gapParts: set<int>, p: int)
    requires p in gapParts && 0 <= p < |frequencies|
    requires forall q :: q in gapParts && 0 <= q < |frequencies| ==> frequencies[p] <= frequencies[q]
    ensures ModeFor(frequencies, gapParts)
            == if frequencies[p] <= 10 then Release else if frequencies[p] <= 25 then Spread else Share
  {
    assert forall bound :: SourcesAtMost(frequencies, gapParts, bound) <==> frequencies[p] <= bound;
  }

  lemma {:induction false} UncountedIsShare(frequencies: seq<int>, gapParts: set<int>)
    requires forall q :: q in gapParts ==> !(0 <= q < |frequencies|)
    ensures ModeFor(frequencies, gapParts) == Share
  {
  }

  // ----- preference of a part -----

  /** `x | 0xFF000000` of a 32-bit value */
  function WithTopByte(x: nat): nat {
    0xFF00_0000 + x % 0x100_0000
  }

  /** As many others already on the part as its missing bytes warrant. */
  predicate OverAssigned(partsDownloading: nat, gapSize: nat) {
    gapSize > 0 && partsDownloading >= CeilDiv(gapSize * 3, PART_SIZE)
  }

  function CPref(mode: Mode, size2transfer: nat, partsDownloading: nat, gapSize: nat): nat {
    var combined := size2transfer + (PART_SIZE * partsDownloading) / CM_MAX_SRC_CHUNK;
    var shifted := Min(0xFFFF, combined / 0x100);
    var pref := if mode == Release then size2transfer else shifted * 0x1_0000;
    if OverAssigned(partsDownloading, gapSize) then WithTopByte(pref) else pref
  }

  /** In every mode an over-assigned part ranks behind every other part. An
      unpenalised part has a combined load below PART_SIZE. */
  lemma {:induction false} OverAssignedRanksLast(mode: Mode, gap1: nat, others1: nat, gap2: nat, others2: nat)
    requires 0 < gap1 <= PART_SIZE && !OverAssigned(others1, gap1)
    requires 0 < gap2 <= PART_SIZE && OverAssigned(others2, gap2)
    ensures (PART_SIZE - gap1) + (PART_SIZE * others1) / CM_MAX_SRC_CHUNK < PART_SIZE
    ensures CPref(mode, PART_SIZE - gap1, others1, gap1) < CPref(mode, PART_SIZE - gap2, others2, gap2)
  {
    assert PART_SIZE * others1 < gap1 * 3;
  }

  // ----- choosing a part -----

  /** What a selection decides on. */
  datatype View = View(available: set<int>, frequencies: seq<int>, gapParts: set<int>,
                       gapSizes: map<int, nat>, downloading: map<int, nat>)

  predicate IsCandidate(v: View, p: int) {
    p in v.gapParts && p in v.available && p in v.gapSizes && v.gapSizes[p] > 0
  }

  function Others(v: View, p: int): nat {
    if p in v.downloading then v.downloading[p] else 0
  }

  function PrefIn(mode: Mode, v: View, p: int): nat
    requires p in v.gapSizes && v.gapSizes[p] <= PART_SIZE
  {
    CPref(mode, PART_SIZE - v.gapSizes[p], Others(v, p), v.gapSizes[p])
  }

  ghost function Pref(v: View, p: int): nat
    requires p in v.gapSizes && v.gapSizes[p] <= PART_SIZE
  {
    PrefIn(ModeFor(v.frequencies, v.gapParts), v, p)
  }

  ghost predicate GapSizesFit(v: View) {
    forall p :: p in v.gapSizes ==> v.gapSizes[p] <= PART_SIZE
  }

  /** The contract of a choice: the sticky part if it can be had, otherwise a part
      of least preference value, whichever the random pick takes. */
  ghost predicate IsChoice(v: View, lastPart: Option<int>, chosen: Option<int>)
    requires GapSizesFit(v)
  {
    && (chosen.None? <==> forall p :: !IsCandidate(v, p))
    && (chosen.Some? ==> IsCandidate(v, chosen.value))
    && (lastPart.Some? && IsCandidate(v, lastPart.value) ==> chosen == lastPart)
    && (chosen.Some? && !(lastPart.Some? && IsCandidate(v, lastPart.value)) ==>
          forall p :: IsCandidate(v, p) ==> Pref(v, chosen.value) <= Pref(v, p))
  }

  /** When the sticky part is not a candidate, an over-assigned part is never
      chosen while a candidate below the limit exists. */
  lemma {:induction false} OverAssignmentDominance(v: View, lastPart: Option<int>, chosen: int, better: int)
    requires GapSizesFit(v) && IsChoice(v, lastPart, Some(chosen))
    requires lastPart.Some? ==> !IsCandidate(v, lastPart.value)
    requires IsCandidate(v, better) && !OverAssigned(Others(v, better), v.gapSizes[better])
    ensures !OverAssigned(Others(v, chosen), v.gapSizes[chosen])
  {
    if OverAssigned(Others(v, chosen), v.gapSizes[chosen]) {
      OverAssignedRanksLast(ModeFor(v.frequencies, v.gapParts), v.gapSizes[better], Others(v, better),
                            v.gapSizes[chosen], Others(v, chosen));
    }
  }

  /** A part is over-assigned when its missing bytes, three times over, are no more than
      a whole part for each other range. */
  lemma {:induction false} OverAssignedIff(others: nat, gap: nat)
    ensures OverAssigned(others, gap) <==> gap > 0 && 3 * gap <= 9_728_000 * others
  {
  }

  /** The bytes of a part that are there, and a third of a part for every other range. */
  function Load(v: View, p: int): nat
    requires p in v.gapSizes && v.gapSizes[p] <= 9_728_000
  {
    9_728_000 - v.gapSizes[p] + 9_728_000 * Others(v, p) / 3
  }

  /** What a choice prefers, where the sticky part is no candidate. While few have the
      scarcest part, the part with most missing bytes; otherwise the least load, in
      units of 256 bytes. Over-assigned parts come last, and among themselves in the
      same order, but with loads told apart only modulo 65,536 bytes. */
  lemma {:induction false} ChoiceOrder(v: View, lastPart: Option<int>, p: int, q: int)
    requires GapSizesFit(v) && IsChoice(v, lastPart, Some(p)) && IsCandidate(v, q)
    requires lastPart.Some? ==> !IsCandidate(v, lastPart.value)
    ensures var overP, overQ := OverAssigned(Others(v, p), v.gapSizes[p]), OverAssigned(Others(v, q), v.gapSizes[q]);
            && (overP ==> overQ)
            && (overP == overQ ==>
                  if ModeFor(v.frequencies, v.gapParts) == Release then v.gapSizes[q] <= v.gapSizes[p]
                  else if !overP then Load(v, p) / 256 <= Load(v, q) / 256
                  else Min(65_535, Load(v, p) / 256) % 256 <= Min(65_535, Load(v, q) / 256) % 256)
  {
    var mode := ModeFor(v.frequencies, v.gapParts);
    assert PrefIn(mode, v, p) <= PrefIn(mode, v, q);
    if OverAssigned(Others(v, p), v.gapSizes[p]) && !OverAssigned(Others(v, q), v.gapSizes[q]) {
      OverAssignmentDominance(v, lastPart, p, q);
    }
    PrefMeans(mode, v, p);
    PrefMeans(mode, v, q);
  }

  lemma {:induction false} PrefMeans(mode: Mode, v: View, p: int)
    requires IsCandidate(v, p) && v.gapSizes[p] <= PART_SIZE
    ensures var over := OverAssigned(Others(v, p), v.gapSizes[p]);
            PrefIn(mode, v, p)
            == if mode == Release then (if over then 0xFF00_0000 else 0) + PART_SIZE - v.gapSizes[p]
               else if over then 0xFF00_0000 + Min(65_535, Load(v, p) / 256) % 256 * 0x1_0000
               else Load(v, p) / 256 * 0x1_0000
  {
    var gap, others := v.gapSizes[p], Others(v, p);
    if OverAssigned(others, gap) {
      TopByteOf(Min(65_535, Load(v, p) / 256));
    } else {
      OverAssignedIff(others, gap);
    }
  }

  lemma {:induction false} TopByteOf(shifted: nat)
    ensures shifted * 0x1_0000 % 0x100_0000 == shifted % 256 * 0x1_0000
  {
    DivModUnique(shifted * 0x1_0000, 0x100_0000, shifted / 256, shifted % 256 * 0x1_0000);
  }

  /** The candidates with their preference values. */
  method Candidates(v: View, gapParts: seq<int>) returns (candidates: seq<(int, nat)>)
    requires GapSizesFit(v) && PartSet(gapParts) == v.gapParts
    ensures forall j :: 0 <= j < |candidates| ==>
              IsCandidate(v, candidates[j].0) && candidates[j].1 == Pref(v, candidates[j].0)
    ensures forall p :: IsCandidate(v, p) ==> exists k :: 0 <= k < |candidates| && candidates[k].0 == p
  {
    candidates := [];
    var i := 0;
    while i < |gapParts|
      invariant i <= |gapParts|
      invariant forall j :: 0 <= j < |candidates| ==>
                  IsCandidate(v, candidates[j].0) && candidates[j].1 == Pref(v, candidates[j].0)
      invariant forall j :: 0 <= j < i && IsCandidate(v, gapParts[j]) ==>
                  exists k :: 0 <= k < |candidates| && candidates[k].0 == gapParts[j]
    {
      var p := gapParts[i];
      if p in v.available && p in v.gapSizes && v.gapSizes[p] > 0 {
        var mode := IcsMode(v.frequencies, gapParts);
        var pref := PrefIn(mode, v, p);
        ghost var before := candidates;
        candidates := candidates + [(p, pref)];
        assert forall k :: 0 <= k < |before| ==> candidates[k] == before[k];
        assert candidates[|before|].0 == p;
      }
      i := i + 1;
    }
  }

  /** `min` over the candidates, as an index. */
  method Least(candidates: seq<(int, nat)>) returns (least: nat)
    requires candidates != []
    ensures least < |candidates| && forall j :: 0 <= j < |candidates| ==> candidates[least].1 <= candidates[j].1
  {
    least := 0;
    var i := 1;
    while i < |candidates|
      invariant least < |candidates| && 1 <= i <= |candidates|
      invariant forall j :: 0 <= j < i ==> candidates[least].1 <= candidates[j].1
    {
      if candidates[i].1 < candidates[least].1 {
        least := i;
      }
      i := i + 1;
    }
  }

  /** `choose_part` */
  method ChoosePart(v: View, gapParts: seq<int>, lastPart: Option<int>) returns (chosen: Option<int>)
    requires GapSizesFit(v) && PartSet(gapParts) == v.gapParts
    ensures IsChoice(v, lastPart, chosen)
  {
    var candidates := Candidates(v, gapParts);
    if candidates == [] {
      return None;
    }
    assert IsCandidate(v, candidates[0].0);
    if lastPart.Some? {
      var i := 0;
      while i < |candidates|
        invariant i <= |candidates|
        invariant forall j :: 0 <= j < i ==> candidates[j].0 != lastPart.value
      {
        if candidates[i].0 == lastPart.value {
          return lastPart;
        }
        i := i + 1;
      }
    }
    var least := Least(candidates);
    var pick :| 0 <= pick < |candidates| && candidates[pick].1 == candidates[least].1;
    return Some(candidates[pick].0);
  }
}
