/**
 * The selection cascade of the modality-aware mutator: CDR regions (for a
 * nanobody), then explicit residues, then uncertainty.
 */
module Redesign {
  import opened Wrappers
  import opened Ordering
  import opened Scaffold
  import opened Cdr
  import opened Uncertainty
  import Masking

  /** peptide_start_idx + idx for each residue index, assuming one token per residue. */
  function ConvertResidueIndicesToTokenIndices(residues: seq<int>, start: int): (r: seq<int>)
    ensures |r| == |residues|
    ensures forall i :: 0 <= i < |r| ==> r[i] - start == residues[i]
    ensures StrictlyIncreasing(residues) ==> StrictlyIncreasing(r)
  {
    seq(|residues|, i requires 0 <= i < |residues| => start + residues[i])
  }

  /** A token is in the translation exactly when its offset from the start is a given residue. */
  lemma ConvertMembers(residues: seq<int>, start: int)
    ensures forall x :: x in ConvertResidueIndicesToTokenIndices(residues, start) <==> x - start in residues
  {
    var r := ConvertResidueIndicesToTokenIndices(residues, start);
    forall x ensures x in r <==> x - start in residues {
      if x in r {
        var i :| 0 <= i < |r| && r[i] == x;
        assert residues[i] == x - start;
      }
      if x - start in residues {
        var i :| 0 <= i < |residues| && residues[i] == x - start;
        assert r[i] == x;
      }
    }
  }

  /** The translated tokens lie at or after the peptide start exactly when no residue index is negative. */
  lemma ConvertAfterStart(residues: seq<int>, start: int)
    ensures var r := ConvertResidueIndicesToTokenIndices(residues, start);
      (forall x :: x in r ==> start <= x) <==> (forall x :: x in residues ==> 0 <= x)
  {
    var r := ConvertResidueIndicesToTokenIndices(residues, start);
    if forall x :: x in r ==> start <= x {
      forall x | x in residues ensures 0 <= x {
        var i :| 0 <= i < |residues| && residues[i] == x;
        assert r[i] == start + x && r[i] in r;
      }
    }
    if forall x :: x in residues ==> 0 <= x {
      forall x | x in r ensures start <= x {
        var i :| 0 <= i < |r| && r[i] == x;
        assert residues[i] == x - start && residues[i] in residues;
      }
    }
  }

  /**
   * The translated tokens lie inside a peptide of length len starting at
   * start exactly when every residue index lies in 0..len-1.
   */
  lemma ConvertInsidePeptide(residues: seq<int>, start: int, len: int)
    ensures var r := ConvertResidueIndicesToTokenIndices(residues, start);
      (forall x :: x in r ==> start <= x < start + len) <==> (forall x :: x in residues ==> 0 <= x < len)
  {
    var r := ConvertResidueIndicesToTokenIndices(residues, start);
    if forall x :: x in r ==> start <= x < start + len {
      forall x | x in residues ensures 0 <= x < len {
        var i :| 0 <= i < |residues| && residues[i] == x;
        assert r[i] == start + x && r[i] in r;
      }
    }
    if forall x :: x in residues ==> 0 <= x < len {
      forall x | x in r ensures start <= x < start + len {
        var i :| 0 <= i < |r| && r[i] == x;
        assert residues[i] == x - start && residues[i] in residues;
      }
    }
  }

  /** The CDR branch is taken: regions given and the modality is nanobody. */
  predicate UsesCdrRegions(c: Config)
  {
    c.nanobodyCdrRegions.Some? && c.modality == "nanobody"
  }

  /** The explicit-residue branch is taken. */
  predicate UsesResidues(c: Config)
  {
    !UsesCdrRegions(c) && c.residuesToMutate.Some?
  }

  /**
   * select_positions_to_mask of the modality-aware mutator. The numbering
   * library's answer is a parameter: None when the library is missing or
   * its numbering call raises.
   */
  function SelectPositionsToMask(c: Config, u: seq<real>, maskIndices: seq<int>, start: Option<int>,
                                 numbering: Option<Numbering>): (r: Result<seq<int>>)
    requires ValidIndices(maskIndices, |u|)
    ensures (UsesCdrRegions(c) || UsesResidues(c)) && start.None? ==> r == Err(MissingPeptideStart)
    ensures r.Err? && !UsesCdrRegions(c) && !UsesResidues(c) ==> r.error == UnknownStrategy(c.maskStrategy)
  {
    if UsesCdrRegions(c) then
      if start.None? then Err(MissingPeptideStart)
      else
        match GetNanobodyCdrResidues(c, numbering)
        case Err(e) => Err(e)
        case Ok(residues) => Ok(ConvertResidueIndicesToTokenIndices(residues, start.value))
    else if c.residuesToMutate.Some? then
      if start.None? then Err(MissingPeptideStart)
      else Ok(ConvertResidueIndicesToTokenIndices(c.residuesToMutate.value, start.value))
    else
      SelectByUncertainty(u, maskIndices, start, c.maskStrategy, c.maskRatio, c.uncertaintyThreshold)
  }

  /**
   * Priority of the CDR branch: when it is taken, neither the explicit
   * residues nor the strategy change the result, which is the sorted,
   * distinct CDR residues moved to the peptide's token positions; it fails
   * only on an unknown CDR name or an unresolvable peptide.
   */
  lemma CdrBranch(c: Config, u: seq<real>, maskIndices: seq<int>, s: int, numbering: Option<Numbering>,
                  otherResidues: Option<seq<int>>, otherStrategy: string)
    requires ValidIndices(maskIndices, |u|)
    requires UsesCdrRegions(c)
    ensures var r := SelectPositionsToMask(c, u, maskIndices, Some(s), numbering);
      r == SelectPositionsToMask(c.(residuesToMutate := otherResidues, maskStrategy := otherStrategy),
                                 u, maskIndices, Some(s), numbering) &&
      (r.Err? <==> GetPeptideSequence(c).Err? || FirstUnknown(c.nanobodyCdrRegions.value).Some?) &&
      (r.Ok? ==> StrictlyIncreasing(r.value) && forall x :: x in r.value ==> s <= x) &&
      (r.Ok? ==> GetNanobodyCdrResidues(c, numbering).Ok? &&
                 forall x :: x in r.value <==> x - s in GetNanobodyCdrResidues(c, numbering).value)
  {
    match GetPeptideSequence(c)
    case Err(_) =>
    case Ok(peptide) =>
      CdrResiduesSpec(peptide, c.nanobodyCdrRegions.value, numbering);
      var residues := GetNanobodyCdrResidues(c, numbering);
      if residues.Ok? {
        ConvertAfterStart(residues.value, s);
        ConvertMembers(residues.value, s);
      }
  }

  /** CDR regions given with any modality but nanobody are ignored, not rejected. */
  lemma CdrRegionsIgnoredUnlessNanobody(c: Config, u: seq<real>, maskIndices: seq<int>, start: Option<int>,
                                        numbering: Option<Numbering>)
    requires ValidIndices(maskIndices, |u|)
    requires c.modality != "nanobody"
    ensures SelectPositionsToMask(c, u, maskIndices, start, numbering) ==
      SelectPositionsToMask(c.(nanobodyCdrRegions := None), u, maskIndices, start, numbering)
  {
  }

  /**
   * The explicit-residue branch translates the given residues one by one,
   * in the given order and with repetitions kept, whatever the strategy.
   */
  lemma ResidueBranch(c: Config, u: seq<real>, maskIndices: seq<int>, s: int, numbering: Option<Numbering>)
    requires ValidIndices(maskIndices, |u|)
    requires UsesResidues(c)
    ensures var r := SelectPositionsToMask(c, u, maskIndices, Some(s), numbering);
      var rs := c.residuesToMutate.value;
      r.Ok? && |r.value| == |rs| && (forall i :: 0 <= i < |rs| ==> r.value[i] == s + rs[i])
  {
  }

  /** Without overrides the cascade is the uncertainty-guided selection of the earlier mutator. */
  lemma NoOverrideIsUncertaintySelection(c: Config, u: seq<real>, maskIndices: seq<int>, start: Option<int>,
                                         numbering: Option<Numbering>)
    requires ValidIndices(maskIndices, |u|)
    requires !UsesCdrRegions(c) && c.residuesToMutate.None?
    ensures SelectPositionsToMask(c, u, maskIndices, start, numbering) ==
      SelectByUncertainty(u, maskIndices, start, c.maskStrategy, c.maskRatio, c.uncertaintyThreshold)
  {
  }

  /**
   * Peptide-only selection: with a peptide start, every selected token is
   * at or after it, unless explicit residues with a negative index are
   * given (those are not checked).
   */
  lemma SelectionStaysInPeptide(c: Config, u: seq<real>, maskIndices: seq<int>, s: int,
                                numbering: Option<Numbering>)
    requires ValidIndices(maskIndices, |u|)
    requires UsesResidues(c) ==> forall x :: x in c.residuesToMutate.value ==> 0 <= x
    ensures var r := SelectPositionsToMask(c, u, maskIndices, Some(s), numbering);
      r.Ok? ==> forall x :: x in r.value ==> s <= x
  {
    if UsesCdrRegions(c) {
      CdrBranch(c, u, maskIndices, s, numbering, c.residuesToMutate, c.maskStrategy);
    } else if UsesResidues(c) {
      ConvertAfterStart(c.residuesToMutate.value, s);
    }
  }

  /** A negative residue index reaches into the target: residue -1 with the peptide at token 5 masks token 4. */
  lemma NegativeResidueReachesTarget(c: Config, u: seq<real>, maskIndices: seq<int>, numbering: Option<Numbering>)
    requires ValidIndices(maskIndices, |u|)
    requires c.modality == "custom" && c.residuesToMutate == Some([-1])
    ensures SelectPositionsToMask(c, u, maskIndices, Some(5), numbering) == Ok([4])
  {
    assert ConvertResidueIndicesToTokenIndices([-1], 5) == [4];
  }

  /** The HELVELLA example: residues 0, 2, 4, 6 select exactly those peptide tokens, whatever the strategy. */
  lemma ExplicitResiduesScenario(c: Config, u: seq<real>, maskIndices: seq<int>, s: int,
                                 numbering: Option<Numbering>)
    requires ValidIndices(maskIndices, |u|)
    requires c.tempPeptSeq == "HELVELLA" && c.modality == "custom" && c.residuesToMutate == Some([0, 2, 4, 6])
    ensures SelectPositionsToMask(c, u, maskIndices, Some(s), numbering) == Ok([s, s + 2, s + 4, s + 6])
  {
    assert ConvertResidueIndicesToTokenIndices([0, 2, 4, 6], s) == [s, s + 2, s + 4, s + 6];
  }

  /**
   * Without overrides, on the token ids the pipeline builds: the peptide
   * start found from the first eos, uncertainty and mask indices over the
   * same ids. Masking the selected positions then succeeds and leaves the
   * target (everything before the peptide start) unchanged.
   */
  lemma UncertaintyMaskingKeepsTarget(c: Config, ids: seq<int>, eos: int, maskId: int, u: seq<real>,
                                      maskIndices: seq<int>, numbering: Option<Numbering>)
    requires |u| == |ids| && ValidIndices(maskIndices, |u|)
    requires !UsesCdrRegions(c) && c.residuesToMutate.None?
    ensures var start := Masking.FindPeptideStartIdx(ids, eos);
      var r := SelectPositionsToMask(c, u, maskIndices, Some(start), numbering);
      r.Ok? ==>
        Masking.Masked(ids, r.value, maskId).Some? &&
        Masking.Masked(ids, r.value, maskId).value[..start] == ids[..start]
  {
    var start := Masking.FindPeptideStartIdx(ids, eos);
    var r := SelectPositionsToMask(c, u, maskIndices, Some(start), numbering);
    if r.Ok? {
      forall i | 0 <= i < |r.value| ensures start <= r.value[i] < |ids| {
        assert r.value[i] in r.value;
        var k :| 0 <= k < |maskIndices| && maskIndices[k] == r.value[i];
      }
      Masking.MaskingLeavesTargetIntact(ids, r.value, maskId, start);
    }
  }
}
