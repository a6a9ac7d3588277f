/**
 * The mutator's configuration and the choice of the peptide (scaffold)
 * sequence: an explicit peptide, a custom template, or the template of a
 * known modality.
 */
module Scaffold {
  import opened Wrappers

  const AffibodyTemplate: string := "VDNKFNKELSVAGREIVTLPNLNDPQKKAFIFSLWDDPSQSANLLAEAKKLNDAQAPK"
  const NanobodyTemplate: string := "AQVQLQESGGGLVQAGGSLRLSCAASERTFSTYAMGWFRQAPGREREFLAQINWSGTTTYYAESVKDRTTISRDNAKNTVYLEMNNLNADDTGIYFCAAHPQRGWGSTLGWTYWGQGTQVTVSSGGGGSGGGKPIPNPLLGLDSTRTGHHHHHH"
  const AffitinTemplate: string := "MRGSHHHHHHGSVKVKFVSSGEEKEVDTSKIKKVWRNLTKYGTIVQFTYDDNGKTGRGYVRELDAPKELLDMLARAEGKLN"

  /** The per-modality template table; "custom" (or any other name) has no entry. */
  const ModalityTemplates: map<string, string> :=
    map["affibody" := AffibodyTemplate, "nanobody" := NanobodyTemplate, "affitin" := AffitinTemplate]

  /**
   * The dataclass fields that the selection logic reads. Model loading,
   * device and output count are not part of this model.
   */
  datatype Config = Config(
    targetSeq: string,
    tempPeptSeq: string,
    modality: string,
    maskStrategy: string,
    maskRatio: real,
    uncertaintyThreshold: real,
    useTemplate: bool,
    customTemplate: Option<string>,
    residuesToMutate: Option<seq<int>>,
    nanobodyCdrRegions: Option<seq<string>>)

  /** The check made on construction: some peptide source must be given. */
  function Validate(c: Config): (r: Result<Config>)
    ensures r.Ok? <==> c.tempPeptSeq != [] || c.useTemplate
    ensures r.Ok? ==> r.value == c
    ensures r.Err? ==> r.error == MissingPeptide
  {
    if c.tempPeptSeq == [] && !c.useTemplate then Err(MissingPeptide) else Ok(c)
  }

  /** The template for the configured modality; a custom template takes precedence. */
  function GetTemplateSequence(c: Config): (r: Result<string>)
    ensures r.Err? <==> c.customTemplate.None? && c.modality !in ModalityTemplates
    ensures r.Err? ==> r.error == UnknownModality(c.modality)
    ensures r.Ok? && c.customTemplate.None? ==> r.value != []
  {
    match c.customTemplate
    case Some(t) => Ok(t)
    case None =>
      if c.modality in ModalityTemplates then Ok(ModalityTemplates[c.modality])
      else Err(UnknownModality(c.modality))
  }

  /** The peptide to mutate: the template when use_template is set, otherwise the explicit peptide. */
  function GetPeptideSequence(c: Config): (r: Result<string>)
    ensures r.Err? <==>
      (c.useTemplate && c.customTemplate.None? && c.modality !in ModalityTemplates) ||
      (!c.useTemplate && c.tempPeptSeq == [])
    ensures r.Ok? && r.value == [] ==> c.useTemplate && c.customTemplate == Some([])
  {
    if c.useTemplate then GetTemplateSequence(c)
    else if c.tempPeptSeq == [] then Err(MissingPeptide)
    else Ok(c.tempPeptSeq)
  }

  /**
   * Which source wins: with use_template a custom template wins even over a
   * known modality, then the modality's table entry; without it the explicit
   * peptide is used as given.
   */
  lemma PeptideResolution(c: Config)
    ensures c.useTemplate && c.customTemplate.Some? ==>
      GetPeptideSequence(c) == Ok(c.customTemplate.value)
    ensures c.useTemplate && c.customTemplate.None? && c.modality in ModalityTemplates ==>
      GetPeptideSequence(c) == Ok(ModalityTemplates[c.modality])
    ensures c.useTemplate && c.customTemplate.None? && c.modality !in ModalityTemplates ==>
      GetPeptideSequence(c) == Err(UnknownModality(c.modality))
    ensures !c.useTemplate && c.tempPeptSeq != [] ==> GetPeptideSequence(c) == Ok(c.tempPeptSeq)
    ensures !c.useTemplate && c.tempPeptSeq == [] ==> GetPeptideSequence(c) == Err(MissingPeptide)
  {
  }

  /**
   * A configuration that passed construction always resolves a peptide,
   * except when a template is requested for a modality without one.
   */
  lemma ValidatedConfigResolves(c: Config)
    requires Validate(c).Ok?
    ensures GetPeptideSequence(c).Ok? <==>
      !c.useTemplate || c.customTemplate.Some? || c.modality in ModalityTemplates
  {
  }

  /** The affibody example: a template request without a peptide gives the 58-residue affibody template. */
  lemma AffibodyTemplateScenario(c: Config)
    requires c.modality == "affibody" && c.useTemplate && c.tempPeptSeq == [] && c.customTemplate.None?
    ensures Validate(c).Ok?
    ensures GetPeptideSequence(c) == Ok(AffibodyTemplate)
    ensures |AffibodyTemplate| == 58
  {
  }
}
