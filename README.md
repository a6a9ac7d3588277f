# Uncertainty-guided peptide mutation: position selection and masking

The system redesigns a peptide (an affibody, nanobody, affitin or custom
binder) against a target protein. It runs a protein language model over
`target <eos> peptide`. At each position it takes the highest probability
over the vocabulary (the confidence of the model's own best guess, not the
probability of the token actually present). One minus that is the
uncertainty score. It then picks peptide positions to replace with the mask
token and has the model fill them in.

This project models the deterministic core of that pipeline:

- `Scaffold`: configuration checks and resolution of the peptide sequence
  (the given sequence, a custom template, or the built-in template for the
  modality).
- `Cdr`: nanobody CDR residues and CDR reports. The hard-coded IMGT table is
  CDR1 26..35, CDR2 49..65 and CDR3 94..102. There is also the numbering
  path, which locates each CDR with Python's `str.find`.
- `Uncertainty`: `1 - p` uncertainty and the earlier mutator's selection.
  The strategies are top-k, threshold, and the entropy placeholder.
- `Masking`: where the peptide starts (just after the first `<eos>`), and
  substitution of the mask token into the token ids, in place.
- `Redesign`: the selection cascade. CDR regions come first (nanobody only),
  then explicit residues, then uncertainty. This module also translates
  residue indices into token indices.
- `Ordering` and `Wrappers`: Python's `sorted(set(...))`, and the
  `Option`/`Result` types. `Err` stands for each `ValueError` the code raises.

The numbering library (`abnumber`) is an input of type `Option<Numbering>`.
`None` means either that the library is not installed or that its `Chain`
call raised. The code takes the hard-coded fallback in both cases.
Otherwise the input holds the three CDR sequences the library reports; each
may be absent or empty.

Python semantics are written out explicitly:

- `int()` truncates toward zero.
- `list.index` returns the first occurrence; `str.find` returns the first
  occurrence or -1.
- A negative list index counts from the end, and an index outside `-n..n-1`
  raises `IndexError`.
- Slices clamp to the sequence.

Probabilities are `real`s.

`uncertainty_guided_mutation.py` is the earlier version of the mutator.
Three of its methods, and the uncertainty part of a fourth, are copied
verbatim into `llm_redesign.py`:

| `uncertainty_guided_mutation.py` | `llm_redesign.py` |
|---|---|
| `compute_uncertainty` 112-124 | 397-409 |
| `create_masked_sequence` 177-202 | 481-506 |
| `find_peptide_start_idx` 243-269 | 547-573 |
| the uncertainty part of `select_positions_to_mask` 144-175 | 448-479 |

Each of these is modelled once and cited from the earlier file.

Points where the code's behaviour is easy to misread:

- The top-k count is `max(1, int(n * ratio))`, which floors. For example,
  10 positions at ratio 0.25 give 2 positions, not 3.
- The entropy strategy returns the first eligible position, as a
  placeholder. It is not an error.
- CDR regions given for a modality other than nanobody are ignored
  silently, not rejected.
- Explicit residues are translated as given. They are not deduplicated,
  sorted or bounds-checked. A negative residue index therefore reaches into
  the target (`Redesign.NegativeResidueReachesTarget`).
- The fallback CDR report clamps each end to `len - 1`. On a short chain
  the reported end can therefore fall before the start
  (`Cdr.ShortSequenceInvertedRegion`).
- When there is no `<eos>`, the peptide is assumed to start at
  `len(ids) // 2`.
- An empty custom template yields an empty peptide without error.
- The mask indices that selection draws from are all token positions whose
  id is not the mask token, so `<eos>` and any special tokens around the
  peptide are included. After the peptide start, a trailing special token
  can therefore be selected and masked.

## Model

| member | source | states |
|---|---|---|
| Scaffold.Validate | llm_redesign.py:79-85 | construction succeeds exactly when a peptide sequence is given or a template is requested; otherwise the error is the missing-peptide error |
| Scaffold.GetTemplateSequence | llm_redesign.py:119-135 | fails exactly when there is no custom template and the modality has no built-in template, with the unknown-modality error; a built-in template is never empty |
| Scaffold.GetPeptideSequence | llm_redesign.py:137-158 | fails exactly when the template lookup fails or, without a template, the given sequence is empty; an empty result only comes from an empty custom template |
| Scaffold.PeptideResolution | llm_redesign.py:137-158 | the five cases: custom template, built-in template, unknown modality, given sequence, missing sequence, each with its exact result |
| Scaffold.ValidatedConfigResolves | llm_redesign.py:79-85 | after a successful construction the peptide resolves unless a template is requested for an unknown modality without a custom template |
| Scaffold.AffibodyTemplateScenario | llm_redesign.py:26-31 | an affibody configuration with use_template and no sequence validates and resolves to the 58-residue affibody template |
| Ordering.InsertSorted | llm_redesign.py:259 | inserting into a strictly increasing sequence keeps it strictly increasing and adds exactly the new value |
| Ordering.SortedUnique | llm_redesign.py:259 | `sorted(set(xs))`: strictly increasing with exactly the members of the input |
| Ordering.IncreasingUnique | llm_redesign.py:259 | two strictly increasing sequences with the same members are equal, so the sorted set is determined by its members |
| Ordering.SortedUniqueOfIncreasing | llm_redesign.py:259 | sorting and deduplicating an already strictly increasing list returns it unchanged |
| Cdr.InRange | llm_redesign.py:257 | `range(lo, hi)` holds exactly the integers from lo up to but excluding hi, has `hi - lo` elements (none when hi <= lo), and is strictly increasing |
| Cdr.FirstUnknown | llm_redesign.py:250-255 | reports no name exactly when every requested name is CDR1, CDR2 or CDR3, and otherwise reports a requested name outside the table |
| Cdr.FirstUnknownStep | llm_redesign.py:250-255 | the first unknown name of a list is its head when the head is unknown and otherwise the first unknown name of its tail |
| Cdr.TableResiduesCover | llm_redesign.py:249-257 | the collected residues are exactly those inside the IMGT span of some requested CDR |
| Cdr.FallbackResiduesSpec | llm_redesign.py:240-259 | fails exactly when a requested name is unknown, with the unknown-CDR error naming the first unknown name; otherwise strictly increasing and covering exactly the requested IMGT spans |
| Cdr.Cdr1FallbackResidues | llm_redesign.py:33-40 | requesting CDR1 alone yields residues 26 to 35 |
| Cdr.GetCdrResiduesFallback | llm_redesign.py:240-259 | the loop computes the fallback residues, raising on the first unknown name |
| Cdr.FindFrom | llm_redesign.py:228 | finds the first occurrence at or after k, or -1 when there is none |
| Cdr.Find | llm_redesign.py:228 | `str.find`: the first index where the substring occurs, or -1 exactly when it does not occur |
| Cdr.LocatedResiduesCover | llm_redesign.py:218-231 | the collected residues are exactly the positions covered by the first occurrence of a requested, non-empty CDR sequence |
| Cdr.AbnumberResiduesSpec | llm_redesign.py:197-234 | on success the numbered residues are strictly increasing, lie inside the chain, and cover exactly the located requested CDRs |
| Cdr.GetCdrResiduesAbnumber | llm_redesign.py:197-234 | the loop computes the numbered residues, raising on the first unknown name |
| Cdr.CdrResiduesSpec | llm_redesign.py:189-195 | fails exactly when a requested name is unknown, naming the first one; succeeds with strictly increasing non-negative residues, equal to the numbered ones when numbering succeeds; exactly the requested table spans without numbering and exactly the located requested CDRs with it |
| Cdr.GetNanobodyCdrResidues | llm_redesign.py:160-195 | rejects a modality other than nanobody and missing CDR regions; on success the residues are strictly increasing and non-negative, and are exactly the residues of the requested CDRs: their table spans without numbering, their first occurrences in the peptide with it |
| Cdr.Slice | llm_redesign.py:333-338 | Python slicing with both bounds clamped to the sequence |
| Cdr.FallbackReportEntries | llm_redesign.py:330-339 | the report holds one entry per listed CDR, each built from its IMGT span |
| Cdr.FallbackRegionsSpec | llm_redesign.py:318-341 | all three CDRs are reported; each keeps its IMGT start; the end is the IMGT end clamped to `len - 1`; the sequence is the matching clamped slice |
| Cdr.FallbackRegionsOrdered | llm_redesign.py:318-341 | on a chain longer than 102 residues the three regions are in bounds, in order and disjoint, and each sequence is the chain between start and end |
| Cdr.ShortSequenceInvertedRegion | llm_redesign.py:335-339 | on a 40-residue chain CDR2 is reported as (49, 39, empty): the end falls before the start |
| Cdr.IdentifyCdrsFallback | llm_redesign.py:318-341 | the loop, with its two branches, builds the fallback report |
| Cdr.AbnumberReportEntries | llm_redesign.py:304-309 | the report holds an entry exactly for each listed CDR whose sequence is non-empty and found |
| Cdr.AbnumberRegionsSpec | llm_redesign.py:284-316 | a CDR is reported exactly when its sequence is non-empty and occurs in the chain; each entry holds its first occurrence, its end, and the chain between them |
| Cdr.IdentifyCdrsAbnumber | llm_redesign.py:284-316 | the loop builds the numbered report |
| Cdr.IdentifyNanobodyCdrs | llm_redesign.py:261-282 | numbered report when numbering succeeds, else the fallback report, which holds all three CDRs |
| Uncertainty.ComputeUncertainty | uncertainty_guided_mutation.py:112-124 | one score per position; a more probable token has a score no higher; scores stay in [0, 1] for probabilities in [0, 1]; probability plus score is one |
| Uncertainty.Filter | uncertainty_guided_mutation.py:144-148 | a list comprehension with a condition keeps exactly the members that satisfy it and is no longer than its input |
| Uncertainty.FilterIncreasing | uncertainty_guided_mutation.py:144-148 | filtering keeps a strictly increasing list strictly increasing |
| Uncertainty.FilterDistinct | uncertainty_guided_mutation.py:144-148 | filtering keeps a duplicate-free list duplicate-free |
| Uncertainty.FilterFirst | uncertainty_guided_mutation.py:168-170 | the first element of a filtered list is the earliest input element that satisfies the condition |
| Uncertainty.Eligible | uncertainty_guided_mutation.py:144-148 | the peptide mask indices are exactly the mask indices at or after the peptide start, and all of them when there is no start |
| Uncertainty.TopKCount | uncertainty_guided_mutation.py:153-159 | the number of top-k positions lies between 1 and the number of eligible positions |
| Uncertainty.TopKCountFloors | uncertainty_guided_mutation.py:153-159 | for a non-negative ratio: a count above 1 is at most `n * ratio`, and a count below n is more than `n * ratio - 1`, so the count is `min(max(1, floor(n * ratio)), n)`; a product below 1 gives 1, and a product of at least n gives n |
| Uncertainty.TopKCountExamples | uncertainty_guided_mutation.py:153-159 | 8 at 0.25 gives 2; 10 at 0.25 gives 2 (truncation, not rounding up); 3 at 0.1 gives 1 (the minimum of one); 4 at 1.5 gives 4 (the cap) |
| Uncertainty.InsertByUncertainty | uncertainty_guided_mutation.py:156-159 | inserting into a list ordered by descending uncertainty keeps it ordered and adds exactly the new index |
| Uncertainty.SortByUncertainty | uncertainty_guided_mutation.py:156-159 | the ordering that topk uses: the same indices, in descending order of uncertainty |
| Uncertainty.SortDistinct | uncertainty_guided_mutation.py:156-159 | sorting keeps distinct indices distinct |
| Uncertainty.InsertDistinct | uncertainty_guided_mutation.py:156-159 | inserting an absent index keeps the list duplicate-free |
| Uncertainty.TopKSpec | uncertainty_guided_mutation.py:156-159 | k indices, in descending uncertainty, all eligible, distinct when the input is, and none less uncertain than an eligible index left out |
| Uncertainty.SelectByUncertainty | uncertainty_guided_mutation.py:126-175 | selected positions are mask indices at or after the peptide start; no eligible position gives an empty selection; an unknown strategy is an error exactly when some position is eligible |
| Uncertainty.TopKSelection | uncertainty_guided_mutation.py:153-159 | top_k selects `max(1, int(n * ratio))` (capped at n) distinct eligible positions, most uncertain first, and no unselected eligible position is more uncertain |
| Uncertainty.ThresholdSelection | uncertainty_guided_mutation.py:161-166 | threshold selects exactly the eligible positions whose uncertainty exceeds the threshold, in their original order |
| Uncertainty.EntropySelection | uncertainty_guided_mutation.py:168-170 | entropy selects exactly the first eligible position |
| Masking.IndexOf | uncertainty_guided_mutation.py:262 | `list.index`: the first position holding the value, or none exactly when it is absent |
| Masking.FindPeptideStartIdx | uncertainty_guided_mutation.py:243-269 | the start is just after the first `<eos>` and lies within the ids; without `<eos>` it is half the length, rounded down |
| Masking.StartAfterSeparator | uncertainty_guided_mutation.py:243-269 | for ids `target + [eos] + peptide`, with no `<eos>` in the target, the start is `len(target) + 1` and the ids from there are the peptide |
| Masking.Masked | uncertainty_guided_mutation.py:196-198 | the masked ids have the original length |
| Masking.MaskedSpec | uncertainty_guided_mutation.py:196-198 | masking succeeds exactly when every position is a valid Python index; each id becomes the mask id if some position (negative ones counting from the end) hits it, else stays |
| Masking.MaskingLeavesTargetIntact | uncertainty_guided_mutation.py:196-198 | masking positions that all lie between the peptide start and the end leaves every id before the start unchanged |
| Masking.CreateMaskedIds | uncertainty_guided_mutation.py:177-202 | masks the ids array in place, stopping with an error at the first out-of-range position; everything before that position has been applied |
| Redesign.ConvertResidueIndicesToTokenIndices | llm_redesign.py:343-361 | one token index per residue, offset by the peptide start; strictly increasing residues give strictly increasing tokens |
| Redesign.ConvertMembers | llm_redesign.py:359-360 | a token is produced exactly when its offset from the peptide start is one of the residues |
| Redesign.ConvertAfterStart | llm_redesign.py:343-361 | the tokens lie at or after the peptide start exactly when no residue index is negative |
| Redesign.ConvertInsidePeptide | llm_redesign.py:343-361 | the tokens lie inside a peptide of length len exactly when every residue index lies in 0..len-1 |
| Redesign.SelectPositionsToMask | llm_redesign.py:411-479 | CDR and residue overrides without a peptide start fail with the missing-start error; without overrides, the only failure is an unknown strategy (CDR failures are stated by Redesign.CdrBranch) |
| Redesign.CdrBranch | llm_redesign.py:429-437 | CDR regions override explicit residues and strategy; they fail exactly on an unresolvable peptide or an unknown CDR name, and otherwise give strictly increasing tokens at or after the start, which are exactly the start plus each requested CDR residue |
| Redesign.CdrRegionsIgnoredUnlessNanobody | llm_redesign.py:430 | for any modality except nanobody, the CDR regions have no effect on the selection |
| Redesign.ResidueBranch | llm_redesign.py:439-446 | explicit residues are translated one by one, in the given order, whatever the strategy |
| Redesign.NoOverrideIsUncertaintySelection | llm_redesign.py:448-479 | without overrides the selection is the earlier mutator's uncertainty selection |
| Redesign.SelectionStaysInPeptide | llm_redesign.py:411-479 | with a peptide start, every selected token is at or after it, unless explicit residues include a negative index |
| Redesign.NegativeResidueReachesTarget | llm_redesign.py:439-446 | residue -1 with the peptide starting at token 5 selects token 4, which belongs to the target |
| Redesign.ExplicitResiduesScenario | llm_redesign.py:670-681 | the HELVELLA example with residues 0, 2, 4, 6 selects exactly the tokens at start + 0, 2, 4, 6 |
| Redesign.UncertaintyMaskingKeepsTarget | llm_redesign.py:596-611 | without overrides, masking the selection at the start found from `<eos>` succeeds and leaves every target token unchanged |

## Left out

- Model, tokenizer and weights loading (`__post_init__` apart from its check, `_load_weights_safetensors`): these are I/O and foreign libraries.
- `get_logprobs`: a model forward pass. Its outputs are parameters: the per-position maximum probability over the vocabulary, and the mask indices, which are every position whose token is not the mask token (special tokens included).
- `generate_mutations`: sampling from the model, which is random and foreign.
- Tokenizer encoding and decoding in `create_masked_sequence` and `find_peptide_start_idx`: the model works on the token id list. The tokenizer is not part of this model.
- `run`: the model covers its selection and masking steps (`Redesign.UncertaintyMaskingKeepsTarget`); its printing and result dictionary are not modelled.
- The `abnumber` `Chain` call: the numbering it returns is an input, `None` when the library is absent or raises.
- The warning prints, the `n_seq_out`, `model_id` and `device` fields, and the `__main__` examples other than the affibody-template one (`Scaffold.AffibodyTemplateScenario`) and the explicit-residue one (`Redesign.ExplicitResiduesScenario`).
- `OLD/generate.py` and the example and test scripts are not part of this model.
- Uncertainty.ComputeUncertainty: probabilities are exact reals, not bfloat16 or float32 tensors, so rounding is not modelled.
- Uncertainty.TopKCount: `mask_ratio` and the product `n * mask_ratio` are exact reals, not float64. The model gives `TopKCount(100, 0.57) == 57`, while Python computes `100 * 0.57` as 56.99999999999999 and so masks 56 positions.
- Uncertainty.ThresholdSelection: the comparison `uncertainty > threshold` is between exact reals. The source compares bfloat16 uncertainties with a Python float, so a score near the threshold may compare differently.
- Uncertainty.TopK: `torch.topk` does not specify the order of equal scores. The model breaks ties by list position, and the properties proved (count, descending order, membership, dominance) hold for any tie order.
- Uncertainty.SelectByUncertainty: it requires every mask index to be a valid index into the uncertainty vector. In the source this holds because both come from the same tokenisation.
- Redesign.SelectPositionsToMask: it has the same requirement on the mask indices as the uncertainty selection.
- Masking.CreateMaskedIds: on an out-of-range position the Python list is left partly masked and then discarded. The model states the partial state and reports failure instead of raising `IndexError`.
- CDR selection can produce token positions past the end of the peptide: the fallback table reaches residue 102 whatever the peptide length. Masking then fails (`Masking.MaskedSpec`) or hits trailing tokens. The model exposes this through its contracts but does not cap it, because the source does not.
