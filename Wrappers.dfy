/** Option and Result types shared by the model, and the errors the core raises. */
module Wrappers {

  datatype Option<T> = None | Some(value: T)

  /** Every ValueError the position-selection core raises, by cause. */
  datatype Error =
    | MissingPeptide                     // no temp_pept_seq and use_template unset
    | UnknownModality(modality: string)  // template requested for a modality without one
    | NotNanobody(modality: string)      // CDR lookup outside the nanobody modality
    | MissingCdrRegions                  // CDR lookup without nanobody_cdr_regions
    | UnknownCdr(name: string)           // a region name other than CDR1, CDR2, CDR3
    | MissingPeptideStart                // an override used without peptide_start_idx
    | UnknownStrategy(strategy: string)  // a mask_strategy other than top_k, threshold, entropy

  /** The value an operation returns, or the exception it raises. */
  datatype Result<T> = Ok(value: T) | Err(error: Error)
}
