/** `complexity_subnational` of the package root, as written.

    The function reads `rcas.index.name` on its first line, but `rcas` is a
    local variable that is only assigned two statements later, so every
    call raises `UnboundLocalError` before anything is computed. Apart from
    that first line, the body is the pandas engine's `complexity_subnational`,
    which reads the index name from `df_rca`; that function is the corrected
    behaviour, modelled as `PandasComplexity.ComplexitySubnational`. */
module Subnational {
  import opened Numeric
  import opened Algebra
  import PandasComplexity

  /** `complexity_subnational(df_rca, pci_external, cutoff=..., standardize=...)`. */
  function ComplexitySubnational(rca: Matrix, cols: nat, acts: seq<int>, pci: PandasComplexity.Series,
                                 cutoff: real, standardize: bool): (r: Result<(seq<Num>, PandasComplexity.Series)>)
    requires IsMatrix(rca, cols) && |acts| == cols && PandasComplexity.WellFormed(pci)
  {
    Err(UnboundLocalError("rcas"))
  }

  /** No input escapes the error, not even an empty frame. */
  lemma AlwaysRaises(rca: Matrix, cols: nat, acts: seq<int>, pci: PandasComplexity.Series, cutoff: real, standardize: bool)
    requires IsMatrix(rca, cols) && |acts| == cols && PandasComplexity.WellFormed(pci)
    ensures ComplexitySubnational(rca, cols, acts, pci, cutoff, standardize).Err?
    ensures ComplexitySubnational(rca, cols, acts, pci, cutoff, standardize).error == UnboundLocalError("rcas")
  {
  }
}
