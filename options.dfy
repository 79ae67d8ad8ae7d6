/** The optional value used wherever the pipeline can see a missing value
    (a NaN cell, an unmapped label, a value outside every histogram bin). */
module Options {
  datatype Option<+T> = None | Some(value: T)
}
