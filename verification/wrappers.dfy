/** The optional value shared by the models of prob1.c and vcfquery.c. */
module Wrappers {
  datatype Option<T> = None | Some(value: T)
}
