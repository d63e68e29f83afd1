/** Option and Result datatypes, and a fact about finite sets, shared by all modules. */
module Prelude {
  datatype Option<+T> = None | Some(value: T)

  datatype Result<+T, +E> = Ok(value: T) | Err(error: E)

  lemma {:induction false} SubsetIsNotLarger<T>(small: set<T>, large: set<T>)
    requires small <= large
    ensures |small| <= |large|
    decreases |small|
  {
    if small != {} {
      var x :| x in small;
      SubsetIsNotLarger(small - {x}, large - {x});
    }
  }
}
