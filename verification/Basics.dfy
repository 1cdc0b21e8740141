/** Types shared by all modules. */
module Basics {
  newtype byte = x: int | 0 <= x < 256

  type Bytes = seq<byte>

  datatype Option<T> = None | Some(value: T)

  datatype Result<+T, +E> = Ok(value: T) | Err(error: E)

  /** The longest record a table can have. */
  const MAX_RECORD_SIZE: int := 512

  datatype ColType = TInt | TFloat | TString

  /** A column of a table, or of what an executor delivers. */
  datatype ColMeta = ColMeta(tab: string, name: string, ctype: ColType, len: int, offset: int, index: bool)

  predicate Distinct<T(==)>(xs: seq<T>)
  {
    forall i, j :: 0 <= i < j < |xs| ==> xs[i] != xs[j]
  }
}
