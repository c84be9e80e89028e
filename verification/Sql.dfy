/** SQL's truth values: a comparison with NULL is neither true nor false, and a
    WHERE clause takes only the rows it is true of. */
module Sql {
  import opened Options

  datatype Truth = Yes | No | Unknown

  function Of(b: bool): Truth {
    if b then Yes else No
  }

  function And(a: Truth, b: Truth): Truth {
    if a.No? || b.No? then No else if a.Yes? && b.Yes? then Yes else Unknown
  }

  function Equal<T(==)>(a: Option<T>, b: Option<T>): Truth {
    if a.None? || b.None? then Unknown else Of(a == b)
  }

  function IsNull<T>(a: Option<T>): Truth {
    Of(a.None?)
  }

  function IsNotNull<T>(a: Option<T>): Truth {
    Of(a.Some?)
  }
}
