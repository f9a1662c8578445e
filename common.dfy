/** Values shared by every part of the model: the ways the Python code fails,
    the Result and Option wrappers, and the cells of a pandas table. */
module Common {

  /** The exceptions the modelled code can raise. The code has no error types
      of its own: it fails through `assert`, through a name that was never
      bound, through a missing dictionary key or column, or inside numpy/scipy. */
  datatype Failure =
    | AssertionError   // a failed `assert`
    | KeyError         // a missing dictionary key or table column
    | NameError        // a local variable read before it was ever assigned
    | ValueError       // numpy/scipy rejecting an argument
    | IndexError       // indexing past the end of a list or array
    | AttributeError   // pandas' `.str` accessor on a column without strings

  datatype Result<T> = Ok(value: T) | Fail(failure: Failure)

  datatype Option<T> = None | Some(value: T)

  /** One cell of a pandas table: a string, a number, or NaN (a missing value). */
  datatype Cell = Text(s: string) | Number(x: real) | NaN

  /** No element occurs twice. */
  predicate Distinct<T(==)>(s: seq<T>) {
    forall i, j :: 0 <= i < j < |s| ==> s[i] != s[j]
  }

  /** Scaling by a non-negative factor keeps the order. */
  lemma ScaleMonotone(a: real, b: real, d: real)
    requires a <= b && 0.0 <= d
    ensures a * d <= b * d
  {
    assert b * d - a * d == (b - a) * d;
  }

  function Min(a: nat, b: nat): nat {
    if a <= b then a else b
  }
}
