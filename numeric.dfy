/** Cells of a numeric data frame.

    A cell is either a finite real or the "undefined" marker that pandas and
    NumPy write as NaN. Arithmetic on cells follows IEEE propagation: any
    operation with an undefined operand is undefined, and every division by
    zero is undefined. (The lemmas of the engine modules show that, on the
    non-negative inputs the library is meant for, only 0/0 divisions occur.) */
module Numeric {

  datatype Num = Fin(v: real) | NaN

  /** An optional argument (`None` in the source). */
  datatype Option<T> = None | Some(value: T)

  /** The exception a call raises before it returns. */
  datatype PyError =
    | UnboundLocalError(local: string)
    | NameError(global: string)
    | AttributeError(attribute: string)
    | ColumnNotFoundError(column: string)
    | ValueError(message: string)

  /** A call that either returns a value or raises. */
  datatype Result<T> = Ok(value: T) | Err(error: PyError)

  function Add(x: Num, y: Num): Num {
    if x.Fin? && y.Fin? then Fin(x.v + y.v) else NaN
  }

  function Sub(x: Num, y: Num): Num {
    if x.Fin? && y.Fin? then Fin(x.v - y.v) else NaN
  }

  function Mul(x: Num, y: Num): Num {
    if x.Fin? && y.Fin? then Fin(x.v * y.v) else NaN
  }

  function Div(x: Num, y: Num): Num {
    if x.Fin? && y.Fin? && y.v != 0.0 then Fin(x.v / y.v) else NaN
  }

  /** np.maximum / np.minimum: NaN propagates. */
  function Max(x: Num, y: Num): Num {
    if x.Fin? && y.Fin? then Fin(if x.v >= y.v then x.v else y.v) else NaN
  }

  function Min(x: Num, y: Num): Num {
    if x.Fin? && y.Fin? then Fin(if x.v <= y.v then x.v else y.v) else NaN
  }

  /** The comparison `x >= c` of pandas and NumPy: false on NaN. */
  predicate AtLeast(x: Num, c: real) {
    x.Fin? && x.v >= c
  }

  /** The comparison `x < c` of pandas and NumPy: false on NaN. */
  predicate Below(x: Num, c: real) {
    x.Fin? && x.v < c
  }

  /** `fillna(0)` on one cell, read as a real. */
  function OrZero(x: Num): real {
    if x.Fin? then x.v else 0.0
  }

  /** `fillna(0)` on one cell. */
  function FillZero(x: Num): Num {
    Fin(OrZero(x))
  }

  /** A cell of a 0/1 indicator matrix. */
  predicate IsBit(x: Num) {
    x == Fin(0.0) || x == Fin(1.0)
  }

  /** x / x is 1 and 0 / x is 0 for a non-zero x. */
  lemma DivSelf(x: real)
    requires x != 0.0
    ensures x / x == 1.0 && 0.0 / x == 0.0
  {
  }
}
