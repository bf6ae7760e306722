/** Results of the simulator's operations. A Rust panic (an explicit
    `panic!`, a `todo!()`, an out-of-bounds `Vec` index, an integer
    division by zero, a `usize` subtraction below zero) stops the
    operation with no partial effect; the model reports it as `Err`. */
module Outcomes {

  /** Why an operation stops instead of producing a value. */
  datatype Fault =
    | NotRectangular      // Matrix::new given rows of different lengths
    | IndexOutOfBounds    // a Vec indexed past its end
    | DimensionMismatch   // operands whose shapes the operation refuses
    | Unimplemented       // a `todo!()` arm
    | DivisionByZero      // usize division by zero, or an exact complex quotient by zero
    | ArithmeticOverflow  // a usize subtraction below zero
    | ZeroSumBase         // inverse_tensor_product on a base whose entries sum to zero
    | UnknownKet          // Qubit::ket, whose every arm but the panic is commented out

  datatype Option<+T> = None | Some(value: T)

  datatype Result<+T> = Ok(value: T) | Err(fault: Fault)

  /** How an in-place operation on `&mut self` ended. */
  datatype Status = Completed | Panicked(fault: Fault)
}
