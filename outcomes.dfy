/** Error values and the (value, error) result pairs of the converter and the codec. */
module Outcomes {

  /** One constructor per error the core reports. */
  datatype Error =
    | BaseTooSmall(base: int)                      // "base cannot be less than 2"
    | DigitNotBelowBase(digit: nat, base: int)     // a digit value is >= the base it is read in
    | ValueOutsideAlphabet(value: nat, size: nat)  // a digit value has no alphabet character
    | CharacterNotInAlphabet(c: char)              // a character has no alphabet index
    | PaddedLengthTooShort(length: nat, target: int)

  /** The error half of a Go result: `Ok` stands for a nil error. */
  datatype Status = Ok | Fail(error: Error)

  /** The (value, error) pair a Go function returns. */
  datatype Outcome<T> = Outcome(value: T, status: Status)
}
