/**
 * The data a worker thread holds: patient rows read from a data file.
 *
 * A row is an array whose leading cells are integer feature values and whose
 * last cell is the patient's status (the class label, e.g. "Tumor" or
 * "Normal"). The model keeps the two parts apart, so "every position but the
 * last" is the `features` field and "the last element" is `status`.
 */
module Patients {

  /** A status label. */
  type Label = string

  /** One patient row: the feature cells followed by the status cell. */
  datatype Patient = Patient(features: seq<int>, status: Label)

  /** JavaScript's `null` next to a present value. */
  datatype Option<T> = None | Some(value: T)

  function Abs(x: int): (r: nat)
    ensures r == x || r == -x
  {
    if x < 0 then -x else x
  }

  function Min(a: int, b: int): (r: int)
    ensures r <= a && r <= b && (r == a || r == b)
  {
    if a < b then a else b
  }
}
