/** The record shapes that flow between the pipeline steps (app/schemas.py
    and the dictionaries of app/step_logic.py). */
module Schemas {
  import opened Builtins

  /** A calendar date, as `run_date` carries it. */
  datatype Date = Date(year: int, month: int, day: int)

  /** The `age` value of an input record: a JSON integer, a JSON boolean
      (a Python `bool`, which `int()` reads as 1 or 0), a JSON string, or
      anything else (absent, `null`, a list or an object), on which `int()`
      raises `TypeError`. */
  datatype Age = AgeInt(n: int) | AgeBool(b: bool) | AgeText(text: string) | AgeMissing

  /** An input record, a dictionary with string keys. Each text field is
      `None` when the key is absent and otherwise holds `str()` of the
      value stored under it. */
  datatype Record = Record(
    recordKey: Option<string>,
    fullName: Option<string>,
    email: Option<string>,
    age: Age,
    source: Option<string>)

  /** A record that passed validation, with its derived age bracket. */
  datatype ValidRecord = ValidRecord(
    recordKey: string,
    fullName: string,
    email: string,
    age: int,
    ageGroup: string,
    source: string)

  /** `InvalidRecord`: the input position, the original record and the
      reason it was rejected. */
  datatype InvalidRecord = InvalidRecord(recordIndex: int, record: Record, reason: string)
}
