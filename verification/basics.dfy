/** Small datatypes shared by every part of the model. */
module Basics {

  /** A value that may be absent: a parsed number, a cancellation point, a report. */
  datatype Option<+T> = None | Some(value: T)

  /** Which reading of the bot a definition follows.
      AsWritten keeps the three defects listed under "Findings" in
      README.md; Corrected repairs them and is the build the system-level
      invariants are proved for. Both share every other definition. */
  datatype Build = AsWritten | Corrected
}
