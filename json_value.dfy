/** The JSON value tree produced by the stream parser and consumed by the
    translator extensions, together with the failure kinds both report. */
module JsonValues {

  /** A byte of the input stream. */
  newtype byte = x: int | 0 <= x < 0x100

  /** A UTF-16 code unit: the element of a .NET string. A `\u` escape can
      produce a lone surrogate, so Dafny's `char` is not used for text. */
  newtype CodeUnit = x: int | 0 <= x < 0x1_0000

  /** A .NET string. */
  type Text = seq<CodeUnit>

  /** A JSON value. `Number` keeps the lexeme the parser accumulated (the
      conversion to a double is not modelled); `Object` maps each key to its
      value, so a key occurs at most once. */
  datatype Json =
    | Null
    | Boolean(b: bool)
    | Number(lexeme: Text)
    | String(s: Text)
    | Array(items: seq<Json>)
    | Object(members: map<Text, Json>)

  /** The failures of the core, kept apart as the callers must tell them apart:
      FormatError     -- malformed input (FormatException);
      EndOfStream     -- the stream ended before the value was complete;
      Unsupported     -- a 32-bit `\U` escape (NotImplementedException);
      LogicError      -- an internal consistency check failed;
      RuntimeError    -- another exception raised by the .NET library
                         (missing key, index out of range, overflow, bad argument). */
  datatype Error = FormatError | EndOfStream | Unsupported | LogicError | RuntimeError

  datatype Option<+T> = None | Some(value: T)

  datatype Result<+T> = Ok(value: T) | Err(error: Error)

  /** Success or failure of an operation that returns nothing. */
  datatype Outcome = Pass | Fail(error: Error)

  /** A value read from a byte sequence together with the position just after it. */
  datatype Parsed<+T> = Parsed(value: T, next: nat)

  /** The code units of an ASCII Dafny string; used for the fixed texts of the
      source (separators, member names). */
  function Ascii(s: string): (t: Text)
    requires forall i :: 0 <= i < |s| ==> s[i] < 128 as char
    ensures |t| == |s|
    ensures forall i :: 0 <= i < |s| ==> t[i] as int == s[i] as int
  {
    if s == [] then [] else [s[0] as int as CodeUnit] + Ascii(s[1..])
  }
}
