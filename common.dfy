/** Types shared by every part of the Argon decoder model. */
module Common {

  /** An unsigned 8-bit value, the unit of an Argon file. */
  newtype byte = b: int | 0 <= b < 256

  /** Number of opcodes (the length of the command map); literal bytes start here. */
  const CommandCount: int := 7

  /** The exceptions the decoder can raise, one per distinct failure site. */
  datatype Error =
    | CharacterOutOfRange   // ByteToCharacter indexed outside the alphabet
    | TooFewIntegerBytes    // BitConverter.ToInt32 given fewer than 4 bytes
    | DuplicateFieldName    // AddField, even index, name already present
    | InvalidTypeByte       // AddField, odd index, payload not exactly 1 byte
    | UnknownType           // AddField, odd index, TypeMap indexed out of range
    | NoTable               // Tables.Last() on an empty table list
    | ByteOverflow          // AddRecord, field index above the field count
    | NoColumnType          // AddRecord, fieldTypes indexed out of range
    | NoRecord              // AddRecordValue with no record started
    | InvalidIgnoreByte     // Ignore, payload longer than 1 byte
    | EmptyIgnorePayload    // Ignore, payload[0] on an empty payload
    | NoProcessor           // control marker fired with no handler selected
    | FileNotFound          // File.ReadAllBytes on a missing file
    | RecursionLimit        // OpenFile nested deeper than the available stack
    | NegativePadding       // PrintTable, new string(' ', n) with n < 0

  datatype Option<+T> = None | Some(value: T)

  /** Outcome of an operation that may throw; usable with `:-`. */
  datatype Result<+T> = Ok(value: T) | Err(error: Error) {
    predicate IsFailure() { Err? }

    function PropagateFailure<U>(): Result<U>
      requires Err?
    {
      Err(error)
    }

    function Extract(): T
      requires Ok?
    {
      value
    }
  }
}
