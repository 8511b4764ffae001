/** Error results of the flashing tool.  Every `exit(1)`, every exception the
    tool raises or lets escape, becomes one `Error` value; a `Result` carries
    either the value an operation computed or the error that ended it. */
module Errors {
  import opened Bytes

  datatype Option<+T> = None | Some(value: T)

  datatype Error =
    | InfoLength(got: nat)              // INFO reply that is not exactly 24 bytes (exit(1))
    | NoDevice                          // no port answered the sync probe (exit(1))
    | Timeout(received: seq<byte>)      // send_cmd saw no marker before the deadline (ValueError)
    | PortFailure                       // the serial port raised SerialException
    | WrongLength                       // READ returned a payload of the wrong size (ValueError)
    | CrcMismatch                       // CRC reply differs from the local CRC-32 (ValueError)
    | Overflow                          // int.to_bytes(4) of a value outside [0, 2^32) (OverflowError)
    | RetriesExhausted                  // bare `raise` after the last attempt (RuntimeError)
    | Misaligned                        // erase address or length not sector-aligned (exit(1))
    | OutOfRange                        // write range outside the flash (exit(1))
    | NoLoadableSegments                // `chunks[0]` on an empty chunk list (IndexError)
    | MissingBaseAddress                // .bin file without an address (exit(1))
    | UnsupportedFileType(suffix: string) // neither .elf nor .bin (exit(1))
    | ZeroDivision                      // pad_len with an alignment of 0 (ZeroDivisionError)
    | NotANumber(text: string)          // parse_integer found no base that accepts the text

  datatype Result<+T> = Ok(value: T) | Err(error: Error)

  /** The errors the chunk loops catch (`except ValueError`) and retry. */
  predicate Retryable(e: Error) {
    e.Timeout? || e.WrongLength? || e.CrcMismatch?
  }
}
