/**
 * Failure-compatible result types shared by the decoder.  Every exception the
 * C# decoder can raise on a byte stream becomes one `Error` value.
 */
module Outcomes {

  /** The exceptions the decoder raises, named after their messages or types. */
  datatype Error =
    | NotAJpeg                    // "File is not a valid JPEG"
    | ExifBlockNotFound           // "Could not find Exif data block"
    | ExifDataNotFound            // "Exif data not found"
    | MalformedExifData           // "Malformed Exif data"
    | BadTiffHeader               // "Error in TIFF data"
    | ExifIfdNotFound             // "Unable to locate Exif data"
    | TagNotAtExpectedOffset      // "Tag number not at expected offset"
    | UnknownTiffType(tiffType: int)  // "Unknown TIFF datatype: {0}"
    | EndOfStream                 // a read or conversion that ran out of bytes
    | InvalidCast                 // `(T)(object)value` with the wrong T
    | InvalidDateFormat           // DateTime.ParseExact rejecting the text
    | Overflow                    // OverflowException from int arithmetic or Convert
    | NegativeSize                // a negative length handed to Array.Resize or Stream.Read

  datatype Result<+T> = Ok(value: T) | Err(error: Error) {
    predicate IsFailure() { Err? }
    function PropagateFailure<U>(): Result<U> requires Err? { Err(error) }
    function Extract(): T requires Ok? { value }
  }

  datatype Option<+T> = None | Some(value: T)

  /** The `bool` result plus `out` value of the `GetTagValue` family. */
  datatype Lookup<+T> = NotFound | Found(value: T)
}
