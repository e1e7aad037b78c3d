/** Failure values of the converter. The C++ code throws an `Exception`
    carrying a formatted message and, for a colour clash, a pixel position;
    here every failure is a constructor of `Error`, and the position is a
    field of the one failure that has it. */
module Errors {

  datatype Option<+T> = None | Some(value: T)

  datatype Error =
    | InvalidCoordinates(x: nat, y: nat)        // Matrix::get / Matrix::set out of bounds
    | InvalidColor(color: bv32)                 // Palette::lookup found no entry
    | PaletteIndexOutOfRange                    // Palette::get / operator[] past the end
    | XNotMultipleOf8                           // Image::get_byte with x % 8 != 0
    | ColorClash(x: nat, y: nat)                // a third colour in one cell
    | OutOfCharacters                           // Charset::add with a full charset
    | DimensionsNotMultipleOf8                  // Bitmap and TextScreen constructors
    | DimensionsNotMultipleOfSpriteSize         // SpriteSheet constructor
    | NotPrintfoxImage                          // unknown Printfox tag
    | TruncatedHeader                           // 'P' tag without its two size bytes
    | PrematureEndOfFile(index: nat, total: nat) // payload ended after `index` of `total` bytes
    | TrailingData(count: nat)                  // bytes left after the Printfox payload
    | CantReadCharset                           // fewer than 256 bytes of charset data
    | FileNameTooShort                          // std::string::substr past the end

  /** A value or the error that prevented computing it; usable with `:-`. */
  datatype Result<+T> = Ok(value: T) | Err(error: Error) {
    predicate IsFailure() {
      Err?
    }

    function PropagateFailure<U>(): Result<U>
      requires Err?
    {
      Err(error)
    }

    function Extract(): T
      requires Ok?
    {
      value
    }
  }
}
