/**
 * Shared vocabulary of the Bech32/Bech32m codec: bytes, the optional result
 * of the reference helpers that return None, the checksum variant and the
 * error codes carried by the decoders' results.
 */
module Types {

  /** One octet; strings handed to the codec are their UTF-8 bytes. */
  type Byte = b: int | 0 <= b < 256

  datatype Option<T> = None | Some(value: T)

  /** The checksum variant: BIP-173 Bech32, BIP-350 Bech32m, or neither. */
  datatype Encoding = BECH32 | BECH32M | UNKNOWN

  /** Why a decoder refused its input (NoError on success). */
  datatype DecodeError =
    | NoError
    | NotBech32Character        // a character outside the 32-symbol alphabet
    | InvalidCharacter          // a byte outside the printable range 33..126
    | MixedCase                 // both upper- and lower-case letters
    | SeparatorNotFound         // no '1' in the string
    | EmptyHrp                  // the last '1' is the first character
    | ChecksumTooShort          // fewer than six characters after the separator
    | TooLong                   // more than 90 characters
    | InvalidChecksum           // the residue matches neither variant
    | HrpMismatch               // a segwit address for another network
    | EmptyData                 // no witness version symbol
    | InvalidPadding            // the 5-to-8 regrouping leaves bad padding
    | InvalidProgramLength      // a witness program outside 2..40 bytes
    | InvalidWitnessVersion     // a witness version above 16
    | InvalidV0ProgramLength    // a version 0 program that is not 20 or 32 bytes
    | WrongEncodingVariant      // Bech32 for version >= 1 or Bech32m for version 0

  /** 'A'..'Z' */
  predicate IsUpper(c: Byte)
  {
    65 <= c <= 90
  }

  /** 'a'..'z' */
  predicate IsLower(c: Byte)
  {
    97 <= c <= 122
  }

  /** The printable, non-space ASCII range 33..126 allowed in a Bech32 string. */
  predicate IsPrintable(c: Byte)
  {
    33 <= c <= 126
  }
}
