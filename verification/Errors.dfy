/** The error values that a reader returns; `Ok` is the nil error. */
module Errors {

  datatype Error =
    | Ok
    | Eof
    | UnexpectedEof
    | HeaderLengthMsb
    | HeaderLengthUnexpected
    | OpCodeReserved
    | ControlPayloadOverflow
    | ControlNotFinal
    | MaskRequired
    | MaskUnexpected
    | ContinuationExpected
    | ContinuationUnexpected
    | UnexpectedCompressionBit
    | FrameTooLarge
    | NoFrameAdvance
    | InvalidUtf8
    | BadCloseData
    | Closed(code: nat)
    | Flate
    | WriteFailed
}
