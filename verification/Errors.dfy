/** The outcomes of decoding: Go's `nil` and the errors the generated code returns. */
module Errors {
  datatype Error =
    | Nil
    | IntOverflow           // ErrIntOverflowCompany: a tenth continuation byte
    | UnexpectedEOF         // io.ErrUnexpectedEOF
    | InvalidLength         // ErrInvalidLengthCompany: a negative length or index
    | UnexpectedEndOfGroup  // ErrUnexpectedEndOfGroupCompany
    | IllegalWireType       // wire types 6 and 7
    | EndGroupForNonGroup   // wire type 4 at the top level of a message
    | IllegalTag            // a field number that is not positive
    | WrongWireType         // a known field with another wire type
}
