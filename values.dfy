/** Values exchanged with the ABI decoder, errors, and the wrappers the pipeline returns. */
module Values {

  datatype Option<T> = None | Some(value: T)

  /** A JavaScript value as the decoder hands it back (numbers are integers: NaN is not modelled). */
  datatype Value =
    | Undefined
    | Null
    | Bool(b: bool)
    | Num(n: int)
    | Str(s: string)
    | List(items: seq<Value>)

  /** JavaScript truthiness: `if (v)` takes the branch exactly when Truthy(v). */
  predicate Truthy(v: Value) {
    match v
    case Undefined => false
    case Null => false
    case Bool(b) => b
    case Num(n) => n != 0
    case Str(s) => s != ""
    case List(_) => true
  }

  /** What the foreign parameter decoder does on one call: return values or throw. */
  datatype Decoding = Values(values: seq<Value>) | Throws(message: string)

  /** The foreign `decodeParameters(types, hexData)`. */
  type Decoder = (seq<string>, string) -> Decoding

  /** The foreign `encodeEventSignature(signatureString)`; its hex digest is a string. */
  type Hasher = string -> string

  /** The exceptions that can escape `parseLog`. */
  datatype Error =
    | DecoderError(message: string)  // thrown by the decoder and propagated unchanged
    | NotAList                       // TypeError: `thisAbi.filter` is not a function
    | NotAFunction                   // TypeError: `parseArgs` is not a function

  datatype Result<T> = Ok(value: T) | Err(error: Error)
}
