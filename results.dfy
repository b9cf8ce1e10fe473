/** Result codes of the protocol library and a failure-compatible result type.
    The C code returns `int8_t` codes (`_Z_RES_OK` or a negative `_Z_ERR_*`);
    here a successful call carries its value and a failed one names its error. */
module Results {

  datatype Option<+T> = None | Some(value: T)

  /** The `_Z_ERR_*` codes that the modelled core can produce. */
  datatype Error =
    | DeserializationFailed        // _Z_ERR_MESSAGE_DESERIALIZATION_FAILED
    | ZenohUnknown                 // _Z_ERR_MESSAGE_ZENOH_UNKNOWN
    | TransportUnknown             // _Z_ERR_MESSAGE_TRANSPORT_UNKNOWN
    | ExtensionMandatoryAndUnknown // _Z_ERR_MESSAGE_EXTENSION_MANDATORY_AND_UNKNOWN
    | Generic                      // _Z_ERR_GENERIC
    | OutOfMemory                  // _Z_ERR_SYSTEM_OUT_OF_MEMORY

  datatype Result<+T> = Ok(value: T) | Err(error: Error) {
    predicate IsFailure() { Err? }
    function PropagateFailure<U>(): Result<U> requires Err? { Err(error) }
    function Extract(): T requires Ok? { value }
  }

  /** A bare result code: `_Z_RES_OK` or an error. */
  type Status = Result<()>

  const OK: Status := Ok(())
}
