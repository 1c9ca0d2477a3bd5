/**
 * The HTTP/2 error codes (section 7 of RFC 7540), the error value that the
 * codecs raise, and the result type through which every fallible operation
 * of the model reports what it throws.
 */
module Http2Errors {

  datatype Option<+T> = None | Some(value: T)

  /** The members of the `Http2ErrorType` enumeration. */
  datatype Http2ErrorType =
    | NoError
    | ProtocolError
    | InternalError
    | FlowControlError
    | SettingsTimeout
    | StreamClosed
    | FrameSizeError
    | RefusedStream
    | Cancel
    | CompressionError
    | ConnectError
    | EnhanceYourCalm
    | InadequateSecurity
    | Http11Required

  /** The numeric value each member stands for. */
  function ErrorCode(t: Http2ErrorType): int
  {
    match t
    case NoError => 0x0
    case ProtocolError => 0x1
    case InternalError => 0x2
    case FlowControlError => 0x3
    case SettingsTimeout => 0x4
    case StreamClosed => 0x5
    case FrameSizeError => 0x6
    case RefusedStream => 0x7
    case Cancel => 0x8
    case CompressionError => 0x9
    case ConnectError => 0xa
    case EnhanceYourCalm => 0xb
    case InadequateSecurity => 0xc
    case Http11Required => 0xd
  }

  /** The member whose value is `code`; the codes 0x0 to 0xd are the only ones defined. */
  function ErrorTypeOfCode(code: int): (t: Option<Http2ErrorType>)
    ensures t.Some? <==> 0x0 <= code <= 0xd
  {
    match code
    case 0x0 => Some(NoError)
    case 0x1 => Some(ProtocolError)
    case 0x2 => Some(InternalError)
    case 0x3 => Some(FlowControlError)
    case 0x4 => Some(SettingsTimeout)
    case 0x5 => Some(StreamClosed)
    case 0x6 => Some(FrameSizeError)
    case 0x7 => Some(RefusedStream)
    case 0x8 => Some(Cancel)
    case 0x9 => Some(CompressionError)
    case 0xa => Some(ConnectError)
    case 0xb => Some(EnhanceYourCalm)
    case 0xc => Some(InadequateSecurity)
    case 0xd => Some(Http11Required)
    case _ => None
  }

  /** The codes are the contiguous range 0x0..0xd and name their members one to one. */
  lemma {:induction false} ErrorCodeRoundTrip(t: Http2ErrorType, code: int)
    ensures 0x0 <= ErrorCode(t) <= 0xd
    ensures ErrorTypeOfCode(ErrorCode(t)) == Some(t)
    ensures ErrorTypeOfCode(code).Some? ==> ErrorCode(ErrorTypeOfCode(code).value) == code
  {
  }

  /** An `Http2Error`: a message, the connection error type, and an optional stream error type. */
  datatype Http2Error = Http2Error(message: string, connectionType: Http2ErrorType, streamType: Option<Http2ErrorType>)
  {
    /** The `connectionErrorType` getter. */
    function ConnectionErrorType(): Http2ErrorType
    {
      connectionType
    }

    /** The `streamErrorType` getter; `None` when the constructor was given none. */
    function StreamErrorType(): Option<Http2ErrorType>
    {
      streamType
    }
  }

  /** The getters give back what the error was constructed with. */
  lemma {:induction false} ErrorGetters(message: string, c: Http2ErrorType, s: Option<Http2ErrorType>)
    ensures Http2Error(message, c, s).message == message
    ensures Http2Error(message, c, s).ConnectionErrorType() == c
    ensures Http2Error(message, c, s).StreamErrorType() == s
  {
  }

  /**
   * What an operation can throw: an `Http2Error`, or one of the exceptions
   * the JavaScript runtime raises by itself (a `RangeError` from a buffer
   * access out of bounds, a `TypeError` from a property read on `undefined`).
   */
  datatype Exception = Http2(error: Http2Error) | RangeError | TypeError

  /** The outcome of an operation that can throw. */
  datatype Result<+T> = Ok(value: T) | Throw(exception: Exception)
  {
    predicate IsFailure()
    {
      Throw?
    }

    function PropagateFailure<U>(): Result<U>
      requires Throw?
    {
      Throw(exception)
    }

    function Extract(): T
      requires Ok?
    {
      value
    }
  }

  /** `throw new Http2Error(message, t)`, with no stream error type. */
  function Raise<T>(message: string, t: Http2ErrorType): Result<T>
  {
    Throw(Http2(Http2Error(message, t, None)))
  }

  /** `r` is an `Http2Error` whose connection error type is `t`. */
  predicate Raised<T>(r: Result<T>, t: Http2ErrorType)
  {
    r.Throw? && r.exception.Http2? && r.exception.error.ConnectionErrorType() == t
  }
}
