/** The exceptions the service throws, and the `Errors.NError` helper
    (src/utils/Erros.ts). */
module Errors {
  import opened Wrappers

  /** The object handed to an `RpcException`: a message and, optionally, a
      numeric status code. */
  datatype Payload = Payload(message: string, statusCode: Option<int>)

  /** Everything the service can throw. Each of them is an `Error` instance
      in the source, so a `catch` block sees its `message`. */
  datatype Fault =
    | Rpc(payload: Payload)        // RpcException carrying a payload object
    | NotFound(text: string)       // NotFoundException
    | BadRequest(text: string)     // BadRequestException
    | Storage(text: string)        // an error raised by the storage layer

  /** A value caught by a `catch` block: an `Error` or anything else. */
  datatype Thrown = Raised(fault: Fault) | NonError

  /** The `message` property of a thrown `Error`. An `RpcException` built from
      an object takes the object's `message`. */
  function Message(f: Fault): string {
    match f
    case Rpc(p) => p.message
    case NotFound(m) => m
    case BadRequest(m) => m
    case Storage(m) => m
  }

  /** An RpcException with a message and a status code. */
  function RpcError(message: string, statusCode: int): (f: Fault)
    ensures Message(f) == message
  {
    Rpc(Payload(message, Some(statusCode)))
  }

  /** JavaScript truthiness of an optional number: absent and 0 are falsy.
      (NaN is not modelled: numbers are integers here.) */
  predicate Truthy(n: Option<int>) {
    n.Some? && n.value != 0
  }

  /** `Errors.NError(message, statusCode?)`. It never returns normally: the
      result is always a Failure carrying the thrown RpcException, whose
      payload holds a status code exactly when the argument is truthy. */
  function NError(message: string, statusCode: Option<int>): (r: Result<(), Fault>)
    ensures r.Failure? && r.error.Rpc?
    ensures r.error.payload.message == message
    ensures r.error.payload.statusCode.Some? <==> Truthy(statusCode)
    ensures Truthy(statusCode) ==> r.error.payload.statusCode == statusCode
    ensures !Truthy(statusCode) ==> r.error == Rpc(Payload(message, None))
  {
    if statusCode.Some? && statusCode.value != 0 then
      Failure(Rpc(Payload(message, statusCode)))
    else
      Failure(Rpc(Payload(message, None)))
  }

  /** `String.prototype.includes`: `part` occurs somewhere in `s`. */
  predicate Includes(s: string, part: string) {
    exists i :: 0 <= i <= |s| && part <= s[i..]
  }
}
