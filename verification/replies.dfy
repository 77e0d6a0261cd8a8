/** The shapes of the HTTP replies the handlers send. */
module Replies {

  /** One express-validator complaint: the body field and the rule's message. */
  datatype FieldError = FieldError(param: string, msg: string)

  /**
   * The reply of a handler:
   * - `Success`: a 2xx status, the message and the payload;
   * - `Rejected`: an error status with its message;
   * - `Invalid`: 400 with the express-validator error list;
   * - `SchemaInvalid`: 400 'Validation error' with the messages of a failed document validation;
   * - `Forwarded`: the error is passed to the error middleware and no reply is sent here.
   */
  datatype Reply<T> =
    | Success(status: int, message: string, value: T)
    | Rejected(status: int, message: string)
    | Invalid(errors: seq<FieldError>)
    | SchemaInvalid(messages: seq<string>)
    | Forwarded
}
