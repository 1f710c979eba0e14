/** The part of the nuclio function SDK the handlers use: the response they return. */
module Nuclio {

  /** A response body: plain text, or a value serialised as JSON (the encoding itself is
      not modelled). */
  datatype Body<T> = Text(text: string) | Json(value: T)

  /** `nuclio.Response{StatusCode, ContentType, Body}`. */
  datatype Response<T> = Response(statusCode: int, contentType: string, body: Body<T>)

  /** The 204 answer for an empty request body and for a body nothing matched. */
  function BodyEmpty<T>(): Response<T> {
    Response(204, "application/text", Text("Body empty"))
  }

  /** The answer for a pattern that does not compile, with the handler's status code. */
  function RegexError<T>(code: int): Response<T> {
    Response(code, "application/text", Text("Regex error"))
  }

  /** A 200 answer carrying `value` as JSON. */
  function JsonOk<T>(value: T): Response<T> {
    Response(200, "application/json", Json(value))
  }
}
