/** server/middleware/errorHandler.js: the fallback route and the mapping of a
    thrown error to a status and a message. */
module ErrorHandler {
  import opened Wrappers
  import opened Http

  /** The fields of a thrown error the handler looks at. An empty `message` or
      `code` stands for a missing one; `statusCode` may be absent. */
  datatype Error = Error(name: string, code: string, message: string, statusCode: Option<int>)

  const RouteNotFound := "Route not found"
  const FileTooLarge := "File size too large. Maximum size is 5MB."

  /** JavaScript's `s || fallback` on strings. */
  function OrElse(s: string, fallback: string): string
  {
    if s != "" then s else fallback
  }

  /** Any request that reaches no route gets 404. */
  function NotFound(): (r: Response)
    ensures r.status == 404 && r.body == Message(RouteNotFound)
  {
    Fail(404, RouteNotFound)
  }

  /** The branch chain of errorHandler. A Multer error is answered 400 (a size
      overflow with its own message), then a schema validation error 400, and any
      other error with its own non-zero status code or 500. The message is never
      empty. */
  function Handle(err: Error): (r: Response)
    ensures r.body.Message? && r.body.text != "" && r.status != 0
    ensures err.name == "MulterError" ==>
      r == Fail(400, if err.code == "LIMIT_FILE_SIZE" then FileTooLarge else OrElse(err.message, "File upload error"))
    ensures err.name == "ValidationError" ==> r == Fail(400, OrElse(err.message, "Validation error"))
    ensures err.name != "MulterError" && err.name != "ValidationError" ==>
      r.status == (if err.statusCode.Some? && err.statusCode.value != 0 then err.statusCode.value else 500) &&
      r.body.text == OrElse(err.message, "Internal server error")
  {
    if err.name == "MulterError" then
      if err.code == "LIMIT_FILE_SIZE" then Fail(400, FileTooLarge)
      else Fail(400, OrElse(err.message, "File upload error"))
    else if err.name == "ValidationError" then
      Fail(400, OrElse(err.message, "Validation error"))
    else
      var status := if err.statusCode.Some? && err.statusCode.value != 0 then err.statusCode.value else 500;
      Fail(status, OrElse(err.message, "Internal server error"))
  }
}
