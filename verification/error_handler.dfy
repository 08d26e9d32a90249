/** The last express middleware: it turns any error raised while handling
    a request into a JSON reply, and answers requests no route matched. */
module ErrorHandler {
  import opened Wrappers
  import opened Errors
  import opened Text

  /** The JSON body of an error reply; absent optional fields are `None`. */
  datatype ErrorResponse = ErrorResponse(
    success: bool,
    message: string,
    errors: Option<map<string, seq<string>>>,
    stack: Option<string>)

  /** The status code and body `res.status(..).json(..)` sends. */
  datatype Reply = Reply(status: int, body: ErrorResponse)

  const InternalServerError := "Internal server error"

  /** The message an error reply starts from: the error's own, or the
      generic one when it is empty. */
  function MessageOf(err: Error): (r: string)
    ensures r != ""
    ensures err.message != "" ==> r == err.message
    ensures err.message == "" ==> r == InternalServerError
  {
    if err.message != "" then err.message else InternalServerError
  }

  /** `errorHandler`: a validation error keeps its status, message and field
      errors; any other application error keeps its status and message; any
      other error becomes a 500 with the generic message, carrying its stack
      only in development. No reply reports success, and only unexpected
      errors can expose a stack. The log line is left out. */
  method HandleError(err: Error, isDevelopment: bool) returns (reply: Reply)
    ensures !reply.body.success
    ensures err.ValidationError? ==>
              reply == Reply(err.statusCode, ErrorResponse(false, MessageOf(err), Some(err.errors), None))
    ensures err.AppError? ==>
              reply == Reply(err.statusCode, ErrorResponse(false, MessageOf(err), None, None))
    ensures err.OtherError? ==>
              && reply.status == 500
              && reply.body.message == InternalServerError
              && reply.body.errors == None
              && reply.body.stack == (if isDevelopment then err.stack else None)
    ensures reply.body.errors.Some? <==> err.ValidationError?
    ensures reply.body.stack.Some? ==> !err.IsAppError() && isDevelopment
  {
    var response := ErrorResponse(false, MessageOf(err), None, None);
    if err.ValidationError? {
      response := response.(errors := Some(err.errors));
      return Reply(err.statusCode, response);
    }
    if err.AppError? {
      return Reply(err.statusCode, response);
    }
    if isDevelopment {
      response := response.(stack := err.stack);
    }
    response := response.(message := InternalServerError);
    reply := Reply(500, response);
  }

  function RouteMessage(method_: string, path: string): string {
    "Route " + method_ + " " + path + " not found"
  }

  /** `notFoundHandler`: 404 naming the unmatched method and path. */
  function NotFoundHandler(method_: string, path: string): (reply: Reply)
    ensures reply.status == 404 && !reply.body.success
    ensures reply.body.errors == None && reply.body.stack == None
    ensures reply.body.message == RouteMessage(method_, path)
  {
    Reply(404, ErrorResponse(false, RouteMessage(method_, path), None, None))
  }

  /** An HTTP method has no spaces, so the not-found message names exactly
      one route: different routes never share a message. */
  lemma RouteMessageNamesRoute(m1: string, p1: string, m2: string, p2: string)
    requires NoSpaces(m1) && NoSpaces(m2)
    requires RouteMessage(m1, p1) == RouteMessage(m2, p2)
    ensures m1 == m2 && p1 == p2
  {
    var s := RouteMessage(m1, p1);
    var inner1 := m1 + " " + p1;
    var inner2 := m2 + " " + p2;
    assert s == "Route " + inner1 + " not found";
    assert s == "Route " + inner2 + " not found";
    assert |inner1| == |inner2|;
    assert inner1 == s[6..|s| - 10] == inner2;
    FirstWord(m1, p1, m2, p2);
  }

  /** Text up to the first space is the same in equal strings. */
  lemma FirstWord(a: string, x: string, b: string, y: string)
    requires NoSpaces(a) && NoSpaces(b)
    requires a + " " + x == b + " " + y
    ensures a == b && x == y
  {
    var s := a + " " + x;
    SpaceAfterWord(a, x);
    SpaceAfterWord(b, y);
    assert a == s[..|a|] == b;
    assert x == s[|a| + 1..] == y;
  }

  /** The index of the first space in `s`, or its length when there is none. */
  function FirstSpace(s: string): (r: nat)
    ensures r <= |s|
  {
    if |s| == 0 || IsSpace(s[0]) then 0 else 1 + FirstSpace(s[1..])
  }

  lemma {:induction false} SpaceAfterWord(a: string, x: string)
    requires NoSpaces(a)
    ensures FirstSpace(a + " " + x) == |a|
  {
    if |a| > 0 {
      assert (a + " " + x)[1..] == a[1..] + " " + x;
      SpaceAfterWord(a[1..], x);
    }
  }
}
