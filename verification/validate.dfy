/** The request-validation middleware: a schema parses one part of the
    request; on success that part is replaced by the parsed value, on a
    schema failure the issues are grouped by field path into a
    ValidationError, and anything else thrown is passed on unchanged. */
module Validate {
  import opened Wrappers
  import opened Errors
  import Text

  /** A JSON-like request value, as express stores body, query and params. */
  datatype Json =
    | JNull
    | JBool(b: bool)
    | JNum(n: int)
    | JStr(s: string)
    | JArr(items: seq<Json>)
    | JObj(fields: map<string, Json>)

  /** One step of an issue's path: an object key or an array index. */
  datatype PathSegment = Name(name: string) | Index(index: nat)

  /** One schema issue: where it is and what it says. */
  datatype Issue = Issue(path: seq<PathSegment>, message: string)

  /** What `schema.parse` does on a value: returns the parsed value, throws
      a schema error with its issues, or throws something else. */
  datatype ParseOutcome = Parsed(value: Json) | Invalid(issues: seq<Issue>) | Threw(error: Error)

  datatype Target = Body | Query | Params

  function SegmentText(s: PathSegment): string {
    match s
    case Name(n) => n
    case Index(i) => Text.Decimal(i)
  }

  /** `path.join(".")`. */
  function JoinPath(path: seq<PathSegment>): string {
    if |path| == 0 then ""
    else if |path| == 1 then SegmentText(path[0])
    else JoinPath(path[..|path| - 1]) + "." + SegmentText(path[|path| - 1])
  }

  function Key(issue: Issue): string { JoinPath(issue.path) }

  /** The messages of the issues filed under `key`, in issue order. */
  function MessagesFor(issues: seq<Issue>, key: string): (r: seq<string>)
    ensures |r| <= |issues|
  {
    if |issues| == 0 then []
    else
      var last := issues[|issues| - 1];
      MessagesFor(issues[..|issues| - 1], key) + (if Key(last) == key then [last.message] else [])
  }

  /** The map after `message` is pushed onto the list of `key` (created empty if missing). */
  function Append(errors: map<string, seq<string>>, key: string, message: string): map<string, seq<string>> {
    errors[key := (if key in errors then errors[key] else []) + [message]]
  }

  /** The grouping built issue by issue. */
  function Grouped(issues: seq<Issue>): map<string, seq<string>> {
    if |issues| == 0 then map[]
    else
      var last := issues[|issues| - 1];
      Append(Grouped(issues[..|issues| - 1]), Key(last), last.message)
  }

  /** The number of messages in a grouping, over all keys. */
  ghost function Total(errors: map<string, seq<string>>): nat
    decreases |errors.Keys|
  {
    if errors == map[] then 0
    else
      var key :| key in errors;
      |errors[key]| + Total(errors - {key})
  }

  /** The total is the same whichever key is taken out first. */
  lemma {:induction false} TotalRemove(errors: map<string, seq<string>>, key: string)
    requires key in errors
    ensures Total(errors) == |errors[key]| + Total(errors - {key})
    decreases |errors.Keys|
  {
    var first :| first in errors && Total(errors) == |errors[first]| + Total(errors - {first});
    if first != key {
      var rest := errors - {first};
      assert key in rest;
      TotalRemove(rest, key);
      var other := errors - {key};
      assert first in other;
      TotalRemove(other, first);
      assert rest - {key} == other - {first};
      assert rest[key] == errors[key];
      assert other[first] == errors[first];
    }
  }

  lemma TotalAppend(errors: map<string, seq<string>>, key: string, message: string)
    ensures Total(Append(errors, key, message)) == Total(errors) + 1
  {
    var after := Append(errors, key, message);
    TotalRemove(after, key);
    if key in errors {
      TotalRemove(errors, key);
      assert after - {key} == errors - {key};
    } else {
      assert after - {key} == errors;
    }
  }

  /** The grouping has a key exactly for the paths some issue has. */
  lemma {:induction false} GroupedKeys(issues: seq<Issue>)
    ensures forall key :: key in Grouped(issues) <==> exists i :: 0 <= i < |issues| && Key(issues[i]) == key
  {
    if |issues| > 0 {
      var n := |issues| - 1;
      var init := issues[..n];
      var last := issues[n];
      GroupedKeys(init);
      assert Grouped(issues).Keys == Grouped(init).Keys + {Key(last)};
      forall key
        ensures key in Grouped(issues) <==> exists i :: 0 <= i < |issues| && Key(issues[i]) == key
      {
        KeyStep(issues, init, key);
      }
    }
  }

  lemma KeyStep(issues: seq<Issue>, init: seq<Issue>, key: string)
    requires |issues| > 0 && init == issues[..|issues| - 1]
    ensures (exists i :: 0 <= i < |issues| && Key(issues[i]) == key) <==>
            (exists i :: 0 <= i < |init| && Key(init[i]) == key) || Key(issues[|issues| - 1]) == key
  {
    if exists i :: 0 <= i < |init| && Key(init[i]) == key {
      var i :| 0 <= i < |init| && Key(init[i]) == key;
      assert issues[i] == init[i];
    }
    if exists i :: 0 <= i < |issues| && Key(issues[i]) == key {
      var i :| 0 <= i < |issues| && Key(issues[i]) == key;
      if i < |init| {
        assert issues[i] == init[i];
      }
    }
  }

  /** Each key holds the messages of its issues, in issue order. */
  lemma {:induction false} GroupedMessages(issues: seq<Issue>)
    ensures forall key :: key in Grouped(issues) ==> Grouped(issues)[key] == MessagesFor(issues, key)
  {
    if |issues| > 0 {
      var n := |issues| - 1;
      var init := issues[..n];
      var last := issues[n];
      GroupedKeys(init);
      GroupedMessages(init);
      forall key | key in Grouped(issues)
        ensures Grouped(issues)[key] == MessagesFor(issues, key)
      {
        if key == Key(last) && key !in Grouped(init) {
          NoMessagesWithoutKey(init, key);
        }
      }
    }
  }

  /** No issue is lost: the grouping holds one message per issue. */
  lemma {:induction false} GroupedTotal(issues: seq<Issue>)
    ensures Total(Grouped(issues)) == |issues|
  {
    if |issues| > 0 {
      var n := |issues| - 1;
      GroupedTotal(issues[..n]);
      TotalAppend(Grouped(issues[..n]), Key(issues[n]), issues[n].message);
    }
  }

  lemma {:induction false} NoMessagesWithoutKey(issues: seq<Issue>, key: string)
    requires forall i :: 0 <= i < |issues| ==> Key(issues[i]) != key
    ensures MessagesFor(issues, key) == []
  {
    if |issues| > 0 {
      NoMessagesWithoutKey(issues[..|issues| - 1], key);
    }
  }

  /** The `forEach` loop that builds `errors`: one entry per issue path,
      holding that path's messages in issue order, one message per issue. */
  method GroupIssues(issues: seq<Issue>) returns (errors: map<string, seq<string>>)
    ensures forall key :: key in errors <==> exists i :: 0 <= i < |issues| && Key(issues[i]) == key
    ensures forall key :: key in errors ==> errors[key] == MessagesFor(issues, key)
    ensures Total(errors) == |issues|
  {
    errors := map[];
    var i := 0;
    while i < |issues|
      invariant 0 <= i <= |issues|
      invariant errors == Grouped(issues[..i])
    {
      var path := JoinPath(issues[i].path);
      if path !in errors {
        errors := errors[path := []];
      }
      errors := errors[path := errors[path] + [issues[i].message]];
      assert issues[..i + 1][..i] == issues[..i];
      i := i + 1;
    }
    assert issues[..i] == issues;
    GroupedKeys(issues);
    GroupedMessages(issues);
    GroupedTotal(issues);
  }

  /** The three parts of an express request the middleware can validate. */
  class Request {
    var body: Json
    var query: Json
    var params: Json

    constructor (body: Json, query: Json, params: Json)
      ensures this.body == body && this.query == query && this.params == params
    {
      this.body := body;
      this.query := query;
      this.params := params;
    }

    function Get(target: Target): Json
      reads this
    {
      match target
      case Body => body
      case Query => query
      case Params => params
    }
  }

  /** The middleware `validate(schema, target)` builds, run on `req`; the
      result is the argument given to `next` (`None` for a plain `next()`).
      `parse` is the schema; the target defaults to the body. */
  method ValidateRequest(req: Request, parse: Json -> ParseOutcome, target: Target := Body) returns (next: Option<Error>)
    modifies req
    ensures match parse(old(req.Get(target)))
            case Parsed(v) =>
              && next == None
              && req.Get(target) == v
              && forall t :: t != target ==> req.Get(t) == old(req.Get(t))
            case Invalid(issues) =>
              && unchanged(req)
              && next.Some? && next.value.ValidationError?
              && next.value.statusCode == 400 && next.value.message == "Validation failed"
              && (forall key :: key in next.value.errors <==> exists i :: 0 <= i < |issues| && Key(issues[i]) == key)
              && (forall key :: key in next.value.errors ==> next.value.errors[key] == MessagesFor(issues, key))
              && Total(next.value.errors) == |issues|
            case Threw(e) =>
              unchanged(req) && next == Some(e)
  {
    var outcome := parse(req.Get(target));
    match outcome
    case Parsed(data) =>
      match target {
        case Body => req.body := data;
        case Query => req.query := data;
        case Params => req.params := data;
      }
      next := None;
    case Invalid(issues) =>
      var errors := GroupIssues(issues);
      next := Some(MakeValidationError("Validation failed", errors));
    case Threw(e) =>
      next := Some(e);
  }
}
