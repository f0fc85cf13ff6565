/** The error hierarchy of the showings service: a message, a machine code,
    a details dictionary, an optional source (the component that failed) and
    an optional cause (the exception it wraps). */
module Errors {
  import opened Wrappers
  import opened Text

  /** `ErrorCode`: the codes the constructors use by default. */
  const CodeError := "error"
  const CodeService := "service_error"
  const CodeClient := "client_error"
  const CodeHttp := "http_error"
  const CodeNetwork := "network_error"
  const CodeParser := "parser_error"
  const CodeValidation := "validation_error"
  const CodeSerializer := "serializer_error"

  /** The classes of the hierarchy. */
  datatype ErrorClass =
    | BaseError | ServiceError | ClientError | HttpClientError | NetworkError
    | ParserError | ValidationError | SerializerError

  /** The class each class derives from (`BaseError` derives from Python's
      `Exception`, which is outside the hierarchy). */
  function Parent(c: ErrorClass): Option<ErrorClass> {
    match c
    case BaseError => None
    case ServiceError => Some(BaseError)
    case ClientError => Some(ServiceError)
    case HttpClientError => Some(ClientError)
    case NetworkError => Some(ClientError)
    case ParserError => Some(ServiceError)
    case ValidationError => Some(ServiceError)
    case SerializerError => Some(ServiceError)
  }

  /** How many steps separate `c` from `BaseError`. */
  function Depth(c: ErrorClass): nat {
    match c
    case BaseError => 0
    case ServiceError => 1
    case ClientError => 2
    case HttpClientError => 3
    case NetworkError => 3
    case ParserError => 2
    case ValidationError => 2
    case SerializerError => 2
  }

  /** `isinstance`: `c` is `ancestor` or derives from it. */
  predicate IsA(c: ErrorClass, ancestor: ErrorClass)
    decreases Depth(c)
  {
    c == ancestor || (Parent(c).Some? && IsA(Parent(c).value, ancestor))
  }

  /** Every class is an `Error`, and every class but `Error` is a
      `ServiceError`; only the two HTTP-level classes are `ClientError`s. */
  lemma {:induction false} HierarchyShape(c: ErrorClass)
    ensures IsA(c, BaseError)
    ensures c != BaseError ==> IsA(c, ServiceError)
    ensures IsA(c, ClientError) <==> c in {ClientError, HttpClientError, NetworkError}
    ensures IsA(c, ParserError) <==> c == ParserError
    decreases Depth(c)
  {
    match c
    case BaseError =>
    case ServiceError =>
      assert IsA(BaseError, BaseError);
    case ClientError =>
      assert IsA(BaseError, BaseError);
      assert IsA(ServiceError, ServiceError);
      assert !IsA(ServiceError, ClientError) && !IsA(ServiceError, ParserError);
    case HttpClientError =>
      assert IsA(ClientError, ClientError);
      HierarchyShape(ClientError);
      assert !IsA(ClientError, ParserError);
    case NetworkError =>
      assert IsA(ClientError, ClientError);
      HierarchyShape(ClientError);
      assert !IsA(ClientError, ParserError);
    case ParserError =>
      HierarchyShape(ServiceError);
      assert !IsA(ServiceError, ClientError);
    case ValidationError =>
      HierarchyShape(ServiceError);
      assert !IsA(ServiceError, ClientError) && !IsA(ServiceError, ParserError);
    case SerializerError =>
      HierarchyShape(ServiceError);
      assert !IsA(ServiceError, ClientError) && !IsA(ServiceError, ParserError);
  }

  /** The `code` default of each constructor. */
  function DefaultCode(c: ErrorClass): string {
    match c
    case BaseError => CodeError
    case ServiceError => CodeService
    case ClientError => CodeClient
    case HttpClientError => CodeHttp
    case NetworkError => CodeNetwork
    case ParserError => CodeParser
    case ValidationError => CodeValidation
    case SerializerError => CodeSerializer
  }

  /** Every class has its own default code. */
  lemma DefaultCodeInjective(a: ErrorClass, b: ErrorClass)
    requires DefaultCode(a) == DefaultCode(b)
    ensures a == b
  {
  }

  /** The exception an error wraps, reduced to its class name (all that the
      hierarchy reads of it). */
  datatype Cause = Cause(className: string)

  /** A value of the details dictionary. */
  datatype DetailValue = IntDetail(i: int) | TextDetail(s: string)

  datatype Error = Error(
    kind: ErrorClass,
    message: string,
    code: string,
    details: map<string, DetailValue>,
    source: Option<string>,
    cause: Option<Cause>)

  /** The class-name suffixes that name a component. */
  const ComponentSuffixes: seq<string> := ["Service", "Client", "Parser"]

  /** `any(name.endswith(suffix) for suffix in suffixes)`. */
  predicate AnyEndsWith(name: string, suffixes: seq<string>) {
    |suffixes| > 0 && (EndsWith(name, suffixes[0]) || AnyEndsWith(name, suffixes[1..]))
  }

  /** `_get_source_from_cause`: the cause's class name when it names a
      component, otherwise nothing. */
  function SourceFromCause(cause: Option<Cause>): (r: Option<string>)
    ensures r.Some? ==> cause.Some? && r.value == cause.value.className && |r.value| >= 6
  {
    if cause.Some? && AnyEndsWith(cause.value.className, ComponentSuffixes) then
      ComponentSuffixRule(cause.value.className);
      Some(cause.value.className)
    else
      None
  }

  /** A cause yields a source exactly when its class name ends in
      "Service", "Client" or "Parser". */
  lemma SourceFromCauseRule(cause: Option<Cause>)
    ensures SourceFromCause(cause).Some? <==> (cause.Some?
      && (EndsWith(cause.value.className, "Service")
        || EndsWith(cause.value.className, "Client")
        || EndsWith(cause.value.className, "Parser")))
  {
    if cause.Some? {
      ComponentSuffixRule(cause.value.className);
    }
  }

  lemma ComponentSuffixRule(n: string)
    ensures AnyEndsWith(n, ComponentSuffixes) <==>
      (EndsWith(n, "Service") || EndsWith(n, "Client") || EndsWith(n, "Parser"))
  {
    assert AnyEndsWith(n, ComponentSuffixes) <==> EndsWith(n, "Service") || AnyEndsWith(n, ["Client", "Parser"]);
    assert AnyEndsWith(n, ["Client", "Parser"]) <==> EndsWith(n, "Client") || AnyEndsWith(n, ["Parser"]);
    assert AnyEndsWith(n, ["Parser"]) <==> EndsWith(n, "Parser") || AnyEndsWith(n, []);
  }

  /** Python's `source or fallback` on an optional string. */
  function SourceOr(source: Option<string>, fallback: Option<string>): Option<string> {
    if source.Some? && source.value != "" then source else fallback
  }

  /** `Error.__init__` as reached from any constructor with the plain
      signature (`Error`, `ServiceError`, `ClientError`, `ParserError`,
      `ValidationError`, `SerializerError`); an absent `code` takes the
      class's default. */
  function NewError(
    kind: ErrorClass,
    message: string,
    code: Option<string>,
    details: Option<map<string, DetailValue>>,
    source: Option<string>,
    cause: Option<Cause>): (r: Error)
    requires kind !in {HttpClientError, NetworkError}
    ensures r.kind == kind && r.message == message && r.cause == cause
    ensures code.Some? ==> r.code == code.value
    ensures code.None? ==> r.code == DefaultCode(kind)
    ensures details.Some? ==> r.details == details.value
    ensures details.None? ==> r.details == map[]
    ensures source.Some? && source.value != "" ==> r.source == source
    ensures (source.None? || source.value == "") ==> r.source == SourceFromCause(cause)
  {
    Error(kind, message, code.GetOr(DefaultCode(kind)), details.GetOr(map[]),
      SourceOr(source, SourceFromCause(cause)), cause)
  }

  /** `HTTPClientError(message, status_code, source, cause)`. */
  function NewHttpClientError(message: string, statusCode: int, source: Option<string>, cause: Option<Cause>): (r: Error)
    ensures r.kind == HttpClientError && r.code == CodeHttp && r.cause == cause
    ensures StartsWith(r.message, "HTTP ") && EndsWith(r.message, " - " + message)
    ensures |r.message| == 8 + |IntToString(statusCode)| + |message|
    ensures r.message[5..5 + |IntToString(statusCode)|] == IntToString(statusCode)
    ensures r.details == map["status_code" := IntDetail(statusCode)]
    ensures r.source == SourceOr(source, SourceFromCause(cause))
  {
    var text := "HTTP " + IntToString(statusCode) + " - " + message;
    assert text[..5] == "HTTP ";
    assert text[|text| - |" - " + message|..] == " - " + message;
    assert text[5..5 + |IntToString(statusCode)|] == IntToString(statusCode);
    Error(HttpClientError, text, CodeHttp, map["status_code" := IntDetail(statusCode)],
      SourceOr(source, SourceFromCause(cause)), cause)
  }

  /** The status code of an HTTP error's message reads back from it. */
  lemma HttpMessageCarriesStatus(message: string, statusCode: nat, source: Option<string>, cause: Option<Cause>)
    ensures var m := NewHttpClientError(message, statusCode, source, cause).message;
      var digits := NatToString(statusCode);
      && 5 + |digits| <= |m|
      && AllDigits(m[5..5 + |digits|])
      && ParseNat(m[5..5 + |digits|]) == statusCode
  {
    var digits := NatToString(statusCode);
    var m := NewHttpClientError(message, statusCode, source, cause).message;
    assert m == "HTTP " + digits + " - " + message;
    assert m[5..5 + |digits|] == digits;
    ParseNatToString(statusCode);
  }

  /** `NetworkError(message, source, cause)`: no details. */
  function NewNetworkError(message: string, source: Option<string>, cause: Option<Cause>): (r: Error)
    ensures r.kind == NetworkError && r.code == CodeNetwork && r.cause == cause
    ensures r.message == "Network error - " + message
    ensures r.details == map[]
    ensures r.source == SourceOr(source, SourceFromCause(cause))
  {
    Error(NetworkError, "Network error - " + message, CodeNetwork, map[],
      SourceOr(source, SourceFromCause(cause)), cause)
  }

  /** `str(error)`: `"<code>: <message>"`, prefixed with `"[<source>] "`
      when there is a source. */
  function ToString(e: Error): (r: string)
    ensures EndsWith(r, e.code + ": " + e.message)
    ensures e.source.Some? && e.source.value != "" ==> StartsWith(r, "[" + e.source.value + "] ")
    ensures |r| == |e.code| + 2 + |e.message|
      + (if e.source.Some? && e.source.value != "" then |e.source.value| + 3 else 0)
  {
    var plain := e.code + ": " + e.message;
    if e.source.Some? && e.source.value != "" then
      var r := "[" + e.source.value + "] " + plain;
      assert r[|r| - |plain|..] == plain;
      assert r[..|e.source.value| + 3] == "[" + e.source.value + "] ";
      r
    else
      assert plain[|plain| - |plain|..] == plain;
      plain
  }

  /** A source given explicitly is kept whatever the cause; without one, the
      source is the cause's class name exactly when that names a component. */
  lemma SourceResolution(kind: ErrorClass, message: string, source: Option<string>, cause: Option<Cause>)
    requires kind !in {HttpClientError, NetworkError}
    ensures var e := NewError(kind, message, None, None, source, cause);
      && (source.Some? && source.value != "" ==> e.source == source)
      && (source.None? && cause.Some? && EndsWith(cause.value.className, "Parser") ==>
            e.source == Some(cause.value.className))
      && (source.None? && cause.None? ==> e.source.None?)
      && (e.source.Some? ==> e.source.value != "")
  {
    SourceFromCauseRule(cause);
  }

  /** The rendering of an error with a source, in pieces. */
  lemma RenderWithSource(e: Error, source: string, code: string, message: string)
    requires e.source == Some(source) && source != "" && e.code == code && e.message == message
    ensures ToString(e) == ("[" + source + "] ") + (code + ": ") + message
  {
  }
}

/** Concrete errors from the error-class tests, rendered as the code renders
    them. */
module ErrorExamples {
  import opened Wrappers
  import Text
  import opened Errors

  /** The expected strings are written in the pieces `__str__` assembles.
      The tests also pass a cause; with an explicit source it has no effect
      (`SourceResolution`), so it is left out here. */
  lemma HttpErrorExample()
    ensures ToString(NewHttpClientError("Not Found", 404, Some("TestClient"), None))
      == ("[" + "TestClient" + "] ") + ("http_error" + ": ") + "HTTP 404 - Not Found"
  {
    assert Text.NatToString(404) == "404" by {
      assert Text.NatToString(40) == "40";
    }
    assert Text.IntToString(404) == "404";
    HttpErrorRendered("Not Found", 404, "TestClient");
    assert "HTTP " + "404" + " - " + "Not Found" == "HTTP 404 - Not Found";
  }

  /** An HTTP error with a source renders as the pieces of its message. */
  lemma HttpErrorRendered(message: string, statusCode: int, source: string)
    requires source != ""
    ensures ToString(NewHttpClientError(message, statusCode, Some(source), None))
      == ("[" + source + "] ") + ("http_error" + ": ") + ("HTTP " + Text.IntToString(statusCode) + " - " + message)
  {
    var e := NewHttpClientError(message, statusCode, Some(source), None);
    HttpMessageParts(message, statusCode, Some(source), None);
    assert e.source == Some(source) && e.code == "http_error";
    RenderWithSource(e, source, "http_error", e.message);
  }

  /** The message of an HTTP error, assembled from its pieces. */
  lemma HttpMessageParts(message: string, statusCode: int, source: Option<string>, cause: Option<Cause>)
    ensures NewHttpClientError(message, statusCode, source, cause).message
      == "HTTP " + Text.IntToString(statusCode) + " - " + message
  {
  }

  lemma NetworkErrorExample()
    ensures ToString(NewNetworkError("Connection refused", Some("TestClient"), None))
      == ("[" + "TestClient" + "] ") + ("network_error" + ": ") + "Network error - Connection refused"
  {
    var e := NewNetworkError("Connection refused", Some("TestClient"), None);
    assert e.source == Some("TestClient");
    assert e.code == "network_error";
    assert e.message == "Network error - Connection refused";
    RenderWithSource(e, "TestClient", "network_error", "Network error - Connection refused");
  }

  lemma ParserErrorExample()
    ensures ToString(NewError(ParserError, "test message", None, None, Some("TestParser"), None))
      == ("[" + "TestParser" + "] ") + ("parser_error" + ": ") + "test message"
  {
    var e := NewError(ParserError, "test message", None, None, Some("TestParser"), None);
    RenderWithSource(e, "TestParser", "parser_error", "test message");
  }

  /** The base class's default code is "error"; a cause named like a
      component becomes the source, any other cause does not. */
  lemma SourceFromCauseExamples()
    ensures NewError(BaseError, "test message", None, None, None, None).code == "error"
    ensures ToString(NewError(ServiceError, "m", None, None, None, Some(Cause("TajParser"))))
      == ("[" + "TajParser" + "] ") + ("service_error" + ": ") + "m"
    ensures ToString(NewError(ServiceError, "m", None, None, None, Some(Cause("ValueError"))))
      == "service_error: m"
  {
    SourceFromCauseRule(Some(Cause("TajParser")));
    assert Text.EndsWith("TajParser", "Parser");
    var e := NewError(ServiceError, "m", None, None, None, Some(Cause("TajParser")));
    RenderWithSource(e, "TajParser", "service_error", "m");
    SourceFromCauseRule(Some(Cause("ValueError")));
    assert !Text.EndsWith("ValueError", "Service") && !Text.EndsWith("ValueError", "Client")
      && !Text.EndsWith("ValueError", "Parser");
    var f := NewError(ServiceError, "m", None, None, None, Some(Cause("ValueError")));
    assert ToString(f) == "service_error" + ": " + "m";
  }
}
