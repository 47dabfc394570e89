/** How an exception crosses the C boundary: `TranslateException` describes it by
    a code, a domain and a message, and `translate_error` throws what the
    description stands for. */
module ErrorTransport {
  import opened Common

  /** The exceptions that the two functions tell apart.  A system_error of the
      generic, system or verification category is told by its category's name. */
  datatype Exception =
    | BadAlloc(what: string)
    | SystemError(code: int, category: string, what: string)
    | RuntimeError(what: string)
    | OtherStd(what: string)      // any other std::exception
    | Foreign                     // anything else that can be thrown

  datatype Description = Description(code: int, domain: string, message: string)

  /** The arguments `TranslateException` passes to `BtcK_Error_New`. */
  function Describe(e: Exception): Description {
    match e
    case BadAlloc(what) => Description(-1, "Memory", what)
    case SystemError(code, category, what) => Description(code, category, what)
    case RuntimeError(what) => Description(-1, "Unknown", what)
    case OtherStd(what) => Description(-1, "Unknown", what)
    case Foreign => Description(-1, "Unknown", "Unknown exception")
  }

  /** `OOM_ERROR` */
  const OUT_OF_MEMORY := Description(-1, "Memory", "Out of memory")

  /** What a C caller reads from the error: the exception's own text as message; the
      code and category of a system_error, and otherwise the code -1 and the domain
      "Memory" for a bad_alloc, "Unknown" for everything else. */
  lemma Reported(e: Exception)
    ensures var d := Describe(e);
            && d.message == (if e.Foreign? then "Unknown exception" else e.what)
            && (if e.SystemError? then d.code == e.code && d.domain == e.category
                else d.code == -1 && (d.domain == "Memory" <==> e.BadAlloc?) && (d.domain == "Unknown" <==> !e.BadAlloc?))
    ensures OUT_OF_MEMORY.code == -1 && OUT_OF_MEMORY.domain == "Memory" && OUT_OF_MEMORY.message == "Out of memory"
  {
  }

  /** The names of the generic, the system and the verification category. */
  const CATEGORIES := ["generic", "system", "VerificationError"]

  predicate Known(category: string) {
    category in CATEGORIES
  }

  /** `throw_domain`: throws when the error's domain is that of the category. */
  function ThrowDomain(d: Description, category: string, message: (string, int) -> string): Option<Exception> {
    if d.domain == category then Some(SystemError(d.code, category, message(category, d.code))) else None
  }

  /** `translate_error`; `message` is the text a category gives for a code. */
  function Translate(d: Description, message: (string, int) -> string): Exception {
    if d.domain == "Memory" then BadAlloc("std::bad_alloc")
    else
      match ThrowDomain(d, CATEGORIES[0], message)
      case Some(e) => e
      case None =>
        match ThrowDomain(d, CATEGORIES[1], message)
        case Some(e) => e
        case None =>
          match ThrowDomain(d, CATEGORIES[2], message)
          case Some(e) => e
          case None => RuntimeError(d.message)
  }

  /** What a C++ caller catches when the library throws `e`; `built` tells whether
      the error object could be built. */
  function Cross(e: Exception, built: bool, message: (string, int) -> string): Exception {
    Translate(if built then Describe(e) else OUT_OF_MEMORY, message)
  }

  /** The kind of exception that arrives is determined by the one that left. */
  lemma CrossingPreserves(e: Exception, message: (string, int) -> string)
    ensures var c := Cross(e, true, message);
            match e
            case BadAlloc(_) => c.BadAlloc?
            case SystemError(code, category, what) =>
              if Known(category) then c == SystemError(code, category, message(category, code))
              else if category == "Memory" then c.BadAlloc?
              else c == RuntimeError(what)
            case RuntimeError(what) => c == RuntimeError(what)
            case OtherStd(what) => c == RuntimeError(what)
            case Foreign => c == RuntimeError("Unknown exception")
  {
  }

  /** A system_error keeps code and category exactly when its category is one of
      the three; any exception with a message arrives as a runtime_error with that
      message exactly when it is no system_error of these or of a category named
      "Memory"; and a bad_alloc arrives only for one that left, or for "Memory", or
      when the error could not be built. */
  lemma PreservedIff(e: Exception, message: (string, int) -> string)
    ensures var c := Cross(e, true, message);
            && (e.SystemError? ==> (c.SystemError? && c.code == e.code && c.category == e.category <==> Known(e.category)))
            && (e.SystemError? || e.RuntimeError? || e.OtherStd? ==>
                (c == RuntimeError(e.what) <==> !(e.SystemError? && (Known(e.category) || e.category == "Memory"))))
            && (c.BadAlloc? <==> e.BadAlloc? || (e.SystemError? && e.category == "Memory"))
            && Cross(e, false, message).BadAlloc?
  {
  }

  /** An exception that crosses one boundary after the other; `built[k]` tells
      whether the error object of the k-th crossing could be built. */
  function CrossAll(e: Exception, built: seq<bool>, message: (string, int) -> string): Exception
    decreases built
  {
    if built == [] then e else CrossAll(Cross(e, built[0], message), built[1..], message)
  }

  /** However many boundaries it crosses, an exception ends as after one crossing,
      unless some error object could not be built: then it ends as bad_alloc. */
  lemma {:induction false} CrossingIsIdempotent(e: Exception, built: seq<bool>, message: (string, int) -> string)
    requires built != []
    ensures CrossAll(e, built, message) == Cross(e, forall k :: 0 <= k < |built| ==> built[k], message)
    decreases built
  {
    var once := Cross(e, built[0], message);
    assert Cross(once, true, message) == once;
    if |built| > 1 {
      CrossingIsIdempotent(once, built[1..], message);
      assert (forall k :: 0 <= k < |built| ==> built[k])
        <==> built[0] && forall k :: 0 <= k < |built[1..]| ==> built[1..][k];
    }
  }

  lemma {:induction false} CrossAllSnoc(e: Exception, built: seq<bool>, last: bool, message: (string, int) -> string)
    ensures CrossAll(e, built + [last], message) == Cross(CrossAll(e, built, message), last, message)
    decreases built
  {
    if built == [] {
      assert (built + [last])[1..] == [];
    } else {
      assert (built + [last])[1..] == built[1..] + [last];
      CrossAllSnoc(Cross(e, built[0], message), built[1..], last, message);
    }
  }

  // ----- the Python side -----

  /** The Python exceptions that `SetError` of the bindings raises. */
  datatype PyException = PyMemoryError | PyVerificationError(text: string) | PyRuntimeError(text: string)

  /** `SetError` */
  function Raised(d: Description): PyException {
    if d.domain == "Memory" then PyMemoryError
    else if d.domain == "VerificationError" then PyVerificationError(d.message)
    else PyRuntimeError(d.message)
  }

  /** Python and C++ agree on what crossed: out of memory for both or for neither,
      a verification error for both or for neither; and Python always shows the
      text the exception had in the library. */
  lemma PythonAgreesWithCpp(e: Exception, built: bool, message: (string, int) -> string)
    ensures var p, c := Raised(if built then Describe(e) else OUT_OF_MEMORY), Cross(e, built, message);
            && (p.PyMemoryError? <==> c.BadAlloc?)
            && (p.PyVerificationError? <==> c.SystemError? && c.category == "VerificationError")
            && (!p.PyMemoryError? ==> p.text == if e.Foreign? then "Unknown exception" else e.what)
            && (p.PyMemoryError? <==> !built || e.BadAlloc? || (e.SystemError? && e.category == "Memory"))
            && (p.PyVerificationError? <==> built && e.SystemError? && e.category == "VerificationError")
  {
  }
}
