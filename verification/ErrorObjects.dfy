/** The error objects that carry an exception across the boundary: how they are
    built, handed over through output parameters, translated and freed. */
module ErrorObjects {
  import opened Common
  import opened Memory
  import opened ErrorTransport

  /** A string made by `strdup`. */
  class HeapString {
    const text: string

    constructor (text: string)
      ensures this.text == text
    {
      this.text := text;
    }
  }

  function TextOf(s: HeapString?): Option<string> {
    if s == null then None else Some(s.text)
  }

  /** `struct BtcK_Error` */
  class BtcKError {
    var code: int
    var domain: HeapString?
    var message: HeapString?

    constructor (code: int, domain: HeapString?, message: HeapString?)
      ensures this.code == code && this.domain == domain && this.message == message
    {
      this.code, this.domain, this.message := code, domain, message;
    }

    /** `BtcK_Error_Code`, `BtcK_Error_Domain` and `BtcK_Error_Message` */
    function Code(): int
      reads this
    {
      code
    }

    function Domain(): Option<string>
      reads this
    {
      TextOf(domain)
    }

    function Message(): Option<string>
      reads this
    {
      TextOf(message)
    }

    /** The blocks an error object was allocated in. */
    ghost function Blocks(): set<object>
      reads this
    {
      {this as object} + (if domain == null then {} else {domain as object})
                       + if message == null then {} else {message as object}
    }

    /** The parts are blocks of their own. */
    ghost predicate Separate()
      reads this
    {
      domain != null ==> domain != message
    }
  }

  /** The library: its allocator and the static sentinel, which is no block. */
  class ErrorLibrary {
    const mem: Allocator
    const oom: BtcKError

    constructor (mem: Allocator, oom: BtcKError)
      ensures this.mem == mem && this.oom == oom
    {
      this.mem, this.oom := mem, oom;
    }

    ghost predicate Valid()
      reads this, mem, oom
    {
      && oom !in mem.live && mem !in mem.live
      && oom.code == OUT_OF_MEMORY.code
      && TextOf(oom.domain) == Some(OUT_OF_MEMORY.domain)
      && TextOf(oom.message) == Some(OUT_OF_MEMORY.message)
    }

    /** `e` is an error object the caller has to free, or the sentinel. */
    ghost predicate Freeable(e: BtcKError)
      reads this, mem, e
    {
      e == oom || (e.Separate() && e.Blocks() <= mem.live)
    }

    /** The blocks freeing `e` gives back. */
    ghost function OwnedBlocks(e: BtcKError): set<object>
      reads this, e
    {
      if e == oom then {} else e.Blocks()
    }

    /** `strdup`, with NULL passed through. */
    method Duplicate(s: Option<string>) returns (copy: HeapString?)
      modifies mem
      ensures s.None? ==> copy == null && mem.requests == old(mem.requests) && mem.live == old(mem.live)
      ensures s.Some? ==>
                && (copy != null) == mem.grants(old(mem.requests))
                && mem.requests == old(mem.requests) + 1
      ensures copy == null ==> mem.live == old(mem.live)
      ensures copy != null ==> fresh(copy) && Some(copy.text) == s && mem.live == old(mem.live) + {copy}
    {
      copy := null;
      if s.Some? {
        var granted := mem.Ask();
        if granted {
          copy := new HeapString(s.value);
          mem.Track(copy);
        }
      }
    }

    /** `BtcK_Error_New` once the object itself was obtained. */
    method Filled(code: int, domain: Option<string>, message: Option<string>) returns (e: BtcKError)
      requires Valid()
      modifies mem
      ensures Valid() && fresh(e) && e.code == code && e.Separate()
      ensures e.domain != null ==> TextOf(e.domain) == domain
      ensures e.message != null ==> TextOf(e.message) == message
      ensures domain.Some? ==> (e.domain != null) == mem.grants(old(mem.requests))
      ensures domain.None? ==> e.domain == null
      ensures message.Some? ==> (e.message != null) == mem.grants(old(mem.requests) + if domain.Some? then 1 else 0)
      ensures message.None? ==> e.message == null
      ensures mem.requests == old(mem.requests) + (if domain.Some? then 1 else 0) + if message.Some? then 1 else 0
      ensures mem.live == old(mem.live) + e.Blocks() && fresh(e.Blocks())
    {
      e := new BtcKError(code, null, null);
      mem.Track(e);
      e.domain := Duplicate(domain);
      e.message := Duplicate(message);
    }

    /** `BtcK_Error_New`: an error object with copies of both texts, or the
        sentinel, with every block of a failed construction given back. */
    method New(code: int, domain: Option<string>, message: Option<string>) returns (e: BtcKError)
      requires Valid()
      modifies mem
      ensures Valid() && Freeable(e)
      ensures mem.live == old(mem.live) + OwnedBlocks(e) && OwnedBlocks(e) !! old(mem.live)
      ensures mem.requests == old(mem.requests) + Requests(mem.grants, old(mem.requests), domain, message)
      ensures (e != oom) == Buildable(mem.grants, old(mem.requests), domain, message)
      ensures e != oom ==> fresh(e) && e.code == code && TextOf(e.domain) == domain && TextOf(e.message) == message
    {
      var granted := mem.Ask();
      if !granted {
        return oom;
      }
      e := Filled(code, domain, message);
      if (domain.Some? && e.domain == null) || (message.Some? && e.message == null) {
        Free(e);
        return oom;
      }
    }

    /** `BtcK_Error_Free` */
    method Free(error: BtcKError?)
      requires error != null ==> Freeable(error)
      modifies mem`live
      ensures mem.live == old(mem.live) - if error == null then {} else OwnedBlocks(error)
    {
      if error == null || error == oom {
        return;
      }
      if error.domain != null {
        mem.Release(error.domain);
      }
      if error.message != null {
        mem.Release(error.message);
      }
      mem.Release(error);
    }

    /** `util::TranslateException` */
    method TranslateException(e: Exception) returns (error: BtcKError)
      requires Valid()
      modifies mem
      ensures Valid() && Freeable(error)
      ensures mem.live == old(mem.live) + OwnedBlocks(error) && OwnedBlocks(error) !! old(mem.live)
      ensures mem.requests == AfterError(mem.grants, old(mem.requests))
      ensures DescriptionOf(error) == if ErrorBuilt(mem.grants, old(mem.requests)) then Describe(e) else OUT_OF_MEMORY
      ensures error.domain != null && (error == oom <==> !ErrorBuilt(mem.grants, old(mem.requests)))
      ensures error == oom ==>
                error.Code() == -1 && error.Domain() == Some("Memory") && error.Message() == Some("Out of memory")
      ensures error != oom ==>
                && error.Message() == Some(if e.Foreign? then "Unknown exception" else e.what)
                && error.Code() == (if e.SystemError? then e.code else -1)
                && error.Domain() == Some(if e.SystemError? then e.category else if e.BadAlloc? then "Memory" else "Unknown")
      ensures error != oom ==> fresh(error)
    {
      match e {
        case BadAlloc(what) => error := New(-1, Some("Memory"), Some(what));
        case SystemError(code, category, what) => error := New(code, Some(category), Some(what));
        case RuntimeError(what) => error := New(-1, Some("Unknown"), Some(what));
        case OtherStd(what) => error := New(-1, Some("Unknown"), Some(what));
        case Foreign => error := New(-1, Some("Unknown"), Some("Unknown exception"));
      }
    }

    /** The function that `WrapFn` is given: it may invoke C functions itself, one
        after the other, and let their exceptions through or catch them. */
    method RunBody(proc: Proc, message: (string, int) -> string) returns (r: Result)
      requires Valid()
      modifies mem
      ensures Valid() && mem.live == old(mem.live)
      ensures (r, mem.requests) == BodyResult(mem.grants, old(mem.requests), proc, message)
      decreases proc, 0
    {
      match proc {
        case Return(value) => return Value(value);
        case Throw(e) => return Thrown(e);
        case Try(inner, rest, handler) =>
          r := Invoke(inner, message);
          if r.Value? {
            r := RunBody(rest, message);
          } else if handler.Some? {
            r := RunBody(handler.value, message);
          }
      }
    }

    /** `util::WrapFn`: runs the function; on an exception it fills the output
        parameter, if there is one, and returns the default result. */
    method WrapFn(slot: Slot?, proc: Proc, default: int, message: (string, int) -> string) returns (r: int)
      requires Valid() && (slot != null ==> slot !in mem.live && slot.raw == null)
      modifies mem, if slot == null then {} else {slot}
      ensures Valid()
      ensures var b := BodyResult(mem.grants, old(mem.requests), proc, message).0;
              r == if b.Value? then b.value else default
      ensures slot == null || BodyResult(mem.grants, old(mem.requests), proc, message).0.Value? ==>
                && mem.live == old(mem.live)
                && mem.requests == BodyResult(mem.grants, old(mem.requests), proc, message).1
                && (slot != null ==> slot.raw == null)
      ensures slot != null && BodyResult(mem.grants, old(mem.requests), proc, message).0.Thrown? ==>
                && slot.raw != null && Freeable(slot.raw) && slot.raw.domain != null
                && mem.live == old(mem.live) + OwnedBlocks(slot.raw) && OwnedBlocks(slot.raw) !! old(mem.live)
                && var (b, k) := BodyResult(mem.grants, old(mem.requests), proc, message);
                   && mem.requests == AfterError(mem.grants, k)
                   && DescriptionOf(slot.raw) ==
                      if ErrorBuilt(mem.grants, k) then Describe(b.exception) else OUT_OF_MEMORY
      decreases proc, 1
    {
      var b := RunBody(proc, message);
      match b {
        case Value(value) =>
          return value;
        case Thrown(e) =>
          if slot != null {
            slot.raw := TranslateException(e);
          }
          return default;
      }
    }

    /** `invoke`: calls the C function with an `out_ptr`, whose destructor hands the
        error to the `unique_ptr`; a non-null error is translated into an
        exception and freed as that exception leaves. */
    method Invoke(proc: Proc, message: (string, int) -> string) returns (r: Result)
      requires Valid()
      modifies mem
      ensures Valid() && mem.live == old(mem.live)
      ensures (r, mem.requests) == InvokeResult(mem.grants, old(mem.requests), proc, message)
      ensures match EndOf(proc) case Gives(v) => r == Value(v) case Raises(_) => r.Thrown?
      decreases proc, 2
    {
      InvokeEnds(mem.grants, mem.requests, proc, message);
      var slot := new Slot();
      var value := WrapFn(slot, proc, 0, message);
      var smart := slot.raw;
      if smart != null {
        var e := Translate(DescriptionOf(smart), message);
        Free(smart);
        return Thrown(e);
      }
      return Value(value);
    }

    /** `SetError` of the Python bindings: raises what the error stands for and frees it. */
    method SetError(error: BtcKError) returns (raised: PyException)
      requires Freeable(error) && error.domain != null
      modifies mem`live
      ensures raised == Raised(DescriptionOf(error))
      ensures mem.live == old(mem.live) - OwnedBlocks(error)
    {
      var domain := error.domain.text;
      var message := if error.message == null then "" else error.message.text;
      if domain == "Memory" {
        raised := PyMemoryError;
      } else if domain == "VerificationError" {
        raised := PyVerificationError(message);
      } else {
        raised := PyRuntimeError(message);
      }
      Free(error);
    }

    /** A Python accessor such as `outputs_item`: calls the C function and raises
        its error, if there is one. */
    method CallFromPython(proc: Proc, message: (string, int) -> string) returns (value: int, raised: Option<PyException>)
      requires Valid()
      modifies mem
      ensures Valid() && mem.live == old(mem.live)
      ensures var (b, k) := BodyResult(mem.grants, old(mem.requests), proc, message);
              match b
              case Value(v) => raised == None && value == v
              case Thrown(e) => raised == Some(Raised(if ErrorBuilt(mem.grants, k) then Describe(e) else OUT_OF_MEMORY))
    {
      var slot := new Slot();
      value := WrapFn(slot, proc, 0, message);
      raised := None;
      if slot.raw != null {
        var p := SetError(slot.raw);
        raised := Some(p);
      }
    }
  }

  /** `raw_` of an `out_ptr` */
  class Slot {
    var raw: BtcKError?

    constructor ()
      ensures raw == null
    {
      raw := null;
    }
  }

  /** A C function: what it returns or throws, after any invocations of its own.
      `Try` invokes `inner` and goes on with `rest`; an exception that `inner`
      raises leaves the function unless there is a handler to go on with. */
  datatype Proc =
    | Return(value: int)
    | Throw(exception: Exception)
    | Try(inner: Proc, rest: Proc, handler: Option<Proc>)

  datatype Result = Value(value: int) | Thrown(exception: Exception)

  /** What the three getters of an error object read. */
  function DescriptionOf(e: BtcKError): Description
    reads e
  {
    Description(e.code, if e.domain == null then "" else e.domain.text, if e.message == null then "" else e.message.text)
  }

  /** How many requests `BtcK_Error_New` makes, the k-th being its first. */
  function Requests(grants: nat -> bool, k: nat, domain: Option<string>, message: Option<string>): nat {
    if !grants(k) then 1 else 1 + (if domain.Some? then 1 else 0) + if message.Some? then 1 else 0
  }

  /** Whether all of them are granted. */
  predicate Buildable(grants: nat -> bool, k: nat, domain: Option<string>, message: Option<string>) {
    && grants(k)
    && (domain.Some? ==> grants(k + 1))
    && (message.Some? ==> grants(if domain.Some? then k + 2 else k + 1))
  }

  /** The same for an error with both texts, as `TranslateException` builds it. */
  predicate ErrorBuilt(grants: nat -> bool, k: nat) {
    grants(k) && grants(k + 1) && grants(k + 2)
  }

  function AfterError(grants: nat -> bool, k: nat): nat {
    if grants(k) then k + 3 else k + 1
  }

  /** What the function itself ends with, before `WrapFn` sees it, and the
      allocator's count then. */
  function BodyResult(grants: nat -> bool, k: nat, proc: Proc, message: (string, int) -> string): (Result, nat)
    decreases proc, 0
  {
    match proc
    case Return(value) => (Value(value), k)
    case Throw(e) => (Thrown(e), k)
    case Try(inner, rest, handler) =>
      var (r, k') := InvokeResult(grants, k, inner, message);
      if r.Value? then BodyResult(grants, k', rest, message)
      else if handler.Some? then BodyResult(grants, k', handler.value, message)
      else (r, k')
  }

  /** What a C++ caller of the function gets. */
  function InvokeResult(grants: nat -> bool, k: nat, proc: Proc, message: (string, int) -> string): (Result, nat)
    decreases proc, 1
  {
    var (b, k') := BodyResult(grants, k, proc, message);
    match b
    case Value(value) => (b, k')
    case Thrown(e) => (Thrown(Cross(e, ErrorBuilt(grants, k'), message)), AfterError(grants, k'))
  }

  // ----- what a function ends with, whatever the allocator refuses -----

  datatype End = Gives(value: int) | Raises(exception: Exception)

  /** The value the function's course returns, or the exception that leaves it
      first raised as: an invocation that gives a value is followed by the rest,
      one that raises by its handler or, without one, by nothing. */
  function EndOf(proc: Proc): End {
    match proc
    case Return(value) => Gives(value)
    case Throw(e) => Raises(e)
    case Try(inner, rest, handler) =>
      match (EndOf(inner), handler)
      case (Gives(_), _) => EndOf(rest)
      case (Raises(_), Some(h)) => EndOf(h)
      case (Raises(e), None) => Raises(e)
  }

  lemma CrossTwice(e: Exception, first: bool, second: bool, message: (string, int) -> string)
    ensures Cross(Cross(e, first, message), second, message) == Cross(e, first && second, message)
  {
  }

  /** A caller gets a value exactly when the function's course ends with one, and
      then that very value; otherwise it gets the exception raised, as it is after
      one crossing, or a bad_alloc, which needs a refusal.  Whether a value comes
      back does not depend on the allocator at all. */
  lemma {:induction false} InvokeEnds(grants: nat -> bool, k: nat, proc: Proc, message: (string, int) -> string)
    ensures var (r, k') := InvokeResult(grants, k, proc, message);
            && k <= k'
            && match EndOf(proc)
               case Gives(v) => r == Value(v)
               case Raises(e) =>
                 || r == Thrown(Cross(e, true, message))
                 || (r == Thrown(Cross(e, false, message)) && exists j :: k <= j < k' && !grants(j))
    decreases proc, 1
  {
    BodyEnds(grants, k, proc, message);
    var (b, k') := BodyResult(grants, k, proc, message);
    if b.Thrown? {
      var built, e := ErrorBuilt(grants, k'), EndOf(proc).exception;
      CrossTwice(e, true, built, message);
      CrossTwice(e, false, built, message);
      if !built {
        assert !grants(k') || (grants(k') && (!grants(k' + 1) || !grants(k' + 2)));
      }
    }
  }

  lemma {:induction false} BodyEnds(grants: nat -> bool, k: nat, proc: Proc, message: (string, int) -> string)
    ensures var (r, k') := BodyResult(grants, k, proc, message);
            && k <= k'
            && match EndOf(proc)
               case Gives(v) => r == Value(v)
               case Raises(e) =>
                 || r == Thrown(e) || r == Thrown(Cross(e, true, message))
                 || (r == Thrown(Cross(e, false, message)) && exists j :: k <= j < k' && !grants(j))
    decreases proc, 0
  {
    if proc.Try? {
      InvokeEnds(grants, k, proc.inner, message);
      var (r, k') := InvokeResult(grants, k, proc.inner, message);
      if r.Value? {
        BodyEnds(grants, k', proc.rest, message);
      } else if proc.handler.Some? {
        BodyEnds(grants, k', proc.handler.value, message);
      }
    }
  }

  /** A function that makes any invocations, catches whatever they raise, and then returns `v`. */
  function Guarded(invocations: seq<Proc>, v: int): Proc
    decreases invocations
  {
    if invocations == [] then Return(v)
    else Try(invocations[0], Guarded(invocations[1..], v), Some(Guarded(invocations[1..], v)))
  }

  /** It gives its caller exactly `v`, on every schedule. */
  lemma {:induction false} GuardedGives(grants: nat -> bool, k: nat, invocations: seq<Proc>, v: int,
                                        message: (string, int) -> string)
    ensures InvokeResult(grants, k, Guarded(invocations, v), message).0 == Value(v)
    decreases invocations
  {
    if invocations != [] {
      var (r, k') := InvokeResult(grants, k, invocations[0], message);
      GuardedGives(grants, k', invocations[1..], v, message);
    }
  }

  // ----- an exception that propagates through nested invocations -----

  /** A function that throws `e`, invoked by one that lets it through, and so on;
      `rests` is what each of those would have done next. */
  function Propagating(e: Exception, rests: seq<Proc>): Proc
    decreases rests
  {
    if rests == [] then Throw(e)
    else Try(Propagating(e, rests[..|rests| - 1]), rests[|rests| - 1], None)
  }

  /** The allocator's count when the n-th crossing starts, and whether the error
      object of each of the first n crossings is built. */
  function CountAt(grants: nat -> bool, k: nat, n: nat): nat {
    if n == 0 then k else AfterError(grants, CountAt(grants, k, n - 1))
  }

  function BuiltFlags(grants: nat -> bool, k: nat, n: nat): seq<bool> {
    if n == 0 then [] else BuiltFlags(grants, k, n - 1) + [ErrorBuilt(grants, CountAt(grants, k, n - 1))]
  }

  lemma {:induction false} PropagationCrossesAll(grants: nat -> bool, k: nat, e: Exception, rests: seq<Proc>,
                                                 message: (string, int) -> string)
    ensures InvokeResult(grants, k, Propagating(e, rests), message) ==
            (Thrown(CrossAll(e, BuiltFlags(grants, k, |rests| + 1), message)), CountAt(grants, k, |rests| + 1))
    decreases rests
  {
    var n := |rests|;
    CrossAllSnoc(e, BuiltFlags(grants, k, n), ErrorBuilt(grants, CountAt(grants, k, n)), message);
    if n > 0 {
      PropagationCrossesAll(grants, k, e, rests[..n - 1], message);
    }
  }

  /** Through any depth of invocations an exception arrives as after one crossing,
      or as bad_alloc when some error object on the way could not be built. */
  lemma PropagationIsOneCrossing(grants: nat -> bool, k: nat, e: Exception, rests: seq<Proc>,
                                 message: (string, int) -> string)
    ensures var flags := BuiltFlags(grants, k, |rests| + 1);
            && |flags| == |rests| + 1
            && InvokeResult(grants, k, Propagating(e, rests), message).0
               == Thrown(Cross(e, forall i :: 0 <= i < |flags| ==> flags[i], message))
  {
    PropagationCrossesAll(grants, k, e, rests, message);
    FlagsLength(grants, k, |rests| + 1);
    CrossingIsIdempotent(e, BuiltFlags(grants, k, |rests| + 1), message);
  }

  lemma {:induction false} FlagsLength(grants: nat -> bool, k: nat, n: nat)
    ensures |BuiltFlags(grants, k, n)| == n
    decreases n
  {
    if n > 0 {
      FlagsLength(grants, k, n - 1);
    }
  }
}
