/** The values the middleware dispatcher works with: what can stand in its
    queue, what a resolved frame is, what a unit body does, and the errors
    the dispatcher raises. */
module Values {

  datatype Option<+T> = None | Some(value: T)

  /** A computation that either yields a value or throws one of the errors below. */
  datatype Result<+T> = Success(value: T) | Failure(error: Error)

  /** A PHP value, as far as the dispatcher inspects it. An object is known by
      one of the interfaces the dispatcher tests for, plus an identity. */
  datatype Value =
    | Bool(b: bool)
    | Str(s: string)
    | Closure(id: nat)          // an instance of \Closure
    | Middleware(id: nat)       // an object implementing MiddlewareInterface
    | Matcher(id: nat)          // an object implementing Matchers\MatcherInterface
    | List(items: seq<Value>)   // a PHP array (a conditional frame when in the queue)
    | Null
    | Other                     // any other scalar or object

  /** The optional PSR container: name in, entry out; a missing name fails. */
  type Container = map<string, Value>

  /** A matcher to ask: the built-in Matchers\Path built from a string, or a matcher object. */
  datatype MatcherRef = PathMatcher(pattern: string) | CustomMatcher(id: nat)

  /** The server request, known only by identity: the dispatcher only hands it
      on, and matchers see it through `Env.matches`. */
  datatype Request = Request(id: nat)

  /** What a unit body returns: a ResponseInterface, or some other value. */
  datatype Reply = Response(id: nat) | NonResponse

  datatype Error =
    | EmptyQueue                        // LogicException: empty middleware queue
    | InvalidMatcher                    // InvalidArgumentException: invalid matcher
    | NoValidMiddleware(offender: Value) // InvalidArgumentException: no valid middleware provided
    | NotFound(name: string)            // the container cannot resolve the name
    | NotAResponse                      // LogicException: the middleware must return a ResponseInterface
    | QueueExhausted                    // LogicException: middleware queue exhausted
    | NothingToDispatch                 // `process()` called on `false` in dispatch/process
    | ReturnTypeError                   // a non-response reaches the `: ResponseInterface` return type
    | Thrown(tag: nat)                  // an exception thrown by a unit body itself

  /** A resolved frame: a middleware instance used as it is, or a closure in its adapter. */
  datatype Unit = Instance(id: nat) | Adapter(closure: nat)

  /** What the body of a unit does with a request: answer on its own, throw,
      or call the delegate with some request and then map the reply it gets
      back to a reply or an exception of its own. */
  datatype Action =
    | Answer(reply: Reply)
    | Throw(error: Error)
    | Forward(request: Request, after: Reply -> Result<Reply>)

  /** The code the dispatcher calls but does not contain: the `match` of every
      matcher, and the bodies of middleware objects and closures. */
  datatype Env = Env(
    matches: (MatcherRef, Request) -> bool,
    middleware: (nat, Request) -> Action,
    closure: (nat, Request) -> Action)

  /** What `get` and `next` give back: `false`, a unit, or a thrown error. */
  datatype Resolution = Exhausted | Found(unit: Unit) | Failed(error: Error)

  /** The value a unit was made from. */
  function Source(u: Unit): (v: Value)
    ensures v.Closure? <==> u.Adapter?
    ensures v.Middleware? <==> u.Instance?
  {
    match u
    case Instance(id) => Middleware(id)
    case Adapter(id) => Closure(id)
  }
}
