/** The dispatcher object, its delegate and the closure adapter, as imperative
    code over a cursor field. Each method is proved to compute what module
    Semantics says, and to leave the cursor where that says. */
module Middleland {
  import opened Values
  import opened Semantics

  class Dispatcher {
    /** The middleware queue; never reassigned after construction. */
    const queue: seq<Value>
    const container: Option<Container>
    /** PHP's internal array pointer on the queue. */
    var pos: nat

    ghost predicate Valid()
      reads this
    {
      queue != [] && pos <= |queue|
    }

    constructor (middleware: seq<Value>, container: Option<Container>)
      requires middleware != []
      ensures Valid()
      ensures queue == middleware && this.container == container && pos == 0
    {
      queue := middleware;
      this.container := container;
      pos := 0;
    }

    /** `new Dispatcher($middleware, $container)`: refuses an empty queue. */
    static method Create(middleware: seq<Value>, container: Option<Container>) returns (r: Result<Dispatcher>)
      ensures r.Failure? <==> middleware == []
      ensures r.Failure? ==> r.error == EmptyQueue
      ensures r.Success? ==> fresh(r.value) && r.value.Valid()
      ensures r.Success? ==> r.value.queue == middleware && r.value.container == container
    {
      if middleware == [] {
        return Failure(EmptyQueue);
      }
      var d := new Dispatcher(middleware, container);
      r := Success(d);
    }

    /** Moves the cursor one frame on and resolves from there. */
    method Next(req: Request, env: Env) returns (r: Resolution)
      requires Valid()
      modifies this
      ensures Valid()
      ensures (r, pos) == ResolveAt(queue, container, env, req, Advance(queue, old(pos)))
      decreases |queue| - pos, 1
    {
      if pos < |queue| {
        pos := pos + 1;
      }
      r := Get(req, env);
    }

    /** Resolves the frame under the cursor; a skipped frame re-enters `Next`. */
    method Get(req: Request, env: Env) returns (r: Resolution)
      requires Valid()
      modifies this
      ensures Valid()
      ensures (r, pos) == ResolveAt(queue, container, env, req, old(pos))
      decreases |queue| - pos, if pos < |queue| then 2 else 0
    {
      // `current()` gives false past the end and for a literal false entry alike
      if pos == |queue| || queue[pos] == Bool(false) {
        return Exhausted;
      }
      var frame := queue[pos];
      if frame.List? {
        var conditions, spec := Split(frame.items).0, Split(frame.items).1;
        for i := 0 to |conditions|
          invariant Check(conditions, req, env) == Check(conditions[i..], req, env)
        {
          assert conditions[i..][1..] == conditions[i + 1..];
          var condition := conditions[i];
          if condition == Bool(true) {
            continue;
          }
          if condition == Bool(false) {
            r := Next(req, env);
            return;
          }
          var matcher: MatcherRef;
          if condition.Str? {
            matcher := PathMatcher(condition.s);
          } else if condition.Matcher? {
            matcher := CustomMatcher(condition.id);
          } else {
            return Failed(InvalidMatcher);
          }
          if !env.matches(matcher, req) {
            r := Next(req, env);
            return;
          }
        }
        frame := spec;
      }
      r := ResolveSpec(frame, container);
    }

    /** `dispatch($request)`: a traversal from the first frame with no outer delegate. */
    method Dispatch(req: Request, env: Env) returns (o: Result<Reply>)
      requires Valid()
      modifies this
      ensures Valid()
      ensures o == Start(queue, container, env, req, None).outcome
      ensures pos == Start(queue, container, env, req, None).cursor
    {
      o := Launch(req, None, env);
    }

    /** `process($request, $delegate)`: the dispatcher used as a middleware,
        falling through to the caller's delegate when its queue runs out. */
    method Process(req: Request, delegate: Request -> Result<Reply>, env: Env) returns (o: Result<Reply>)
      requires Valid()
      modifies this
      ensures Valid()
      ensures o == Start(queue, container, env, req, Some(delegate)).outcome
      ensures pos == Start(queue, container, env, req, Some(delegate)).cursor
    {
      o := Launch(req, Some(delegate), env);
    }

    /** The body shared by `dispatch` and `process`: reset, resolve, run the unit. */
    method Launch(req: Request, outer: Option<Request -> Result<Reply>>, env: Env) returns (o: Result<Reply>)
      requires Valid()
      modifies this
      ensures Valid()
      ensures o == Start(queue, container, env, req, outer).outcome
      ensures pos == Start(queue, container, env, req, outer).cursor
    {
      pos := 0;
      var frame := Get(req, env);
      match frame {
        case Exhausted =>
          o := Failure(NothingToDispatch);
        case Failed(e) =>
          o := Failure(e);
        case Found(u) =>
          var d := new Delegate(this, outer);
          o := ProcessUnit(u, req, d, env);
          o := MustRespond(o, ReturnTypeError);
      }
    }
  }

  /** The delegate handed to every unit of one traversal. */
  class Delegate {
    const dispatcher: Dispatcher
    /** The caller's delegate when the dispatcher runs nested inside another queue. */
    const outer: Option<Request -> Result<Reply>>

    constructor (dispatcher: Dispatcher, outer: Option<Request -> Result<Reply>>)
      ensures this.dispatcher == dispatcher && this.outer == outer
    {
      this.dispatcher := dispatcher;
      this.outer := outer;
    }

    /** "The rest of the queue": the next unit, the outer delegate, or an error. */
    method Process(req: Request, env: Env) returns (o: Result<Reply>)
      requires dispatcher.Valid()
      modifies dispatcher
      ensures dispatcher.Valid()
      ensures o == Continue(dispatcher.queue, dispatcher.container, env, req, old(dispatcher.pos), outer).outcome
      ensures dispatcher.pos == Continue(dispatcher.queue, dispatcher.container, env, req, old(dispatcher.pos), outer).cursor
      decreases |dispatcher.queue| - dispatcher.pos, 0
    {
      var frame := dispatcher.Next(req, env);
      match frame {
        case Exhausted =>
          if outer.Some? {
            o := outer.value(req);
          } else {
            o := Failure(QueueExhausted);
          }
        case Failed(e) =>
          o := Failure(e);
        case Found(u) =>
          o := ProcessUnit(u, req, this, env);
      }
    }
  }

  /** A resolved unit's `process($request, $delegate)`: a middleware object runs
      its body; a closure runs inside the adapter, which checks its reply. */
  method ProcessUnit(u: Unit, req: Request, d: Delegate, env: Env) returns (o: Result<Reply>)
    requires d.dispatcher.Valid() && d.dispatcher.pos < |d.dispatcher.queue|
    modifies d.dispatcher
    ensures d.dispatcher.Valid()
    ensures o == Invoke(d.dispatcher.queue, d.dispatcher.container, env, u, req, old(d.dispatcher.pos), d.outer).outcome
    ensures d.dispatcher.pos == Invoke(d.dispatcher.queue, d.dispatcher.container, env, u, req, old(d.dispatcher.pos), d.outer).cursor
    decreases |d.dispatcher.queue| - d.dispatcher.pos, 1
  {
    match ActionOf(env, u, req) {
      case Answer(v) =>
        o := Success(v);
      case Throw(e) =>
        o := Failure(e);
      case Forward(next, after) =>
        o := d.Process(next, env);
        if o.Success? {
          o := after(o.value);
        }
    }
    if u.Adapter? {
      o := MustRespond(o, NotAResponse);
    }
  }
}
