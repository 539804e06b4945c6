/** The dispatcher's behaviour as functions of the queue, the container, the
    request and a cursor position. The methods of module Middleland are proved
    to compute exactly these; the lemmas of module Properties are about them. */
module Semantics {
  import opened Values

  // ---------------------------------------------------------------------------
  // Conditions of a conditional frame
  // ---------------------------------------------------------------------------

  /** How `get` treats one condition: `true` passes, `false` skips, a string
      becomes a Matchers\Path, a matcher object is asked, anything else is invalid. */
  datatype CondKind = AlwaysPass | AlwaysSkip | Test(matcher: MatcherRef) | NotAMatcher

  function Classify(c: Value): (k: CondKind)
    ensures k == AlwaysPass <==> c == Bool(true)
    ensures k == AlwaysSkip <==> c == Bool(false)
    ensures k.Test? <==> c.Str? || c.Matcher?
    ensures c.Str? ==> k == Test(PathMatcher(c.s))
    ensures c.Matcher? ==> k == Test(CustomMatcher(c.id))
  {
    match c
    case Bool(b) => if b then AlwaysPass else AlwaysSkip
    case Str(s) => Test(PathMatcher(s))
    case Matcher(id) => Test(CustomMatcher(id))
    case _ => NotAMatcher
  }

  /** The condition lets the frame through for this request. */
  predicate Passes(c: Value, req: Request, env: Env)
    ensures Passes(c, req, env) ==> c == Bool(true) || c.Str? || c.Matcher?
    ensures c.Str? ==> (Passes(c, req, env) <==> env.matches(PathMatcher(c.s), req))
    ensures c.Matcher? ==> (Passes(c, req, env) <==> env.matches(CustomMatcher(c.id), req))
  {
    match Classify(c)
    case AlwaysPass => true
    case Test(m) => env.matches(m, req)
    case _ => false
  }

  /** The condition makes the frame be skipped for this request. */
  predicate Rejects(c: Value, req: Request, env: Env)
    ensures Rejects(c, req, env) ==> c == Bool(false) || c.Str? || c.Matcher?
    ensures c.Str? ==> (Rejects(c, req, env) <==> !env.matches(PathMatcher(c.s), req))
    ensures c.Matcher? ==> (Rejects(c, req, env) <==> !env.matches(CustomMatcher(c.id), req))
  {
    match Classify(c)
    case AlwaysSkip => true
    case Test(m) => !env.matches(m, req)
    case _ => false
  }

  datatype Verdict = Apply | SkipFrame | BadCondition

  /** The verdict of the condition loop, examining the conditions in order. */
  function Check(conds: seq<Value>, req: Request, env: Env): (v: Verdict)
    ensures v == Apply ==> forall j :: 0 <= j < |conds| ==> Passes(conds[j], req, env)
    ensures v == SkipFrame ==> exists j :: 0 <= j < |conds| && Rejects(conds[j], req, env)
    ensures v == BadCondition ==> exists j :: 0 <= j < |conds| && Classify(conds[j]) == NotAMatcher
  {
    if conds == [] then Apply
    else match Classify(conds[0])
      case AlwaysPass => Check(conds[1..], req, env)
      case AlwaysSkip => SkipFrame
      case Test(m) => if env.matches(m, req) then Check(conds[1..], req, env) else SkipFrame
      case NotAMatcher => BadCondition
  }

  /** Reference definition: the position of the first condition that does not pass. */
  function FirstNonPassing(conds: seq<Value>, req: Request, env: Env): (k: nat)
    ensures k <= |conds|
    ensures forall j :: 0 <= j < k ==> Passes(conds[j], req, env)
    ensures k < |conds| ==> !Passes(conds[k], req, env)
  {
    if conds == [] || !Passes(conds[0], req, env) then 0
    else 1 + FirstNonPassing(conds[1..], req, env)
  }

  // ---------------------------------------------------------------------------
  // Resolving one frame
  // ---------------------------------------------------------------------------

  /** `array_pop` on a copy of a conditional frame: the conditions and the
      last element; popping an empty array gives `null`. */
  function Split(items: seq<Value>): (r: (seq<Value>, Value))
    ensures items != [] ==> r.0 + [r.1] == items
    ensures items == [] ==> r == ([], Null)
  {
    if items == [] then ([], Null) else (items[..|items| - 1], items[|items| - 1])
  }

  /** The `instanceof` tests on a frame value: a closure is adapted, a
      middleware object is used as it is, anything else is an error. */
  function AsUnit(v: Value): (r: Resolution)
    ensures r.Found? <==> v.Closure? || v.Middleware?
    ensures r.Found? ==> Source(r.unit) == v
    ensures !r.Found? ==> r == Failed(NoValidMiddleware(v))
  {
    match v
    case Closure(id) => Found(Adapter(id))
    case Middleware(id) => Found(Instance(id))
    case _ => Failed(NoValidMiddleware(v))
  }

  /** The unit a frame specification stands for; a name goes through the container once. */
  function ResolveSpec(spec: Value, container: Option<Container>): (r: Resolution)
    ensures !r.Exhausted?
    ensures r.Found? ==>
      Source(r.unit) == spec ||
      (spec.Str? && container.Some? && spec.s in container.value && Source(r.unit) == container.value[spec.s])
    ensures spec.Str? && container.None? ==> r == Failed(NoValidMiddleware(spec))
    ensures r.Failed? && r.error.NotFound? <==> spec.Str? && container.Some? && spec.s !in container.value
    ensures r.Failed? && r.error.NotFound? ==> r.error.name == spec.s
    ensures spec.Str? && container.Some? && spec.s in container.value && container.value[spec.s].Str? ==>
      r == Failed(NoValidMiddleware(container.value[spec.s]))
    ensures !spec.Str? ==> r == AsUnit(spec)
    ensures spec.Str? && container.Some? && spec.s in container.value ==> r == AsUnit(container.value[spec.s])
  {
    if spec.Str? then
      if container.None? then Failed(NoValidMiddleware(spec))
      else if spec.s in container.value then AsUnit(container.value[spec.s])
      else Failed(NotFound(spec.s))
    else AsUnit(spec)
  }

  datatype FrameOutcome = Skipped | Settled(resolution: Resolution)

  /** What `get` makes of the frame under the cursor (when it is not `false`). */
  function FrameStep(frame: Value, req: Request, env: Env, container: Option<Container>): (o: FrameOutcome)
    ensures o.Settled? ==> !o.resolution.Exhausted?
    ensures o.Skipped? ==> frame.List? && Check(Split(frame.items).0, req, env) == SkipFrame
    ensures o == Settled(Failed(InvalidMatcher)) ==> frame.List? && Check(Split(frame.items).0, req, env) == BadCondition
    ensures frame.List? && Check(Split(frame.items).0, req, env) == BadCondition ==> o == Settled(Failed(InvalidMatcher))
    ensures frame.List? && Check(Split(frame.items).0, req, env) == SkipFrame ==> o == Skipped
    ensures !frame.List? ==> o == Settled(ResolveSpec(frame, container))
    ensures frame.List? && Check(Split(frame.items).0, req, env) == Apply ==>
      o == Settled(ResolveSpec(Split(frame.items).1, container))
  {
    if frame.List? then
      var (conds, spec) := Split(frame.items);
      match Check(conds, req, env)
      case Apply => Settled(ResolveSpec(spec, container))
      case SkipFrame => Skipped
      case BadCondition => Settled(Failed(InvalidMatcher))
    else Settled(ResolveSpec(frame, container))
  }

  // ---------------------------------------------------------------------------
  // Resolving from a cursor position
  // ---------------------------------------------------------------------------

  /** The frame at position k is present and is skipped for this request. */
  predicate IsSkipped(q: seq<Value>, container: Option<Container>, env: Env, req: Request, k: int) {
    0 <= k < |q| && q[k] != Bool(false) && FrameStep(q[k], req, env, container).Skipped?
  }

  /** `get` from cursor position pos: the resolution and the cursor it leaves behind. */
  function ResolveAt(q: seq<Value>, container: Option<Container>, env: Env, req: Request, pos: nat): (r: (Resolution, nat))
    requires pos <= |q|
    decreases |q| - pos
    ensures pos <= r.1 <= |q|
    ensures forall k :: pos <= k < r.1 ==> IsSkipped(q, container, env, req, k)
    ensures r.1 == |q| ==> r.0 == Exhausted
    ensures r.1 < |q| && q[r.1] == Bool(false) ==> r.0 == Exhausted
    ensures r.1 < |q| && q[r.1] != Bool(false) ==> FrameStep(q[r.1], req, env, container) == Settled(r.0)
  {
    if pos == |q| || q[pos] == Bool(false) then (Exhausted, pos)
    else match FrameStep(q[pos], req, env, container)
      case Skipped => ResolveAt(q, container, env, req, pos + 1)
      case Settled(res) => (res, pos)
  }

  /** PHP's `next()`: one position forward, staying put once past the end. */
  function Advance(q: seq<Value>, pos: nat): (p: nat)
    requires pos <= |q|
    ensures p <= |q|
    ensures pos < |q| ==> p == pos + 1
    ensures pos == |q| ==> p == pos
  {
    if pos < |q| then pos + 1 else pos
  }

  // ---------------------------------------------------------------------------
  // Running the units
  // ---------------------------------------------------------------------------

  /** The outcome of a traversal, the cursor it leaves, and the positions of the
      frames whose units it invoked, in invocation order. */
  datatype Run = Run(outcome: Result<Reply>, cursor: nat, visited: seq<nat>)

  predicate Increasing(s: seq<nat>) {
    forall i, j :: 0 <= i < j < |s| ==> s[i] < s[j]
  }

  /** The closure adapter's check: a reply that is a response, or a thrown
      error, passes unchanged; any other value becomes the error e. */
  function MustRespond(o: Result<Reply>, e: Error): (r: Result<Reply>)
    ensures r.Success? <==> o.Success? && o.value.Response?
    ensures r.Success? || o.Failure? ==> r == o
    ensures o == Success(NonResponse) ==> r == Failure(e)
  {
    if o == Success(NonResponse) then Failure(e) else o
  }

  /** The body of a unit, applied to a request: that of the object it was made from. */
  function ActionOf(env: Env, u: Unit, req: Request): (a: Action)
    ensures Source(u).Middleware? ==> a == env.middleware(Source(u).id, req)
    ensures Source(u).Closure? ==> a == env.closure(Source(u).id, req)
  {
    match u
    case Instance(id) => env.middleware(id, req)
    case Adapter(id) => env.closure(id, req)
  }

  /** The delegate's `process`: advance, then fall through, fail, or invoke the unit found. */
  function Continue(q: seq<Value>, container: Option<Container>, env: Env, req: Request, pos: nat,
                    outer: Option<Request -> Result<Reply>>): (run: Run)
    requires pos <= |q|
    decreases |q| - pos, 0
    ensures pos <= run.cursor <= |q|
    ensures Increasing(run.visited)
    ensures forall i :: 0 <= i < |run.visited| ==> pos < run.visited[i] <= run.cursor
    ensures var found := ResolveAt(q, container, env, req, Advance(q, pos));
      && (run.visited == [] <==> !found.0.Found?)
      && (found.0.Found? ==> run.visited[0] == found.1)
      && (found.0.Found? ==> run == Invoke(q, container, env, found.0.unit, req, found.1, outer))
      && (found.0.Exhausted? ==>
            run == Run(if outer.Some? then outer.value(req) else Failure(QueueExhausted), found.1, []))
      && (found.0.Failed? ==> run == Run(Failure(found.0.error), found.1, []))
  {
    var (res, p) := ResolveAt(q, container, env, req, Advance(q, pos));
    match res
    case Exhausted =>
      Run(if outer.Some? then outer.value(req) else Failure(QueueExhausted), p, [])
    case Failed(e) => Run(Failure(e), p, [])
    case Found(u) => Invoke(q, container, env, u, req, p, outer)
  }

  /** `$frame->process($request, $delegate)` for the unit found at position pos. */
  function Invoke(q: seq<Value>, container: Option<Container>, env: Env, u: Unit, req: Request, pos: nat,
                  outer: Option<Request -> Result<Reply>>): (run: Run)
    requires pos < |q|
    decreases |q| - pos, 1
    ensures pos <= run.cursor <= |q|
    ensures |run.visited| > 0 && run.visited[0] == pos
    ensures Increasing(run.visited)
    ensures forall i :: 0 <= i < |run.visited| ==> pos <= run.visited[i] <= run.cursor
    ensures u.Adapter? && run.outcome.Success? ==> run.outcome.value.Response?
    ensures var a := ActionOf(env, u, req);
      && (a.Answer? ==>
            && run.visited == [pos]
            && run.cursor == pos
            && run.outcome == if u.Instance? then Success(a.reply) else MustRespond(Success(a.reply), NotAResponse))
      && (a.Throw? ==> run == Run(Failure(a.error), pos, [pos]))
      && (a.Forward? ==>
            var down := Continue(q, container, env, a.request, pos, outer);
            && run.cursor == down.cursor
            && run.visited == [pos] + down.visited
            && (down.outcome.Failure? ==> run.outcome == down.outcome)
            && (down.outcome.Success? && u.Instance? ==> run.outcome == a.after(down.outcome.value))
            && (down.outcome.Success? && u.Adapter? ==>
                  run.outcome == MustRespond(a.after(down.outcome.value), NotAResponse)))
  {
    match ActionOf(env, u, req)
    case Answer(v) =>
      Run(if u.Adapter? then MustRespond(Success(v), NotAResponse) else Success(v), pos, [pos])
    case Throw(e) =>
      // the adapter lets an exception through unchanged
      Run(Failure(e), pos, [pos])
    case Forward(next, after) =>
      var down := Continue(q, container, env, next, pos, outer);
      VisitedFirst(pos, down.cursor, down.visited);
      var reply := if down.outcome.Success? then after(down.outcome.value) else down.outcome;
      Run(if u.Adapter? then MustRespond(reply, NotAResponse) else reply, down.cursor, [pos] + down.visited)
  }

  /** Prepending the position of the unit that forwarded keeps the visits increasing and in range. */
  lemma VisitedFirst(pos: nat, cursor: nat, visited: seq<nat>)
    requires pos <= cursor && Increasing(visited)
    requires forall i :: 0 <= i < |visited| ==> pos < visited[i] <= cursor
    ensures Increasing([pos] + visited)
    ensures forall i :: 0 <= i < |[pos] + visited| ==> pos <= ([pos] + visited)[i] <= cursor
  {
    var s := [pos] + visited;
    forall i, j | 0 <= i < j < |s|
      ensures s[i] < s[j]
    {
      if i > 0 {
        assert s[i] == visited[i - 1] && s[j] == visited[j - 1];
      } else {
        assert s[j] == visited[j - 1];
      }
    }
    forall i | 0 <= i < |s|
      ensures pos <= s[i] <= cursor
    {
      if i > 0 {
        assert s[i] == visited[i - 1];
      }
    }
  }

  /** `dispatch` (no outer delegate) and `process` (with one): from the first frame. */
  function Start(q: seq<Value>, container: Option<Container>, env: Env, req: Request,
                 outer: Option<Request -> Result<Reply>>): (run: Run)
    ensures run.cursor <= |q|
    ensures Increasing(run.visited)
    ensures forall i :: 0 <= i < |run.visited| ==> run.visited[i] <= run.cursor
    ensures run.outcome.Success? ==> run.outcome.value.Response?
    ensures var found := ResolveAt(q, container, env, req, 0);
      && (found.0.Exhausted? ==> run == Run(Failure(NothingToDispatch), found.1, []))
      && (found.0.Failed? ==> run == Run(Failure(found.0.error), found.1, []))
      && (found.0.Found? ==> run.visited != [] && run.visited[0] == found.1)
      && (found.0.Found? ==>
            var r := Invoke(q, container, env, found.0.unit, req, found.1, outer);
            run == r.(outcome := MustRespond(r.outcome, ReturnTypeError)))
  {
    var (res, p) := ResolveAt(q, container, env, req, 0);
    match res
    case Exhausted => Run(Failure(NothingToDispatch), p, [])
    case Failed(e) => Run(Failure(e), p, [])
    case Found(u) =>
      var run := Invoke(q, container, env, u, req, p, outer);
      run.(outcome := MustRespond(run.outcome, ReturnTypeError))
  }
}
