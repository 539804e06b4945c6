/** What the dispatcher promises about conditions, skipping, the cursor and
    the order in which units run, proved about the functions of Semantics. */
module Properties {
  import opened Values
  import opened Semantics

  // ---------------------------------------------------------------------------
  // The condition loop
  // ---------------------------------------------------------------------------

  /** Every condition either passes, rejects the frame, or is no matcher at all. */
  lemma ConditionTrichotomy(c: Value, req: Request, env: Env)
    ensures Passes(c, req, env) || Rejects(c, req, env) || Classify(c) == NotAMatcher
    ensures !(Passes(c, req, env) && Rejects(c, req, env))
    ensures Classify(c) == NotAMatcher ==> !Passes(c, req, env) && !Rejects(c, req, env)
  {
  }

  /** The verdict is decided by the first condition that does not pass. */
  lemma {:induction false} CheckIsFirstDecision(conds: seq<Value>, req: Request, env: Env)
    ensures var k := FirstNonPassing(conds, req, env);
      Check(conds, req, env) ==
        if k == |conds| then Apply
        else if Rejects(conds[k], req, env) then SkipFrame
        else BadCondition
  {
    if conds != [] && Passes(conds[0], req, env) {
      CheckIsFirstDecision(conds[1..], req, env);
      var k := FirstNonPassing(conds[1..], req, env);
      if k < |conds[1..]| {
        assert conds[1..][k] == conds[k + 1];
      }
    }
  }

  /** Conditions evaluated left to right: a prefix that lets the frame through
      hands the decision on; a prefix that decides hides everything after it. */
  lemma {:induction false} CheckAppend(a: seq<Value>, b: seq<Value>, req: Request, env: Env)
    ensures Check(a + b, req, env) == if Check(a, req, env) == Apply then Check(b, req, env) else Check(a, req, env)
  {
    if a == [] {
      assert a + b == b;
    } else {
      assert (a + b)[0] == a[0];
      assert (a + b)[1..] == a[1..] + b;
      CheckAppend(a[1..], b, req, env);
    }
  }

  /** A frame applies exactly when all of its conditions pass. */
  lemma {:induction false} CheckApplyIff(conds: seq<Value>, req: Request, env: Env)
    ensures Check(conds, req, env) == Apply <==> forall j :: 0 <= j < |conds| ==> Passes(conds[j], req, env)
  {
    CheckIsFirstDecision(conds, req, env);
    var k := FirstNonPassing(conds, req, env);
    if k < |conds| {
      ConditionTrichotomy(conds[k], req, env);
    }
  }

  /** A frame is skipped exactly when some condition rejects it and every earlier one passed. */
  lemma {:induction false} CheckSkipIff(conds: seq<Value>, req: Request, env: Env)
    ensures Check(conds, req, env) == SkipFrame <==>
      exists k :: 0 <= k < |conds| && Rejects(conds[k], req, env) &&
        forall j :: 0 <= j < k ==> Passes(conds[j], req, env)
  {
    CheckIsFirstDecision(conds, req, env);
    var f := FirstNonPassing(conds, req, env);
    if f < |conds| {
      ConditionTrichotomy(conds[f], req, env);
    }
    if k :| 0 <= k < |conds| && Rejects(conds[k], req, env) && forall j :: 0 <= j < k ==> Passes(conds[j], req, env) {
      ConditionTrichotomy(conds[k], req, env);
      assert f == k;
    }
  }

  /** "Invalid matcher" is raised exactly when a non-matcher is reached with every earlier condition passed. */
  lemma {:induction false} CheckBadIff(conds: seq<Value>, req: Request, env: Env)
    ensures Check(conds, req, env) == BadCondition <==>
      exists k :: 0 <= k < |conds| && Classify(conds[k]) == NotAMatcher &&
        forall j :: 0 <= j < k ==> Passes(conds[j], req, env)
  {
    CheckIsFirstDecision(conds, req, env);
    var f := FirstNonPassing(conds, req, env);
    if f < |conds| {
      ConditionTrichotomy(conds[f], req, env);
    }
    if k :| 0 <= k < |conds| && Classify(conds[k]) == NotAMatcher && forall j :: 0 <= j < k ==> Passes(conds[j], req, env) {
      ConditionTrichotomy(conds[k], req, env);
      assert f == k;
    }
  }

  // ---------------------------------------------------------------------------
  // Frames
  // ---------------------------------------------------------------------------

  /** Conditions that all pass are transparent: the frame resolves like its last element alone. */
  lemma PassingConditionsTransparent(conds: seq<Value>, x: Value, req: Request, env: Env, container: Option<Container>)
    requires forall j :: 0 <= j < |conds| ==> Passes(conds[j], req, env)
    requires !x.List?
    ensures FrameStep(List(conds + [x]), req, env, container) == FrameStep(x, req, env, container)
  {
    CheckApplyIff(conds, req, env);
    assert Split(conds + [x]) == (conds, x);
  }

  /** In the queue, `[true, true, X]` resolves like `X` (X neither an array nor `false`). */
  lemma TrueTrueFrameIsBare(q: seq<Value>, pos: nat, x: Value, req: Request, env: Env, container: Option<Container>)
    requires pos < |q|
    requires !x.List? && x != Bool(false)
    ensures ResolveAt(q[pos := List([Bool(true), Bool(true), x])], container, env, req, pos) ==
            ResolveAt(q[pos := x], container, env, req, pos)
  {
    var conds := [Bool(true), Bool(true)];
    assert conds + [x] == [Bool(true), Bool(true), x];
    PassingConditionsTransparent(conds, x, req, env, container);
  }

  /** A frame whose k-th condition rejects after passing ones is skipped, whatever
      its later conditions are: the cursor moves exactly one frame on. */
  lemma RejectedFrameAdvancesOne(q: seq<Value>, pos: nat, k: nat, req: Request, env: Env, container: Option<Container>)
    requires pos < |q| && q[pos].List?
    requires k < |Split(q[pos].items).0|
    requires Rejects(Split(q[pos].items).0[k], req, env)
    requires forall j :: 0 <= j < k ==> Passes(Split(q[pos].items).0[j], req, env)
    ensures IsSkipped(q, container, env, req, pos)
    ensures ResolveAt(q, container, env, req, pos) == ResolveAt(q, container, env, req, pos + 1)
  {
    CheckSkipIff(Split(q[pos].items).0, req, env);
  }

  /** Resolution passes over a run of skipped frames without looking at anything else. */
  lemma {:induction false} ResolveSkipsTo(q: seq<Value>, pos: nat, k: nat, req: Request, env: Env, container: Option<Container>)
    requires pos <= k <= |q|
    requires forall i :: pos <= i < k ==> IsSkipped(q, container, env, req, i)
    ensures ResolveAt(q, container, env, req, pos) == ResolveAt(q, container, env, req, k)
    decreases k - pos
  {
    if pos < k {
      SkipOne(q, pos, k, req, env, container);
      ResolveSkipsTo(q, pos + 1, k, req, env, container);
    }
  }

  /** The first frame of a skipped run: resolution moves on past it, and the rest of the run is skipped. */
  lemma SkipOne(q: seq<Value>, pos: nat, k: nat, req: Request, env: Env, container: Option<Container>)
    requires pos < k <= |q|
    requires forall i :: pos <= i < k ==> IsSkipped(q, container, env, req, i)
    ensures ResolveAt(q, container, env, req, pos) == ResolveAt(q, container, env, req, pos + 1)
    ensures forall i :: pos + 1 <= i < k ==> IsSkipped(q, container, env, req, i)
  {
    assert IsSkipped(q, container, env, req, pos);
  }

  /** The resolution from pos is the first frame at or after pos that is not skipped. */
  lemma ResolveAtFirstUnskipped(q: seq<Value>, pos: nat, k: nat, req: Request, env: Env, container: Option<Container>)
    requires pos <= k < |q|
    requires forall i :: pos <= i < k ==> IsSkipped(q, container, env, req, i)
    requires !IsSkipped(q, container, env, req, k)
    ensures ResolveAt(q, container, env, req, pos).1 == k
    ensures q[k] != Bool(false) ==> FrameStep(q[k], req, env, container) == Settled(ResolveAt(q, container, env, req, pos).0)
    ensures q[k] == Bool(false) ==> ResolveAt(q, container, env, req, pos).0 == Exhausted
  {
    ResolveSkipsTo(q, pos, k, req, env, container);
  }

  /** Given `[[false, A], B, ...]`, resolution from the start never reaches A and lands on B. */
  lemma FalseFrameNeverResolved(a: Value, b: Value, rest: seq<Value>, req: Request, env: Env, container: Option<Container>)
    requires b != Bool(false) && !b.List?
    ensures var q := [List([Bool(false), a]), b] + rest;
      ResolveAt(q, container, env, req, 0) == (ResolveSpec(b, container), 1)
  {
    var q := [List([Bool(false), a]), b] + rest;
    assert q[0] == List([Bool(false), a]) && q[1] == b;
    assert Split([Bool(false), a]).0 == [Bool(false)];
  }

  // ---------------------------------------------------------------------------
  // Traversals
  // ---------------------------------------------------------------------------

  /** A literal `false` in the queue ends a delegate call as if the queue stopped
      there: the delegate falls through (or fails) and runs no unit. The cursor
      stays on the `false`. */
  lemma FalseEntryEndsTraversal(q: seq<Value>, pos: nat, k: nat, req: Request, env: Env, container: Option<Container>,
                                outer: Option<Request -> Result<Reply>>)
    requires pos < |q| && pos < k < |q| && q[k] == Bool(false)
    requires forall i :: pos < i < k ==> IsSkipped(q, container, env, req, i)
    ensures Continue(q, container, env, req, pos, outer).visited == []
    ensures Continue(q, container, env, req, pos, outer).cursor == k
    ensures Continue(q, container, env, req, pos, outer).outcome ==
      if outer.Some? then outer.value(req) else Failure(QueueExhausted)
  {
    ResolveSkipsTo(q, pos + 1, k, req, env, container);
    assert ResolveAt(q, container, env, req, Advance(q, pos)) == (Exhausted, k);
  }

  /** When every frame after the cursor is skipped, the delegate runs no unit:
      it falls through to the outer delegate, or fails with "queue exhausted",
      and leaves the cursor past the end of the queue. */
  lemma ExhaustedDelegateFallsThrough(q: seq<Value>, pos: nat, req: Request, env: Env, container: Option<Container>,
                                      outer: Option<Request -> Result<Reply>>)
    requires pos <= |q|
    requires forall i :: pos < i < |q| ==> IsSkipped(q, container, env, req, i)
    ensures Continue(q, container, env, req, pos, outer) ==
      Run(if outer.Some? then outer.value(req) else Failure(QueueExhausted), |q|, [])
  {
    if pos < |q| {
      ResolveSkipsTo(q, pos + 1, |q|, req, env, container);
      assert Advance(q, pos) == pos + 1;
    }
    assert ResolveAt(q, container, env, req, Advance(q, pos)) == (Exhausted, |q|);
  }

  /** `dispatch` and `process` fail with `process()` called on `false` when,
      from the first frame on, every frame is skipped up to the end of the
      queue or up to a literal `false`; no unit runs. */
  lemma NothingResolvedFailsStart(q: seq<Value>, k: nat, req: Request, env: Env, container: Option<Container>,
                                  outer: Option<Request -> Result<Reply>>)
    requires k <= |q|
    requires forall i :: 0 <= i < k ==> IsSkipped(q, container, env, req, i)
    requires k == |q| || q[k] == Bool(false)
    ensures Start(q, container, env, req, outer) == Run(Failure(NothingToDispatch), k, [])
  {
    ResolveSkipsTo(q, 0, k, req, env, container);
  }

  /** The first unit `dispatch` and `process` run is the first frame that is
      not skipped; if that frame fails to resolve, its error reaches the caller
      unchanged and no unit runs. */
  lemma FirstUnitIsFirstUnskipped(q: seq<Value>, k: nat, req: Request, env: Env, container: Option<Container>,
                                  outer: Option<Request -> Result<Reply>>)
    requires k < |q| && q[k] != Bool(false)
    requires forall i :: 0 <= i < k ==> IsSkipped(q, container, env, req, i)
    requires !IsSkipped(q, container, env, req, k)
    ensures FrameStep(q[k], req, env, container).Settled?
    ensures var res := FrameStep(q[k], req, env, container).resolution;
      && (res.Found? ==> |Start(q, container, env, req, outer).visited| > 0 &&
                         Start(q, container, env, req, outer).visited[0] == k)
      && (res.Found? ==>
            var r := Invoke(q, container, env, res.unit, req, k, outer);
            Start(q, container, env, req, outer) == r.(outcome := MustRespond(r.outcome, ReturnTypeError)))
      && (res.Failed? ==> Start(q, container, env, req, outer) == Run(Failure(res.error), k, []))
  {
    ResolveAtFirstUnskipped(q, 0, k, req, env, container);
  }

  /** The delegate runs the first frame after its cursor that is not skipped,
      with itself as that unit's delegate, and returns what the unit returns. */
  lemma DelegateRunsFirstUnskipped(q: seq<Value>, pos: nat, k: nat, u: Unit, req: Request, env: Env,
                                   container: Option<Container>, outer: Option<Request -> Result<Reply>>)
    requires pos < k < |q| && q[k] != Bool(false)
    requires forall i :: pos < i < k ==> IsSkipped(q, container, env, req, i)
    requires FrameStep(q[k], req, env, container) == Settled(Found(u))
    ensures Continue(q, container, env, req, pos, outer) == Invoke(q, container, env, u, req, k, outer)
  {
    ResolveSkipsTo(q, pos + 1, k, req, env, container);
    assert ResolveAt(q, container, env, req, k) == (Found(u), k);
    assert ResolveAt(q, container, env, req, Advance(q, pos)) == (Found(u), k);
  }

  /** The end-to-end example `[log, ["/api", auth], handler]`: when the path
      matcher rejects the request, log's delegate skips auth and runs handler;
      when it accepts, log, auth and handler run in that order. */
  lemma ApiExample(log: nat, auth: nat, handler: nat, req: Request, env: Env, container: Option<Container>,
                   outer: Option<Request -> Result<Reply>>, done: Reply)
    requires env.closure(log, req).Forward? && env.closure(log, req).request == req
    requires env.closure(handler, req) == Answer(done)
    requires env.closure(auth, req).Forward? && env.closure(auth, req).request == req
    ensures var q := [Closure(log), List([Str("/api"), Closure(auth)]), Closure(handler)];
      Start(q, container, env, req, outer).visited ==
        if env.matches(PathMatcher("/api"), req) then [0, 1, 2] else [0, 2]
  {
    var q := [Closure(log), List([Str("/api"), Closure(auth)]), Closure(handler)];
    ApiExampleFromLog(log, auth, handler, req, env, container, outer, done);
    assert ResolveAt(q, container, env, req, 0) == (Found(Adapter(log)), 0);
    assert Invoke(q, container, env, Adapter(log), req, 0, outer).visited ==
      [0] + Continue(q, container, env, req, 0, outer).visited;
  }

  /** The `/api` example after its first unit: what log's delegate runs. */
  lemma ApiExampleFromLog(log: nat, auth: nat, handler: nat, req: Request, env: Env, container: Option<Container>,
                          outer: Option<Request -> Result<Reply>>, done: Reply)
    requires env.closure(handler, req) == Answer(done)
    requires env.closure(auth, req).Forward? && env.closure(auth, req).request == req
    ensures var q := [Closure(log), List([Str("/api"), Closure(auth)]), Closure(handler)];
      Continue(q, container, env, req, 0, outer).visited ==
        if env.matches(PathMatcher("/api"), req) then [1, 2] else [2]
  {
    var q := [Closure(log), List([Str("/api"), Closure(auth)]), Closure(handler)];
    assert Split(q[1].items).0 == [Str("/api")];
    assert ResolveAt(q, container, env, req, 2) == (Found(Adapter(handler)), 2);
    assert Invoke(q, container, env, Adapter(handler), req, 2, outer).visited == [2];
    if env.matches(PathMatcher("/api"), req) {
      assert [Str("/api")][1..] == [];
      assert Check([Str("/api")], req, env) == Apply;
      assert ResolveAt(q, container, env, req, 1) == (Found(Adapter(auth)), 1);
      assert Continue(q, container, env, req, 1, outer).visited == [2];
      assert Invoke(q, container, env, Adapter(auth), req, 1, outer).visited == [1, 2];
    } else {
      assert ResolveAt(q, container, env, req, 1) == (Found(Adapter(handler)), 2);
    }
  }

  /** A unit that answers on its own ends the traversal with its reply: nothing
      after it runs and the cursor stays on its frame. */
  lemma AnsweringUnitEndsTraversal(q: seq<Value>, container: Option<Container>, env: Env, u: Unit, req: Request,
                                   pos: nat, outer: Option<Request -> Result<Reply>>, v: Reply)
    requires pos < |q|
    requires ActionOf(env, u, req) == Answer(v)
    requires u.Instance? || v.Response?
    ensures Invoke(q, container, env, u, req, pos, outer) == Run(Success(v), pos, [pos])
  {
  }
}
