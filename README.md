# Middleland dispatcher, modelled in Dafny

Middleland is a PSR-15 style middleware dispatcher for PHP. A `Dispatcher`
holds an ordered queue of frames and a cursor (PHP's internal array pointer on
that queue). `dispatch` and `process` reset the cursor and resolve the first
frame; every unit receives a delegate whose `process` moves the cursor one
frame on, resolves the frame found there and runs it with the same delegate.
When the queue runs out the delegate falls through to an outer delegate (the
dispatcher used as a middleware inside another queue) or fails.

A frame is resolved lazily. A frame that is a PHP array is conditional: its
last element is the middleware and the elements before it are conditions,
examined in order. `true` passes; `false`, or a matcher (a string becomes a
`Matchers\Path`) whose `match` is false, skips the whole frame, which moves the
cursor one frame on and resolves again; any other condition is an invalid
matcher. The middleware itself is a name looked up in the container, a closure
wrapped in an adapter that insists on a response, or a middleware object used
as it is; anything else is an error.

The project has four modules:

- `Values` (values.dfy): PHP values as a datatype, requests, replies, errors,
  resolved units, and `Env`, the code the dispatcher calls but does not contain
  (matchers and unit bodies), passed in as total functions.
- `Semantics` (semantics.dfy): the dispatcher's behaviour as functions of the
  queue, the container, the request and a cursor position: the condition loop
  (`Check`), one frame (`FrameStep`), resolution from a position (`ResolveAt`),
  and whole traversals (`Continue`, `Invoke`, `Start`) with the positions of the
  units they ran.
- `Middleland` (dispatcher.dfy): the imperative model. Class `Dispatcher`
  keeps `queue` and `container` as constants and the cursor `pos` as a field.
  `Next` and `Get` are mutually recursive, as in the source, and `Get` runs the
  condition loop as a `for` loop with early returns. Class `Delegate` holds the
  dispatcher and the optional outer delegate. `ProcessUnit` is a unit's
  `process`, including the closure adapter. Each method is proved to return what
  the matching `Semantics` function says and to leave the cursor where that
  function says.
- `Properties` (properties.dfy): lemmas about `Semantics`.

A unit body is modelled as an `Action`. It answers with a reply, throws an
error of its own, or calls the delegate once, with a request it chooses, and
maps the reply it gets back to a reply or an error of its own. An error raised
downstream propagates through it.

Behaviour of the code that is easy to misread:

- A literal `false` entry in the queue reads as exhaustion, because `current()`
  returns `false` both past the end and for that entry. Frames after it are
  never reached by the delegate, as long as each unit calls its delegate at
  most once (see Left out): the cursor stays on the `false`, so a second call
  moves on past it.
- When `get` finds nothing at the start of `dispatch`/`process`, the code calls
  `process()` on `false`. This is PHP's own error, not a logic exception; the
  model calls it `NothingToDispatch`.
- `dispatch`/`process` declare `: ResponseInterface`. A non-response that a
  middleware object returns up to that point fails the return type check
  (`ReturnTypeError`). Inside the queue, only the closure adapter checks replies.
- A name is looked up in the container once. A container entry that is itself
  a string is not looked up again; it is reported as no valid middleware.
- The element popped from a conditional frame is not split again. An array
  there is no valid middleware, and an empty array pops `null`, which is no
  valid middleware either.

## Model

| member | source | states |
|---|---|---|
| `Semantics.Classify` | src/Dispatcher.php:71-83 | `true` passes, `false` skips, a string becomes a `Matchers\Path` with that pattern, a matcher object is asked as itself, and only those are conditions |
| `Semantics.Passes` | src/Dispatcher.php:71-87 | a condition lets the frame through only if it is `true` or a matcher that matches; a string passes exactly when its `Matchers\Path` matches, a matcher object exactly when its `match` is true |
| `Semantics.Rejects` | src/Dispatcher.php:75-87 | a condition skips the frame only if it is `false` or a matcher that does not match; a string rejects exactly when its `Matchers\Path` does not match, a matcher object exactly when its `match` is false |
| `Semantics.Check` | src/Dispatcher.php:70-88 | the condition loop's verdict: the frame applies only if every condition passes, is skipped only if some condition rejects it, and raises "invalid matcher" only if some condition is no matcher |
| `Semantics.FirstNonPassing` | src/Dispatcher.php:70-88 | reference definition of the loop's stopping point: every condition before it passes, the one at it does not |
| `Semantics.Split` | src/Dispatcher.php:66-68 | popping a copy of a conditional frame: conditions followed by the popped element give back the frame; an empty array pops `null` |
| `Semantics.AsUnit` | src/Dispatcher.php:99-107 | a value resolves exactly when it is a closure or a middleware object, the unit is made from that value, and any other value is the "no valid middleware" error naming it |
| `Semantics.ResolveSpec` | src/Dispatcher.php:91-107 | a spec that is not a name resolves as that value; a name the container holds resolves as the container's entry, which is never looked up again; a name without a container is no valid middleware; `NotFound` exactly when the container lacks the name; resolution never reads as exhaustion |
| `Semantics.FrameStep` | src/Dispatcher.php:66-107 | a bare frame settles to the resolution of itself; a conditional frame whose conditions all pass settles to the resolution of its last element; a frame is skipped exactly when it is conditional and its conditions say skip; a conditional frame raises "invalid matcher" exactly when its condition loop reaches a non-matcher; a settled frame never reads as exhaustion |
| `Semantics.ResolveAt` | src/Dispatcher.php:44-108 | the cursor only moves forward and stays within the queue; every frame passed over is skipped; at the end of the queue, or on a literal `false`, the result is exhaustion with no error; otherwise the result is what the frame under the final cursor settles to |
| `Semantics.Advance` | src/Dispatcher.php:46 | `next()` moves the pointer one frame on and leaves it past the end once there |
| `Semantics.MustRespond` | src/Dispatcher.php:202-208 | succeeds exactly when the closure returned a response, which it returns unchanged; a thrown error passes through; any other value becomes the given error |
| `Semantics.ActionOf` | src/Dispatcher.php:172 | a unit runs the body of the middleware object or closure it was made from |
| `Semantics.Continue` | src/Dispatcher.php:160-173 | after advancing: when nothing is found it falls through to the outer delegate, or fails with "queue exhausted", and runs no unit; a resolution error reaches the caller unchanged; a found unit is invoked at the resolved position with the same delegate, and its result is the delegate's result; the units run lie strictly after the start, in strictly increasing positions, never past the final cursor |
| `Semantics.Invoke` | src/Dispatcher.php:172 | running the unit at a position runs it first and later units after it, in increasing positions; a unit that answers ends the traversal on its own frame with its reply (checked by the adapter for a closure); a unit that throws ends it with that error; a forwarding unit runs the rest of the queue next, a downstream failure reaches the caller unchanged, and the reply the body maps a downstream success to is returned, through the adapter's response check for a closure; a closure's successful reply is always a response |
| `Semantics.Start` | src/Dispatcher.php:117-132 | a traversal resolves from the first frame: nothing found fails with `process()` called on `false`, a resolution error reaches the caller, a found unit is invoked at the resolved position and its result, through the `: ResponseInterface` return type check, is the result of `dispatch`/`process`; units run in increasing positions, and success is always a response |
| `Middleland.Dispatcher.constructor` | src/Dispatcher.php:29-37 | stores the non-empty queue and the container unchanged, cursor on the first frame |
| `Middleland.Dispatcher.Create` | src/Dispatcher.php:29-37 | construction fails with the empty-queue error exactly when the queue is empty; otherwise a fresh dispatcher holds the queue and container unchanged |
| `Middleland.Dispatcher.Next` | src/Dispatcher.php:44-49 | advances the cursor one frame and returns the resolution from there, leaving the cursor where `ResolveAt` says |
| `Middleland.Dispatcher.Get` | src/Dispatcher.php:58-108 | the condition loop and its re-entry into `Next` compute exactly `ResolveAt` from the current cursor, and the cursor ends where it says |
| `Middleland.Dispatcher.Dispatch` | src/Dispatcher.php:117-122 | whatever the old cursor was, the reply and final cursor are those of `Start` with no outer delegate |
| `Middleland.Dispatcher.Process` | src/Dispatcher.php:127-132 | whatever the old cursor was, the reply and final cursor are those of `Start` falling through to the caller's delegate |
| `Middleland.Dispatcher.Launch` | src/Dispatcher.php:117-132 | reset, resolve and run the first unit: the body shared by `dispatch` and `process`, equal to `Start` |
| `Middleland.Delegate.constructor` | src/Dispatcher.php:151-155 | binds the delegate to its dispatcher and the optional outer delegate |
| `Middleland.Delegate.Process` | src/Dispatcher.php:160-173 | the reply and the final cursor are those of `Continue`: fall through to the outer delegate or fail with "queue exhausted" when nothing is found, else run the found unit with this delegate |
| `Middleland.ProcessUnit` | src/Dispatcher.php:200-208 | a unit's `process`, with the closure adapter's response check, computes exactly `Invoke` |
| `Properties.ConditionTrichotomy` | src/Dispatcher.php:71-87 | every condition passes, rejects, or is no matcher, and exactly one of these |
| `Properties.CheckIsFirstDecision` | src/Dispatcher.php:70-88 | the loop's verdict is decided by the first condition that does not pass: apply if there is none, skip if it rejects, invalid matcher otherwise |
| `Properties.CheckAppend` | src/Dispatcher.php:70-88 | conditions are examined in order: once a prefix decides, later conditions are never examined; a passing prefix hands the decision on |
| `Properties.CheckApplyIff` | src/Dispatcher.php:70-88 | a conditional frame applies if and only if every condition passes |
| `Properties.CheckSkipIff` | src/Dispatcher.php:75-87 | a frame is skipped if and only if some condition rejects it after only passing ones |
| `Properties.CheckBadIff` | src/Dispatcher.php:79-83 | "invalid matcher" is raised if and only if a non-matcher is reached after only passing conditions, so never when an earlier condition skipped the frame |
| `Properties.PassingConditionsTransparent` | src/Dispatcher.php:66-72 | a conditional frame whose conditions all pass resolves like its last element alone, for a last element that is not an array (a popped array is not split again: `[true, [false, M]]` is no valid middleware while `[false, M]` is skipped) |
| `Properties.TrueTrueFrameIsBare` | src/Dispatcher.php:66-105 | in the queue, `[true, true, X]` resolves to the same result and cursor as `X`, for X neither an array nor `false` (there the two differ: `[true, true, false]` is no valid middleware while a bare `false` reads as exhaustion) |
| `Properties.RejectedFrameAdvancesOne` | src/Dispatcher.php:75-87 | a frame rejected by a condition after passing ones is skipped whatever its later conditions are, and resolution continues exactly one frame on |
| `Properties.ResolveSkipsTo` | src/Dispatcher.php:44-87 | resolution passes over a run of skipped frames to the first frame after it |
| `Properties.ResolveAtFirstUnskipped` | src/Dispatcher.php:44-87 | the cursor ends on the first frame that is not skipped, and the result is what that frame settles to |
| `Properties.FalseFrameNeverResolved` | src/Dispatcher.php:75-77 | given `[[false, A], B, ...]`, resolution from the start lands on B and never resolves A, for B neither `false` nor an array (such a B may read as exhaustion or be skipped in turn) |
| `Properties.FalseEntryEndsTraversal` | src/Dispatcher.php:160-170 | a literal `false` entry ends that delegate call as if the queue ended there: no unit runs, and it falls through or fails; the cursor stays on the `false`, so this holds for the traversal as long as each unit calls its delegate at most once |
| `Properties.ExhaustedDelegateFallsThrough` | src/Dispatcher.php:162-169 | when every frame after the cursor is skipped, the delegate runs no unit, falls through to the outer delegate or fails with "queue exhausted", and leaves the cursor past the end |
| `Properties.NothingResolvedFailsStart` | src/Dispatcher.php:117-132 | when every frame from the first on is skipped up to the end or to a literal `false`, dispatch and process fail with `process()` called on `false` and run no unit |
| `Properties.FirstUnitIsFirstUnskipped` | src/Dispatcher.php:117-132 | the first unit dispatch and process run is the first frame that is not skipped, and their result is that unit's result through the return type check; a resolution error there reaches the caller unchanged |
| `Properties.DelegateRunsFirstUnskipped` | src/Dispatcher.php:160-173 | the delegate invokes the first frame after its cursor that is not skipped, with itself as delegate, and returns exactly what that unit returns |
| `Properties.ApiExample` | src/Dispatcher.php:160-173 | for `[log, ["/api", auth], handler]`, units run at positions 0, 1, 2 when the path matches and at 0, 2 when it does not |
| `Properties.AnsweringUnitEndsTraversal` | src/Dispatcher.php:172 | a unit that answers with a response ends the traversal with that reply, unchanged |

## Left out

- `Matchers\Path` and other matcher implementations: `match` is the function `Env.matches`, with no further properties. A matcher that throws is not modelled.
- The container's lookup: a `map` from names to values. A missing name raises `NotFound`; other container failures are not modelled.
- Middleware and closure bodies: each is an `Action`. It answers, throws, or calls the delegate once and maps the reply. Calling the delegate several times (which would move the cursor past a literal `false` and run the frames after it), catching downstream errors, and side effects are not modelled.
- An object that implements both `MatcherInterface` and `MiddlewareInterface` cannot be represented: `Matcher` and `Middleware` are separate values, so such an object can be asked as a condition or used as a unit, but not both.
- A `Dispatcher` as a unit inside a queue is a middleware object like any other. Nesting is modelled only through the outer delegate of `Process`, given as a function from request to reply.
- Reentrancy and concurrency on the shared cursor are not modelled. One traversal runs per instance.
- PHP array keys and ordering beyond a sequence, and error message text (`sprintf`, `get_class`, `gettype`), are not modelled.
- `Semantics.Continue`: does not state which requests the skipped frames were tested against, because each forwarded request may differ. The frames passed over are characterised per resolution by `Semantics.ResolveAt`.
