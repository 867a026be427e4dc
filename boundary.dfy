/** The interception policy of the `error_boundary` decorator.

    A boundary is configured once with its error hooks and its fallback, and
    then governs every call of a wrapped function: a normal return passes
    through, a termination-class condition propagates untouched, and an
    ordinary exception is reported to every hook in order, replaced by the
    fallback rendering, and turned into the no-result value.

    What the hooks, the renderer and the external string renderer do is not
    visible to the boundary; each of them is modelled by its outcome when it
    is called (it returns, or it raises): a hook or the renderer is called
    with the captured exception, the string renderer with the message.
 */
module ErrorBoundary {

  datatype Option<T> = None | Some(value: T)

  /** The exceptions the policy distinguishes. `Ordinary` stands for any
      instance of a subclass of `Exception`; `OtherBase` for any other
      `BaseException` that is neither `KeyboardInterrupt` nor `SystemExit`,
      such as `GeneratorExit`. The `id` of each kind tells instances of that
      kind apart (the code of `SystemExit(1)`, say). */
  datatype Err = Ordinary(id: nat) | KeyboardInterrupt(id: nat) | SystemExit(id: nat) | OtherBase(id: nat)

  /** `isinstance(e, Exception)`: what an `except Exception` clause catches. */
  predicate IsException(e: Err) {
    e.Ordinary?
  }

  /** The outcome of calling a hook, a renderer or the string renderer:
      these return nothing observable, or raise. */
  datatype Effect = Completed | Threw(error: Err)

  /** The outcome of calling the wrapped function with its arguments. */
  datatype Outcome<V> = Returns(value: V) | Raises(error: Err)

  /** An error hook (`ErrorHook`): its outcome when called with an exception. */
  type Hook = Err -> Effect

  /** The `on_error` argument: one callable hook, or an iterable of hooks. */
  datatype OnError = SingleHook(hook: Hook) | HookCollection(hooks: seq<Hook>)

  /** The `fallback` argument: a message string, or a `FallbackRenderer`. */
  datatype Fallback = Message(text: string) | Custom(render: Err -> Effect)

  /** A configured boundary: the normalised hook list and the fallback. */
  datatype Boundary = Boundary(hooks: seq<Hook>, fallback: Fallback)

  /** What the boundary calls, in the order it calls it. `HookCalled(i, e)`
      is the call of the hook at position `i` of the normalised list;
      `MessageRendered(s)` is the call of the external string renderer. */
  datatype Event =
    | HookCalled(index: nat, exc: Err)
    | RendererCalled(exc: Err)
    | MessageRendered(text: string)

  /** The outcome of a wrapped call: the wrapped function's value, the
      no-result value (`None`) after interception, or an exception that
      leaves the wrapped call. In Python, `NoResult` and a `Value` holding
      `None` are the same returned value; the model keeps the two paths
      apart. */
  datatype Result<V> = Value(value: V) | NoResult | Propagated(error: Err)

  datatype Invocation<V> = Invocation(result: Result<V>, trace: seq<Event>)

  /** The outcome of running the hooks: the calls made, and the exception
      that escaped a hook, if any. */
  datatype HookPhase = HookPhase(events: seq<Event>, escaped: Option<Err>)

  /** Hook normalisation at configuration time: a single hook becomes a
      one-element list, a collection is kept as a list in its order. */
  function Configure(onError: OnError, fallback: Fallback): (b: Boundary)
    ensures b.fallback == fallback
    ensures onError.SingleHook? ==> |b.hooks| == 1 && b.hooks[0] == onError.hook
    ensures onError.HookCollection? ==> b.hooks == onError.hooks
  {
    match onError
    case HookCollection(hs) => Boundary(hs, fallback)
    case SingleHook(h) => Boundary([h], fallback)
  }

  /** `_render_fallback`: call the custom renderer with the exception, or
      hand the message to the external string renderer `renderString`.
      Returns the call made and its outcome. */
  function RenderFallback(fallback: Fallback, renderString: string -> Effect, exc: Err): (r: (Event, Effect))
  {
    match fallback
    case Custom(render) => (RendererCalled(exc), render(exc))
    case Message(text) => (MessageRendered(text), renderString(text))
  }

  /** The hook loop from position `i` on. Each call is isolated by
      `except Exception`: an ordinary exception raised by a hook is
      swallowed; any other exception leaves the loop at once. */
  function RunHooks(hooks: seq<Hook>, exc: Err, i: nat): (r: HookPhase)
    requires i <= |hooks|
    decreases |hooks| - i
  {
    if i == |hooks| then
      HookPhase([], None)
    else
      var called := HookCalled(i, exc);
      var effect := hooks[i](exc);
      if effect.Threw? && !IsException(effect.error) then
        HookPhase([called], Some(effect.error))
      else
        Extend([called], RunHooks(hooks, exc, i + 1))
  }

  /** The calls `prefix` made before a hook phase `rest`. */
  function Extend(prefix: seq<Event>, rest: HookPhase): (r: HookPhase) {
    HookPhase(prefix + rest.events, rest.escaped)
  }

  /** The result of a fallback call: `None` when it returns; its own
      exception, which the boundary does not catch, when it raises. */
  function AfterFallback<V>(effect: Effect): (r: Result<V>) {
    match effect
    case Completed => NoResult
    case Threw(e) => Propagated(e)
  }

  /** The intercepted path: the hooks, then the fallback, then `None`. */
  function Intercept<V>(b: Boundary, renderString: string -> Effect, exc: Err): (r: Invocation<V>) {
    var phase := RunHooks(b.hooks, exc, 0);
    match phase.escaped
    case Some(e) => Invocation(Propagated(e), phase.events)
    case None =>
      var (event, effect) := RenderFallback(b.fallback, renderString, exc);
      Invocation(AfterFallback(effect), phase.events + [event])
  }

  /** One call of a wrapped function whose own call ended in `call`. */
  function Run<V>(b: Boundary, renderString: string -> Effect, call: Outcome<V>): (r: Invocation<V>)
    // success: the exact value, and nothing else is called
    ensures call.Returns? ==> r == Invocation(Value(call.value), [])
    // KeyboardInterrupt, SystemExit and other non-Exception conditions: unchanged, nothing called
    ensures call.Raises? && !IsException(call.error) ==> r == Invocation(Propagated(call.error), [])
    // an ordinary exception never ends in the `Value` tag, and always causes at least one call
    ensures call.Raises? && IsException(call.error) ==> !r.result.Value? && r.trace != []
    // the `Value` tag is produced exactly on the success path
    ensures r.result.Value? <==> call.Returns?
  {
    match call
    case Returns(v) => Invocation(Value(v), [])
    case Raises(e) =>
      if e.KeyboardInterrupt? || e.SystemExit? then
        Invocation(Propagated(e), [])       // re-raised
      else if !IsException(e) then
        Invocation(Propagated(e), [])       // not caught by `except Exception`
      else
        Intercept(b, renderString, e)
  }

  /** `_wrapped`: the try/except classification, the hook loop, the
      fallback. Returns the wrapped call's result and the calls it made,
      in order; both are those the policy `Run` prescribes. */
  method Invoke<V>(b: Boundary, renderString: string -> Effect, call: Outcome<V>)
    returns (result: Result<V>, trace: seq<Event>)
    ensures Invocation(result, trace) == Run(b, renderString, call)
  {
    trace := [];
    match call
    case Returns(v) =>
      result := Value(v);
    case Raises(exc) =>
      if exc.KeyboardInterrupt? || exc.SystemExit? {
        result := Propagated(exc);
        return;
      }
      if !IsException(exc) {
        result := Propagated(exc);
        return;
      }
      var i := 0;
      while i < |b.hooks|
        invariant i <= |b.hooks|
        invariant Extend(trace, RunHooks(b.hooks, exc, i)) == RunHooks(b.hooks, exc, 0)
      {
        trace := trace + [HookCalled(i, exc)];
        var effect := b.hooks[i](exc);
        if effect.Threw? && !IsException(effect.error) {
          result := Propagated(effect.error);
          return;
        }
        i := i + 1;
      }
      var (event, effect) := RenderFallback(b.fallback, renderString, exc);
      trace := trace + [event];
      result := AfterFallback(effect);
  }
}
