/** What the interception policy promises, stated over all boundaries,
    all hooks and all outcomes of the wrapped call. */
module BoundaryProperties {
  import opened ErrorBoundary

  /** A hook call that the loop survives: it returns, or raises an
      ordinary exception that `except Exception` swallows. */
  predicate Survives(h: Hook, exc: Err) {
    var effect := h(exc);
    effect.Completed? || IsException(effect.error)
  }

  /** The hook loop from position `i` calls consecutive hooks, each once and
      each with the captured exception; it reaches the end exactly when every
      remaining hook survives, and otherwise it stops right after the first
      hook whose termination-class exception it lets through. */
  lemma {:induction false} HookDispatch(hooks: seq<Hook>, exc: Err, i: nat)
    requires i <= |hooks|
    ensures var r := RunHooks(hooks, exc, i);
      i + |r.events| <= |hooks|
      && (forall k :: 0 <= k < |r.events| ==> r.events[k] == HookCalled(i + k, exc))
      && (r.escaped.None? <==> forall k :: i <= k < |hooks| ==> Survives(hooks[k], exc))
      && (r.escaped.None? ==> i + |r.events| == |hooks|)
      && (r.escaped.Some? ==>
            |r.events| > 0
            && (forall k :: i <= k < i + |r.events| - 1 ==> Survives(hooks[k], exc))
            && hooks[i + |r.events| - 1](exc) == Threw(r.escaped.value)
            && !IsException(r.escaped.value))
    decreases |hooks| - i
  {
    if i < |hooks| {
      var effect := hooks[i](exc);
      if !(effect.Threw? && !IsException(effect.error)) {
        HookDispatch(hooks, exc, i + 1);
        var rest := RunHooks(hooks, exc, i + 1);
        var r := RunHooks(hooks, exc, i);
        assert r.events == [HookCalled(i, exc)] + rest.events;
        assert Survives(hooks[i], exc);
        forall k | 0 <= k < |r.events| ensures r.events[k] == HookCalled(i + k, exc) {
          if k > 0 {
            assert r.events[k] == rest.events[k - 1];
          }
        }
      }
    }
  }

  /** On an ordinary exception that every hook survives, the wrapped call
      calls every hook once, in list order, with that exception, and then
      the fallback exactly once: the renderer with the exception, or else the
      string renderer with the message as given. The result is `None`, unless
      the fallback call itself raises, in which case its exception leaves the
      wrapped call unchanged. */
  lemma AllHooksThenFallback<V>(b: Boundary, renderString: string -> Effect, exc: Err)
    requires IsException(exc)
    requires forall k :: 0 <= k < |b.hooks| ==> Survives(b.hooks[k], exc)
    ensures var r := Run<V>(b, renderString, Raises(exc));
      var n := |b.hooks|;
      |r.trace| == n + 1
      && (forall k :: 0 <= k < n ==> r.trace[k] == HookCalled(k, exc))
      && (b.fallback.Custom? ==>
            r.trace[n] == RendererCalled(exc) && r.result == AfterFallback(b.fallback.render(exc)))
      && (b.fallback.Message? ==>
            r.trace[n] == MessageRendered(b.fallback.text)
            && r.result == AfterFallback(renderString(b.fallback.text)))
  {
    HookDispatch(b.hooks, exc, 0);
  }

  /** The fallback forms are exclusive and the fallback is reached at most
      once: after an intercepted exception, whatever the hooks do, the trace
      holds hook calls only, except possibly its last call, which is then
      the one fallback call the configured form prescribes. */
  lemma FallbackExclusive<V>(b: Boundary, renderString: string -> Effect, exc: Err)
    requires IsException(exc)
    ensures var r := Run<V>(b, renderString, Raises(exc));
      var t := r.trace;
      t != []
      && (forall k :: 0 <= k < |t| - 1 ==> t[k].HookCalled?)
      && (!t[|t| - 1].HookCalled? ==>
            if b.fallback.Custom? then t[|t| - 1] == RendererCalled(exc)
            else t[|t| - 1] == MessageRendered(b.fallback.text))
      && (b.fallback.Custom? ==> forall k :: 0 <= k < |t| ==> !t[k].MessageRendered?)
      && (b.fallback.Message? ==> forall k :: 0 <= k < |t| ==> !t[k].RendererCalled?)
  {
    HookDispatch(b.hooks, exc, 0);
  }

  /** A hook that raises `KeyboardInterrupt`, `SystemExit` or another
      non-`Exception` is not suppressed: the first such hook ends the call
      with its exception, the hooks after it and the fallback are skipped. */
  lemma TerminatingHookStops<V>(b: Boundary, renderString: string -> Effect, exc: Err, j: nat)
    requires IsException(exc)
    requires j < |b.hooks|
    requires forall k :: 0 <= k < j ==> Survives(b.hooks[k], exc)
    requires !Survives(b.hooks[j], exc)
    ensures var r := Run<V>(b, renderString, Raises(exc));
      r.result == Propagated(b.hooks[j](exc).error)
      && |r.trace| == j + 1
      && (forall k :: 0 <= k <= j ==> r.trace[k] == HookCalled(k, exc))
  {
    HookDispatch(b.hooks, exc, 0);
    assert !(forall k :: 0 <= k < |b.hooks| ==> Survives(b.hooks[k], exc));
  }

  /** Replacing a surviving hook by another surviving hook (a hook that
      raises an ordinary exception by one that returns, say) changes the
      hook loop from no position. */
  lemma {:induction false} HookIsolationFrom(hooks: seq<Hook>, exc: Err, j: nat, h: Hook, i: nat)
    requires j < |hooks| && i <= |hooks|
    requires Survives(hooks[j], exc) && Survives(h, exc)
    ensures RunHooks(hooks[j := h], exc, i) == RunHooks(hooks, exc, i)
    decreases |hooks| - i
  {
    if i < |hooks| {
      HookIsolationFrom(hooks, exc, j, h, i + 1);
    }
  }

  /** Hook isolation: a hook that raises an ordinary exception is observed
      only through its own call. The wrapped call's result and every other
      call it makes, the later hooks and the fallback included, are those of
      the same boundary with that hook returning normally. */
  lemma FailingHookIsolated<V>(b: Boundary, renderString: string -> Effect, exc: Err, j: nat, silent: Hook)
    requires IsException(exc)
    requires j < |b.hooks|
    requires Survives(b.hooks[j], exc) && silent(exc) == Completed
    ensures Run<V>(b.(hooks := b.hooks[j := silent]), renderString, Raises(exc))
         == Run<V>(b, renderString, Raises(exc))
  {
    HookIsolationFrom(b.hooks, exc, j, silent, 0);
  }

  /** A single hook and a one-element collection of it configure the same
      boundary, so both run that one hook on an intercepted exception and
      then the configured fallback. */
  lemma SingleHookIsOneElementList<V>(h: Hook, f: Fallback, renderString: string -> Effect, exc: Err)
    requires IsException(exc) && Survives(h, exc)
    ensures Configure(SingleHook(h), f) == Configure(HookCollection([h]), f)
    ensures Run<V>(Configure(SingleHook(h), f), renderString, Raises(exc)).trace[0] == HookCalled(0, exc)
    ensures |Run<V>(Configure(SingleHook(h), f), renderString, Raises(exc)).trace| == 2
    ensures Run<V>(Configure(SingleHook(h), f), renderString, Raises(exc)).trace[1]
         == (if f.Custom? then RendererCalled(exc) else MessageRendered(f.text))
  {
    AllHooksThenFallback<V>(Configure(SingleHook(h), f), renderString, exc);
  }

  /** An empty collection runs no hook, and the fallback still renders:
      the only call is the configured fallback, and the wrapped call ends
      as that call does. */
  lemma EmptyHooksStillRender<V>(f: Fallback, renderString: string -> Effect, exc: Err)
    requires IsException(exc)
    ensures var r := Run<V>(Configure(HookCollection([]), f), renderString, Raises(exc));
      r.trace == [if f.Custom? then RendererCalled(exc) else MessageRendered(f.text)]
      && r.result == AfterFallback(if f.Custom? then f.render(exc) else renderString(f.text))
  {
  }
}
