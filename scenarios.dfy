/** The behaviour the repository's tests expect, as traces of concrete
    boundaries. `mainError` is the ordinary exception the wrapped function
    raises (`RuntimeError` or `ValueError` in the tests). A hook that
    appends to a log and returns is `Quiet`; a hook that appends and then
    raises `RuntimeError` is `Failing`. The string renderer `Shown` returns
    normally. */
module BoundaryScenarios {
  import opened ErrorBoundary
  import opened BoundaryProperties

  const mainError: Err := Ordinary(0)

  function Quiet(e: Err): Effect { Completed }
  function Failing(e: Err): Effect { Threw(Ordinary(1)) }
  function Shown(s: string): Effect { Completed }

  /** Three hooks run as hook1, hook2, hook3, then "error" is shown once. */
  lemma HooksRunInOrder()
    ensures Run<()>(Configure(HookCollection([Quiet, Quiet, Quiet]), Message("error")), Shown, Raises(mainError))
         == Invocation(NoResult, [HookCalled(0, mainError), HookCalled(1, mainError),
                                  HookCalled(2, mainError), MessageRendered("error")])
  {
    var b := Configure(HookCollection([Quiet, Quiet, Quiet]), Message("error"));
    AllHooksThenFallback<()>(b, Shown, mainError);
  }

  /** A failing first hook does not stop the second, and the fallback
      message is still shown; the wrapped call returns `None`. */
  lemma FailingHookSuppressed()
    ensures Run<()>(Configure(HookCollection([Failing, Quiet]), Message("Main error handled")), Shown, Raises(mainError))
         == Invocation(NoResult, [HookCalled(0, mainError), HookCalled(1, mainError),
                                  MessageRendered("Main error handled")])
  {
    var b := Configure(HookCollection([Failing, Quiet]), Message("Main error handled"));
    AllHooksThenFallback<()>(b, Shown, mainError);
  }

  /** A custom fallback is called once with the exception; the string
      renderer is never called. */
  lemma CustomFallbackCalled()
    ensures Run<()>(Configure(SingleHook(Quiet), Custom(Quiet)), Shown, Raises(mainError))
         == Invocation(NoResult, [HookCalled(0, mainError), RendererCalled(mainError)])
  {
    AllHooksThenFallback<()>(Configure(SingleHook(Quiet), Custom(Quiet)), Shown, mainError);
  }

  /** `KeyboardInterrupt`, `SystemExit` and `GeneratorExit` pass through
      with no hook call, and a returned value comes back unchanged. */
  lemma NonInterceptedOutcomes(generatorExit: nat)
    ensures Run<string>(Configure(SingleHook(Quiet), Message("error")), Shown, Raises(KeyboardInterrupt(0)))
         == Invocation(Propagated(KeyboardInterrupt(0)), [])
    ensures Run<string>(Configure(SingleHook(Quiet), Message("error")), Shown, Raises(SystemExit(1)))
         == Invocation(Propagated(SystemExit(1)), [])
    ensures Run<string>(Configure(SingleHook(Quiet), Message("error")), Shown, Raises(OtherBase(generatorExit)))
         == Invocation(Propagated(OtherBase(generatorExit)), [])
    ensures Run<string>(Configure(SingleHook(Quiet), Message("error")), Shown, Returns("success"))
         == Invocation(Value("success"), [])
  {
  }
}
