# st-error-boundary: the interception policy, in Dafny

`st-error-boundary` provides `error_boundary(on_error, fallback)`. It is a decorator factory for
Streamlit callbacks. The decorated function runs as usual. If it raises an ordinary `Exception`,
the boundary does three things: it reports the exception to each configured error hook in order,
it shows a fallback (a message, or a custom renderer that gets the exception), and it returns
`None`. `KeyboardInterrupt`, `SystemExit` and other `BaseException`s that are not `Exception`s
such as `GeneratorExit` all pass through untouched.

This project models that policy and proves what it promises:

- `boundary.dfy` (module `ErrorBoundary`) holds the data model and the operations.
  - Exceptions are the `Err` datatype. Only `Ordinary` counts as an `Exception`.
  - The three callables are modelled by their outcome when called (`Effect`: returns or raises).
    The hooks and the custom fallback renderer are called with the captured exception. The external
    string renderer `render_string_fallback` is called with the message, and is modelled as a
    parameter `renderString: string -> Effect`.
  - There are two normalisations, each a tagged union: `on_error` (`OnError`, normalised by
    `Configure`) and `fallback` (`Fallback`, dispatched by `RenderFallback`).
  - `RunHooks` is the hook loop and `Run` is the policy for one wrapped call. `Invoke` is the
    step-by-step procedure of `_wrapped`. It is a method with the hook loop as a `while` loop that
    appends to an event trace, and it is proved equal to `Run`.
- `properties.dfy` (module `BoundaryProperties`) holds the lemmas about the policy: ordering,
  isolation, non-interception, fallback exclusivity and normalisation.
- `scenarios.dfy` (module `BoundaryScenarios`) holds the traces that the repository's tests
  expect, for concrete boundaries.

A wrapped call's observable behaviour is an `Invocation`, which has two parts:

- its result: `Value(v)`, `NoResult` for the `None` of the intercepted path, or `Propagated(e)`;
- the trace of calls the boundary made: `HookCalled(i, e)`, `RendererCalled(e)` or
  `MessageRendered(s)`.

The tests use an `ErrorBoundary` class with `decorate` and `wrap_callback`. That class is not
defined in `src/st_error_boundary/error_boundary.py`, and `src/st_error_boundary/__init__.py` does
not export it. The model assumes that both entry points run the `error_boundary` algorithm,
which `Run`/`Invoke` model. That assumption cannot be checked against the source.

## Model

| member | source | states |
|---|---|---|
| `ErrorBoundary.Configure` | src/st_error_boundary/error_boundary.py:65-68 | A single callable hook becomes a one-element hook list. A collection is kept as the list, in the order given. The fallback is stored as given. |
| `ErrorBoundary.Run` | src/st_error_boundary/error_boundary.py:78-91 | A returned value comes back unchanged with no call made. A non-`Exception` (`KeyboardInterrupt`, `SystemExit`, `GeneratorExit`, …) propagates unchanged with no call made. An ordinary exception never ends in the model's `Value` tag, and always causes at least one call. The `Value` tag is produced exactly on the success path. |
| `ErrorBoundary.Invoke` | src/st_error_boundary/error_boundary.py:78-91 | The step-by-step procedure (classification, hook loop with per-hook `except Exception`, fallback, `None`) returns exactly the result and trace that the policy `Run` prescribes. |
| `BoundaryProperties.HookDispatch` | src/st_error_boundary/error_boundary.py:84-89 | The hook loop calls consecutive hooks, each once, in list order, each with the captured exception. It reaches the end of the list exactly when no hook raises a non-`Exception`. Otherwise it stops right after the first hook that does, and lets that hook's exception through. |
| `BoundaryProperties.AllHooksThenFallback` | src/st_error_boundary/error_boundary.py:70-91 | When every hook returns or raises an ordinary exception, the trace is every hook in order and then one fallback call. That call is the renderer with the exception, or the string renderer with the message unmodified. The result is `None`, or the fallback's own exception if the fallback raises. |
| `BoundaryProperties.FallbackExclusive` | src/st_error_boundary/error_boundary.py:70-91 | On the intercepted path only the last call can be a fallback call, and it is the form configured. A renderer fallback never calls the string renderer, and a message fallback never calls a renderer. |
| `BoundaryProperties.TerminatingHookStops` | src/st_error_boundary/error_boundary.py:84-89 | If hook `j` is the first to raise a non-`Exception`, hooks `0..j` are called and that exception ends the wrapped call. No later hook and no fallback is called. |
| `BoundaryProperties.HookIsolationFrom` | src/st_error_boundary/error_boundary.py:85-89 | In the hook loop, a hook that raises an ordinary exception is indistinguishable from any other hook that the loop survives. |
| `BoundaryProperties.FailingHookIsolated` | src/st_error_boundary/error_boundary.py:84-90 | A hook whose ordinary exception is swallowed changes nothing else. The result, the later hooks and the fallback are the same as with that hook returning normally. |
| `BoundaryProperties.SingleHookIsOneElementList` | src/st_error_boundary/error_boundary.py:65-68 | A single hook and a one-element collection of it configure the same boundary, which runs that hook once and then the fallback. |
| `BoundaryProperties.EmptyHooksStillRender` | src/st_error_boundary/error_boundary.py:84-90 | An empty hook collection runs no hook. The only call is the configured fallback: the renderer with the exception, or the string renderer with the message. The result is `None`, or the fallback's own exception. |
| `BoundaryScenarios.HooksRunInOrder` | tests/test_error_boundary.py:34-55 | Three hooks run in order, then the message `"error"` is rendered once, and the call returns `None`. |
| `BoundaryScenarios.FailingHookSuppressed` | tests/test_integration.py:269-311 | After a failing hook, the next hook still runs, the message is still rendered, and the call returns `None`. |
| `BoundaryScenarios.CustomFallbackCalled` | tests/test_error_boundary.py:75-90 | A custom fallback is called once with the exception, and the string renderer is not called. |
| `BoundaryScenarios.NonInterceptedOutcomes` | tests/test_error_boundary.py:93-162 | `KeyboardInterrupt`, `SystemExit(1)` and `GeneratorExit` pass through with no call made. `"success"` is returned unchanged. |

## Left out

- The Streamlit rendering done by `render_string_fallback` (from `.plugins`, which is not part of
  this model) is left out. Only its call with the message (`MessageRendered`) and its outcome, a
  parameter `renderString`, are modelled.
- What hooks and renderers do inside (logging, UI, session state) is left out. Each is modelled only
  by its outcome on the captured exception.
- `functools.wraps` metadata copying (`__name__`, `__doc__`) is left out, because it is Python
  introspection.
- How arguments are forwarded to the wrapped function is left out. The model takes the outcome of
  the call `func(*args, **kwargs)` as its input.
- One-shot lazy iterables are left out. `on_error` as a collection is already a sequence, so the
  model cannot show that `list(on_error)` consumes an iterator only once at configuration time.
  What is modelled is that the list is fixed in `Configure` and every call reuses it.
- The case of an object that is both callable and iterable is left out. `callable(on_error)` decides
  for one hook; the tagged union `OnError` has no overlap.
- Exception object identity and mutation are left out. An exception is an immutable value: its
  kind and an `id` that tells instances of that kind apart, such as the code of `SystemExit(1)`.
- Exceptions that are both `Exception` and `KeyboardInterrupt`/`SystemExit` through multiple
  inheritance are left out. The model treats the four `Err` kinds as disjoint.
- The `ErrorBoundary` class with `decorate` and `wrap_callback` used by the tests is left out,
  because it is not defined in `error_boundary.py` and `__init__.py` does not export it. The model assumes, without being able to check it, that both entry points run
  the `error_boundary` algorithm.
- `ErrorBoundary.Run`: the model keeps two results apart that Python does not. `None` returned
  after interception is `NoResult`, and `None` returned by the wrapped function itself is
  `Value(None)`. In Python both are the same `None`, so a caller cannot tell from the returned
  value alone whether the call was intercepted.
