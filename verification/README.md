# algoroutine in Dafny

A model of the core of `algoroutine`, a small Rust library that builds effectful
programs out of suspendable computations (nightly Rust coroutines), together
with the three example handlers that drive them: a log/state `Step`, an
exception handler, and a cooperative timer scheduler.

## How a coroutine is modelled

A Rust coroutine is driven by `resume(input)`, which reports `Yielded(effect)`
or `Complete(result)`. Its first `resume` binds the closure's argument, and
each later one supplies the value of the `yield` it is paused at. The model
assumes that a coroutine's report depends only on the inputs it has been given,
which holds for every coroutine the examples build (they only print besides
yielding). Under that assumption (`coroutine.dfy`):

- `Body<I, E, R>` is `seq<I> -> Report<E, R>`. It gives the report of a running
  body once it has been resumed with the given values since it started.
- `Comp<I, E, R>` is `I -> Body<I, E, R>`: a computation waiting for its first
  input.
- `Run(c, x, ys)` starts `c` with `x` and resumes it with `ys` until it completes
  or the inputs run out. It returns a `Trace`: the effects in order, and the
  result if one was reached. `Explains` gives the same trace declaratively, and
  `ExplainsUnique` says that declarative description admits only one trace.
  The trace laws are all proved through this uniqueness.
- `Handle` and `Resume` give the handle-and-resume view of the same object.
  `DriveByResume` is a resume loop, and it observes exactly `Run`'s trace.

Combinators (`fmap`/`map`, `bind`/`and_then`) and the `go!` forms are
non-recursive functions in this encoding. A continuation-carrying step datatype
would need recursion under a closure, and Dafny cannot prove that terminates.

Files:
- `base.dfy`: `Option`, `MapOption`, `int32`, `uint8`, `MapSeq`.
- `coroutine.dfy`: `src/coroutine.rs`.
- `macros.dfy`: `src/macros.rs`.
- `exception.dfy`: `examples/exception.rs`.
- `logging_state.dfy`: `examples/logging_and_state.rs`.
- `event_loop.dfy`: `examples/event_loop.rs`.

The scheduler's background timer thread becomes an environment action,
`TimerFired(i)`. It interleaves with loop passes (`Tick`) in the order an
action list gives. The `End` case returns from the whole `handle` loop, as
written. `SingleTaskReturnsEmpty` shows that when `handle` starts from
`Handler::new` the queue keeps exactly one task, carrying the coroutine it was
enqueued with. So in that use the early return abandons nothing.

Where the example code and the library disagree: `examples/exception.rs:25`
writes `go!(div, (4, 0) => Exception)`. That matches none of the `go!` arms of
`src/macros.rs` as written, and the argument `(4, 0)` is not a `Context`. The
model reads it as the typed delegation arm with `Exception::from`, which is
the identity. The argument is converted with `Context::from((4, 0))`.

## Model

| member | source | states |
|---|---|---|
| Coroutine.Resume | src/coroutine.rs:55 | One `resume(input)` reports what the computation reports for its first input followed by the later ones, and the handle has then been fed exactly one more input. |
| Coroutine.DriveByResume | src/coroutine.rs:54-58 | Resuming a fresh computation with `x`, then with each next input while it stays suspended, sees exactly the effects and result of `Run`. |
| Coroutine.RunBody | src/coroutine.rs:54-58 | The operational run of a body satisfies the declarative trace description: effect `j` is the report after `j` resumptions, a result comes right after the last effect, and no result means every input was used. |
| Coroutine.RunBodyCharacterised | src/coroutine.rs:54-58 | A trace satisfies the declarative description if and only if it is the operational run. |
| Coroutine.RunBodyPrefix | src/coroutine.rs:54-58 | Fewer inputs give the same trace if the body already completed within them, and otherwise give the suspended prefix of the full trace. |
| Coroutine.FmapTrace | src/coroutine.rs:47-61 | `fmap(g, f)` shows exactly `g`'s effects in the same order, and completes with `f(ret)` exactly when `g` completes with `ret`. |
| Coroutine.Map | src/coroutine.rs:24-31 | `map` is `fmap`. |
| Coroutine.BindFirstPhase | src/coroutine.rs:76-78 | Until `g` completes, `bind` reports `g`'s current effect converted by `E3::from`, with `g` fed the same inputs. |
| Coroutine.BindSecondPhase | src/coroutine.rs:79-85 | After `g` completes with `ret`, `bind` reports what `f(ret)` reports, with effects converted. `f(ret)` was started with the input of the resume at which `g` completed, then given the later inputs. |
| Coroutine.BindTrace | src/coroutine.rs:63-91 | `bind`'s trace is `g`'s effects converted, then `f(ret)`'s effects converted, never interleaved. Its result is `f(ret)`'s result. If `g` never completes, only `g`'s converted effects appear. |
| Coroutine.AndThen | src/coroutine.rs:33-45 | `and_then` is `bind`. |
| Macros.ReturnTrace | examples/exception.rs:19 | A `return v` in a body completes on the spot with `v`, with no effect, whatever inputs follow. |
| Macros.SuspendTrace | src/macros.rs:5-10 | `go!(e => T)` and `go!(e)` suspend exactly once, with the converted effect. They evaluate to the first value they are resumed with. |
| Macros.DelegateTrace | src/macros.rs:11-36 | Delegation starts the sub-computation with the given argument and then feeds it each of the caller's resumption values. It shows each of its effects converted, in order, and evaluates to its result with no extra suspension. |
| Macros.ThenTrace | src/macros.rs:20 | When an expression in a body evaluates to `v` (`break v`), the body goes on at once with `v`. The trace is the expression's effects followed by the rest of the body's, and the rest sees only the later inputs. |
| Macros.AssertEffect | src/macros.rs:40-44 | `assert_effect` returns its argument unchanged. |
| ExceptionExample.Unwrap | examples/exception.rs:57-62 | `unwrap` returns the operands of `Context::Some`. It is only defined on `Some`, because `None` is unreachable. |
| ExceptionExample.FromOption | examples/exception.rs:65-72 | `Context::from(Option)` is `None` exactly for `None` and keeps the operands of `Some`. |
| ExceptionExample.FromPair | examples/exception.rs:74-78 | `Context::from((a, b))` is a `Some` whose `unwrap` gives back `(a, b)`. |
| ExceptionExample.FromPairIsFromSome | examples/exception.rs:65-78 | The two `Context::from` conversions agree on operands. |
| ExceptionExample.TruncDiv | examples/exception.rs:19 | `i32` division truncates toward zero. The remainder has the sign of the dividend and is smaller than the divisor in magnitude. A zero divisor and `i32::MIN / -1` are excluded, because both panic. |
| ExceptionExample.DivFirstReport | examples/exception.rs:13-20 | `div` raises "divided by 0" exactly when the divisor is 0, and otherwise returns the truncated quotient. |
| ExceptionExample.HandleSession | examples/exception.rs:86-101 | A computation that completes on its first resume, made with `I::from(None)`, gives its result. One whose first resume raises gives `-1`. `pre` plays no part. |
| ExceptionExample.HandleResumesOnce | examples/exception.rs:86-101 | The handler ignores `pre` and resumes once, with `I::from(None)`. Completing before any effect gives that result, and a first raise gives `-1`, whatever later inputs would be. |
| ExceptionExample.DivTrace | examples/exception.rs:13-20 | On operands, `div` first reports as `DivFirstReport` says. A zero divisor makes the raise its first effect, and otherwise it completes at once with the truncated quotient. |
| ExceptionExample.DivideByZeroSession | examples/exception.rs:12-33 | `div` on `(4, 0)` raises "divided by 0", and the handled session of `logic` is `-1`, whatever the statements after the call would do. |
| LoggingState.EffectFromLog | examples/logging_and_state.rs:55-59 | `Effect::from(Log)` is the `Log` variant carrying that line. |
| LoggingState.EffectFromState | examples/logging_and_state.rs:61-65 | `Effect::from(State)` is the `State` variant carrying that operation. |
| LoggingState.EmbeddingsDisjoint | examples/logging_and_state.rs:55-65 | The two embeddings are injective and never produce the same effect. |
| LoggingState.ResultCodeFrom | examples/logging_and_state.rs:76-80 | `ResultCode::from(None)` is code 0, and `ResultCode::from(Some(k))` is code `k`. |
| LoggingState.IsOk | examples/logging_and_state.rs:71-73 | A code is ok exactly when it equals the code an absent value converts to. |
| LoggingState.ResultCodeFromIsOk | examples/logging_and_state.rs:71-80 | A code built from an input is ok exactly when the input is absent or 0. |
| LoggingState.Project | examples/logging_and_state.rs:100-104 | `Project` on `Option` is the identity. |
| LoggingState.NewHandler | examples/logging_and_state.rs:87-94 | A new handler's slot is empty. |
| LoggingState.Interpret | examples/logging_and_state.rs:116-129 | A completion is returned, and a suspension is answered with a next input. Only `Set` changes the slot. |
| LoggingState.Step | examples/logging_and_state.rs:110-130 | `step` resumes the continuation exactly once, with `pre`, and then interprets what it reports. |
| LoggingState.InterpretAllIsCell | examples/logging_and_state.rs:118-128 | Over any sequence of effects, the slot ends as the last value set. Each `Get` is answered with the last value set before it, each log line with `Some(0)`, and each `Set` with `None`. |
| LoggingState.SetThenGet | examples/logging_and_state.rs:122-127 | `Set(Some(9))` then `Get` is answered with `Some(9)`, and a fresh handler answers `Get` with `None`. |
| EventLoop.StateFrom | examples/event_loop.rs:48-58 | 0 is Begin, 1 Waiting, 2 Finished, 3 End, in both directions. Other values are excluded. |
| EventLoop.EffectFromTimeout | examples/event_loop.rs:75-79 | `Effect::from(Timeout)` is the timer effect for that timeout. |
| EventLoop.WrappingInc | examples/event_loop.rs:130 | `fetch_add(1)` on the `u8` flag adds one and wraps 255 to 0. |
| EventLoop.NewTask | examples/event_loop.rs:87-92 | A new task keeps its coroutine and starts at flag 0, `Begin`. |
| EventLoop.NewScheduler | examples/event_loop.rs:101-106 | A new handler's queue is empty. |
| EventLoop.HandleTask | examples/event_loop.rs:110-150 | The task is resumed once and pushed back at the tail, with the rest of the queue kept. Completion sets flag 3. A timer seen at `Begin` sets flag 1, and any other flag is left as it was. |
| EventLoop.LoopStep | examples/event_loop.rs:165-173 | An empty queue returns. `End` returns, dropping that task, whatever else is queued. `Waiting` is moved to the tail unresumed. `Begin` and `Finished` are resumed once at flag 0 and pushed back with flag 3 on completion, otherwise 1. A pass that goes on keeps the queue length and the flag invariant. |
| EventLoop.LoopEndsOnlyOnCompletion | examples/event_loop.rs:118-123 | The loop returns only on an empty queue or on a task whose coroutine has completed. |
| EventLoop.TimerFires | examples/event_loop.rs:132-135 | A timer firing moves a `Waiting` task to `Finished`, with its coroutine untouched. Nothing else in the queue changes. |
| EventLoop.TimerFiresValid | examples/event_loop.rs:132-135 | A timer firing keeps every flag in step with its coroutine. |
| EventLoop.RunLoop | examples/event_loop.rs:165-174 | Any interleaving of loop passes and timer firings keeps the flag invariant. The queue length is kept while the loop goes on, and it loses one task when the loop returns. |
| EventLoop.HandleComp | examples/event_loop.rs:159-175 | `handle` appends a fresh `Begin` (flag 0) task carrying the continuation at the tail, keeping the flag invariant, and the result is the loop run over that queue. The queue is one longer while the loop goes on, and back to its old length when it returns. |
| EventLoop.SingleTaskReturnsEmpty | examples/event_loop.rs:159-175 | With one task queued, the queue keeps exactly one task, carrying the same coroutine, until the loop returns, and then it is empty. |
| EventLoop.WaitingSpins | examples/event_loop.rs:171 | A `Waiting` task alone in the queue (the shape `handle` builds from `Handler::new`) whose timer never fires is never resumed, and the loop never returns. |
| EventLoop.SleepReports | examples/event_loop.rs:26 | A `go!` on a timeout inside `main`'s body suspends once with that timer, then the rest of the body runs on the later inputs. |
| EventLoop.SleepSecondsReports | examples/event_loop.rs:24-27 | The `for` loop of five 1-second `go!`s reports a 1-second timer at each of its first five resumes, then passes the later inputs to what follows. |
| EventLoop.SleeperReports | examples/event_loop.rs:20-33 | `main`'s coroutine, built from the `go!` model, reports a 1-second timer at its first five resumes, the 5-second timer at the sixth, and completion after that. |
| EventLoop.SleeperSession | examples/event_loop.rs:19-37 | `main`'s coroutine under a fresh handler: one pass starts it, six rounds of "timer fires, then a pass" run it to completion, and the next pass returns with an empty queue. |

## Left out

- Coroutines whose reports depend on state other than their inputs (a captured `Cell`, a shared atomic, the clock) are not modelled: a `Body` is a function of the input history. `fmap`, `bind` and `go!` accept any `impl Coroutine`, so their laws are proved only for input-determined coroutines.
- Threads, sleeping and `Arc<AtomicU8>` orderings: the wake-up thread is the environment action `TimerFired`, and no elapsed time is modelled. Timeouts carry their delay only as data.
- Printing (`println!`, `eprintln!`, `dbg!`): the exception handler's diagnostic line and the log handler's output are not modelled.
- `Pin`, `Box` and `PhantomData`: they have no behaviour to model.
- `src/effect.rs` and `src/handler.rs`: traits without behaviour. `ExceptionExample.HandleSession` and `EventLoop.HandleComp` keep the `handle(pre, continuation)` shape.
- `effectful!`: syntax around `assert_effect`.
- `Consumer`, `SyncConsumer` and `OneStep`'s driving loop: their code is not part of this model. So the whole `logic` session of `examples/logging_and_state.rs` is not modelled; its `Set`/`Get` behaviour is stated per step.
- Effect-only and input-only re-typing combinators (`map_effect`, `map_input`): the library source modelled here defines only `fmap` and `bind`.
- ExceptionExample.DivFirstReport: gives only `div`'s report at its first resume. Resumed after its raise, `div` would divide by zero and panic. On `Context::None` it panics in `unwrap`, and `i32::MIN / -1` overflows. Panics are not modelled: `Div` returns 0 in those places, and `DivTrace` promises nothing about them beyond the raise. The handler never resumes `div` after the raise, so `DivideByZeroSession` does not depend on that choice.
- Resuming a coroutine after it completed is a usage error in Rust. In the model every driver stops at the first completion, so what a body reports after completing is never consulted.
- The exception handler's result type is `F::Return` with `From<i32>`. It is a parameter `code`, and `I::from` is the parameter `inj`.
