/** Resumable computations (Rust's `Coroutine` trait) and the two combinators of
    src/coroutine.rs: `fmap` (exposed as `map`) and `bind` (exposed as `and_then`).

    A Rust coroutine is driven by `resume(input)`, which reports either
    `Yielded(effect)` or `Complete(result)`. Its first `resume` binds the closure's
    argument; every later one supplies the value of the `yield` it is paused at.
    The model assumes a coroutine body is deterministic in its inputs: what it
    reports is a function of the values it has been given. Coroutines that read
    other state (shared atomics, cells, the clock) are outside this encoding.
    Under that assumption:

      * a `Body` maps the values it has been resumed with since it started
        (possibly none) to its current report;
      * a computation `Comp` is a body waiting for its first input, the closure's
        argument.

    Resuming a computation after it completed is a usage error in Rust; in the
    model the drivers below simply stop at the first completion, so whatever a
    body reports after that is never consulted. */
module Coroutine {
  import opened Base

  /** Rust's `CoroutineState`: what one `resume` reports. */
  datatype Report<E, R> = Suspended(effect: E) | Completed(result: R)

  /** The report of a running body, given the resumption values since it started. */
  type Body<!I, E, R> = seq<I> -> Report<E, R>

  /** A computation: given its first input, a running body. */
  type Comp<!I, E, R> = I -> Body<I, E, R>

  /** What a driver observes: every effect reported, in order, and the result if
      the computation completed before the inputs ran out. */
  datatype Trace<E, R> = Trace(effects: seq<E>, result: Option<R>)

  /** Converts the effect of a report, leaves a completion alone (`E3::from` on a
      forwarded yield). */
  function UpReport<E, F, R>(up: E -> F, rep: Report<E, R>): (r: Report<F, R>)
    ensures r.Completed? <==> rep.Completed?
    ensures rep.Suspended? ==> r.effect == up(rep.effect)
    ensures rep.Completed? ==> r.result == rep.result
  {
    match rep
    case Suspended(e) => Suspended(up(e))
    case Completed(v) => Completed(v)
  }

  /** Declarative meaning of a trace: `t` is what a driver sees when it resumes
      `b` with `ys` one by one. Effect `j` is the report after `j` resumptions;
      a result is the report right after the last effect; without a result every
      input was used and the body was still suspended. */
  ghost predicate Explains<I, E, R>(b: Body<I, E, R>, ys: seq<I>, t: Trace<E, R>)
  {
    && (forall j :: 0 <= j < |t.effects| ==> j <= |ys| && b(ys[..j]) == Suspended(t.effects[j]))
    && (t.result.Some? ==> |t.effects| <= |ys| && b(ys[..|t.effects|]) == Completed(t.result.value))
    && (t.result.None? ==> |t.effects| == |ys| + 1)
  }

  /** Drives `b`, which has already consumed `ys[..k]`, through the remaining
      inputs, stopping at the first completion. */
  function Drive<I, E, R>(b: Body<I, E, R>, ys: seq<I>, k: nat): (t: Trace<E, R>)
    requires k <= |ys|
    ensures forall j :: 0 <= j < |t.effects| ==> k + j <= |ys| && b(ys[..k + j]) == Suspended(t.effects[j])
    ensures t.result.Some? ==> k + |t.effects| <= |ys| && b(ys[..k + |t.effects|]) == Completed(t.result.value)
    ensures t.result.None? ==> k + |t.effects| == |ys| + 1
    decreases |ys| - k
  {
    match b(ys[..k])
    case Completed(r) => Trace([], Some(r))
    case Suspended(e) =>
      if k == |ys| then Trace([e], None)
      else
        var rest := Drive(b, ys, k + 1);
        Trace([e] + rest.effects, rest.result)
  }

  /** The trace of a running body resumed with `ys`. */
  function RunBody<I, E, R>(b: Body<I, E, R>, ys: seq<I>): (t: Trace<E, R>)
    ensures Explains(b, ys, t)
  {
    Drive(b, ys, 0)
  }

  /** The trace of a computation started with `x` and then resumed with `ys`. */
  function Run<I, E, R>(c: Comp<I, E, R>, x: I, ys: seq<I>): (t: Trace<E, R>)
    ensures Explains(c(x), ys, t)
  {
    RunBody(c(x), ys)
  }

  /** `Explains` pins the trace down: the operational `RunBody` is the only trace
      it admits. */
  lemma ExplainsUnique<I, E, R>(b: Body<I, E, R>, ys: seq<I>, t1: Trace<E, R>, t2: Trace<E, R>)
    requires Explains(b, ys, t1)
    requires Explains(b, ys, t2)
    ensures t1 == t2
  {
    var n1, n2 := |t1.effects|, |t2.effects|;
    assert forall j :: 0 <= j < n1 ==> t1.effects[j] == t2.effects[j] by {
      forall j | 0 <= j < n1
        ensures t1.effects[j] == t2.effects[j]
      {
        assert b(ys[..j]) == Suspended(t1.effects[j]);
      }
    }
    assert t1.effects == t2.effects;
  }

  /** The operational run is characterised by `Explains`. */
  lemma RunBodyCharacterised<I, E, R>(b: Body<I, E, R>, ys: seq<I>, t: Trace<E, R>)
    ensures Explains(b, ys, t) <==> RunBody(b, ys) == t
  {
    if Explains(b, ys, t) {
      ExplainsUnique(b, ys, RunBody(b, ys), t);
    }
  }

  /** Running on a prefix of the inputs: if the body already completed within the
      prefix the trace is the same; otherwise the prefix trace is the suspended
      part of the full trace up to the prefix's end. */
  lemma RunBodyPrefix<I, E, R>(b: Body<I, E, R>, ys: seq<I>, m: nat)
    requires m <= |ys|
    ensures var t := RunBody(b, ys);
      RunBody(b, ys[..m]) ==
        if t.result.Some? && |t.effects| <= m then t
        else Trace(t.effects[..m + 1], None)
  {
    var t := RunBody(b, ys);
    var p := ys[..m];
    assert forall i :: 0 <= i <= m ==> p[..i] == ys[..i];
    var cand := if t.result.Some? && |t.effects| <= m then t else Trace(t.effects[..m + 1], None);
    assert Explains(b, p, cand);
    ExplainsUnique(b, p, RunBody(b, p), cand);
  }

  // ---------------------------------------------------------------------------
  // Resuming a handle (the `Coroutine::resume` view)
  // ---------------------------------------------------------------------------

  /** A pinned coroutine together with the inputs it has been resumed with so far. */
  datatype Handle<!I, E, R> = Handle(comp: Comp<I, E, R>, fed: seq<I>)

  /** A coroutine that has not been resumed yet. */
  function Fresh<I, E, R>(c: Comp<I, E, R>): (h: Handle<I, E, R>)
    ensures h.comp == c && h.fed == []
  {
    Handle(c, [])
  }

  /** One `resume(input)`: the report, and the handle advanced past it. */
  function Resume<I, E, R>(h: Handle<I, E, R>, input: I): (r: (Report<E, R>, Handle<I, E, R>))
    ensures r.1.comp == h.comp && r.1.fed == h.fed + [input]
    ensures h.fed == [] ==> r.0 == h.comp(input)([])
    ensures h.fed != [] ==> r.0 == h.comp(h.fed[0])(h.fed[1..] + [input])
  {
    var all := h.fed + [input];
    assert h.fed != [] ==> all[1..] == h.fed[1..] + [input];
    (h.comp(all[0])(all[1..]), Handle(h.comp, all))
  }

  /** One more resume of a handle that has been fed `x` and then `ys[..k]`. */
  lemma ResumeNext<I, E, R>(h: Handle<I, E, R>, x: I, ys: seq<I>, k: nat)
    requires k < |ys| && h.fed == [x] + ys[..k]
    ensures Resume(h, ys[k]).0 == h.comp(x)(ys[..k + 1])
    ensures Resume(h, ys[k]).1.fed == [x] + ys[..k + 1]
  {
    assert h.fed[1..] + [ys[k]] == ys[..k + 1];
  }

  lemma AppendOne<E>(a: seq<E>, e: E, b: seq<E>)
    ensures (a + [e]) + b == a + ([e] + b)
  {
  }

  /** Unfolding `Drive` at a suspension that has a next input. */
  lemma DriveSuspended<I, E, R>(b: Body<I, E, R>, ys: seq<I>, k: nat)
    requires k < |ys| && b(ys[..k]).Suspended?
    ensures Drive(b, ys, k) == Trace([b(ys[..k]).effect] + Drive(b, ys, k + 1).effects, Drive(b, ys, k + 1).result)
  {
  }

  /** A driver that resumes a fresh computation with `x`, then with each of `ys`
      while it stays suspended, collecting what it reports: it sees exactly the
      trace `Run` describes. */
  method DriveByResume<I, E, R>(c: Comp<I, E, R>, x: I, ys: seq<I>) returns (effects: seq<E>, result: Option<R>)
    ensures Trace(effects, result) == Run(c, x, ys)
  {
    var step := Resume(Fresh(c), x);
    var rep, h := step.0, step.1;
    var k := 0;
    effects := [];
    while rep.Suspended? && k < |ys|
      invariant 0 <= k <= |ys|
      invariant h.comp == c && h.fed == [x] + ys[..k]
      invariant rep == c(x)(ys[..k])
      invariant Run(c, x, ys) == Trace(effects + Drive(c(x), ys, k).effects, Drive(c(x), ys, k).result)
      decreases |ys| - k
    {
      DriveSuspended(c(x), ys, k);
      ResumeNext(h, x, ys, k);
      AppendOne(effects, rep.effect, Drive(c(x), ys, k + 1).effects);
      effects := effects + [rep.effect];
      step := Resume(h, ys[k]);
      rep, h := step.0, step.1;
      k := k + 1;
    }
    if rep.Completed? {
      result := Some(rep.result);
    } else {
      effects := effects + [rep.effect];
      result := None;
    }
  }

  // ---------------------------------------------------------------------------
  // fmap / map
  // ---------------------------------------------------------------------------

  /** `fmap(g, f)`: every input goes to `g` unchanged, every effect of `g` is
      passed on unchanged, and `g`'s result `ret` becomes `f(ret)`. */
  function Fmap<I, E, T, U>(g: Comp<I, E, T>, f: T -> U): Comp<I, E, U>
  {
    x => ys =>
      match g(x)(ys)
      case Suspended(effs) => Suspended(effs)
      case Completed(ret) => Completed(f(ret))
  }

  /** The trace law of `fmap`: the same effects in the same order, the result
      mapped, the same inputs consumed. */
  lemma FmapTrace<I, E, T, U>(g: Comp<I, E, T>, f: T -> U, x: I, ys: seq<I>)
    ensures Run(Fmap(g, f), x, ys).effects == Run(g, x, ys).effects
    ensures Run(Fmap(g, f), x, ys).result == MapOption(f, Run(g, x, ys).result)
  {
    var t := Run(g, x, ys);
    var t' := Trace(t.effects, MapOption(f, t.result));
    assert Explains(Fmap(g, f)(x), ys, t');
    ExplainsUnique(Fmap(g, f)(x), ys, Run(Fmap(g, f), x, ys), t');
  }

  /** `MapCoroutine::map`: the method form of `fmap`, nothing more. */
  function Map<I, E, T, U>(g: Comp<I, E, T>, f: T -> U): (r: Comp<I, E, U>)
    ensures r == Fmap(g, f)
  {
    Fmap(g, f)
  }

  // ---------------------------------------------------------------------------
  // bind / and_then
  // ---------------------------------------------------------------------------

  /** The input supplied at the resume where a body that was started with `x`
      and then resumed with `ys` made its `n`-th report (counting from zero). */
  function LatestInput<I>(x: I, ys: seq<I>, n: nat): (r: I)
    requires n <= |ys|
    ensures n == 0 ==> r == x
    ensures n > 0 ==> r == ys[n - 1]
  {
    if n == 0 then x else ys[n - 1]
  }

  /** What `bind(g, f)` reports once it was started with `x` and resumed with
      `ys`: while `g` runs, `g`'s report with its effect converted by `up1`;
      once `g` completed with `ret` after `n` resumptions, `f(ret)` started with
      the input of that same resume and then fed the later inputs, its effects
      converted by `up2`. */
  function BindReport<I, E1, E2, E3, U, T>(g: Comp<I, E1, U>, f: U -> Comp<I, E2, T>,
                                           up1: E1 -> E3, up2: E2 -> E3, x: I, ys: seq<I>): Report<E3, T>
  {
    var t := RunBody(g(x), ys);
    if t.result.Some? then
      var n := |t.effects|;
      UpReport(up2, f(t.result.value)(LatestInput(x, ys, n))(ys[n..]))
    else
      Suspended(up1(t.effects[|t.effects| - 1]))
  }

  /** `bind(g, f)`, where `up1` and `up2` are the `E3::from` conversions. */
  function Bind<I, E1, E2, E3, U, T>(g: Comp<I, E1, U>, f: U -> Comp<I, E2, T>,
                                     up1: E1 -> E3, up2: E2 -> E3): Comp<I, E3, T>
  {
    x => ys => BindReport(g, f, up1, up2, x, ys)
  }

  /** While `g` has not completed on the first `j` resumption inputs, `bind`
      reports `g`'s current effect, converted. */
  lemma BindFirstPhase<I, E1, E2, E3, U, T>(g: Comp<I, E1, U>, f: U -> Comp<I, E2, T>,
                                            up1: E1 -> E3, up2: E2 -> E3, x: I, ys: seq<I>, j: nat)
    requires j <= |ys|
    requires var t := Run(g, x, ys); !(t.result.Some? && |t.effects| <= j)
    ensures j < |Run(g, x, ys).effects|
    ensures Bind(g, f, up1, up2)(x)(ys[..j]) == Suspended(up1(Run(g, x, ys).effects[j]))
  {
    RunBodyPrefix(g(x), ys, j);
  }

  /** Once `g` completed with `ret` after `n` resumptions, `bind` reports what
      `f(ret)` reports, started with the input of that resume and fed the inputs
      after it. */
  lemma BindSecondPhase<I, E1, E2, E3, U, T>(g: Comp<I, E1, U>, f: U -> Comp<I, E2, T>,
                                             up1: E1 -> E3, up2: E2 -> E3, x: I, ys: seq<I>, j: nat)
    requires var t := Run(g, x, ys); t.result.Some? && |t.effects| <= j <= |ys|
    ensures var t := Run(g, x, ys); var n := |t.effects|;
      Bind(g, f, up1, up2)(x)(ys[..j]) == UpReport(up2, f(t.result.value)(LatestInput(x, ys, n))(ys[n..][..j - n]))
  {
    var n := |Run(g, x, ys).effects|;
    RunBodyPrefix(g(x), ys, j);
    assert ys[..j][n..] == ys[n..][..j - n];
  }

  lemma BindTraceIncomplete<I, E1, E2, E3, U, T>(g: Comp<I, E1, U>, f: U -> Comp<I, E2, T>,
                                                 up1: E1 -> E3, up2: E2 -> E3, x: I, ys: seq<I>)
    requires Run(g, x, ys).result.None?
    ensures Run(Bind(g, f, up1, up2), x, ys) == Trace(MapSeq(up1, Run(g, x, ys).effects), None)
  {
    var b := Bind(g, f, up1, up2)(x);
    var cand := Trace(MapSeq(up1, Run(g, x, ys).effects), None);
    forall j | 0 <= j < |cand.effects|
      ensures j <= |ys| && b(ys[..j]) == Suspended(cand.effects[j])
    {
      BindFirstPhase(g, f, up1, up2, x, ys, j);
    }
    ExplainsUnique(b, ys, Run(Bind(g, f, up1, up2), x, ys), cand);
  }

  /** The effects `bind` shows when `g` completes: `g`'s converted, then those of
      `f(ret)` converted. */
  ghost function BindEffects<I, E1, E2, E3, U, T>(g: Comp<I, E1, U>, f: U -> Comp<I, E2, T>,
                                                  up1: E1 -> E3, up2: E2 -> E3, x: I, ys: seq<I>): seq<E3>
    requires Run(g, x, ys).result.Some?
  {
    var t := Run(g, x, ys);
    var n := |t.effects|;
    MapSeq(up1, t.effects) + MapSeq(up2, Run(f(t.result.value), LatestInput(x, ys, n), ys[n..]).effects)
  }

  lemma BindEffectAt<I, E1, E2, E3, U, T>(g: Comp<I, E1, U>, f: U -> Comp<I, E2, T>,
                                          up1: E1 -> E3, up2: E2 -> E3, x: I, ys: seq<I>, j: nat)
    requires Run(g, x, ys).result.Some?
    requires j < |BindEffects(g, f, up1, up2, x, ys)|
    ensures j <= |ys| && Bind(g, f, up1, up2)(x)(ys[..j]) == Suspended(BindEffects(g, f, up1, up2, x, ys)[j])
  {
    var t := Run(g, x, ys);
    var n := |t.effects|;
    if j < n {
      BindFirstPhase(g, f, up1, up2, x, ys, j);
    } else {
      var t2 := Run(f(t.result.value), LatestInput(x, ys, n), ys[n..]);
      assert BindEffects(g, f, up1, up2, x, ys)[j] == up2(t2.effects[j - n]);
      BindSecondPhase(g, f, up1, up2, x, ys, j);
    }
  }

  lemma BindCompleteEffects<I, E1, E2, E3, U, T>(g: Comp<I, E1, U>, f: U -> Comp<I, E2, T>,
                                                 up1: E1 -> E3, up2: E2 -> E3, x: I, ys: seq<I>)
    requires Run(g, x, ys).result.Some?
    ensures forall j :: 0 <= j < |BindEffects(g, f, up1, up2, x, ys)| ==>
      j <= |ys| && Bind(g, f, up1, up2)(x)(ys[..j]) == Suspended(BindEffects(g, f, up1, up2, x, ys)[j])
  {
    forall j | 0 <= j < |BindEffects(g, f, up1, up2, x, ys)|
      ensures j <= |ys| && Bind(g, f, up1, up2)(x)(ys[..j]) == Suspended(BindEffects(g, f, up1, up2, x, ys)[j])
    {
      BindEffectAt(g, f, up1, up2, x, ys, j);
    }
  }

  lemma BindCompleteResult<I, E1, E2, E3, U, T>(g: Comp<I, E1, U>, f: U -> Comp<I, E2, T>,
                                                up1: E1 -> E3, up2: E2 -> E3, x: I, ys: seq<I>)
    requires Run(g, x, ys).result.Some?
    ensures var t := Run(g, x, ys);
      var n := |t.effects|;
      var t2 := Run(f(t.result.value), LatestInput(x, ys, n), ys[n..]);
      var k := |BindEffects(g, f, up1, up2, x, ys)|;
      && k == n + |t2.effects|
      && (t2.result.Some? ==> k <= |ys| && Bind(g, f, up1, up2)(x)(ys[..k]) == Completed(t2.result.value))
      && (t2.result.None? ==> k == |ys| + 1)
  {
    var t := Run(g, x, ys);
    var n := |t.effects|;
    var t2 := Run(f(t.result.value), LatestInput(x, ys, n), ys[n..]);
    assert |BindEffects(g, f, up1, up2, x, ys)| == n + |t2.effects|;
    if t2.result.Some? {
      var m := |t2.effects|;
      var v := t2.result.value;
      assert m <= |ys[n..]| && f(t.result.value)(LatestInput(x, ys, n))(ys[n..][..m]) == Completed(v);
      BindSecondPhase(g, f, up1, up2, x, ys, n + m);
      assert Bind(g, f, up1, up2)(x)(ys[..n + m]) == UpReport(up2, Completed(v));
    }
  }

  lemma BindTraceComplete<I, E1, E2, E3, U, T>(g: Comp<I, E1, U>, f: U -> Comp<I, E2, T>,
                                               up1: E1 -> E3, up2: E2 -> E3, x: I, ys: seq<I>)
    requires Run(g, x, ys).result.Some?
    ensures var t := Run(g, x, ys);
      var n := |t.effects|;
      var t2 := Run(f(t.result.value), LatestInput(x, ys, n), ys[n..]);
      Run(Bind(g, f, up1, up2), x, ys) == Trace(MapSeq(up1, t.effects) + MapSeq(up2, t2.effects), t2.result)
  {
    var b := Bind(g, f, up1, up2)(x);
    var t := Run(g, x, ys);
    var n := |t.effects|;
    var t2 := Run(f(t.result.value), LatestInput(x, ys, n), ys[n..]);
    var cand := Trace(BindEffects(g, f, up1, up2, x, ys), t2.result);
    BindCompleteEffects(g, f, up1, up2, x, ys);
    BindCompleteResult(g, f, up1, up2, x, ys);
    assert Explains(b, ys, cand);
    ExplainsUnique(b, ys, Run(Bind(g, f, up1, up2), x, ys), cand);
  }

  /** The trace law of `bind`: `g`'s effects converted by `up1`, then the effects
      of `f(ret)` converted by `up2`, never interleaved; `f(ret)` is started with
      the input of the resume at which `g` completed and then sees the later
      inputs; the result is `f(ret)`'s. If `g` never completes, only `g` is seen. */
  lemma BindTrace<I, E1, E2, E3, U, T>(g: Comp<I, E1, U>, f: U -> Comp<I, E2, T>,
                                       up1: E1 -> E3, up2: E2 -> E3, x: I, ys: seq<I>)
    ensures var t := Run(g, x, ys);
      t.result.None? ==>
        Run(Bind(g, f, up1, up2), x, ys) == Trace(MapSeq(up1, t.effects), None)
    ensures var t := Run(g, x, ys);
      t.result.Some? ==>
        var n := |t.effects|;
        var t2 := Run(f(t.result.value), LatestInput(x, ys, n), ys[n..]);
        Run(Bind(g, f, up1, up2), x, ys) == Trace(MapSeq(up1, t.effects) + MapSeq(up2, t2.effects), t2.result)
  {
    if Run(g, x, ys).result.None? {
      BindTraceIncomplete(g, f, up1, up2, x, ys);
    } else {
      BindTraceComplete(g, f, up1, up2, x, ys);
    }
  }

  /** `BindCoroutine::and_then`: the method form of `bind`, nothing more. */
  function AndThen<I, E1, E2, E3, U, T>(g: Comp<I, E1, U>, f: U -> Comp<I, E2, T>,
                                        up1: E1 -> E3, up2: E2 -> E3): (r: Comp<I, E3, T>)
    ensures r == Bind(g, f, up1, up2)
  {
    Bind(g, f, up1, up2)
  }
}
