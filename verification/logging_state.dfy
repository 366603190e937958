/** examples/logging_and_state.rs: a log effect, a get/set state effect over one
    `Option<i32>` slot, the `ResultCode` the computations return, and the `Step`
    handler that interprets one resume at a time. */
module LoggingState {
  import opened Base
  import opened Coroutine

  /** A log line. */
  datatype Log = Log(msg: string)

  /** The state effect over values of type `S`. */
  datatype StateOp<S> = Get | Set(value: Option<S>)

  /** The combined effect `Effect<S>`: its `Log` and `State` variants. */
  datatype Effect<S> = LogEffect(log: Log) | StateEffect(op: StateOp<S>)

  /** `Effect::from(Log)`: embeds a log line in the combined effect. */
  function EffectFromLog<S>(l: Log): (e: Effect<S>)
    ensures e.LogEffect? && e.log == l
  {
    LogEffect(l)
  }

  /** `Effect::from(State)`: embeds a state operation in the combined effect. */
  function EffectFromState<S>(op: StateOp<S>): (e: Effect<S>)
    ensures e.StateEffect? && e.op == op
  {
    StateEffect(op)
  }

  /** The two embeddings never collide and lose nothing. */
  lemma EmbeddingsDisjoint<S>(l: Log, op: StateOp<S>, l': Log, op': StateOp<S>)
    ensures EffectFromLog<S>(l) != EffectFromState(op)
    ensures EffectFromLog<S>(l) == EffectFromLog<S>(l') <==> l == l'
    ensures EffectFromState(op) == EffectFromState(op') <==> op == op'
  {
  }

  /** `ResultCode(i32)`: what the computations of the example return. */
  datatype ResultCode = ResultCode(code: int32)

  /** `ResultCode::is_ok`: the code is the one an absent value converts to. */
  predicate IsOk(r: ResultCode): (ok: bool)
    ensures ok <==> r == ResultCodeFrom(None)
  {
    r.code == 0
  }

  /** `ResultCode::from(Option<i32>)`: the carried value, or code 0 when absent. */
  function ResultCodeFrom(o: Option<int32>): (r: ResultCode)
    ensures o.None? ==> r.code == 0
    ensures o.Some? ==> r.code == o.value
  {
    ResultCode(match o case Some(k) => k case None => 0)
  }

  /** A code built from an input is ok exactly when the input is absent or zero. */
  lemma ResultCodeFromIsOk(o: Option<int32>)
    ensures IsOk(ResultCodeFrom(o)) <==> (o.None? || o.value == 0)
  {
  }

  /** `Project for Option`: the identity. */
  function Project<S>(o: Option<S>): (r: Option<S>)
    ensures r == o
  {
    o
  }

  /** The handler: one mutable slot, scoped to the handler instance. */
  datatype StateHandler = StateHandler(slot: Option<int32>)

  /** `Handler::new`: the slot starts empty. */
  function NewHandler(): (h: StateHandler)
    ensures h.slot.None?
  {
    StateHandler(None)
  }

  /** `OneStep`: the computation finished, or the input for its next resume. */
  datatype OneStep<I, R> = Return(result: R) | Yield(next: I)

  /** The effect-interpretation half of `step`: a completion is returned; a log
      line is answered with `I::from(Some(0))`; `Get` is answered with the slot;
      `Set(s)` overwrites the slot and is answered with `I::from(None)`. `inj` is
      `I::from`. */
  function Interpret<I>(h: StateHandler, rep: Report<Effect<int32>, ResultCode>,
                        inj: Option<int32> -> I): (r: (StateHandler, OneStep<I, ResultCode>))
    ensures rep.Completed? ==> r.1 == Return(rep.result)
    ensures r.1.Yield? <==> rep.Suspended?
    ensures !(rep.Suspended? && rep.effect.StateEffect? && rep.effect.op.Set?) ==> r.0 == h
  {
    match rep
    case Completed(n) => (h, Return(n))
    case Suspended(LogEffect(_)) => (h, Yield(inj(Some(0))))
    case Suspended(StateEffect(Get)) => (h, Yield(inj(h.slot)))
    case Suspended(StateEffect(Set(s))) => (StateHandler(s), Yield(inj(None)))
  }

  /** The outcome of `step`: the handler and the continuation after it, and its
      answer. */
  datatype Stepped<!I> = Stepped(handler: StateHandler, cont: Handle<I, Effect<int32>, ResultCode>,
                                outcome: OneStep<I, ResultCode>)

  /** `Handler::step`: resume the continuation once with `pre`, then interpret
      what it reports. */
  function Step<I>(h: StateHandler, cont: Handle<I, Effect<int32>, ResultCode>, pre: I,
                   inj: Option<int32> -> I): (r: Stepped<I>)
    ensures r.cont == Resume(cont, pre).1
    ensures (r.handler, r.outcome) == Interpret(h, Resume(cont, pre).0, inj)
  {
    var resumed := Resume(cont, pre);
    var interpreted := Interpret(h, resumed.0, inj);
    Stepped(interpreted.0, resumed.1, interpreted.1)
  }

  // ---------------------------------------------------------------------------
  // State semantics over a sequence of effects
  // ---------------------------------------------------------------------------

  /** Reference meaning of the slot: the value of the last `Set` among `effs`, or
      `initial` if there is none. */
  ghost function LastSet(initial: Option<int32>, effs: seq<Effect<int32>>): Option<int32>
    decreases |effs|
  {
    if |effs| == 0 then initial
    else
      var last := effs[|effs| - 1];
      if last.StateEffect? && last.op.Set? then last.op.value
      else LastSet(initial, effs[..|effs| - 1])
  }

  /** The handler after interpreting `effs` in order, and the inputs it answers
      them with. */
  function InterpretAll<I>(h: StateHandler, effs: seq<Effect<int32>>, inj: Option<int32> -> I)
    : (r: (StateHandler, seq<I>))
    ensures |r.1| == |effs|
    decreases |effs|
  {
    if |effs| == 0 then (h, [])
    else
      var prev := InterpretAll(h, effs[..|effs| - 1], inj);
      var last := Interpret(prev.0, Suspended(effs[|effs| - 1]), inj);
      (last.0, prev.1 + [last.1.next])
  }

  /** The slot holds the last value set, and every `Get` is answered with the
      last value set before it (or the starting slot): the state effect behaves
      as one mutable cell owned by the handler. Log lines and `Set` are answered
      with `Some(0)` and `None`. */
  lemma {:induction false} InterpretAllIsCell<I>(h: StateHandler, effs: seq<Effect<int32>>, inj: Option<int32> -> I)
    ensures InterpretAll(h, effs, inj).0.slot == LastSet(h.slot, effs)
    ensures forall i :: 0 <= i < |effs| ==>
      InterpretAll(h, effs, inj).1[i] ==
        match effs[i]
        case LogEffect(_) => inj(Some(0))
        case StateEffect(Get) => inj(LastSet(h.slot, effs[..i]))
        case StateEffect(Set(_)) => inj(None)
    decreases |effs|
  {
    if |effs| > 0 {
      var n := |effs| - 1;
      InterpretAllIsCell(h, effs[..n], inj);
      assert effs[..n] == effs[..n][..n];
      forall i | 0 <= i < n
        ensures effs[..n][..i] == effs[..i]
      {
      }
    }
  }

  /** Within one handler, `Set(Some(9))` followed by `Get` is answered with
      `Some(9)`; a fresh handler answers `Get` with `None`. */
  lemma SetThenGet<I>(h: StateHandler, inj: Option<int32> -> I)
    ensures var afterSet := Interpret(h, Suspended(EffectFromState(Set(Some(9)))), inj);
      Interpret(afterSet.0, Suspended(EffectFromState(Get)), inj).1 == Yield(inj(Some(9)))
    ensures Interpret(NewHandler(), Suspended(EffectFromState(Get)), inj).1 == Yield(inj(None))
  {
  }
}
