/** examples/exception.rs: an exception effect, the `div` computation that
    raises it, the `Context` input type, and the handler that ends the session
    with `-1` on the first raise. */
module ExceptionExample {
  import Base
  import opened Coroutine
  import opened Macros

  /** The only effect: an exception with its message. */
  datatype Exception = Raise(msg: string)

  /** The input type of the computations: no operands yet, or the two operands. */
  datatype Context = None | Some(pair: (Base.int32, Base.int32))

  /** `Context::unwrap`; the source marks `None` unreachable, hence the precondition. */
  function Unwrap(ctx: Context): (v: (Base.int32, Base.int32))
    requires ctx.Some?
    ensures Context.Some(v) == ctx
  {
    match ctx
    case Some(v) => v
  }

  /** `Context::from(Option<(i32, i32)>)`. */
  function FromOption(o: Base.Option<(Base.int32, Base.int32)>): (ctx: Context)
    ensures ctx.None? <==> o.None?
    ensures ctx.Some? ==> Unwrap(ctx) == o.value
  {
    match o
    case Some(v) => Context.Some(v)
    case None => Context.None
  }

  /** `Context::from((i32, i32))`. */
  function FromPair(v: (Base.int32, Base.int32)): (ctx: Context)
    ensures ctx.Some? && Unwrap(ctx) == v
  {
    Context.Some(v)
  }

  /** Both conversions agree on operands. */
  lemma FromPairIsFromSome(v: (Base.int32, Base.int32))
    ensures FromPair(v) == FromOption(Base.Some(v))
  {
  }

  function Abs(x: int): int
  {
    if x < 0 then -x else x
  }

  /** Euclidean quotient and remainder of naturals, and how small the quotient is. */
  lemma QuotientBound(n: int, d: int)
    requires n >= 0 && d >= 1
    ensures 0 <= n / d <= n
    ensures d >= 2 ==> 2 * (n / d) <= n
    ensures 0 <= n - (n / d) * d < d
  {
  }

  lemma MulSigns(m: int, d: int)
    ensures m * (-d) == -(m * d)
    ensures (-m) * d == -(m * d)
    ensures (-m) * (-d) == m * d
  {
  }

  /** Rust's `i32` division: the quotient truncated toward zero, so the
      remainder `a - q * b` has the sign of `a` and is smaller than `b` in
      magnitude. `b == 0` panics, and so does `i32::MIN / -1`, which overflows;
      both are excluded. */
  function TruncDiv(a: Base.int32, b: Base.int32): (q: Base.int32)
    requires b != 0
    requires !(a == Base.I32_MIN && b == -1)
    ensures a >= 0 ==> 0 <= a - q * b < Abs(b)
    ensures a < 0 ==> -Abs(b) < a - q * b <= 0
  {
    var n, d := Abs(a), Abs(b);
    var m := n / d;
    QuotientBound(n, d);
    MulSigns(m, d);
    assert (a < 0) == (b < 0) ==> m <= Base.I32_MAX;
    if (a < 0) == (b < 0) then m else -m
  }

  /** The message `div` raises. */
  const DivByZero: string := "divided by 0"

  /** What the `div` computation of the example reports on its first resume:
      it unwraps its context, raises on a zero divisor, and otherwise returns the
      quotient. The context must carry operands (`unwrap`), and the quotient
      must not overflow. */
  function DivFirstReport(ctx: Context): (r: Report<Exception, Base.int32>)
    requires ctx.Some?
    requires !(Unwrap(ctx).0 == Base.I32_MIN && Unwrap(ctx).1 == -1)
    ensures Unwrap(ctx).1 == 0 <==> r == Suspended(Raise(DivByZero))
    ensures Unwrap(ctx).1 != 0 ==> r == Completed(TruncDiv(Unwrap(ctx).0, Unwrap(ctx).1))
  {
    var (a, b) := Unwrap(ctx);
    if b == 0 then Suspended(Raise(DivByZero))
    else Completed(TruncDiv(a, b))
  }

  /** The example's `div` computation: unwrap the context; on a zero divisor
      `go!(Exception::Raise(..) => Exception)`, then `return a / b`. Where the
      source panics (`unwrap` of `Context::None`, `i32::MIN / -1`, and `a / 0`
      once resumed after the raise) the model returns 0 instead. */
  function Div(): Comp<Context, Exception, Base.int32>
  {
    (ctx: Context) =>
      if ctx.None? then Return(0)
      else
        var (a, b) := ctx.pair;
        if b == 0 then Then(Suspend((e: Exception) => e, Raise(DivByZero)), (_: Context) => Return(0))
        else if a == Base.I32_MIN && b == -1 then Return(0)
        else Return(TruncDiv(a, b))
  }

  /** `div` on operands: its first report is `DivFirstReport`; on a zero divisor
      it raises "divided by 0" before anything else, and otherwise it completes
      at once with the truncated quotient. */
  lemma DivTrace(ctx: Context, ys: seq<Context>)
    requires ctx.Some?
    requires !(Unwrap(ctx).0 == Base.I32_MIN && Unwrap(ctx).1 == -1)
    ensures Div()(ctx)([]) == DivFirstReport(ctx)
    ensures Unwrap(ctx).1 == 0 ==> |Run(Div(), ctx, ys).effects| > 0 && Run(Div(), ctx, ys).effects[0] == Raise(DivByZero)
    ensures Unwrap(ctx).1 != 0 ==> Run(Div(), ctx, ys) == Trace([], Base.Some(TruncDiv(Unwrap(ctx).0, Unwrap(ctx).1)))
  {
    var (a, b) := Unwrap(ctx);
    var up := (e: Exception) => e;
    if b == 0 {
      var k := (_: Context) => Return<Context, Exception, Base.int32>(0);
      SuspendTrace(up, Raise(DivByZero), ys);
      SuspendTrace<Context, Exception, Exception>(up, Raise(DivByZero), []);
      ThenTrace(Suspend(up, Raise(DivByZero)), k, ys);
    } else {
      ReturnTrace<Context, Exception, Base.int32>(TruncDiv(a, b), ys);
    }
  }

  /** `ExceptionHandler::handle`: ignores `pre`, resumes the computation once with
      `I::from(None)`; a completion with `n` is the session's result, a raise ends
      the session with `-1` (converted by `F::Return::from`) without resuming
      again. `inj` is `I::from`, `code` is `F::Return::from`. */
  function HandleSession<I, R>(pre: I, c: Comp<I, Exception, R>,
                        inj: Base.Option<(Base.int32, Base.int32)> -> I, code: Base.int32 -> R): (r: R)
    ensures Run(c, inj(Base.None), []).result.Some? ==> r == Run(c, inj(Base.None), []).result.value
    ensures |Run(c, inj(Base.None), []).effects| > 0 ==> r == code(-1)
  {
    var step: (Report<Exception, R>, Handle<I, Exception, R>) := Resume(Fresh(c), inj(Base.None));
    match step.0
    case Completed(n) => n
    case Suspended(Raise(_)) => code(-1)
  }

  /** The handler's result is decided by the first resume alone, made with
      `I::from(None)` whatever `pre` is: whatever inputs a longer run would
      supply, a computation that completes before any effect gives its result,
      and one whose first report is a raise gives `-1`. */
  lemma HandleResumesOnce<I, R>(pre: I, c: Comp<I, Exception, R>,
                                inj: Base.Option<(Base.int32, Base.int32)> -> I, code: Base.int32 -> R, ys: seq<I>)
    ensures var t := Run(c, inj(Base.None), ys);
      |t.effects| == 0 ==> t.result.Some? && HandleSession(pre, c, inj, code) == t.result.value
    ensures var t := Run(c, inj(Base.None), ys);
      |t.effects| > 0 ==> HandleSession(pre, c, inj, code) == code(-1)
  {
    var t := Run(c, inj(Base.None), ys);
    assert ys[..0] == [];
  }

  /** The body of the example's `logic`: delegate to `div` with operands `(a, b)`,
      then continue with the rest of the body given the quotient. */
  function Logic(div: Comp<Context, Exception, Base.int32>, a: Base.int32, b: Base.int32,
                 rest: Base.int32 -> Body<Context, Exception, Base.int32>): Comp<Context, Exception, Base.int32>
  {
    _ => Then(Delegate((e: Exception) => e, div, FromPair((a, b))), rest)
  }

  /** The example's session: `div` invoked on `(4, 0)` raises "divided by 0", and
      the handled session of `logic` ends with `-1`, whatever the statements
      after the call would do. */
  lemma DivideByZeroSession(rest: Base.int32 -> Body<Context, Exception, Base.int32>, pre: Context)
    ensures DivFirstReport(FromPair((4, 0))) == Suspended(Raise(DivByZero))
    ensures HandleSession(pre, Logic(Div(), 4, 0, rest), FromOption, (n: Base.int32) => n) == -1
  {
    var up := (e: Exception) => e;
    DivTrace(FromPair((4, 0)), []);
    var d := Delegate(up, Div(), FromPair((4, 0)));
    var t := RunBody(d, []);
    assert t.effects[0] == Raise(DivByZero);
    assert t.result.None?;
  }
}
