/** The expression forms of the `go!` macro (src/macros.rs) and `assert_effect`.

    A `go!` expression is evaluated inside a running coroutine body, so it is
    modelled as a `Body`: it reports in terms of the resumption values received
    since the expression started, and "evaluates to `v`" means it reports
    `Completed(v)`. `Then` is the body's own sequencing (`let v = <expr>; rest`),
    which is how an expression's value reaches the rest of the body. */
module Macros {
  import opened Base
  import opened Coroutine

  /** `return v` at the current point of a body: no suspension. */
  function Return<I, E, R>(v: R): Body<I, E, R>
  {
    ys => Completed(v)
  }

  /** `return v` completes on the spot, whatever inputs follow. */
  lemma ReturnTrace<I, E, R>(v: R, ys: seq<I>)
    ensures RunBody(Return<I, E, R>(v), ys) == Trace([], Some(v))
  {
    assert Explains(Return<I, E, R>(v), ys, Trace([], Some(v)));
    ExplainsUnique(Return<I, E, R>(v), ys, RunBody(Return<I, E, R>(v), ys), Trace([], Some(v)));
  }

  /** `go!(e => T)` (with `up` = `T::from`) and `go!(e)` (with `up` = `Into::into`):
      `yield` the converted effect and evaluate to the value resumed with. */
  function Suspend<I, E, F>(up: E -> F, e: E): Body<I, F, I>
  {
    ys => if |ys| == 0 then Suspended(up(e)) else Completed(ys[0])
  }

  /** A suspension point suspends exactly once, with the converted effect, and
      evaluates to the first value it is resumed with. */
  lemma SuspendTrace<I, E, F>(up: E -> F, e: E, ys: seq<I>)
    ensures |ys| == 0 ==> RunBody(Suspend(up, e), ys) == Trace([up(e)], None)
    ensures |ys| > 0 ==> RunBody(Suspend(up, e), ys) == Trace([up(e)], Some(ys[0]))
  {
    var cand: Trace<F, I> := if |ys| == 0 then Trace([up(e)], None) else Trace([up(e)], Some(ys[0]));
    assert ys[..0] == [];
    if |ys| > 0 {
      assert ys[..1] == [ys[0]];
    }
    assert Explains(Suspend(up, e), ys, cand);
    ExplainsUnique(Suspend(up, e), ys, RunBody(Suspend(up, e), ys), cand);
  }

  /** `go!(f, arg)` (with `up` = `Into::into`) and `go!(T, f, arg)` (with
      `up` = `T::from`): run the sub-computation `f` inline, starting it with
      `arg`, forwarding each of its effects converted and handing it each value
      the enclosing body is resumed with; evaluate to its result. */
  function Delegate<I, E, F, V>(up: E -> F, f: Comp<I, E, V>, arg: I): Body<I, F, V>
  {
    ys => UpReport(up, f(arg)(ys))
  }

  /** Delegation is transparent: the enclosing body shows the sub-computation's
      effects converted and in order, feeds it `arg` first and then its own
      resumption values, and evaluates to its result with no extra suspension. */
  lemma DelegateTrace<I, E, F, V>(up: E -> F, f: Comp<I, E, V>, arg: I, ys: seq<I>)
    ensures RunBody(Delegate(up, f, arg), ys).effects == MapSeq(up, Run(f, arg, ys).effects)
    ensures RunBody(Delegate(up, f, arg), ys).result == Run(f, arg, ys).result
  {
    var t := Run(f, arg, ys);
    var cand := Trace(MapSeq(up, t.effects), t.result);
    assert Explains(Delegate(up, f, arg), ys, cand);
    ExplainsUnique(Delegate(up, f, arg), ys, RunBody(Delegate(up, f, arg), ys), cand);
  }

  /** `let v = <b>; <k(v)>`: run `b`; once it evaluates to `v` after `n`
      resumptions, continue at once with `k(v)`, which sees the later inputs. */
  function Then<I, E, V, R>(b: Body<I, E, V>, k: V -> Body<I, E, R>): Body<I, E, R>
  {
    ys =>
      var t := RunBody(b, ys);
      if t.result.Some? then k(t.result.value)(ys[|t.effects|..])
      else Suspended(t.effects[|t.effects| - 1])
  }

  lemma ThenFirstPhase<I, E, V, R>(b: Body<I, E, V>, k: V -> Body<I, E, R>, ys: seq<I>, j: nat)
    requires j <= |ys|
    requires var t := RunBody(b, ys); !(t.result.Some? && |t.effects| <= j)
    ensures j < |RunBody(b, ys).effects|
    ensures Then(b, k)(ys[..j]) == Suspended(RunBody(b, ys).effects[j])
  {
    RunBodyPrefix(b, ys, j);
  }

  lemma ThenSecondPhase<I, E, V, R>(b: Body<I, E, V>, k: V -> Body<I, E, R>, ys: seq<I>, j: nat)
    requires var t := RunBody(b, ys); t.result.Some? && |t.effects| <= j <= |ys|
    ensures var t := RunBody(b, ys); var n := |t.effects|;
      Then(b, k)(ys[..j]) == k(t.result.value)(ys[n..][..j - n])
  {
    var n := |RunBody(b, ys).effects|;
    RunBodyPrefix(b, ys, j);
    assert ys[..j][n..] == ys[n..][..j - n];
  }

  /** The trace law of sequencing: `b`'s effects, then those of `k(v)`; the
      value of `b` goes to `k` with no suspension in between. */
  lemma ThenTrace<I, E, V, R>(b: Body<I, E, V>, k: V -> Body<I, E, R>, ys: seq<I>)
    ensures var t := RunBody(b, ys);
      t.result.None? ==> RunBody(Then(b, k), ys) == Trace(t.effects, None)
    ensures var t := RunBody(b, ys);
      t.result.Some? ==>
        var t2 := RunBody(k(t.result.value), ys[|t.effects|..]);
        RunBody(Then(b, k), ys) == Trace(t.effects + t2.effects, t2.result)
  {
    var t := RunBody(b, ys);
    var n := |t.effects|;
    if t.result.None? {
      var cand: Trace<E, R> := Trace(t.effects, None);
      forall j | 0 <= j < |cand.effects|
        ensures j <= |ys| && Then(b, k)(ys[..j]) == Suspended(cand.effects[j])
      {
        ThenFirstPhase(b, k, ys, j);
      }
      ExplainsUnique(Then(b, k), ys, RunBody(Then(b, k), ys), cand);
    } else {
      var t2 := RunBody(k(t.result.value), ys[n..]);
      var cand := Trace(t.effects + t2.effects, t2.result);
      forall j | 0 <= j < |cand.effects|
        ensures j <= |ys| && Then(b, k)(ys[..j]) == Suspended(cand.effects[j])
      {
        if j < n {
          ThenFirstPhase(b, k, ys, j);
        } else {
          ThenSecondPhase(b, k, ys, j);
        }
      }
      if t2.result.Some? {
        ThenSecondPhase(b, k, ys, n + |t2.effects|);
      }
      assert Explains(Then(b, k), ys, cand);
      ExplainsUnique(Then(b, k), ys, RunBody(Then(b, k), ys), cand);
    }
  }

  /** `assert_effect`: pins the effect type of a computation and returns it unchanged. */
  function AssertEffect<I, E, R>(f: Comp<I, E, R>): (r: Comp<I, E, R>)
    ensures r == f
  {
    f
  }
}
