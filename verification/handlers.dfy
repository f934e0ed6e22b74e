/**
 * The handler chain of apply-handlers.js: pass one input to each handler in
 * order until one returns something other than `undefined`, and return that.
 *
 * A handler is a function from the input to what the call does: return a
 * value (`Ret(None)` is returning `undefined`) or throw. A dispatch records
 * the outcome of the whole call and the argument each invoked handler got;
 * the handlers invoked are always the first `|calls|` of the list.
 */
module HandlerChain {
  import opened Wrappers

  /** What one handler call does: return a value or `undefined`, or throw `error`. */
  datatype Outcome<V, E> = Ret(value: Option<V>) | Throw(error: E)

  /** The result of a dispatch, and the argument passed to each handler invoked, in order. */
  datatype Dispatch<I, V, E> = Dispatch(outcome: Outcome<V, E>, calls: seq<I>)

  /** A handler result that lets the search go on: a normal return of `undefined`. */
  predicate Undefined<V, E>(o: Outcome<V, E>) {
    o.Ret? && o.value.None?
  }

  /** Handler `k` is the one that ends the search: all before it returned `undefined`, it did not. */
  ghost predicate Decides<I, V, E>(handlers: seq<I -> Outcome<V, E>>, input: I, k: int) {
    && 0 <= k < |handlers|
    && !Undefined(handlers[k](input))
    && forall j :: 0 <= j < k ==> Undefined(handlers[j](input))
  }

  /**
   * The reference definition, one handler at a time. Its contract is the
   * documented behaviour: every invoked handler gets `input`; all but the last
   * invoked returned `undefined`; the outcome is `undefined` exactly when
   * every handler returned `undefined`, in which case all were invoked, and
   * otherwise it is what the last invoked handler did.
   */
  function FirstDefined<I, V, E>(handlers: seq<I -> Outcome<V, E>>, input: I): (d: Dispatch<I, V, E>)
    ensures |d.calls| <= |handlers|
    ensures forall i :: 0 <= i < |d.calls| ==> d.calls[i] == input
    ensures forall j :: 0 <= j < |d.calls| - 1 ==> Undefined(handlers[j](input))
    ensures Undefined(d.outcome) <==> forall j :: 0 <= j < |handlers| ==> Undefined(handlers[j](input))
    ensures Undefined(d.outcome) ==> d.outcome == Ret(None) && |d.calls| == |handlers|
    ensures !Undefined(d.outcome) ==> |d.calls| > 0 && d.outcome == handlers[|d.calls| - 1](input)
    decreases |handlers|
  {
    if handlers == [] then
      Dispatch(Ret(None), [])
    else
      var o := handlers[0](input);
      if Undefined(o) then
        var rest := FirstDefined(handlers[1..], input);
        assert forall j :: 0 < j < |handlers| ==> handlers[j] == handlers[1..][j - 1];
        Dispatch(rest.outcome, [input] + rest.calls)
      else
        Dispatch(o, [input])
  }

  /**
   * The exported `(handlers, inputValue)` function: a `for ... of` loop that
   * returns the first non-`undefined` result, lets a throw escape, and
   * returns `undefined` after the last handler.
   */
  method ApplyHandlers<I, V, E>(handlers: seq<I -> Outcome<V, E>>, input: I) returns (d: Dispatch<I, V, E>)
    ensures d == FirstDefined(handlers, input)
  {
    var calls: seq<I> := [];
    var i := 0;
    while i < |handlers|
      invariant 0 <= i <= |handlers|
      invariant calls == seq(i, _ => input)
      invariant forall j :: 0 <= j < i ==> Undefined(handlers[j](input))
    {
      var result := handlers[i](input);
      calls := calls + [input];
      if !Undefined(result) {
        d := Dispatch(result, calls);
        DispatchDetermined(handlers, input, d);
        assert d == FirstDefined(handlers, input);
        return;
      }
      i := i + 1;
    }
    d := Dispatch(Ret(None), calls);
    DispatchDetermined(handlers, input, d);
    assert d == FirstDefined(handlers, input);
  }

  /** The contract of `FirstDefined` pins its result down: any dispatch meeting it is that result. */
  lemma DispatchDetermined<I, V, E>(handlers: seq<I -> Outcome<V, E>>, input: I, d: Dispatch<I, V, E>)
    requires |d.calls| <= |handlers|
    requires forall i :: 0 <= i < |d.calls| ==> d.calls[i] == input
    requires forall j :: 0 <= j < |d.calls| - 1 ==> Undefined(handlers[j](input))
    requires Undefined(d.outcome) ==> forall j :: 0 <= j < |handlers| ==> Undefined(handlers[j](input))
    requires Undefined(d.outcome) ==> d.outcome == Ret(None) && |d.calls| == |handlers|
    requires !Undefined(d.outcome) ==> |d.calls| > 0 && d.outcome == handlers[|d.calls| - 1](input)
    ensures d == FirstDefined(handlers, input)
  {
  }

  /**
   * Early exit: when handler `k` decides, the result is its outcome and
   * exactly handlers `0..k` were invoked; no handler after `k` runs.
   */
  lemma FirstDefinedStopsAtDecider<I, V, E>(handlers: seq<I -> Outcome<V, E>>, input: I, k: int)
    requires Decides(handlers, input, k)
    ensures FirstDefined(handlers, input).outcome == handlers[k](input)
    ensures |FirstDefined(handlers, input).calls| == k + 1
  {
  }

  /** A handler that throws, after only `undefined` results, makes the call throw the same error. */
  lemma ThrowPropagates<I, V, E>(handlers: seq<I -> Outcome<V, E>>, input: I, k: int, e: E)
    requires 0 <= k < |handlers| && handlers[k](input) == Throw(e)
    requires forall j :: 0 <= j < k ==> Undefined(handlers[j](input))
    ensures FirstDefined(handlers, input).outcome == Throw(e)
    ensures |FirstDefined(handlers, input).calls| == k + 1
  {
    FirstDefinedStopsAtDecider(handlers, input, k);
  }

  /** When no handler returns a value (in particular with no handlers), the result is `undefined`. */
  lemma AllUndefinedGivesUndefined<I, V, E>(handlers: seq<I -> Outcome<V, E>>, input: I)
    requires forall j :: 0 <= j < |handlers| ==> Undefined(handlers[j](input))
    ensures FirstDefined(handlers, input) == Dispatch(Ret(None), seq(|handlers|, _ => input))
  {
  }

  /**
   * The chain keeps nothing between calls: if no handler throws on `input`,
   * the call returns normally, whatever an earlier call did.
   */
  lemma NoThrowReturns<I, V, E>(handlers: seq<I -> Outcome<V, E>>, input: I)
    requires forall j :: 0 <= j < |handlers| ==> handlers[j](input).Ret?
    ensures FirstDefined(handlers, input).outcome.Ret?
  {
  }

  /** Mock handlers of the recorded test: `jest.fn()` and its mocked return values and throw. */
  function Unmocked(s: string): Outcome<string, string> { Ret(None) }
  function ReturnsFoo(s: string): Outcome<string, string> { Ret(Some("foo")) }
  function ThrowsBar(s: string): Outcome<string, string> { Throw("bar") }
  function ReturnsBaz(s: string): Outcome<string, string> { Ret(Some("baz")) }

  /**
   * The recorded mock behaviour: three handlers returning `undefined` give
   * `undefined`; a third handler returning "foo" gives "foo"; a second one
   * throwing "bar" makes the call throw "bar" without calling the third; and
   * the next call, with the second handler back to `undefined`, gives "baz".
   */
  lemma MockedBehaviour()
    ensures FirstDefined([Unmocked, Unmocked, Unmocked], "test") == Dispatch(Ret(None), ["test", "test", "test"])
    ensures FirstDefined([Unmocked, Unmocked, ReturnsFoo], "test").outcome == Ret(Some("foo"))
    ensures FirstDefined([Unmocked, ThrowsBar, ReturnsBaz], "test") == Dispatch(Throw("bar"), ["test", "test"])
    ensures FirstDefined([Unmocked, Unmocked, ReturnsBaz], "test").outcome == Ret(Some("baz"))
  {
    AllUndefinedGivesUndefined([Unmocked, Unmocked, Unmocked], "test");
    FirstDefinedStopsAtDecider([Unmocked, Unmocked, ReturnsFoo], "test", 2);
    FirstDefinedStopsAtDecider([Unmocked, ThrowsBar, ReturnsBaz], "test", 1);
    FirstDefinedStopsAtDecider([Unmocked, Unmocked, ReturnsBaz], "test", 2);
  }
}
