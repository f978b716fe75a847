/** Turning panics into errors (baseapp/recovery.go). A middleware closure is the handler and the next
  middleware it captured. A handler may itself panic, and nothing recovers that panic. */
module Recovery {
  datatype PanicValue = OutOfGas | GasOverflow | Other(code: int)

  datatype Error = NoBlockGas | NoMessages | Unroutable | OutOfGasError
      | Recovered(value: PanicValue) | Custom(code: int)

  /** What a handler makes of a panic: nothing, an error, or a panic of its own. */
  datatype Answer = Pass | Fail(err: Error) | Repanic(value: PanicValue)

  type RecoveryHandler = PanicValue -> Answer

  datatype Middleware = NoMiddleware | Middleware(handler: RecoveryHandler, next: Middleware)

  function ProcessRecovery(p: PanicValue, m: Middleware): Answer {
    match m
    case NoMiddleware => Pass
    case Middleware(handler, next) => if handler(p).Pass? then ProcessRecovery(p, next) else handler(p)
  }

  const DEFAULT: Middleware := Middleware(p => Fail(Recovered(p)), NoMiddleware)

  function OutOfGasMiddleware(next: Middleware): Middleware {
    Middleware((p: PanicValue) => if p == OutOfGas then Fail(OutOfGasError) else Pass, next)
  }

  /** `AddRunTxRecoveryHandler` on the default middleware: each handler goes in front of the earlier ones. */
  function AddHandlers(handlers: seq<RecoveryHandler>): Middleware {
    if handlers == [] then DEFAULT
    else Middleware(handlers[|handlers| - 1], AddHandlers(handlers[..|handlers| - 1]))
  }

  /** What the deferred function of `runTx` makes of a panic. */
  function Recover(p: PanicValue, handlers: seq<RecoveryHandler>): Answer {
    ProcessRecovery(p, OutOfGasMiddleware(AddHandlers(handlers)))
  }

  ghost predicate AllPass(p: PanicValue, handlers: seq<RecoveryHandler>) {
    forall i :: 0 <= i < |handlers| ==> handlers[i](p).Pass?
  }

  /** Handler `k` is the one added last among those that do not pass. */
  ghost predicate Decides(p: PanicValue, handlers: seq<RecoveryHandler>, k: nat) {
    k < |handlers| && !handlers[k](p).Pass? && forall i :: k < i < |handlers| ==> handlers[i](p).Pass?
  }

  lemma {:induction false} DecidedBy(p: PanicValue, handlers: seq<RecoveryHandler>, k: nat)
    requires Decides(p, handlers, k)
    ensures ProcessRecovery(p, AddHandlers(handlers)) == handlers[k](p)
  {
    if k < |handlers| - 1 {
      DecidedBy(p, handlers[..|handlers| - 1], k);
    }
  }

  lemma {:induction false} DecidedByDefault(p: PanicValue, handlers: seq<RecoveryHandler>)
    requires AllPass(p, handlers)
    ensures ProcessRecovery(p, AddHandlers(handlers)) == Fail(Recovered(p))
  {
    if handlers != [] {
      DecidedByDefault(p, handlers[..|handlers| - 1]);
    }
  }

  lemma {:induction false} SomeoneDecides(p: PanicValue, handlers: seq<RecoveryHandler>) returns (k: nat)
    requires !AllPass(p, handlers)
    ensures Decides(p, handlers, k)
  {
    var last := |handlers| - 1;
    if handlers[last](p).Pass? {
      assert !AllPass(p, handlers[..last]);
      k := SomeoneDecides(p, handlers[..last]);
    } else {
      k := last;
    }
  }

  /** What becomes of a panic. Running out of gas always becomes the out-of-gas error; any other panic is
      decided by the handler added last among those that do not pass, and by the default when all pass.
      Hence a panic becomes an error exactly when it is out of gas, or all handlers pass, or the deciding
      handler returns an error. Otherwise the handler's own panic leaves `runTx`. */
  lemma PanicOutcome(p: PanicValue, handlers: seq<RecoveryHandler>)
    ensures !Recover(p, handlers).Pass?
    ensures p == OutOfGas ==> Recover(p, handlers) == Fail(OutOfGasError)
    ensures p != OutOfGas && AllPass(p, handlers) ==> Recover(p, handlers) == Fail(Recovered(p))
    ensures forall k: nat :: p != OutOfGas && Decides(p, handlers, k) ==> Recover(p, handlers) == handlers[k](p)
    ensures Recover(p, handlers).Fail? <==>
              p == OutOfGas || AllPass(p, handlers) || exists k: nat :: Decides(p, handlers, k) && handlers[k](p).Fail?
  {
    hide AddHandlers, AllPass;
    forall k: nat | Decides(p, handlers, k) ensures ProcessRecovery(p, AddHandlers(handlers)) == handlers[k](p) {
      DecidedBy(p, handlers, k);
    }
    forall k: nat | Decides(p, handlers, k) ensures k < |handlers| && !handlers[k](p).Pass? && !AllPass(p, handlers) {
      DeciderDoesNotPass(p, handlers, k);
    }
    if AllPass(p, handlers) {
      DecidedByDefault(p, handlers);
    } else {
      var k := SomeoneDecides(p, handlers);
    }
  }

  lemma DeciderDoesNotPass(p: PanicValue, handlers: seq<RecoveryHandler>, k: nat)
    requires Decides(p, handlers, k)
    ensures k < |handlers| && !handlers[k](p).Pass? && !AllPass(p, handlers)
  {
  }

  /** The documented use of the hook: one kind of panic is to stop the node, so its handler panics again. */
  function ConsensusFailure(code: int, raised: PanicValue): RecoveryHandler {
    (p: PanicValue) => if p == Other(code) then Repanic(raised) else Pass
  }

  /** With that handler added last, exactly that panic leaves `runTx` and every other is treated as before. */
  lemma ConsensusFailureEscapes(p: PanicValue, code: int, raised: PanicValue, handlers: seq<RecoveryHandler>)
    ensures Recover(p, handlers + [ConsensusFailure(code, raised)])
         == if p == Other(code) then Repanic(raised) else Recover(p, handlers)
  {
    var all := handlers + [ConsensusFailure(code, raised)];
    assert all[..|handlers|] == handlers;
    assert AddHandlers(all) == Middleware(ConsensusFailure(code, raised), AddHandlers(handlers));
    assert ProcessRecovery(p, AddHandlers(all))
        == if p == Other(code) then Repanic(raised) else ProcessRecovery(p, AddHandlers(handlers));
  }
}
