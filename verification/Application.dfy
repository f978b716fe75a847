/** The application object and its ABCI methods (baseapp/baseapp.go, baseapp/abci.go). Each method does
  what the machine of BlockMachine does; a true `crashed` stands for a panic that leaves the method. */
module Application {
  import opened Lex
  import opened Outcomes
  import opened Branches
  import opened Recovery
  import opened TxExecution
  import opened BlockMachine
  import opened StoreKeys

  class BaseApp {
    const cfg: AppConfig
    var committed: View
    var version: int
    var initialHeight: int
    var initialVersion: int
    var deliverState: Option<Delivering>
    var checkState: Branch
    var checkHeader: Header
    var checkSeesBlock: bool

    function Now(): App
      reads this
    {
      App(committed, version, initialHeight, initialVersion, deliverState, checkState, checkHeader, checkSeesBlock)
    }

    constructor (c: AppConfig)
      ensures cfg == c && Now() == FRESH
    {
      cfg := c;
      committed, version, initialHeight, initialVersion := map[], 0, 0, 0;
      deliverState, checkState, checkHeader, checkSeesBlock := None, NEW_BRANCH, Header(0, []), false;
    }

    method ValidateBasicTxMsgs(msgs: seq<Bytes>) returns (r: Ending)
      ensures r == ValidateBasic(cfg.tx, msgs)
      ensures r.Good? <==> BasicallyValid(cfg.tx, msgs)
    {
      ValidateBasicIsAll(cfg.tx, msgs);
      if msgs == [] {
        return Bad(NoMessages);
      }
      for i := 0 to |msgs|
        invariant FirstProblem(cfg.tx, msgs) == FirstProblem(cfg.tx, msgs[i..])
      {
        r := cfg.tx.validateBasic(msgs[i]);
        if !r.Good? {
          return;
        }
      }
      return Good;
    }

    /** `runMsgs` outside CheckTx: the loop over the messages on one branch of `view`. */
    method RunMessages(env: Env, view: View, meter: Meter, msgs: seq<Bytes>) returns (e: Effect)
      ensures e == RunMsgs(cfg.tx, env, view, meter, msgs)
    {
      hide Route, Through, Invoke;
      var writes: Writes, gas, block := map[], meter, env.block;
      ghost var rest := RunMsgs(cfg.tx, env, view, meter, msgs);
      EmptyBranch(view, rest.writes);
      for i := 0 to |msgs|
        invariant rest == RunMsgs(cfg.tx, env.(block := block), Through(view, writes), gas, msgs[i..])
        invariant RunMsgs(cfg.tx, env, view, meter, msgs) == rest.(writes := writes + rest.writes)
      {
        assert msgs[i..][0] == msgs[i] && msgs[i..][1..] == msgs[i + 1..];
        var handler := Route(cfg.tx, msgs[i]);
        if handler.None? {
          return Effect(writes, gas, block, Bad(Unroutable));
        }
        var step := Invoke(handler.value, env.(block := block), Through(view, writes), gas, msgs[i]);
        if !step.ending.Good? {
          return Effect(writes + step.writes, step.meter, step.block, step.ending);
        }
        BranchOfBranch(view, writes, step.writes);
        writes, gas, block := writes + step.writes, step.meter, step.block;
        rest := RunMsgs(cfg.tx, env.(block := block), Through(view, writes), gas, msgs[i + 1..]);
      }
      return Effect(writes, gas, block, Good);
    }

    /** `runTx` without its deferred functions. `gas` is the meter of the state's context, `meter` that
        of the transaction's context; both are the same object until the ante handler sets its own. */
    method Execute(env: Env, store: View, b: Branch, tx: Bytes) returns (body: Body)
      ensures body == TxBody(cfg.tx, env, store, b, tx)
    {
      hide RunMsgs, ValidateBasic, Through, InvokeAnte;
      var writes, gas, meter, block, own := b.writes, b.gas, b.gas, env.block, false;
      var decoded := cfg.tx.decode(tx);
      if decoded.Undecodable? {
        return Body(b, meter, block, Bad(decoded.err));
      }
      if decoded.DecoderPanicked? {
        return Body(b, meter, block, Panicked(decoded.value));
      }
      var basic := ValidateBasicTxMsgs(decoded.msgs);
      if !basic.Good? {
        return Body(b, meter, block, basic);
      }
      if cfg.tx.ante.Some? {
        var a := InvokeAnte(cfg.tx.ante.value, env, Through(store, writes), gas, tx);
        gas, meter, block := a.base, a.base, a.block;
        if a.ending.Panicked? {
          return Body(Branch(writes, gas), meter, block, a.ending);
        }
        if a.own.Some? {
          meter, own := a.own.value, true;
        }
        if a.ending.Bad? {
          return Body(Branch(writes, gas), meter, block, a.ending);
        }
        writes := writes + a.writes;
      }
      if env.mode == Check || env.mode == ReCheck {
        return Body(Branch(writes, gas), meter, block, Good);
      }
      var e := RunMessages(env.(block := block), Through(store, writes), meter, decoded.msgs);
      if !own {
        gas := e.meter;
      }
      if e.ending.Good? && env.mode == Deliver {
        writes := writes + e.writes;
      }
      return Body(Branch(writes, gas), e.meter, e.block, e.ending);
    }

    /** The deferred functions: charge the block, then turn a panic into an error, unless a recovery handler
        panics itself. */
    method Finish(mode: Mode, body: Body, starting: Gas, block: Meter) returns (after: Meter, outcome: TxOutcome)
      ensures mode == Deliver ==>
                var (charged, p) := Charge(starting, block, body.meter.ToLimit());
                && after == charged && outcome == Report(cfg.tx, body.ending, p)
                && (outcome.Escaped? <==> !Handled(cfg.tx, FinalPanic(body.ending, p)))
      ensures mode != Deliver ==>
                && after == block && outcome == Report(cfg.tx, body.ending, None)
                && (outcome.Escaped? <==> !Handled(cfg.tx, FinalPanic(body.ending, None)))
      ensures outcome.Succeeded? <==>
                body.ending.Good? && (mode == Deliver ==> Fits(starting, block, body.meter.ToLimit()))
    {
      hide Recover, Handled;
      var panic := if body.ending.Panicked? then Some(body.ending.value) else None;
      outcome := if body.ending.Bad? then Failed(body.ending.err) else Succeeded;
      after := block;
      ReportOutcome(cfg.tx, body.ending, None);
      if mode == Deliver {
        var amount := body.meter.ToLimit();
        var consumed := block.Consume(amount);
        after := consumed.0;
        ChargeFits(starting, block, amount);
        ReportOutcome(cfg.tx, body.ending, Charge(starting, block, amount).1);
        if consumed.1.Some? {
          panic := consumed.1;
        } else if after.consumed < starting {
          panic := Some(GasOverflow);
        }
      }
      if panic.Some? {
        var answer := Recover(panic.value, cfg.tx.recovery);
        outcome := match answer
          case Pass => Succeeded
          case Fail(err) => Failed(err)
          case Repanic(value) => Escaped(value);
      }
    }

    /** `getContextForTx`, BeginBlock and EndBlock read the parameters through a state's context. */
    method GetConsensusParams(b: Branch) returns (r: Outcome<Branch>)
      ensures r == ReadParams(cfg, committed, b)
      ensures r.Value? ==> r.value.writes == b.writes
    {
      hide Through;
      if !cfg.hasParams {
        return Value(b);
      }
      var gas := cfg.readParams(Through(committed, b.writes), b.gas);
      return if gas.None? then Panic else Value(b.(gas := gas.value));
    }

    /** `runTx` on the deliver state. The branch and the meter are changed even when a panic leaves it. */
    method RunDeliverTx(tx: Bytes) returns (crashed: bool, err: Option<Error>)
      modifies this`deliverState
      ensures crashed == DeliverStep(cfg, old(Now()), tx).Crash?
      ensures !crashed ==> DeliverStep(cfg, old(Now()), tx) == Next(Now(), [Delivered(err)])
      ensures old(deliverState).None? || old(deliverState).value.block.None? ==> crashed && Now() == old(Now())
      ensures old(deliverState).Some? && old(deliverState).value.block.Some? ==>
                var d := old(deliverState).value;
                var b := ReadParams(cfg, committed, d.branch);
                && (b.Panic? ==> crashed && Now() == old(Now()))
                && (b.Value? ==>
                      var r := RunDeliver(cfg.tx, d.header, committed, b.value, d.block.value, tx);
                      && deliverState == Some(d.(branch := r.branch, block := Some(r.block)))
                      && (crashed <==> r.outcome.Escaped?))
    {
      hide TxBody, Charge, Report, Handled, ReadParams;
      err := None;
      if deliverState.None? || deliverState.value.block.None? {
        return true, err;
      }
      var d := deliverState.value;
      var b := GetConsensusParams(d.branch);
      if b.Panic? {
        return true, err;
      }
      var block := d.block.value;
      deliverState := Some(d.(branch := b.value));
      if block.IsOutOfGas() {
        return false, Some(NoBlockGas);
      }
      var body := Execute(Env(Deliver, d.header, Some(block)), committed, b.value, tx);
      var outcome;
      block, outcome := Finish(Deliver, body, block.consumed, BlockOf(body, block));
      deliverState := Some(d.(branch := body.branch, block := Some(block)));
      return outcome.Escaped?, ErrorOf(outcome);
    }

    /** `runTx` on the check state. */
    method RunCheckTx(mode: Mode, tx: Bytes) returns (crashed: bool, err: Option<Error>)
      requires mode != Deliver
      modifies this`checkState, this`deliverState
      ensures crashed == CheckStep(cfg, old(Now()), mode, tx).Crash?
      ensures !crashed ==> CheckStep(cfg, old(Now()), mode, tx) == Next(Now(), [])
      ensures var b := ReadParams(cfg, committed, old(checkState));
        && (b.Panic? ==> crashed && Now() == old(Now()))
        && (b.Value? ==>
              var r := RunCheck(cfg.tx, CheckEnv(old(Now()), mode), committed, b.value, tx);
              checkState == r.branch && (crashed <==> r.outcome.Escaped?) && err == ErrorOf(r.outcome))
    {
      hide TxBody, Report, Handled, ReadParams;
      var env := CheckEnv(Now(), mode);
      var b := GetConsensusParams(checkState);
      if b.Panic? {
        return true, None;
      }
      var body := Execute(env, committed, b.value, tx);
      var unused, outcome := Finish(mode, body, 0, Infinite(0));
      if SharesBlock(Now()) {
        deliverState := Some(deliverState.value.(block := body.block));
      }
      checkState := if mode == Simulate then body.branch.(writes := checkState.writes) else body.branch;
      return outcome.Escaped?, ErrorOf(outcome);
    }

    method SetCheckState(header: Header)
      modifies this`checkState, this`checkHeader, this`checkSeesBlock
      ensures Now() == BlockMachine.SetCheckState(old(Now()), header)
    {
      checkState, checkHeader, checkSeesBlock := NEW_BRANCH, header, false;
    }

    /** Runs a block handler on the deliver state. */
    method Blocker(handler: Option<Handler>, request: Bytes) returns (crashed: bool)
      requires deliverState.Some?
      modifies this`deliverState
      ensures var r := RunBlocker(handler, committed, old(deliverState).value, request);
        crashed == r.Panic? && deliverState == if crashed then old(deliverState) else Some(r.value)
    {
      if handler.None? {
        return false;
      }
      var d := deliverState.value;
      var e := Invoke(handler.value, Env(Deliver, d.header, d.block),
                      Through(committed, d.branch.writes), d.branch.gas, request);
      if !e.ending.Good? {
        return true;
      }
      deliverState := Some(d.(branch := Branch(d.branch.writes + e.writes, e.meter), block := e.block));
      return false;
    }

    /** The comparison of InitChain: both lists are sorted and compared element by element. It passes exactly
        for permutations. */
    method CompareValidators(requested: seq<Bytes>, returned: seq<Bytes>) returns (same: bool)
      ensures same == SameValidators(requested, returned)
      ensures same <==> requested == [] || multiset(requested) == multiset(returned)
    {
      hide SortStrings;
      ValidatorsPermuted(requested, returned);
      if requested == [] {
        return true;
      }
      if |requested| != |returned| {
        return false;
      }
      var a, b := SortStrings(requested), SortStrings(returned);
      for i := 0 to |b|
        invariant a[..i] == b[..i]
      {
        if a[i] != b[i] {
          return false;
        }
      }
      return true;
    }

    method InitChain(req: InitRequest) returns (crashed: bool)
      modifies this
      ensures crashed == InitStep(cfg, old(Now()), req).Crash?
      ensures !crashed ==> InitStep(cfg, old(Now()), req) == Next(Now(), [])
    {
      hide Through, SameValidators;
      var header := Header(0, req.rest);
      if req.initialHeight > 1 {
        initialHeight, initialVersion := req.initialHeight, req.initialHeight;
        header := Header(req.initialHeight, req.rest);
      }
      deliverState := Some(Delivering(NEW_BRANCH, header, None));
      SetCheckState(header);
      if req.params.Some? {
        if !cfg.hasParams {
          return true;
        }
        var gas := cfg.writeParams(req.params.value, Infinite(0));
        if gas.None? {
          return true;
        }
        EmptyBranch(committed, req.params.value);
        deliverState := Some(deliverState.value.(branch := Branch(map[] + req.params.value, gas.value)));
      }
      if cfg.initChainer.None? {
        return false;
      }
      var d := deliverState.value.(block := Some(Infinite(0)));
      deliverState := Some(d);
      var env := Env(Deliver, header, d.block);
      var (e, validators) := cfg.initChainer.value(env, Through(committed, d.branch.writes), d.branch.gas, req.rest);
      if !e.ending.Good? {
        return true;
      }
      var writes, block := d.branch.writes + e.writes, Changed(d.block, e.block);
      deliverState := Some(d.(branch := Branch(writes, e.meter), block := block));
      var same := CompareValidators(req.validators, validators);
      return !same;
    }

    method BeginBlock(header: Header) returns (crashed: bool)
      modifies this`deliverState, this`checkSeesBlock
      ensures crashed == BeginStep(cfg, old(Now()), header).Crash?
      ensures !crashed ==> BeginStep(cfg, old(Now()), header) == Next(Now(), [Accepted(header.height)])
    {
      hide RunBlocker, ReadParams, MaxGas;
      if header.height < 1 {
        return true;
      }
      var expected := if version == 0 && initialHeight > 1 then initialHeight else version + 1;
      if header.height != expected {
        return true;
      }
      if deliverState.None? {
        deliverState := Some(Delivering(NEW_BRANCH, header, None));
      } else {
        deliverState := Some(deliverState.value.(header := header));
      }
      var start := deliverState.value.branch;
      var branch := GetConsensusParams(start);
      if branch.Panic? {
        return true;
      }
      var meter := BlockMeter(MaxGas(cfg, committed, start));
      if meter.Panic? {
        return true;
      }
      deliverState := Some(Delivering(branch.value, header, Some(meter.value)));
      checkSeesBlock := true;
      crashed := Blocker(cfg.beginBlocker, header.rest);
    }

    method EndBlock(request: Bytes) returns (crashed: bool)
      modifies this`deliverState
      ensures crashed == EndStep(cfg, old(Now()), request).Crash?
      ensures !crashed ==> EndStep(cfg, old(Now()), request) == Next(Now(), [])
    {
      hide RunBlocker, ReadParams;
      if deliverState.None? {
        return true;
      }
      crashed := Blocker(cfg.endBlocker, request);
      if crashed {
        return;
      }
      var branch := GetConsensusParams(deliverState.value.branch);
      if branch.Panic? {
        return true;
      }
      deliverState := Some(deliverState.value.(branch := branch.value));
    }

    /** `Commit`: the deliver branch is written to the root store, the check state starts anew from it. */
    method Commit() returns (crashed: bool)
      modifies this
      ensures crashed == CommitStep(old(Now())).Crash?
      ensures !crashed ==> CommitStep(old(Now())) == Next(Now(), [Committed(version, committed)])
    {
      hide Through;
      if deliverState.None? {
        return true;
      }
      var header := deliverState.value.header;
      committed := Through(committed, deliverState.value.branch.writes);
      version := if version == 0 && initialVersion > 1 then initialVersion else version + 1;
      SetCheckState(header);
      deliverState := None;
      return false;
    }
  }

  lemma EmptyBranch(view: View, w: Writes)
    ensures Through(view, map[]) == view && map[] + w == w
  {
  }
}
