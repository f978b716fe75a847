/** Running one transaction: `runTx` and `runMsgs` (baseapp/baseapp.go), gas meters (store/types/gas.go).

  The decoder, the ante handler, the message handlers and the recovery handlers are parameters. They
  read a view of the store and return their writes, what they leave in the gas meter and in the block
  gas meter, and how they ended. */
module TxExecution {
  import opened Lex
  import opened Outcomes
  import opened Branches
  import opened Recovery

  const MAX_GAS: int := 0xFFFF_FFFF_FFFF_FFFF
  type Gas = g: int | 0 <= g <= MAX_GAS

  datatype Meter = Basic(limit: Gas, consumed: Gas) | Infinite(consumed: Gas) {
    predicate IsOutOfGas() {
      Basic? && consumed >= limit
    }

    function ToLimit(): Gas {
      if Basic? && consumed > limit then limit else consumed
    }

    /** `ConsumeGas`. On overflow the consumed amount is set to zero before the panic. */
    function Consume(amount: Gas): (Meter, Option<PanicValue>) {
      if MAX_GAS - consumed < amount then (this.(consumed := 0), Some(GasOverflow))
      else
        var m := this.(consumed := consumed + amount);
        (m, if m.Basic? && m.consumed > m.limit then Some(OutOfGas) else None)
    }
  }

  datatype Mode = Check | ReCheck | Simulate | Deliver

  datatype Header = Header(height: int, rest: Bytes)

  /** What a handler can see of its context besides the store and its gas meter. */
  datatype Env = Env(mode: Mode, header: Header, block: Option<Meter>)

  datatype Ending = Good | Bad(err: Error) | Panicked(value: PanicValue)

  datatype Effect = Effect(writes: Writes, meter: Meter, block: Option<Meter>, ending: Ending)

  type Handler = (Env, View, Meter, Bytes) -> Effect

  /** `base` is the meter the handler was given, `own` the meter of the context it returned, if it
      returned one. */
  datatype AnteEffect = AnteEffect(writes: Writes, base: Meter, own: Option<Meter>,
                                   block: Option<Meter>, ending: Ending)

  type AnteHandler = (Env, View, Meter, Bytes) -> AnteEffect

  datatype Decoded = Decoded(msgs: seq<Bytes>) | Undecodable(err: Error) | DecoderPanicked(value: PanicValue)

  datatype Config = Config(
    decode: Bytes -> Decoded,
    validateBasic: Bytes -> Ending,
    ante: Option<AnteHandler>,
    service: Bytes -> Option<Handler>,
    legacyRoute: Bytes -> Option<Bytes>,
    router: Bytes -> Option<Handler>,
    recovery: seq<RecoveryHandler>)

  /** A handler can change what a block gas meter has consumed, not whether there is one. */
  function Changed(before: Option<Meter>, after: Option<Meter>): Option<Meter> {
    if before.Some? && after.Some? then after else before
  }

  function Invoke(h: Handler, env: Env, view: View, meter: Meter, msg: Bytes): Effect {
    var e := h(env, view, meter, msg);
    e.(block := Changed(env.block, e.block))
  }

  function InvokeAnte(h: AnteHandler, env: Env, view: View, meter: Meter, tx: Bytes): AnteEffect {
    var a := h(env, view, meter, tx);
    a.(block := Changed(env.block, a.block))
  }

  /** The handler of a message: the service router first, then the legacy router. */
  function Route(cfg: Config, msg: Bytes): Option<Handler> {
    if cfg.service(msg).Some? then cfg.service(msg)
    else if cfg.legacyRoute(msg).Some? then cfg.router(cfg.legacyRoute(msg).value)
    else None
  }

  function ValidateBasic(cfg: Config, msgs: seq<Bytes>): Ending {
    if msgs == [] then Bad(NoMessages) else FirstProblem(cfg, msgs)
  }

  function FirstProblem(cfg: Config, msgs: seq<Bytes>): Ending {
    if msgs == [] then Good
    else if !cfg.validateBasic(msgs[0]).Good? then cfg.validateBasic(msgs[0])
    else FirstProblem(cfg, msgs[1..])
  }

  /** `runMsgs`: each message sees the writes of the earlier ones; the first failure ends it. */
  function RunMsgs(cfg: Config, env: Env, view: View, meter: Meter, msgs: seq<Bytes>): Effect
    decreases |msgs|
  {
    if msgs == [] then Effect(map[], meter, env.block, Good)
    else
      var handler := Route(cfg, msgs[0]);
      if handler.None? then Effect(map[], meter, env.block, Bad(Unroutable))
      else
        var e := Invoke(handler.value, env, view, meter, msgs[0]);
        if !e.ending.Good? then e
        else
          var rest := RunMsgs(cfg, env.(block := e.block), Through(view, e.writes), e.meter, msgs[1..]);
          rest.(writes := e.writes + rest.writes)
  }

  lemma {:induction false} KeepsBlockMeter(cfg: Config, env: Env, view: View, meter: Meter, msgs: seq<Bytes>)
    ensures RunMsgs(cfg, env, view, meter, msgs).block.Some? <==> env.block.Some?
    decreases |msgs|
  {
    hide Through, Route;
    if msgs != [] && Route(cfg, msgs[0]).Some? {
      var e := Invoke(Route(cfg, msgs[0]).value, env, view, meter, msgs[0]);
      KeepsBlockMeter(cfg, env.(block := e.block), Through(view, e.writes), e.meter, msgs[1..]);
    }
  }

  /** A branched store with the gas meter of its context. */
  datatype Branch = Branch(writes: Writes, gas: Meter)

  /** `branch` is what is left in the branch, `meter` and `block` the meters of the current context. */
  datatype Body = Body(branch: Branch, meter: Meter, block: Option<Meter>, ending: Ending)

  /** The messages of a transaction. `own` tells whether the context has a meter of its own. */
  function RunOrSkipMsgs(cfg: Config, env: Env, committed: View, b: Branch, meter: Meter, own: bool,
                         msgs: seq<Bytes>): Body
  {
    if env.mode == Check || env.mode == ReCheck then Body(b, meter, env.block, Good)
    else
      var e := RunMsgs(cfg, env, Through(committed, b.writes), meter, msgs);
      var gas := if own then b.gas else e.meter;
      if e.ending.Good? && env.mode == Deliver then Body(Branch(b.writes + e.writes, gas), e.meter, e.block, Good)
      else Body(Branch(b.writes, gas), e.meter, e.block, e.ending)
  }

  function AfterAnte(cfg: Config, env: Env, committed: View, b: Branch, a: AnteEffect, msgs: seq<Bytes>): Body {
    var meter := if a.own.Some? then a.own.value else a.base;
    match a.ending
    case Panicked(_) => Body(Branch(b.writes, a.base), a.base, a.block, a.ending)
    case Bad(_) => Body(Branch(b.writes, a.base), meter, a.block, a.ending)
    case Good =>
      RunOrSkipMsgs(cfg, env.(block := a.block), committed, Branch(b.writes + a.writes, a.base),
                    meter, a.own.Some?, msgs)
  }

  /** `runTx` between its deferred functions. */
  function TxBody(cfg: Config, env: Env, committed: View, b: Branch, tx: Bytes): Body {
    match cfg.decode(tx)
    case Undecodable(err) => Body(b, b.gas, env.block, Bad(err))
    case DecoderPanicked(p) => Body(b, b.gas, env.block, Panicked(p))
    case Decoded(msgs) =>
      var basic := ValidateBasic(cfg, msgs);
      if !basic.Good? then Body(b, b.gas, env.block, basic)
      else if cfg.ante.None? then RunOrSkipMsgs(cfg, env, committed, b, b.gas, false, msgs)
      else AfterAnte(cfg, env, committed, b,
                     InvokeAnte(cfg.ante.value, env, Through(committed, b.writes), b.gas, tx), msgs)
  }

  /** The deferred charge to the block gas meter, which had consumed `start` before the transaction. */
  function Charge(start: Gas, block: Meter, amount: Gas): (Meter, Option<PanicValue>) {
    var (after, p) := block.Consume(amount);
    (after, if p.None? && after.consumed < start then Some(GasOverflow) else p)
  }

  /** How `runTx` ends: without error, with an error, or with a panic that leaves it. */
  datatype TxOutcome = Succeeded | Failed(err: Error) | Escaped(value: PanicValue)

  /** The panic that reaches the recovery chain: a later one replaces an earlier one. */
  function FinalPanic(ending: Ending, charge: Option<PanicValue>): Option<PanicValue> {
    if charge.Some? then charge else if ending.Panicked? then Some(ending.value) else None
  }

  function Report(cfg: Config, ending: Ending, charge: Option<PanicValue>): TxOutcome {
    var p := FinalPanic(ending, charge);
    if p.None? then (if ending.Bad? then Failed(ending.err) else Succeeded)
    else match Recover(p.value, cfg.recovery)
      case Pass => Succeeded
      case Fail(err) => Failed(err)
      case Repanic(value) => Escaped(value)
  }

  function BlockOf(body: Body, block: Meter): Meter {
    if body.block.Some? then body.block.value else block
  }

  datatype Ran = Ran(branch: Branch, block: Meter, outcome: TxOutcome)

  function RunDeliver(cfg: Config, header: Header, committed: View, b: Branch, block: Meter, tx: Bytes): Ran {
    if block.IsOutOfGas() then Ran(b, block, Failed(NoBlockGas))
    else
      var body := TxBody(cfg, Env(Deliver, header, Some(block)), committed, b, tx);
      var (after, p) := Charge(block.consumed, BlockOf(body, block), body.meter.ToLimit());
      Ran(body.branch, after, Report(cfg, body.ending, p))
  }

  datatype Checked = Checked(branch: Branch, block: Option<Meter>, outcome: TxOutcome)

  /** CheckTx and simulation. A simulation runs on one more branch, which is dropped. */
  function RunCheck(cfg: Config, env: Env, committed: View, b: Branch, tx: Bytes): Checked
    requires env.mode != Deliver
  {
    var body := TxBody(cfg, env, committed, b, tx);
    Checked(if env.mode == Simulate then body.branch.(writes := b.writes) else body.branch,
            body.block, Report(cfg, body.ending, None))
  }

  // ---------------------------------------------------------------- what a message list does

  function Merged(es: seq<Effect>): Writes {
    if es == [] then map[] else Merged(es[..|es| - 1]) + es[|es| - 1].writes
  }

  function MeterAt(meter: Meter, es: seq<Effect>): Meter {
    if es == [] then meter else es[|es| - 1].meter
  }

  function BlockAt(block: Option<Meter>, es: seq<Effect>): Option<Meter> {
    if es == [] then block else es[|es| - 1].block
  }

  ghost predicate StepSucceeds(cfg: Config, env: Env, view: View, meter: Meter, msgs: seq<Bytes>,
                               es: seq<Effect>, i: nat)
    requires i < |msgs| == |es|
  {
    && es[i].ending.Good?
    && Route(cfg, msgs[i]).Some?
    && es[i] == Invoke(Route(cfg, msgs[i]).value, env.(block := BlockAt(env.block, es[..i])),
                     Through(view, Merged(es[..i])), MeterAt(meter, es[..i]), msgs[i])
  }

  /** Every message has a handler and succeeds on what the messages before it left; `es` are the effects. */
  ghost predicate AllSucceed(cfg: Config, env: Env, view: View, meter: Meter, msgs: seq<Bytes>, es: seq<Effect>) {
    |es| == |msgs| && forall i :: 0 <= i < |es| ==> StepSucceeds(cfg, env, view, meter, msgs, es, i)
  }

  lemma MergedLast(es: seq<Effect>)
    requires es != []
    ensures Merged(es) == Merged(es[..|es| - 1]) + es[|es| - 1].writes
  {
  }

  lemma {:induction false} MergedCons(e: Effect, es: seq<Effect>)
    ensures Merged([e] + es) == e.writes + Merged(es)
  {
    if es == [] {
      assert [e] + es == [e] && [e][..0] == [];
    } else {
      MergedLast([e] + es);
      MergedLast(es);
      assert ([e] + es)[..|es|] == [e] + es[..|es| - 1];
      hide Merged;
      MergedCons(e, es[..|es| - 1]);
      MergeAssociative(e.writes, Merged(es[..|es| - 1]), es[|es| - 1].writes);
    }
  }

  lemma TailStep(cfg: Config, env: Env, view: View, meter: Meter, msgs: seq<Bytes>, es: seq<Effect>, i: nat)
    requires i + 1 < |msgs| == |es|
    ensures StepSucceeds(cfg, env, view, meter, msgs, es, i + 1)
        <==> StepSucceeds(cfg, env.(block := es[0].block), Through(view, es[0].writes), es[0].meter,
                          msgs[1..], es[1..], i)
  {
    hide Route, Through;
    assert es[..i + 1] == [es[0]] + es[1..][..i];
    MergedCons(es[0], es[1..][..i]);
    BranchOfBranch(view, es[0].writes, Merged(es[1..][..i]));
  }

  lemma AllSucceedCons(cfg: Config, env: Env, view: View, meter: Meter, msgs: seq<Bytes>, es: seq<Effect>)
    requires |es| == |msgs| > 0
    ensures AllSucceed(cfg, env, view, meter, msgs, es)
        <==> && StepSucceeds(cfg, env, view, meter, msgs, es, 0)
             && AllSucceed(cfg, env.(block := es[0].block), Through(view, es[0].writes), es[0].meter,
                           msgs[1..], es[1..])
  {
    hide StepSucceeds, Through;
    forall i | 0 <= i < |msgs| - 1
      ensures StepSucceeds(cfg, env, view, meter, msgs, es, i + 1)
          <==> StepSucceeds(cfg, env.(block := es[0].block), Through(view, es[0].writes), es[0].meter,
                            msgs[1..], es[1..], i)
    {
      TailStep(cfg, env, view, meter, msgs, es, i);
    }
    if AllSucceed(cfg, env.(block := es[0].block), Through(view, es[0].writes), es[0].meter, msgs[1..], es[1..])
       && StepSucceeds(cfg, env, view, meter, msgs, es, 0) {
      forall i | 0 <= i < |es| ensures StepSucceeds(cfg, env, view, meter, msgs, es, i) {
        if i > 0 {
          assert StepSucceeds(cfg, env.(block := es[0].block), Through(view, es[0].writes), es[0].meter,
                              msgs[1..], es[1..], i - 1);
        }
      }
    }
  }

  lemma FirstStep(cfg: Config, env: Env, view: View, meter: Meter, msgs: seq<Bytes>, es: seq<Effect>)
    requires |es| == |msgs| > 0
    ensures StepSucceeds(cfg, env, view, meter, msgs, es, 0)
        <==> es[0].ending.Good? && Route(cfg, msgs[0]).Some?
             && es[0] == Invoke(Route(cfg, msgs[0]).value, env, view, meter, msgs[0])
  {
    hide Route;
    assert es[..0] == [];
    assert Through(view, map[]) == view;
  }

  /** When every message succeeds, `runMsgs` succeeds with their writes in order. */
  lemma {:induction false} SuccessIsMerged(cfg: Config, env: Env, view: View, meter: Meter, msgs: seq<Bytes>,
                                           es: seq<Effect>)
    requires AllSucceed(cfg, env, view, meter, msgs, es)
    ensures RunMsgs(cfg, env, view, meter, msgs) == Effect(Merged(es), MeterAt(meter, es), BlockAt(env.block, es), Good)
    decreases |msgs|
  {
    hide AllSucceed, StepSucceeds, Route, Through;
    AllSucceedLength(cfg, env, view, meter, msgs, es);
    if msgs != [] {
      AllSucceedCons(cfg, env, view, meter, msgs, es);
      FirstStep(cfg, env, view, meter, msgs, es);
      SuccessIsMerged(cfg, env.(block := es[0].block), Through(view, es[0].writes), es[0].meter, msgs[1..], es[1..]);
      MergedCons(es[0], es[1..]);
      assert es == [es[0]] + es[1..];
    }
  }

  lemma AllSucceedLength(cfg: Config, env: Env, view: View, meter: Meter, msgs: seq<Bytes>, es: seq<Effect>)
    requires AllSucceed(cfg, env, view, meter, msgs, es)
    ensures |es| == |msgs|
  {
  }

  lemma AllSucceedNone(cfg: Config, env: Env, view: View, meter: Meter)
    ensures AllSucceed(cfg, env, view, meter, [], [])
  {
  }

  /** When `runMsgs` succeeds, every message did. */
  lemma {:induction false} SuccessMeansAll(cfg: Config, env: Env, view: View, meter: Meter, msgs: seq<Bytes>)
    returns (es: seq<Effect>)
    requires RunMsgs(cfg, env, view, meter, msgs).ending.Good?
    ensures AllSucceed(cfg, env, view, meter, msgs, es)
    decreases |msgs|
  {
    hide AllSucceed, StepSucceeds, Route, Through;
    if msgs == [] {
      AllSucceedNone(cfg, env, view, meter);
      es := [];
    } else {
      var e := Invoke(Route(cfg, msgs[0]).value, env, view, meter, msgs[0]);
      var rest := SuccessMeansAll(cfg, env.(block := e.block), Through(view, e.writes), e.meter, msgs[1..]);
      AllSucceedLength(cfg, env.(block := e.block), Through(view, e.writes), e.meter, msgs[1..], rest);
      es := [e] + rest;
      assert es[1..] == rest;
      FirstStep(cfg, env, view, meter, msgs, es);
      AllSucceedCons(cfg, env, view, meter, msgs, es);
    }
  }

  // ---------------------------------------------------------------- what a transaction does

  ghost predicate BasicallyValid(cfg: Config, msgs: seq<Bytes>) {
    msgs != [] && forall i :: 0 <= i < |msgs| ==> cfg.validateBasic(msgs[i]).Good?
  }

  lemma {:induction false} ValidateBasicIsAll(cfg: Config, msgs: seq<Bytes>)
    ensures FirstProblem(cfg, msgs).Good? <==> forall i :: 0 <= i < |msgs| ==> cfg.validateBasic(msgs[i]).Good?
  {
    if msgs != [] {
      ValidateBasicIsAll(cfg, msgs[1..]);
      assert forall i :: 0 <= i < |msgs| - 1 ==> msgs[1..][i] == msgs[i + 1];
      assert forall i :: 0 < i < |msgs| ==> msgs[i] == msgs[1..][i - 1];
    }
  }

  /** Without an ante handler nothing is written and the meter stays. */
  function Ante(cfg: Config, env: Env, committed: View, b: Branch, tx: Bytes): AnteEffect {
    if cfg.ante.None? then AnteEffect(map[], b.gas, None, env.block, Good)
    else InvokeAnte(cfg.ante.value, env, Through(committed, b.writes), b.gas, tx)
  }

  /** The transaction decodes, its messages are valid on their own and the ante handler passes it. */
  ghost predicate Admitted(cfg: Config, env: Env, committed: View, b: Branch, tx: Bytes) {
    && cfg.decode(tx).Decoded?
    && BasicallyValid(cfg, cfg.decode(tx).msgs)
    && Ante(cfg, env, committed, b, tx).ending.Good?
  }

  function AnteMeter(a: AnteEffect): Meter {
    if a.own.Some? then a.own.value else a.base
  }

  /** Every message of an admitted transaction succeeds, with effects `es`. */
  ghost predicate MessagesSucceed(cfg: Config, env: Env, committed: View, b: Branch, tx: Bytes, es: seq<Effect>)
    requires cfg.decode(tx).Decoded?
  {
    var a := Ante(cfg, env, committed, b, tx);
    AllSucceed(cfg, env.(block := a.block), Through(committed, b.writes + a.writes), AnteMeter(a),
               cfg.decode(tx).msgs, es)
  }

  /** The charge stays within the block's limit and does not fall below what was consumed before. */
  predicate Fits(start: Gas, block: Meter, amount: Gas) {
    start <= block.consumed + amount <= if block.Basic? then block.limit else MAX_GAS
  }

  lemma BodyNotAdmitted(cfg: Config, env: Env, committed: View, b: Branch, tx: Bytes)
    requires !Admitted(cfg, env, committed, b, tx)
    ensures var body := TxBody(cfg, env, committed, b, tx);
      body.branch.writes == b.writes && !body.ending.Good?
  {
    hide Through, RunOrSkipMsgs;
    if cfg.decode(tx).Decoded? {
      ValidateBasicIsAll(cfg, cfg.decode(tx).msgs);
    }
  }

  lemma BodyAdmitted(cfg: Config, env: Env, committed: View, b: Branch, tx: Bytes)
    requires Admitted(cfg, env, committed, b, tx)
    ensures var a := Ante(cfg, env, committed, b, tx);
      TxBody(cfg, env, committed, b, tx) ==
      RunOrSkipMsgs(cfg, env.(block := a.block), committed, Branch(b.writes + a.writes, a.base),
                    AnteMeter(a), a.own.Some?, cfg.decode(tx).msgs)
  {
    hide Through, RunOrSkipMsgs;
    ValidateBasicIsAll(cfg, cfg.decode(tx).msgs);
    assert b.writes + map[] == b.writes;
  }

  lemma ChargeFits(start: Gas, block: Meter, amount: Gas)
    ensures Charge(start, block, amount).1.None? <==> Fits(start, block, amount)
    ensures Fits(start, block, amount) ==> Charge(start, block, amount).0.consumed == block.consumed + amount
  {
  }

  /** The panic, if any, ends as an error: there is none, it is out of gas, all added recovery handlers
      pass it, or the one that decides about it returns an error. */
  ghost predicate Handled(cfg: Config, p: Option<PanicValue>) {
    p.Some? ==>
      || p.value == OutOfGas || AllPass(p.value, cfg.recovery)
      || exists k: nat :: Decides(p.value, cfg.recovery, k) && cfg.recovery[k](p.value).Fail?
  }

  lemma ReportOutcome(cfg: Config, ending: Ending, charge: Option<PanicValue>)
    ensures Report(cfg, ending, charge).Succeeded? <==> ending.Good? && charge.None?
    ensures Report(cfg, ending, charge).Escaped? <==> !Handled(cfg, FinalPanic(ending, charge))
  {
    hide Recover, AllPass, Decides;
    var p := FinalPanic(ending, charge);
    if p.Some? {
      PanicOutcome(p.value, cfg.recovery);
    }
  }

  /** The panic a delivered transaction ends with, before recovery. */
  function TxPanic(cfg: Config, header: Header, committed: View, b: Branch, block: Meter, tx: Bytes)
    : Option<PanicValue>
  {
    if block.IsOutOfGas() then None
    else
      var body := TxBody(cfg, Env(Deliver, header, Some(block)), committed, b, tx);
      FinalPanic(body.ending, Charge(block.consumed, BlockOf(body, block), body.meter.ToLimit()).1)
  }

  /** The deliver branch after a transaction, in the three cases there are, and exactly when each applies.
      There is no error exactly when all messages succeed and the charge fits, and a panic leaves `runTx`
      exactly when the recovery handlers do not make an error of it. */
  lemma DeliveredBranch(cfg: Config, header: Header, committed: View, b: Branch, block: Meter, tx: Bytes)
    ensures var env := Env(Deliver, header, Some(block));
      var a := Ante(cfg, env, committed, b, tx);
      var r := RunDeliver(cfg, header, committed, b, block, tx);
      && (r.outcome.Escaped? <==> !Handled(cfg, TxPanic(cfg, header, committed, b, block, tx)))
      && (block.IsOutOfGas() || !Admitted(cfg, env, committed, b, tx) ==>
            r.branch.writes == b.writes && !r.outcome.Succeeded?)
      && (!block.IsOutOfGas() && Admitted(cfg, env, committed, b, tx) ==>
            && ((forall es :: !MessagesSucceed(cfg, env, committed, b, tx, es)) ==>
                  r.branch.writes == b.writes + a.writes && !r.outcome.Succeeded?)
            && (forall es :: MessagesSucceed(cfg, env, committed, b, tx, es) ==>
                  && r.branch.writes == b.writes + a.writes + Merged(es)
                  && BlockAt(a.block, es).Some?
                  && (r.outcome.Succeeded? <==>
                        Fits(block.consumed, BlockAt(a.block, es).value, MeterAt(AnteMeter(a), es).ToLimit()))))
  {
    hide Through, RunMsgs, AllSucceed, Merged, Charge, Report, Ante, Admitted, TxBody, MeterAt, Fits, AllPass, Decides;
    var env := Env(Deliver, header, Some(block));
    if !block.IsOutOfGas() {
      var body := TxBody(cfg, env, committed, b, tx);
      var amount := body.meter.ToLimit();
      ReportOutcome(cfg, body.ending, Charge(block.consumed, BlockOf(body, block), amount).1);
      ChargeFits(block.consumed, BlockOf(body, block), amount);
      if Admitted(cfg, env, committed, b, tx) {
        BodyAdmitted(cfg, env, committed, b, tx);
        MessagesDelivered(cfg, env, committed, b, tx);
      } else {
        BodyNotAdmitted(cfg, env, committed, b, tx);
      }
    }
  }

  /** `w` is what the transaction leaves in the deliver branch: nothing, the ante writes, or the ante
      writes followed by the writes of all messages in order. */
  ghost predicate Kept(cfg: Config, header: Header, committed: View, b: Branch, block: Meter, tx: Bytes, w: Writes) {
    var env := Env(Deliver, header, Some(block));
    var a := Ante(cfg, env, committed, b, tx);
    if block.IsOutOfGas() || !Admitted(cfg, env, committed, b, tx) then w == map[]
    else if forall es :: !MessagesSucceed(cfg, env, committed, b, tx, es) then w == a.writes
    else exists es :: MessagesSucceed(cfg, env, committed, b, tx, es) && w == a.writes + Merged(es)
  }

  lemma DeliveredWrites(cfg: Config, header: Header, committed: View, b: Branch, block: Meter, tx: Bytes)
    returns (w: Writes)
    ensures Kept(cfg, header, committed, b, block, tx, w)
    ensures RunDeliver(cfg, header, committed, b, block, tx).branch.writes == b.writes + w
  {
    hide MessagesSucceed, BasicallyValid, Ante, Merged, RunDeliver, AnteMeter, MeterAt, BlockAt, Fits, Handled;
    DeliveredBranch(cfg, header, committed, b, block, tx);
    var env := Env(Deliver, header, Some(block));
    var a := Ante(cfg, env, committed, b, tx);
    if block.IsOutOfGas() || !Admitted(cfg, env, committed, b, tx) {
      w := map[];
    } else if forall es :: !MessagesSucceed(cfg, env, committed, b, tx, es) {
      w := a.writes;
    } else {
      var es :| MessagesSucceed(cfg, env, committed, b, tx, es);
      w := a.writes + Merged(es);
      MergeAssociative(b.writes, a.writes, Merged(es));
    }
  }

  lemma MessagesDelivered(cfg: Config, env: Env, committed: View, b: Branch, tx: Bytes)
    requires Admitted(cfg, env, committed, b, tx) && env.mode == Deliver
    ensures var a := Ante(cfg, env, committed, b, tx);
      var body := TxBody(cfg, env, committed, b, tx);
      && ((forall es :: !MessagesSucceed(cfg, env, committed, b, tx, es)) ==>
            body.branch.writes == b.writes + a.writes && !body.ending.Good?)
      && (forall es :: MessagesSucceed(cfg, env, committed, b, tx, es) ==>
            && body.branch.writes == b.writes + a.writes + Merged(es) && body.ending.Good?
            && body.meter == MeterAt(AnteMeter(a), es) && body.block == BlockAt(a.block, es)
            && (env.block.Some? ==> body.block.Some?))
  {
    BodyAdmitted(cfg, env, committed, b, tx);
    hide Through, RunMsgs, AllSucceed, Merged, Ante, TxBody, MeterAt;
    var a := Ante(cfg, env, committed, b, tx);
    var view, meter, msgs := Through(committed, b.writes + a.writes), AnteMeter(a), cfg.decode(tx).msgs;
    var later := env.(block := a.block);
    if RunMsgs(cfg, later, view, meter, msgs).ending.Good? {
      var es := SuccessMeansAll(cfg, later, view, meter, msgs);
      assert MessagesSucceed(cfg, env, committed, b, tx, es);
    }
    forall es | MessagesSucceed(cfg, env, committed, b, tx, es)
      ensures RunMsgs(cfg, later, view, meter, msgs)
         == Effect(Merged(es), MeterAt(meter, es), BlockAt(a.block, es), Good)
      ensures a.block.Some? ==> BlockAt(a.block, es).Some?
    {
      SuccessIsMerged(cfg, later, view, meter, msgs, es);
      KeepsBlockMeter(cfg, later, view, meter, msgs);
    }
  }

  /** CheckTx keeps the ante writes of an admitted transaction and never runs a message; a simulation
      keeps nothing. */
  lemma CheckedBranch(cfg: Config, env: Env, committed: View, b: Branch, tx: Bytes)
    requires env.mode != Deliver
    ensures var Checked(after, block, outcome) := RunCheck(cfg, env, committed, b, tx);
      && (env.mode == Simulate ==> after.writes == b.writes)
      && (!Admitted(cfg, env, committed, b, tx) ==> after.writes == b.writes && !outcome.Succeeded?)
      && (env.mode != Simulate && Admitted(cfg, env, committed, b, tx) ==>
            after.writes == b.writes + Ante(cfg, env, committed, b, tx).writes && outcome.Succeeded?)
      && (outcome.Escaped? <==> !Handled(cfg, FinalPanic(TxBody(cfg, env, committed, b, tx).ending, None)))
  {
    hide Through, RunMsgs, Report, Ante, Admitted, TxBody, Handled;
    var body := TxBody(cfg, env, committed, b, tx);
    ReportOutcome(cfg, body.ending, None);
    if Admitted(cfg, env, committed, b, tx) {
      BodyAdmitted(cfg, env, committed, b, tx);
    } else {
      BodyNotAdmitted(cfg, env, committed, b, tx);
    }
  }

  const KEY: Writes := map[[1] := Some([1])]

  /** A message handler that writes one key and spends 20 gas from its meter. */
  function Spend(env: Env, view: View, meter: Meter, msg: Bytes): Effect {
    Effect(KEY, meter.Consume(20).0, None, Good)
  }

  const SPENDER: Config :=
    Config(tx => Decoded([tx]), msg => Good, None, msg => Some(Spend), msg => None, route => None, [])

  lemma SpenderMessages(env: Env, view: View, tx: Bytes)
    ensures RunMsgs(SPENDER, env, view, Infinite(0), [tx]) == Effect(KEY, Infinite(20), env.block, Good)
  {
    hide Through;
    var e := Invoke(Spend, env, view, Infinite(0), tx);
    assert e == Effect(KEY, Infinite(20), env.block, Good);
    assert [tx][1..] == [];
    assert Route(SPENDER, tx) == Some(Spend);
    assert RunMsgs(SPENDER, env, Through(view, KEY), Infinite(20), []) == Effect(map[], Infinite(20), env.block, Good);
    assert env.(block := env.block) == env && KEY + map[] == KEY;
  }

  lemma SpenderBody(env: Env, tx: Bytes)
    requires env.mode == Deliver
    ensures TxBody(SPENDER, env, map[], Branch(map[], Infinite(0)), tx)
         == Body(Branch(KEY, Infinite(20)), Infinite(20), env.block, Good)
  {
    hide RunMsgs, Through, KEY;
    SpenderMessages(env, Through(map[], map[]), tx);
    assert [tx][1..] == [];
    assert SPENDER.validateBasic(tx) == Good;
    assert FirstProblem(SPENDER, [tx]) == FirstProblem(SPENDER, []) == Good;
    assert map[] + KEY == KEY;
  }

  /** The charge to the block comes after the message writes: a transaction that overruns the block's
      gas limit is reported as failed and its writes stay. */
  lemma FailedButKept(tx: Bytes, header: Header)
    ensures var r := RunDeliver(SPENDER, header, map[], Branch(map[], Infinite(0)), Basic(10, 0), tx);
      r.outcome == Failed(OutOfGasError) && r.branch.writes == KEY
  {
    hide TxBody, Recover;
    SpenderBody(Env(Deliver, header, Some(Basic(10, 0))), tx);
    PanicOutcome(OutOfGas, SPENDER.recovery);
  }

  /** An application whose message handler panics with `Other(code)`, with the documented recovery handler
      that panics again for it. */
  function Failing(code: int, raised: PanicValue): Config {
    Config(
      tx => Decoded([tx]), msg => Good, None,
      msg => Some((env, view, meter, m) => Effect(map[], meter, None, Panicked(Other(code)))),
      msg => None, route => None, [ConsensusFailure(code, raised)])
  }

  /** Delivering any transaction to it panics, although `runTx` recovers from panics. */
  lemma ConsensusFailureCrashes(code: int, raised: PanicValue, tx: Bytes, header: Header)
    ensures RunDeliver(Failing(code, raised), header, map[], Branch(map[], Infinite(0)), Infinite(0), tx).outcome
       == Escaped(raised)
  {
    var cfg, env := Failing(code, raised), Env(Deliver, header, Some(Infinite(0)));
    assert [tx][1..] == [];
    assert cfg.validateBasic(tx) == Good;
    assert FirstProblem(cfg, [tx]) == FirstProblem(cfg, []) == Good;
    assert RunMsgs(cfg, env, Through(map[], map[]), Infinite(0), [tx])
        == Effect(map[], Infinite(0), env.block, Panicked(Other(code)));
    assert [] + [ConsensusFailure(code, raised)] == cfg.recovery;
    ConsensusFailureEscapes(Other(code), code, raised, []);
  }
}
