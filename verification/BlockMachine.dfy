/** The application as a state machine over ABCI calls (baseapp/abci.go, baseapp/baseapp.go).

  A call that panics outside `runTx` crashes the process. The block handlers, like the transaction
  handlers, are parameters. */
module BlockMachine {
  import opened Lex
  import opened Outcomes
  import opened Branches
  import opened Recovery
  import opened TxExecution
  import opened StoreKeys

  type Int64 = i: int | -0x8000_0000_0000_0000 <= i <= 0x7FFF_FFFF_FFFF_FFFF

  /** The initializer also returns the validators, each as bytes that start with its public key. */
  type InitHandler = (Env, View, Meter, Bytes) -> (Effect, seq<Bytes>)

  /** `hasParams`: a parameter store is set. `maxGas`: the block gas parameter, if there is one. `readParams`
      and `writeParams`: the meter after reading or writing the parameters, or nothing if that panics. */
  datatype AppConfig = AppConfig(
    tx: Config,
    hasParams: bool,
    maxGas: View -> Option<Int64>,
    readParams: (View, Meter) -> Option<Meter>,
    writeParams: (Writes, Meter) -> Option<Meter>,
    initChainer: Option<InitHandler>,
    beginBlocker: Option<Handler>,
    endBlocker: Option<Handler>)

  /** The deliver state: its branch, block header and block gas meter. */
  datatype Delivering = Delivering(branch: Branch, header: Header, block: Option<Meter>)

  /** `checkSeesBlock`: the check context shares the deliver context's block gas meter. */
  datatype App = App(committed: View, version: int, initialHeight: int, initialVersion: int,
                     deliver: Option<Delivering>, check: Branch, checkHeader: Header, checkSeesBlock: bool)

  datatype InitRequest = InitRequest(initialHeight: int, rest: Bytes, params: Option<Writes>, validators: seq<Bytes>)

  datatype Call =
    | InitChain(req: InitRequest)
    | BeginBlock(header: Header)
    | DeliverTx(tx: Bytes)
    | EndBlock(request: Bytes)
    | Commit
    | CheckTx(tx: Bytes, recheck: bool)
    | SimulateTx(tx: Bytes)

  datatype Output = Accepted(height: int) | Delivered(err: Option<Error>) | Committed(version: int, store: View)

  datatype Stepped = Crash | Next(app: App, out: seq<Output>)

  const NEW_BRANCH: Branch := Branch(map[], Infinite(0))

  /** A new application on an empty store; loading it sets a check state. */
  const FRESH: App := App(map[], 0, 0, 0, None, NEW_BRANCH, Header(0, []), false)

  function SetCheckState(app: App, header: Header): App {
    app.(check := NEW_BRANCH, checkHeader := header, checkSeesBlock := false)
  }

  /** Runs a block handler on the deliver state. */
  function RunBlocker(handler: Option<Handler>, committed: View, d: Delivering, request: Bytes): Outcome<Delivering> {
    if handler.None? then Value(d)
    else
      var e := Invoke(handler.value, Env(Deliver, d.header, d.block),
                      Through(committed, d.branch.writes), d.branch.gas, request);
      if !e.ending.Good? then Panic
      else Value(d.(branch := Branch(d.branch.writes + e.writes, e.meter), block := e.block))
  }

  /** `GetConsensusParams` on a state's context spends gas on its meter. */
  function ReadParams(cfg: AppConfig, committed: View, b: Branch): Outcome<Branch> {
    if !cfg.hasParams then Value(b)
    else
      var gas := cfg.readParams(Through(committed, b.writes), b.gas);
      if gas.None? then Panic else Value(b.(gas := gas.value))
  }

  function MaxGas(cfg: AppConfig, committed: View, b: Branch): Option<Int64> {
    if cfg.hasParams then cfg.maxGas(Through(committed, b.writes)) else None
  }

  function WriteParams(cfg: AppConfig, params: Option<Writes>): Outcome<Branch> {
    if params.None? then Value(NEW_BRANCH)
    else if !cfg.hasParams then Panic
    else
      var gas := cfg.writeParams(params.value, Infinite(0));
      if gas.None? then Panic else Value(Branch(params.value, gas.value))
  }

  /** The check of the returned validators: nothing when none were requested. */
  predicate SameValidators(requested: seq<Bytes>, returned: seq<Bytes>) {
    requested == [] || (|requested| == |returned| && SortStrings(requested) == SortStrings(returned))
  }

  /** The returned validators pass exactly when none were requested or they are the requested ones in some
      order. */
  lemma ValidatorsPermuted(requested: seq<Bytes>, returned: seq<Bytes>)
    ensures SameValidators(requested, returned) <==> requested == [] || multiset(requested) == multiset(returned)
  {
    hide SortStrings;
    SameSorted(requested, returned);
    assert |multiset(requested)| == |requested| && |multiset(returned)| == |returned|;
  }

  function RunInit(handler: InitHandler, committed: View, d: Delivering, req: InitRequest): Outcome<Delivering> {
    var env := Env(Deliver, d.header, d.block);
    var (e, validators) := handler(env, Through(committed, d.branch.writes), d.branch.gas, req.rest);
    if !e.ending.Good? || !SameValidators(req.validators, validators) then Panic
    else Value(d.(branch := Branch(d.branch.writes + e.writes, e.meter), block := Changed(d.block, e.block)))
  }

  function InitStep(cfg: AppConfig, app: App, req: InitRequest): Stepped {
    var late := req.initialHeight > 1;
    var header := Header(if late then req.initialHeight else 0, req.rest);
    var started := if late then app.(initialHeight := req.initialHeight, initialVersion := req.initialHeight) else app;
    var a := SetCheckState(started, header);
    var branch := WriteParams(cfg, req.params);
    if branch.Panic? then Crash
    else if cfg.initChainer.None? then Next(a.(deliver := Some(Delivering(branch.value, header, None))), [])
    else
      var d := Delivering(branch.value, header, Some(Infinite(0)));
      var after := RunInit(cfg.initChainer.value, a.committed, d, req);
      if after.Panic? then Crash else Next(a.(deliver := Some(after.value)), [])
  }

  function ExpectedHeight(app: App): int {
    if app.version == 0 && app.initialHeight > 1 then app.initialHeight else app.version + 1
  }

  predicate ValidHeight(app: App, height: int) {
    height >= 1 && height == ExpectedHeight(app)
  }

  function BlockMeter(max: Option<Int64>): Outcome<Meter> {
    if max.Some? && max.value < -1 then Panic
    else if max.Some? && max.value > 0 then Value(Basic(max.value, 0))
    else Value(Infinite(0))
  }

  function BeginStep(cfg: AppConfig, app: App, header: Header): Stepped {
    if !ValidHeight(app, header.height) then Crash
    else
      var begun := BeginState(cfg, app, header);
      if begun.Panic? then Crash
      else
        var after := RunBlocker(cfg.beginBlocker, app.committed, begun.value, header.rest);
        if after.Panic? then Crash
        else Next(app.(deliver := Some(after.value), checkSeesBlock := true), [Accepted(header.height)])
  }

  /** The deliver state of InitChain or a new one, with the block gas meter, before the begin blocker. */
  function BeginState(cfg: AppConfig, app: App, header: Header): Outcome<Delivering> {
    var start := if app.deliver.None? then NEW_BRANCH else app.deliver.value.branch;
    var branch := ReadParams(cfg, app.committed, start);
    var meter := BlockMeter(MaxGas(cfg, app.committed, start));
    if branch.Panic? || meter.Panic? then Panic else Value(Delivering(branch.value, header, Some(meter.value)))
  }

  function ErrorOf(outcome: TxOutcome): Option<Error> {
    if outcome.Failed? then Some(outcome.err) else None
  }

  function DeliverStep(cfg: AppConfig, app: App, tx: Bytes): Stepped {
    if app.deliver.None? || app.deliver.value.block.None? then Crash
    else
      var d := app.deliver.value;
      var branch := ReadParams(cfg, app.committed, d.branch);
      if branch.Panic? then Crash
      else
        var r := RunDeliver(cfg.tx, d.header, app.committed, branch.value, d.block.value, tx);
        if r.outcome.Escaped? then Crash
        else
          var after := d.(branch := r.branch, block := Some(r.block));
          Next(app.(deliver := Some(after)), [Delivered(ErrorOf(r.outcome))])
  }

  function EndStep(cfg: AppConfig, app: App, request: Bytes): Stepped {
    if app.deliver.None? then Crash
    else
      var after := RunBlocker(cfg.endBlocker, app.committed, app.deliver.value, request);
      if after.Panic? then Crash
      else
        var branch := ReadParams(cfg, app.committed, after.value.branch);
        if branch.Panic? then Crash else Next(app.(deliver := Some(after.value.(branch := branch.value))), [])
  }

  /** The version the store gives the next commit. */
  function NextVersion(app: App): int {
    if app.version == 0 && app.initialVersion > 1 then app.initialVersion else app.version + 1
  }

  function CommitStep(app: App): Stepped {
    if app.deliver.None? then Crash
    else
      var d := app.deliver.value;
      var store := Through(app.committed, d.branch.writes);
      var a := app.(committed := store, version := NextVersion(app), deliver := None);
      Next(SetCheckState(a, d.header), [Committed(a.version, store)])
  }

  predicate SharesBlock(app: App) {
    app.checkSeesBlock && app.deliver.Some?
  }

  function CheckEnv(app: App, mode: Mode): Env {
    Env(mode, app.checkHeader, if SharesBlock(app) then app.deliver.value.block else None)
  }

  function CheckStep(cfg: AppConfig, app: App, mode: Mode, tx: Bytes): Stepped
    requires mode != Deliver
  {
    var branch := ReadParams(cfg, app.committed, app.check);
    if branch.Panic? then Crash
    else
      var r := RunCheck(cfg.tx, CheckEnv(app, mode), app.committed, branch.value, tx);
      if r.outcome.Escaped? then Crash
      else
        var deliver := if SharesBlock(app) then Some(app.deliver.value.(block := r.block)) else app.deliver;
        Next(app.(check := r.branch, deliver := deliver), [])
  }

  predicate IsCheck(call: Call) {
    call.CheckTx? || call.SimulateTx?
  }

  function ModeOf(call: Call): (mode: Mode)
    requires IsCheck(call)
    ensures mode != Deliver
  {
    if call.SimulateTx? then Simulate else if call.recheck then ReCheck else Check
  }

  function Step(cfg: AppConfig, app: App, call: Call): Stepped {
    match call
    case InitChain(req) => InitStep(cfg, app, req)
    case BeginBlock(header) => BeginStep(cfg, app, header)
    case DeliverTx(tx) => DeliverStep(cfg, app, tx)
    case EndBlock(request) => EndStep(cfg, app, request)
    case Commit => CommitStep(app)
    case CheckTx(tx, _) => CheckStep(cfg, app, ModeOf(call), tx)
    case SimulateTx(tx) => CheckStep(cfg, app, ModeOf(call), tx)
  }

  /** The state after the calls, if none crashes, and what was answered up to there. */
  function Run(cfg: AppConfig, app: App, calls: seq<Call>): (Option<App>, seq<Output>)
    decreases |calls|
  {
    if calls == [] then (Some(app), [])
    else
      match Step(cfg, app, calls[0])
      case Crash => (None, [])
      case Next(a, out) =>
        var rest := Run(cfg, a, calls[1..]);
        (rest.0, out + rest.1)
  }

  // ---------------------------------------------------------------- what a block commits

  function Deliveries(txs: seq<Bytes>): seq<Call> {
    seq(|txs|, i requires 0 <= i < |txs| => DeliverTx(txs[i]))
  }

  /** The state after delivering the transactions one by one, as long as none crashes. */
  function After(cfg: AppConfig, app: App, txs: seq<Bytes>): App {
    if txs == [] then app
    else
      var before := After(cfg, app, txs[..|txs| - 1]);
      var next := DeliverStep(cfg, before, txs[|txs| - 1]);
      if next.Next? then next.app else before
  }

  function Total(start: Writes, ws: seq<Writes>): Writes {
    if ws == [] then start else Total(start, ws[..|ws| - 1]) + ws[|ws| - 1]
  }

  ghost predicate InBlock(app: App) {
    app.deliver.Some? && app.deliver.value.block.Some?
  }

  /** Run in this state, `tx` keeps the writes `w`. */
  ghost predicate KeepsAt(cfg: AppConfig, app: App, tx: Bytes, w: Writes) {
    && InBlock(app)
    && var d := app.deliver.value;
       var branch := ReadParams(cfg, app.committed, d.branch);
       branch.Value? && Kept(cfg.tx, d.header, app.committed, branch.value, d.block.value, tx, w)
  }

  /** Transaction `i` keeps `ws[i]` of its writes when it runs after the ones before it. */
  ghost predicate EachKeeps(cfg: AppConfig, app: App, txs: seq<Bytes>, ws: seq<Writes>) {
    |ws| == |txs| && forall i :: 0 <= i < |txs| ==> KeepsAt(cfg, After(cfg, app, txs[..i]), txs[i], ws[i])
  }

  lemma EachKeepsNext(cfg: AppConfig, app: App, txs: seq<Bytes>, ws: seq<Writes>, w: Writes)
    requires txs != [] && EachKeeps(cfg, app, txs[..|txs| - 1], ws)
    requires KeepsAt(cfg, After(cfg, app, txs[..|txs| - 1]), txs[|txs| - 1], w)
    ensures EachKeeps(cfg, app, txs, ws + [w])
  {
    hide KeepsAt, After;
    forall i | 0 <= i < |txs| - 1 ensures txs[..i] == txs[..|txs| - 1][..i] {
    }
  }

  /** The parts of the state a delivery leaves alone. */
  ghost predicate SameBlock(app: App, after: App) {
    InBlock(app) && InBlock(after) && after == app.(deliver := after.deliver)
    && after.deliver.value.header == app.deliver.value.header
  }

  /** Run in this state, `tx` does not panic outside `runTx`: reading the parameters succeeds, and its own
      panic, if any, ends as an error. */
  ghost predicate HandledAt(cfg: AppConfig, app: App, tx: Bytes) {
    && InBlock(app)
    && var d := app.deliver.value;
       var branch := ReadParams(cfg, app.committed, d.branch);
       && branch.Value?
       && Handled(cfg.tx, TxPanic(cfg.tx, d.header, app.committed, branch.value, d.block.value, tx))
  }

  /** Inside a block a delivery crashes exactly when reading the parameters panics or the recovery handlers
      make no error of the transaction's panic. */
  lemma DeliverCrashes(cfg: AppConfig, app: App, tx: Bytes)
    requires InBlock(app)
    ensures DeliverStep(cfg, app, tx).Crash? <==> !HandledAt(cfg, app, tx)
  {
    hide RunDeliver, Handled, TxPanic, Admitted, MessagesSucceed, Ante, Merged, Fits, MeterAt, BlockAt, AnteMeter;
    hide ReadParams;
    var d := app.deliver.value;
    var branch := ReadParams(cfg, app.committed, d.branch);
    if branch.Value? {
      DeliveredBranch(cfg.tx, d.header, app.committed, branch.value, d.block.value, tx);
    }
  }

  /** No transaction panics outside `runTx` when it runs after the ones before it. */
  ghost predicate EachHandled(cfg: AppConfig, app: App, txs: seq<Bytes>) {
    forall i :: 0 <= i < |txs| ==> HandledAt(cfg, After(cfg, app, txs[..i]), txs[i])
  }

  lemma EachHandledLast(cfg: AppConfig, app: App, txs: seq<Bytes>)
    requires txs != []
    ensures EachHandled(cfg, app, txs) <==>
              && EachHandled(cfg, app, txs[..|txs| - 1])
              && HandledAt(cfg, After(cfg, app, txs[..|txs| - 1]), txs[|txs| - 1])
  {
    hide HandledAt, After;
    var earlier := txs[..|txs| - 1];
    forall i | 0 <= i < |earlier| ensures txs[..i] == earlier[..i] && txs[i] == earlier[i] {
    }
  }

  lemma {:induction false} StaysInBlock(cfg: AppConfig, app: App, txs: seq<Bytes>)
    requires InBlock(app)
    ensures SameBlock(app, After(cfg, app, txs))
  {
    hide RunDeliver, ReadParams;
    if txs != [] {
      StaysInBlock(cfg, app, txs[..|txs| - 1]);
    }
  }

  lemma DeliverNext(cfg: AppConfig, app: App, txs: seq<Bytes>) returns (w: Writes)
    requires txs != [] && SameBlock(app, After(cfg, app, txs[..|txs| - 1]))
    requires DeliverStep(cfg, After(cfg, app, txs[..|txs| - 1]), txs[|txs| - 1]).Next?
    ensures InBlock(After(cfg, app, txs))
    ensures var before := After(cfg, app, txs[..|txs| - 1]);
      && KeepsAt(cfg, before, txs[|txs| - 1], w)
      && After(cfg, app, txs).deliver.value.branch.writes == before.deliver.value.branch.writes + w
  {
    hide RunDeliver, Kept;
    var d := After(cfg, app, txs[..|txs| - 1]).deliver.value;
    var branch := ReadParams(cfg, app.committed, d.branch).value;
    w := DeliveredWrites(cfg.tx, d.header, app.committed, branch, d.block.value, txs[|txs| - 1]);
  }

  lemma TotalNext(start: Writes, ws: seq<Writes>, w: Writes)
    ensures Total(start, ws + [w]) == Total(start, ws) + w
  {
    assert (ws + [w])[..|ws|] == ws;
  }

  lemma {:induction false} DeliverKeeps(cfg: AppConfig, app: App, txs: seq<Bytes>) returns (ws: seq<Writes>)
    requires InBlock(app) && EachHandled(cfg, app, txs)
    ensures EachKeeps(cfg, app, txs, ws) && InBlock(After(cfg, app, txs))
    ensures After(cfg, app, txs).deliver.value.branch.writes == Total(app.deliver.value.branch.writes, ws)
  {
    if txs == [] {
      ws := [];
    } else {
      hide After, EachKeeps, EachHandled, Total, KeepsAt, HandledAt;
      var earlier := txs[..|txs| - 1];
      StaysInBlock(cfg, app, earlier);
      EachHandledLast(cfg, app, txs);
      DeliverCrashes(cfg, After(cfg, app, earlier), txs[|txs| - 1]);
      var first := DeliverKeeps(cfg, app, earlier);
      var w := DeliverNext(cfg, app, txs);
      EachKeepsNext(cfg, app, txs, first, w);
      TotalNext(app.deliver.value.branch.writes, first, w);
      ws := first + [w];
    }
  }

  /** What a block handler writes. */
  function BlockerWrites(handler: Option<Handler>, committed: View, d: Delivering, request: Bytes): Writes {
    if handler.None? then map[]
    else
      Invoke(handler.value, Env(Deliver, d.header, d.block),
             Through(committed, d.branch.writes), d.branch.gas, request).writes
  }

  lemma BlockerAdds(handler: Option<Handler>, committed: View, d: Delivering, request: Bytes)
    ensures var r := RunBlocker(handler, committed, d, request);
      r.Value? ==> r.value.branch.writes == d.branch.writes + BlockerWrites(handler, committed, d, request)
                   && r.value.header == d.header && (r.value.block.Some? <==> d.block.Some?)
  {
    hide Through;
    assert d.branch.writes + map[] == d.branch.writes;
  }

  lemma {:induction false} RunConcat(cfg: AppConfig, app: App, a: seq<Call>, b: seq<Call>)
    ensures var first := Run(cfg, app, a).0;
      Run(cfg, app, a + b).0 == if first.None? then None else Run(cfg, first.value, b).0
    decreases |a|
  {
    hide Step;
    if a == [] {
      assert a + b == b;
    } else {
      assert (a + b)[1..] == a[1..] + b;
      var next := Step(cfg, app, a[0]);
      if next.Next? {
        RunConcat(cfg, next.app, a[1..], b);
      }
    }
  }

  lemma RunOne(cfg: AppConfig, app: App, call: Call)
    ensures Run(cfg, app, [call]).0 == match Step(cfg, app, call) case Crash => None case Next(a, _) => Some(a)
  {
    hide Step;
    assert [call][1..] == [];
  }

  lemma {:induction false} RunDeliveries(cfg: AppConfig, app: App, txs: seq<Bytes>)
    requires InBlock(app)
    ensures Run(cfg, app, Deliveries(txs)).0 == if EachHandled(cfg, app, txs) then Some(After(cfg, app, txs)) else None
  {
    hide DeliverStep, EachHandled, HandledAt;
    if txs == [] {
      EachHandledNone(cfg, app);
    } else {
      var earlier, tx := txs[..|txs| - 1], txs[|txs| - 1];
      RunDeliveries(cfg, app, earlier);
      StaysInBlock(cfg, app, earlier);
      EachHandledLast(cfg, app, txs);
      DeliverCrashes(cfg, After(cfg, app, earlier), tx);
      assert Deliveries(txs) == Deliveries(earlier) + [DeliverTx(tx)];
      RunConcat(cfg, app, Deliveries(earlier), [DeliverTx(tx)]);
      RunOne(cfg, After(cfg, app, earlier), DeliverTx(tx));
    }
  }

  lemma EachHandledNone(cfg: AppConfig, app: App)
    ensures EachHandled(cfg, app, [])
  {
  }

  /** Delivering any list of transactions in a block crashes exactly when some transaction panics outside
      `runTx` or its panic is not made an error. Otherwise the branch grows by what each transaction keeps. */
  lemma DeliverAll(cfg: AppConfig, app: App, txs: seq<Bytes>) returns (ws: seq<Writes>)
    requires InBlock(app)
    ensures Run(cfg, app, Deliveries(txs)).0.Some? <==> EachHandled(cfg, app, txs)
    ensures EachHandled(cfg, app, txs) ==>
      var after := After(cfg, app, txs);
      && Run(cfg, app, Deliveries(txs)).0 == Some(after)
      && EachKeeps(cfg, app, txs, ws) && SameBlock(app, after)
      && after.deliver.value.branch.writes == Total(app.deliver.value.branch.writes, ws)
  {
    hide After, EachKeeps, EachHandled, Total, Run, Deliveries;
    RunDeliveries(cfg, app, txs);
    StaysInBlock(cfg, app, txs);
    ws := [];
    if EachHandled(cfg, app, txs) {
      ws := DeliverKeeps(cfg, app, txs);
    }
  }

  function BlockCalls(header: Header, txs: seq<Bytes>, request: Bytes): seq<Call> {
    [BeginBlock(header)] + (Deliveries(txs) + ([EndBlock(request)] + [Commit]))
  }

  lemma BegunInBlock(cfg: AppConfig, app: App, header: Header)
    requires BeginStep(cfg, app, header).Next?
    ensures InBlock(BeginStep(cfg, app, header).app)
  {
    hide Through, ReadParams, MaxGas;
  }

  /** A block that does not crash goes through its four stages. */
  lemma RunBlock(cfg: AppConfig, app: App, header: Header, txs: seq<Bytes>, request: Bytes)
    requires Run(cfg, app, BlockCalls(header, txs, request)).0.Some?
    ensures BeginStep(cfg, app, header).Next?
    ensures InBlock(BeginStep(cfg, app, header).app) && EachHandled(cfg, BeginStep(cfg, app, header).app, txs)
    ensures var done := After(cfg, BeginStep(cfg, app, header).app, txs);
      && EndStep(cfg, done, request).Next?
      && CommitStep(EndStep(cfg, done, request).app).Next?
      && Run(cfg, app, BlockCalls(header, txs, request)).0 == Some(CommitStep(EndStep(cfg, done, request).app).app)
  {
    hide Run, BeginStep, EndStep, CommitStep, After, InBlock, Deliveries, EachHandled;
    RunConcat(cfg, app, [BeginBlock(header)], Deliveries(txs) + ([EndBlock(request)] + [Commit]));
    RunOne(cfg, app, BeginBlock(header));
    var begun := BeginStep(cfg, app, header).app;
    BegunInBlock(cfg, app, header);
    RunConcat(cfg, begun, Deliveries(txs), [EndBlock(request)] + [Commit]);
    RunDeliveries(cfg, begun, txs);
    var done := After(cfg, begun, txs);
    RunConcat(cfg, done, [EndBlock(request)], [Commit]);
    RunOne(cfg, done, EndBlock(request));
    RunOne(cfg, EndStep(cfg, done, request).app, Commit);
  }

  /** The store a block commits is the old one with, in this order: what InitChain left, what the begin
      blocker wrote, what each transaction kept, and what the end blocker wrote. Nothing else. */
  lemma CommittedBlock(cfg: AppConfig, app: App, header: Header, txs: seq<Bytes>, request: Bytes)
    returns (ws: seq<Writes>)
    requires Run(cfg, app, BlockCalls(header, txs, request)).0.Some?
    ensures BeginStep(cfg, app, header).Next?
    ensures
      var begun := BeginStep(cfg, app, header).app;
      var genesis := if app.deliver.None? then map[] else app.deliver.value.branch.writes;
      var state := BeginState(cfg, app, header);
      var done := After(cfg, begun, txs).deliver;
      && EachKeeps(cfg, begun, txs, ws)
      && state.Value? && done.Some?
      && var begin := BlockerWrites(cfg.beginBlocker, app.committed, state.value, header.rest);
         var end := BlockerWrites(cfg.endBlocker, app.committed, done.value, request);
         Run(cfg, app, BlockCalls(header, txs, request)).0.value.committed
         == Through(app.committed, Total(genesis + begin, ws) + end)
  {
    hide Through, RunBlocker, BlockerWrites, After, EachKeeps, EachHandled, Total, Run, BlockCalls, Deliveries;
    RunBlock(cfg, app, header, txs, request);
    BlockerAdds(cfg.beginBlocker, app.committed, BeginState(cfg, app, header).value, header.rest);
    var begun := BeginStep(cfg, app, header).app;
    ws := DeliverAll(cfg, begun, txs);
    BlockerAdds(cfg.endBlocker, app.committed, After(cfg, begun, txs).deliver.value, request);
  }

  // ---------------------------------------------------------------- checks leave no trace

  function WithoutChecks(calls: seq<Call>): seq<Call> {
    if calls == [] then []
    else if IsCheck(calls[0]) then WithoutChecks(calls[1..])
    else [calls[0]] + WithoutChecks(calls[1..])
  }

  /** Equal up to the check state. */
  ghost predicate SameChain(a: App, b: App) {
    a.(check := b.check, checkHeader := b.checkHeader, checkSeesBlock := b.checkSeesBlock) == b
  }

  ghost predicate SameStep(x: Stepped, y: Stepped) {
    (x.Crash? && y.Crash?) || (x.Next? && y.Next? && SameChain(x.app, y.app) && x.out == y.out)
  }

  lemma StepIgnoresCheckState(cfg: AppConfig, a: App, b: App, call: Call)
    requires SameChain(a, b) && !IsCheck(call)
    ensures SameStep(Step(cfg, a, call), Step(cfg, b, call))
  {
    hide Through, RunDeliver, RunBlocker, RunInit, ReadParams, WriteParams, MaxGas;
  }

  /** A check in this state leaves the block gas meter, which it shares with the deliver context during a
      block, as it is; reading the parameters succeeds, and the transaction's panic, if any, ends as an
      error. */
  ghost predicate Harmless(cfg: AppConfig, app: App, call: Call)
    requires IsCheck(call)
  {
    var env := CheckEnv(app, ModeOf(call));
    var branch := ReadParams(cfg, app.committed, app.check);
    && branch.Value?
    && (SharesBlock(app) ==>
          RunCheck(cfg.tx, env, app.committed, branch.value, call.tx).block == app.deliver.value.block)
    && Handled(cfg.tx, FinalPanic(TxBody(cfg.tx, env, app.committed, branch.value, call.tx).ending, None))
  }

  /** A check changes only the check state, and does not crash, exactly when it is harmless. */
  lemma CheckChangesNothing(cfg: AppConfig, a: App, b: App, call: Call)
    requires SameChain(a, b) && IsCheck(call)
    ensures var next := Step(cfg, a, call);
      && (next.Next? && SameChain(next.app, b) <==> Harmless(cfg, a, call))
      && (next.Next? ==> next.out == [])
  {
    hide RunCheck, TxBody, Handled, Admitted, Ante, ReadParams;
    var branch := ReadParams(cfg, a.committed, a.check);
    if branch.Value? {
      CheckedBranch(cfg.tx, CheckEnv(a, ModeOf(call)), a.committed, branch.value, call.tx);
    }
  }

  /** Every check of the run is harmless in the state in which it runs. */
  ghost predicate QuietRun(cfg: AppConfig, app: App, calls: seq<Call>)
    decreases |calls|
  {
    calls != [] ==>
    && (IsCheck(calls[0]) ==> Harmless(cfg, app, calls[0]))
    && (Step(cfg, app, calls[0]).Next? ==> QuietRun(cfg, Step(cfg, app, calls[0]).app, calls[1..]))
  }

  ghost predicate SameEnd(x: Option<App>, y: Option<App>) {
    (x.None? && y.None?) || (x.Some? && y.Some? && SameChain(x.value, y.value))
  }

  /** After `n` calls, the run and the run without its checks have both crashed or agree. */
  ghost predicate SameAt(cfg: AppConfig, a: App, b: App, calls: seq<Call>, n: nat)
    requires n <= |calls|
  {
    SameEnd(Run(cfg, a, calls[..n]).0, Run(cfg, b, WithoutChecks(calls[..n])).0)
  }

  ghost predicate SameThroughout(cfg: AppConfig, a: App, b: App, calls: seq<Call>) {
    forall n :: 0 <= n <= |calls| ==> SameAt(cfg, a, b, calls, n)
  }

  lemma RunStep(cfg: AppConfig, app: App, call: Call, rest: seq<Call>)
    ensures var first := Step(cfg, app, call);
      Run(cfg, app, [call] + rest).0 == if first.Crash? then None else Run(cfg, first.app, rest).0
  {
    hide Step;
    assert ([call] + rest)[1..] == rest;
  }

  lemma WithoutChecksCons(call: Call, rest: seq<Call>)
    ensures WithoutChecks([call] + rest) == (if IsCheck(call) then [] else [call]) + WithoutChecks(rest)
  {
    assert ([call] + rest)[1..] == rest;
    assert [] + WithoutChecks(rest) == WithoutChecks(rest);
  }

  /** The first call of both runs, seen from a longer prefix. */
  lemma PrefixOfRun(cfg: AppConfig, a: App, b: App, calls: seq<Call>, n: nat)
    requires n < |calls| && SameChain(a, b)
    ensures var x, y := Step(cfg, a, calls[0]), Step(cfg, b, calls[0]);
      var rest := calls[1..];
      && (IsCheck(calls[0]) && x.Next? ==> (SameAt(cfg, a, b, calls, n + 1) <==> SameAt(cfg, x.app, b, rest, n)))
      && (!IsCheck(calls[0]) && x.Next? ==>
            y.Next? && (SameAt(cfg, a, b, calls, n + 1) <==> SameAt(cfg, x.app, y.app, rest, n)))
      && (!IsCheck(calls[0]) && x.Crash? ==> SameAt(cfg, a, b, calls, n + 1))
      && (IsCheck(calls[0]) && x.Crash? && n == 0 ==> !SameAt(cfg, a, b, calls, 1))
  {
    hide Step, SameChain, Run, WithoutChecks;
    var first, rest := calls[0], calls[1..][..n];
    assert calls[..n + 1] == [first] + rest;
    RunStep(cfg, a, first, rest);
    WithoutChecksCons(first, rest);
    if IsCheck(first) {
      assert [] + WithoutChecks(rest) == WithoutChecks(rest);
      if n == 0 {
        WithoutChecksNone();
        RunNone(cfg, b);
      }
    } else {
      StepIgnoresCheckState(cfg, a, b, first);
      RunStep(cfg, b, first, WithoutChecks(rest));
    }
  }

  lemma WithoutChecksNone()
    ensures WithoutChecks([]) == []
  {
  }

  lemma RunNone(cfg: AppConfig, app: App)
    ensures Run(cfg, app, []) == (Some(app), [])
  {
  }

  lemma SameAtStart(cfg: AppConfig, a: App, b: App, calls: seq<Call>)
    ensures SameAt(cfg, a, b, calls, 0) <==> SameChain(a, b)
  {
    hide SameChain;
    assert calls[..0] == [];
  }

  /** `SameThroughout` one call at a time. */
  lemma SameThroughoutCons(cfg: AppConfig, a: App, b: App, calls: seq<Call>, a': App, b': App)
    requires calls != [] && SameAt(cfg, a, b, calls, 0)
    requires forall n: nat :: n < |calls| ==> (SameAt(cfg, a, b, calls, n + 1) <==> SameAt(cfg, a', b', calls[1..], n))
    ensures SameThroughout(cfg, a, b, calls) <==> SameThroughout(cfg, a', b', calls[1..])
  {
    hide SameAt;
    if SameThroughout(cfg, a', b', calls[1..]) {
      forall n | 0 <= n <= |calls| ensures SameAt(cfg, a, b, calls, n) {
        if n > 0 {
          var m: nat := n - 1;
          assert SameAt(cfg, a, b, calls, m + 1) <==> SameAt(cfg, a', b', calls[1..], m);
        }
      }
    }
    if SameThroughout(cfg, a, b, calls) {
      forall n | 0 <= n <= |calls| - 1 ensures SameAt(cfg, a', b', calls[1..], n) {
        assert SameAt(cfg, a, b, calls, n + 1);
      }
    }
  }

  /** Removing the checks from a run leaves everything but the check state as it is, at every point of the
      run, if and only if every check is harmless where it runs. */
  lemma {:induction false} ChecksAreInvisible(cfg: AppConfig, a: App, b: App, calls: seq<Call>)
    requires SameChain(a, b)
    ensures SameThroughout(cfg, a, b, calls) <==> QuietRun(cfg, a, calls)
    decreases |calls|
  {
    hide Step, SameChain, SameAt, Harmless;
    SameAtStart(cfg, a, b, calls);
    if calls != [] {
      var first, x, y := calls[0], Step(cfg, a, calls[0]), Step(cfg, b, calls[0]);
      forall n: nat | n < |calls|
        ensures IsCheck(first) && x.Next? ==>
                  (SameAt(cfg, a, b, calls, n + 1) <==> SameAt(cfg, x.app, b, calls[1..], n))
        ensures !IsCheck(first) && x.Next? ==>
                  y.Next? && (SameAt(cfg, a, b, calls, n + 1) <==> SameAt(cfg, x.app, y.app, calls[1..], n))
      {
        PrefixOfRun(cfg, a, b, calls, n);
      }
      if IsCheck(first) {
        CheckChangesNothing(cfg, a, b, first);
        if x.Next? {
          SameThroughoutCons(cfg, a, b, calls, x.app, b);
          SameAtStart(cfg, x.app, b, calls[1..]);
          if SameChain(x.app, b) {
            ChecksAreInvisible(cfg, x.app, b, calls[1..]);
          } else {
            assert !SameAt(cfg, x.app, b, calls[1..], 0);
          }
        } else {
          PrefixOfRun(cfg, a, b, calls, 0);
        }
      } else {
        StepIgnoresCheckState(cfg, a, b, first);
        if x.Next? {
          SameThroughoutCons(cfg, a, b, calls, x.app, y.app);
          ChecksAreInvisible(cfg, x.app, y.app, calls[1..]);
        } else {
          forall n | 0 <= n <= |calls| ensures SameAt(cfg, a, b, calls, n) {
            if n > 0 {
              PrefixOfRun(cfg, a, b, calls, n - 1);
            }
          }
        }
      }
    }
  }

  /** Then accepted heights, transaction results, versions and committed stores are the same too. */
  lemma {:induction false} QuietRunsAnswerAlike(cfg: AppConfig, a: App, b: App, calls: seq<Call>)
    requires SameChain(a, b) && QuietRun(cfg, a, calls)
    ensures Run(cfg, a, calls).1 == Run(cfg, b, WithoutChecks(calls)).1
    decreases |calls|
  {
    hide Step, SameChain, Harmless;
    if calls != [] {
      var x := Step(cfg, a, calls[0]);
      if IsCheck(calls[0]) {
        CheckChangesNothing(cfg, a, b, calls[0]);
        QuietRunsAnswerAlike(cfg, x.app, b, calls[1..]);
      } else {
        StepIgnoresCheckState(cfg, a, b, calls[0]);
        assert ([calls[0]] + WithoutChecks(calls[1..]))[1..] == WithoutChecks(calls[1..]);
        if x.Next? {
          QuietRunsAnswerAlike(cfg, x.app, Step(cfg, b, calls[0]).app, calls[1..]);
        }
      }
    }
  }

  ghost predicate QuietHandler(h: Handler) {
    forall env: Env, view, meter, msg :: env.mode == Simulate ==> Invoke(h, env, view, meter, msg).block == env.block
  }

  /** Outside DeliverTx no handler changes the block gas meter, which the check and the deliver context
      share during a block. */
  ghost predicate QuietChecks(cfg: Config) {
    && (cfg.ante.Some? ==> forall env: Env, view, meter, tx :: env.mode != Deliver ==>
          InvokeAnte(cfg.ante.value, env, view, meter, tx).block == env.block)
    && (forall msg :: Route(cfg, msg).Some? ==> QuietHandler(Route(cfg, msg).value))
  }

  lemma {:induction false} QuietMessages(cfg: Config, env: Env, view: View, meter: Meter, msgs: seq<Bytes>)
    requires QuietChecks(cfg) && env.mode == Simulate
    ensures RunMsgs(cfg, env, view, meter, msgs).block == env.block
    decreases |msgs|
  {
    hide Through, Route, Invoke, InvokeAnte;
    if msgs != [] && Route(cfg, msgs[0]).Some? {
      var e := Invoke(Route(cfg, msgs[0]).value, env, view, meter, msgs[0]);
      assert QuietHandler(Route(cfg, msgs[0]).value);
      QuietMessages(cfg, env, Through(view, e.writes), e.meter, msgs[1..]);
      assert env.(block := e.block) == env;
    }
  }

  lemma QuietTx(cfg: Config, env: Env, committed: View, b: Branch, tx: Bytes)
    requires QuietChecks(cfg) && env.mode != Deliver
    ensures RunCheck(cfg, env, committed, b, tx).block == env.block
  {
    hide Through, Route, Invoke, InvokeAnte, RunMsgs, ValidateBasic, Report;
    if cfg.decode(tx).Decoded? && env.mode == Simulate {
      var msgs := cfg.decode(tx).msgs;
      var a := Ante(cfg, env, committed, b, tx);
      QuietMessages(cfg, env, Through(committed, b.writes), b.gas, msgs);
      QuietMessages(cfg, env, Through(committed, b.writes + a.writes), AnteMeter(a), msgs);
      assert cfg.ante.Some? ==> env.(block := a.block) == env;
    }
  }

  ghost predicate ParamsReadable(cfg: AppConfig) {
    forall view, meter :: cfg.readParams(view, meter).Some?
  }

  /** Handlers that never touch the block gas meter outside DeliverTx, recovery handlers that make an error
      of every panic and a parameter store that can be read make every run quiet. */
  lemma {:induction false} QuietHandlersQuietRun(cfg: AppConfig, app: App, calls: seq<Call>)
    requires QuietChecks(cfg.tx) && ParamsReadable(cfg) && forall p: PanicValue :: Handled(cfg.tx, Some(p))
    ensures QuietRun(cfg, app, calls)
    decreases |calls|
  {
    hide Step, QuietChecks, Handled, RunCheck, TxBody;
    if calls != [] {
      if IsCheck(calls[0]) {
        var env := CheckEnv(app, ModeOf(calls[0]));
        var branch := ReadParams(cfg, app.committed, app.check).value;
        QuietTx(cfg.tx, env, app.committed, branch, calls[0].tx);
        NoPanicIsHandled(cfg.tx);
        var p := FinalPanic(TxBody(cfg.tx, env, app.committed, branch, calls[0].tx).ending, None);
        assert p == None || p == Some(p.value);
      }
      if Step(cfg, app, calls[0]).Next? {
        QuietHandlersQuietRun(cfg, Step(cfg, app, calls[0]).app, calls[1..]);
      }
    }
  }

  lemma NoPanicIsHandled(cfg: Config)
    ensures Handled(cfg, None)
  {
  }

  /** An application whose ante handler spends block gas in CheckTx; a block may use 10 gas. */
  const LEAKY: AppConfig := AppConfig(
    Config(
      tx => Decoded([tx]), msg => Good,
      Some((env: Env, view, meter, tx) =>
        AnteEffect(map[], meter, None, if env.mode == Check then Some(Basic(10, 10)) else None, Good)),
      msg => Some((env, view, meter, m) => Effect(map[], meter, None, Good)),
      msg => None, route => None, []),
    true, view => Some(10), (view, meter) => Some(meter), (params, meter) => Some(meter), None, None, None)

  /** The state after the first BeginBlock, with `used` gas of the block spent. */
  function LeakyBlock(used: Gas): App {
    FRESH.(deliver := Some(Delivering(NEW_BRANCH, Header(1, []), Some(Basic(10, used)))), checkSeesBlock := true)
  }

  lemma LeakyBody(env: Env, tx: Bytes)
    requires env.mode == Check || env.mode == Deliver
    ensures TxBody(LEAKY.tx, env, map[], NEW_BRANCH, tx)
         == Body(NEW_BRANCH, Infinite(0),
                 if env.mode == Check then Changed(env.block, Some(Basic(10, 10))) else env.block, Good)
  {
    assert [tx][1..] == [];
    assert LEAKY.tx.validateBasic(tx) == Good;
    assert FirstProblem(LEAKY.tx, [tx]) == FirstProblem(LEAKY.tx, []) == Good;
    var none: Writes := map[];
    assert none + none == none && Through(map[], none) == map[];
    assert RunMsgs(LEAKY.tx, env, map[], Infinite(0), []) == Effect(none, Infinite(0), env.block, Good);
    assert env.(block := Changed(env.block, None)) == env;
    assert RunMsgs(LEAKY.tx, env, map[], Infinite(0), [tx]) == Effect(none + none, Infinite(0), env.block, Good);
  }

  lemma RunFirst(cfg: AppConfig, app: App, call: Call, rest: seq<Call>)
    requires Step(cfg, app, call).Next?
    ensures var next := Step(cfg, app, call);
      Run(cfg, app, [call] + rest) == (Run(cfg, next.app, rest).0, next.out + Run(cfg, next.app, rest).1)
  {
    hide Step;
    assert ([call] + rest)[1..] == rest;
  }

  lemma LeakySteps(tx: Bytes)
    ensures Step(LEAKY, FRESH, BeginBlock(Header(1, []))) == Next(LeakyBlock(0), [Accepted(1)])
    ensures Step(LEAKY, LeakyBlock(0), CheckTx(tx, false)) == Next(LeakyBlock(10), [])
    ensures Step(LEAKY, LeakyBlock(0), DeliverTx(tx)).Next?
            && Step(LEAKY, LeakyBlock(0), DeliverTx(tx)).out == [Delivered(None)]
    ensures Step(LEAKY, LeakyBlock(10), DeliverTx(tx)) == Next(LeakyBlock(10), [Delivered(Some(NoBlockGas))])
  {
    hide TxBody, Through;
    LeakyBody(Env(Deliver, Header(1, []), Some(Basic(10, 0))), tx);
    LeakyBody(Env(Check, Header(0, []), Some(Basic(10, 0))), tx);
  }

  /** Without that restriction a check can spend the block's gas and make a delivered transaction fail. */
  lemma ChecksCanInterfere(tx: Bytes)
    ensures var begin, check, deliver := BeginBlock(Header(1, [])), CheckTx(tx, false), DeliverTx(tx);
      && Run(LEAKY, FRESH, [begin, check, deliver]).1 == [Accepted(1), Delivered(Some(NoBlockGas))]
      && Run(LEAKY, FRESH, [begin, deliver]).1 == [Accepted(1), Delivered(None)]
  {
    hide Step, Run, LeakyBlock;
    var begin, check, deliver := BeginBlock(Header(1, [])), CheckTx(tx, false), DeliverTx(tx);
    LeakySteps(tx);
    RunFirst(LEAKY, FRESH, begin, [check, deliver]);
    RunFirst(LEAKY, FRESH, begin, [deliver]);
    RunFirst(LEAKY, LeakyBlock(0), check, [deliver]);
    RunLast(LEAKY, LeakyBlock(0), deliver);
    RunLast(LEAKY, LeakyBlock(10), deliver);
    assert [begin, check, deliver] == [begin] + [check, deliver];
    assert [begin, deliver] == [begin] + [deliver] && [check, deliver] == [check] + [deliver];
  }

  lemma RunLast(cfg: AppConfig, app: App, call: Call)
    requires Step(cfg, app, call).Next?
    ensures Run(cfg, app, [call]).1 == Step(cfg, app, call).out
  {
    RunFirst(cfg, app, call, []);
    hide Step;
    assert [call] + [] == [call];
  }

  // ---------------------------------------------------------------- heights

  function CommitsIn(out: seq<Output>): nat {
    if out == [] then 0 else CommitsIn(out[..|out| - 1]) + (if out[|out| - 1].Committed? then 1 else 0)
  }

  /** Every accepted height and every commit version is `first` plus the number of commits before it. */
  ghost predicate ConsecutiveFrom(out: seq<Output>, first: int) {
    forall i :: 0 <= i < |out| ==>
      && (out[i].Accepted? ==> out[i].height == first + CommitsIn(out[..i]))
      && (out[i].Committed? ==> out[i].version == first + CommitsIn(out[..i]))
  }

  /** Holds of every application: `InitChain` sets both together. */
  ghost predicate HeightsAgree(app: App) {
    app.version >= 0 && app.initialHeight == app.initialVersion
  }

  lemma {:induction false} CommitsInSum(a: seq<Output>, b: seq<Output>)
    ensures CommitsIn(a + b) == CommitsIn(a) + CommitsIn(b)
  {
    if b == [] {
      assert a + b == a;
    } else {
      assert (a + b)[..|a + b| - 1] == a + b[..|b| - 1];
      CommitsInSum(a, b[..|b| - 1]);
    }
  }

  lemma ConsecutiveJoin(a: seq<Output>, b: seq<Output>, first: int)
    requires ConsecutiveFrom(a, first) && ConsecutiveFrom(b, first + CommitsIn(a))
    ensures ConsecutiveFrom(a + b, first)
  {
    forall i | 0 <= i < |a + b|
      ensures CommitsIn((a + b)[..i]) == if i < |a| then CommitsIn(a[..i]) else CommitsIn(a) + CommitsIn(b[..i - |a|])
    {
      if i < |a| {
        assert (a + b)[..i] == a[..i];
      } else {
        assert (a + b)[..i] == a + b[..i - |a|];
        CommitsInSum(a, b[..i - |a|]);
      }
    }
  }

  lemma CommitsInShort(out: seq<Output>)
    requires |out| <= 1
    ensures CommitsIn(out) == if out != [] && out[0].Committed? then 1 else 0
  {
    if out != [] {
      assert out[..0] == [];
    }
  }

  lemma StepHeights(cfg: AppConfig, app: App, call: Call)
    requires HeightsAgree(app) && !call.InitChain? && Step(cfg, app, call).Next?
    ensures var next := Step(cfg, app, call);
      && HeightsAgree(next.app) && |next.out| <= 1
      && ConsecutiveFrom(next.out, ExpectedHeight(app))
      && ExpectedHeight(next.app) == ExpectedHeight(app) + CommitsIn(next.out)
  {
    hide Through, RunDeliver, RunCheck, RunBlocker, CommitsIn, ReadParams, MaxGas;
    var out := Step(cfg, app, call).out;
    CommitsInShort(out);
    CommitsInShort(out[..0]);
  }

  /** In every run after initialization, the accepted heights and the commit versions follow each other
      without gaps, whatever calls come in between. */
  lemma {:induction false} HeightsAreConsecutive(cfg: AppConfig, app: App, calls: seq<Call>)
    requires HeightsAgree(app) && forall i :: 0 <= i < |calls| ==> !calls[i].InitChain?
    ensures ConsecutiveFrom(Run(cfg, app, calls).1, ExpectedHeight(app))
    decreases |calls|
  {
    hide Step, ConsecutiveFrom, CommitsIn, HeightsAgree, ExpectedHeight;
    ConsecutiveEmpty(ExpectedHeight(app));
    if calls != [] {
      var next := Step(cfg, app, calls[0]);
      if next.Next? {
        StepHeights(cfg, app, calls[0]);
        HeightsAreConsecutive(cfg, next.app, calls[1..]);
        ConsecutiveJoin(next.out, Run(cfg, next.app, calls[1..]).1, ExpectedHeight(app));
      }
    }
  }

  lemma ConsecutiveEmpty(first: int)
    ensures ConsecutiveFrom([], first)
  {
  }

  /** A chain starts at its initial height, and at one when that is not above one. */
  lemma HeightsFromInitialHeight(cfg: AppConfig, req: InitRequest, calls: seq<Call>)
    requires forall i :: 0 <= i < |calls| ==> !calls[i].InitChain?
    ensures ConsecutiveFrom(Run(cfg, FRESH, [InitChain(req)] + calls).1,
                            if req.initialHeight > 1 then req.initialHeight else 1)
  {
    hide ConsecutiveFrom, RunInit, WriteParams, CommitsIn;
    var all := [InitChain(req)] + calls;
    assert all[1..] == calls;
    ConsecutiveEmpty(if req.initialHeight > 1 then req.initialHeight else 1);
    var next := Step(cfg, FRESH, all[0]);
    if next.Next? {
      HeightsAreConsecutive(cfg, next.app, calls);
      assert [] + Run(cfg, next.app, calls).1 == Run(cfg, next.app, calls).1;
    }
  }
}
