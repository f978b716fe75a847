/** Every interleaving of calls on the snapshot manager (snapshots/manager.go).

  `Create` and `Prune` hold the operation but not the lock while they work, so other calls run between
  their steps. `Restore` and `RestoreChunk` hold the lock throughout and are single steps. */
module SnapshotRuns {
  import opened Lex
  import opened SnapshotKeys
  import opened SnapshotStore
  import opened SnapshotManager

  datatype Stage = Began | Fresh | Finished

  datatype Call = Creating(height: nat, stage: Stage) | PruningCall

  /** `offered` is the snapshot last accepted by `Restore`. */
  datatype System = System(m: State, pending: map<nat, Call>, db: map<Bytes, Snapshot>, offered: Snapshot)

  datatype Event =
    | CreateBegin(id: nat, height: nat)
    | CreateLook(id: nat)
    | CreateSave(id: nat, meta: Snapshot)
    | PruneBegin(id: nat)
    | PruneDelete(id: nat, key: Bytes)
    | EndCall(id: nat)
    | Offer(snapshot: Snapshot, comesUp: bool)
    | Feed(chunk: Bytes, endedEarly: bool, err: bool)

  /** A new manager on a store that already holds `db`. */
  ghost function Start(db: map<Bytes, Snapshot>): System {
    System(State(Idle, false, false, [], 0, []), map[], db, Snapshot(0, 0, 0, [], []))
  }

  ghost predicate AtStage(s: System, id: nat, stage: Stage) {
    id in s.pending && s.pending[id].Creating? && s.pending[id].stage == stage
  }

  ghost function Begin(s: System, id: nat, op: Operation, call: Call): System {
    if s.m.operation != Idle then s else s.(m := s.m.(operation := op), pending := s.pending[id := call])
  }

  ghost function Stored(meta: Snapshot, height: nat): Snapshot {
    meta.(height := height, format := CURRENT_FORMAT)
  }

  /** One step; an event that cannot happen in `s` changes nothing. */
  ghost function Next(s: System, e: Event, sha256: Bytes -> Bytes): System {
    match e
    case CreateBegin(id, height) =>
      if id in s.pending || height > MAX_HEIGHT then s else Begin(s, id, Snapshotting, Creating(height, Began))
    case CreateLook(id) =>
      if !AtStage(s, id, Began) then s
      else
        var h := s.pending[id].height;
        s.(pending := s.pending[id := Creating(h, if Above(h, s.db) then Fresh else Finished)])
    case CreateSave(id, meta) =>
      if !AtStage(s, id, Fresh) then s
      else
        var h := s.pending[id].height;
        var after := s.(pending := s.pending[id := Creating(h, Finished)]);
        if h == 0 || EncodeKey(h, CURRENT_FORMAT) in s.db then after
        else after.(db := s.db[EncodeKey(h, CURRENT_FORMAT) := Stored(meta, h)])
    case PruneBegin(id) =>
      if id in s.pending then s else Begin(s, id, Pruning, PruningCall)
    case PruneDelete(id, key) =>
      if id !in s.pending || s.pending[id] != PruningCall then s else s.(db := s.db - {key})
    case EndCall(id) =>
      if id !in s.pending then s else s.(m := Finish(s.m), pending := s.pending - {id})
    case Offer(snapshot, comesUp) =>
      var (m, r) := OfferStep(s.m, snapshot, comesUp);
      s.(m := m, offered := if r == Ready then snapshot else s.offered)
    case Feed(chunk, endedEarly, err) =>
      s.(m := ChunkStep(s.m, chunk, endedEarly, Report(err), sha256).0)
  }

  ghost function Run(db: map<Bytes, Snapshot>, es: seq<Event>, sha256: Bytes -> Bytes): System {
    if es == [] then Start(db) else Next(Run(db, es[..|es| - 1], sha256), es[|es| - 1], sha256)
  }

  ghost function HeldBy(call: Call): Operation {
    if call.Creating? then Snapshotting else Pruning
  }

  /** At most one call holds the operation, and the operation is its own. */
  ghost predicate OneOwner(s: System) {
    && (forall i, j :: i in s.pending && j in s.pending ==> i == j)
    && (forall i :: i in s.pending ==> s.m.operation == HeldBy(s.pending[i]))
    && (s.m.operation == Snapshotting || s.m.operation == Pruning ==> s.pending != map[])
  }

  /** The operation is a restore exactly while the channel is open and chunks are missing. */
  ghost predicate RestoreIsOpen(m: State) {
    && (m.operation == Restoring <==> m.channelOpen && m.index < |m.hashes|)
    && (m.channelOpen <==> m.awaitsDone)
    && (m.operation != Restoring ==> !m.channelOpen && m.hashes == [] && m.index == 0)
  }

  ghost predicate Matches(sent: seq<Bytes>, hashes: seq<Bytes>, sha256: Bytes -> Bytes) {
    |sent| <= |hashes| && forall i :: 0 <= i < |sent| ==> hashes[i] == sha256(sent[i])
  }

  /** The index is a 32-bit counter. Below 2^32 hashes it counts the chunks sent, which all match. */
  ghost predicate Fed(m: State, offered: Snapshot, sha256: Bytes -> Bytes) {
    && m.index < UINT32
    && m.hashes == offered.chunkHashes && |m.hashes| % UINT32 == offered.chunks
    && (|m.hashes| < UINT32 ==> |m.sent| == m.index && Matches(m.sent, m.hashes, sha256))
  }

  /** Between looking at the latest snapshot and saving, nothing newer can appear. */
  ghost predicate StaysFresh(s: System) {
    && KeysMatch(s.db)
    && (forall i :: i in s.pending && s.pending[i].Creating? ==> InRange(s.pending[i].height, CURRENT_FORMAT))
    && (forall i :: AtStage(s, i, Fresh) ==> Above(s.pending[i].height, s.db))
  }

  ghost predicate Invariant(s: System, sha256: Bytes -> Bytes) {
    && OneOwner(s)
    && RestoreIsOpen(s.m)
    && (s.m.operation == Restoring ==> Fed(s.m, s.offered, sha256))
    && StaysFresh(s)
  }

  lemma FeedKeepsFed(m: State, offered: Snapshot, chunk: Bytes, early: bool, done: RestoreDone, sha256: Bytes -> Bytes)
    requires RestoreIsOpen(m) && (m.operation == Restoring ==> Fed(m, offered, sha256))
    ensures var next := ChunkStep(m, chunk, early, done, sha256).0;
      RestoreIsOpen(next) && (next.operation == Restoring ==> Fed(next, offered, sha256))
  {
  }

  lemma SaveKeepsFresh(s: System, id: nat, meta: Snapshot, sha256: Bytes -> Bytes)
    requires OneOwner(s) && StaysFresh(s)
    ensures StaysFresh(Next(s, CreateSave(id, meta), sha256))
  {
    hide EncodeKey, DecodeKey, MAX_KEY;
    if AtStage(s, id, Fresh) {
      KeyRoundTrip(s.pending[id].height, CURRENT_FORMAT);
    }
  }

  lemma KeepsFresh(s: System, e: Event, sha256: Bytes -> Bytes)
    requires OneOwner(s) && StaysFresh(s)
    ensures StaysFresh(Next(s, e, sha256))
  {
    hide EncodeKey, DecodeKey, MAX_KEY, OfferStep, ChunkStep;
    if e.CreateSave? {
      SaveKeepsFresh(s, e.id, e.meta, sha256);
    }
  }

  lemma KeepsOwner(s: System, e: Event, sha256: Bytes -> Bytes)
    requires OneOwner(s)
    ensures OneOwner(Next(s, e, sha256))
  {
    hide EncodeKey, Above, MAX_KEY;
  }

  lemma Step(s: System, e: Event, sha256: Bytes -> Bytes)
    requires Invariant(s, sha256)
    ensures Invariant(Next(s, e, sha256), sha256)
  {
    hide EncodeKey, Above, MAX_KEY, OneOwner, StaysFresh;
    KeepsOwner(s, e, sha256);
    KeepsFresh(s, e, sha256);
    if e.Feed? {
      FeedKeepsFed(s.m, s.offered, e.chunk, e.endedEarly, Report(e.err), sha256);
    }
  }

  /** Every interleaving keeps the invariant. */
  lemma {:induction false} EveryRun(db: map<Bytes, Snapshot>, es: seq<Event>, sha256: Bytes -> Bytes)
    requires KeysMatch(db)
    ensures Invariant(Run(db, es, sha256), sha256)
  {
    hide Next;
    if es != [] {
      EveryRun(db, es[..|es| - 1], sha256);
      Step(Run(db, es[..|es| - 1], sha256), es[|es| - 1], sha256);
    }
  }

  /** An operation in progress ends only by the call that began it, or by feeding its restore. */
  lemma OnlyTheOwnerEnds(db: map<Bytes, Snapshot>, es: seq<Event>, e: Event, sha256: Bytes -> Bytes)
    requires KeysMatch(db)
    ensures var s := Run(db, es, sha256);
      var next := Next(s, e, sha256);
      s.m.operation != Idle && next.m.operation != s.m.operation ==>
        && next.m.operation == Idle
        && (e.EndCall? || e.Feed?)
        && (e.Feed? ==> s.m.operation == Restoring)
        && (e.EndCall? ==> s.pending.Keys == {e.id} && s.m.operation == HeldBy(s.pending[e.id]))
  {
    EveryRun(db, es, sha256);
    hide Run, EncodeKey, Above, StaysFresh, Fed;
  }

  lemma CompleteStep(m: State, offered: Snapshot, chunk: Bytes, early: bool, err: bool, sha256: Bytes -> Bytes)
    requires RestoreIsOpen(m) && (m.operation == Restoring ==> Fed(m, offered, sha256))
    ensures var (next, r) := ChunkStep(m, chunk, early, Report(err), sha256);
      && r != Unexpected && r != Premature
      && (r == Mismatch ==> next == m)
      && (r == Complete ==>
            && |offered.chunkHashes| < UINT32
            && |next.sent| == offered.chunks && Hashed(next.sent, offered.chunkHashes, sha256))
  {
  }

  /** In every run, `RestoreChunk` is never "unexpected" or "premature"; a mismatch changes nothing; and
      success means that exactly the offered chunks were sent, each once, in order. A snapshot of 2^32
      chunks or more is never restored completely. */
  lemma CompleteMeansWhole(db: map<Bytes, Snapshot>, es: seq<Event>, chunk: Bytes, early: bool, err: bool,
                           sha256: Bytes -> Bytes)
    requires KeysMatch(db)
    ensures var s := Run(db, es, sha256);
      var (next, r) := ChunkStep(s.m, chunk, early, Report(err), sha256);
      && r != Unexpected && r != Premature
      && (r == Mismatch ==> next == s.m)
      && (r == Complete ==>
            && |s.offered.chunkHashes| < UINT32
            && |next.sent| == s.offered.chunks && Hashed(next.sent, s.offered.chunkHashes, sha256))
  {
    hide Run, RestoreIsOpen, Fed, ChunkStep, Hashed, StaysFresh, OneOwner;
    EveryRun(db, es, sha256);
    var s := Run(db, es, sha256);
    CompleteStep(s.m, s.offered, chunk, early, err, sha256);
  }

  /** In every run, a snapshot is saved only above all stored heights, and under a key not yet taken. */
  lemma SavesOnlyNewer(db: map<Bytes, Snapshot>, es: seq<Event>, id: nat, meta: Snapshot, sha256: Bytes -> Bytes)
    requires KeysMatch(db)
    ensures var s := Run(db, es, sha256);
      AtStage(s, id, Fresh) ==>
        var h := s.pending[id].height;
        && Above(h, s.db) && EncodeKey(h, CURRENT_FORMAT) !in s.db
        && (h > 0 ==> Next(s, CreateSave(id, meta), sha256).db
                      == s.db[EncodeKey(h, CURRENT_FORMAT) := Stored(meta, h)])
  {
    EveryRun(db, es, sha256);
    hide Run, EncodeKey, Above, OneOwner, Fed, RestoreIsOpen;
    var s := Run(db, es, sha256);
    if AtStage(s, id, Fresh) {
      FreshKey(s.db, s.pending[id].height);
    }
  }
}
