/** The snapshot manager: one operation at a time, and restoring chunk by chunk (snapshots/manager.go).

  What the restore target does on its own goroutine is a parameter of each step: whether it came up,
  whether it ended early, and how it ended. `sent` is everything sent on the current chunk channel. */
module SnapshotManager {
  import opened Lex
  import opened Outcomes
  import opened SnapshotKeys
  import opened SnapshotStore

  const CURRENT_FORMAT: nat := 1

  datatype Operation = Idle | Snapshotting | Pruning | Restoring

  datatype RestoreDone = RestoreDone(complete: bool, err: bool)

  datatype OfferResult = Ready | NoChunks | WrongCount | Busy | TargetFailed

  datatype ChunkResult = NotRestoring | Unexpected | TargetEnded | Mismatch | More | Premature | Complete

  datatype State = State(operation: Operation, channelOpen: bool, awaitsDone: bool,
                         hashes: seq<Bytes>, index: nat, sent: seq<Bytes>)

  /** What the target's goroutine reports. */
  function Report(err: bool): RestoreDone {
    RestoreDone(!err, err)
  }

  function Finish(s: State): State {
    s.(operation := Idle, channelOpen := false, awaitsDone := false, hashes := [], index := 0)
  }

  function OfferStep(s: State, snapshot: Snapshot, comesUp: bool): (State, OfferResult) {
    if snapshot.chunks == 0 then (s, NoChunks)
    else if |snapshot.chunkHashes| % UINT32 != snapshot.chunks then (s, WrongCount)
    else if s.operation != Idle then (s, Busy)
    else if !comesUp then (Finish(s), TargetFailed)
    else (State(Restoring, true, true, snapshot.chunkHashes, 0, []), Ready)
  }

  function ChunkStep(s: State, chunk: Bytes, endedEarly: bool, done: RestoreDone, sha256: Bytes -> Bytes)
    : (State, ChunkResult)
  {
    if s.operation != Restoring then (s, NotRestoring)
    else if s.index >= |s.hashes| then (s, Unexpected)
    else if endedEarly then (Finish(s), TargetEnded)
    else if sha256(chunk) != s.hashes[s.index] then (s, Mismatch)
    else
      var fed := s.(sent := s.sent + [chunk], index := (s.index + 1) % UINT32);
      if fed.index < |fed.hashes| then (fed, More)
      else (Finish(fed), if done.err then TargetEnded else if !done.complete then Premature else Complete)
  }

  class Manager {
    const store: Store
    var operation: Operation
    var chRestore: bool
    var chRestoreDone: bool
    var restoreChunkHashes: seq<Bytes>
    var restoreChunkIndex: nat
    var sent: seq<Bytes>

    function Now(): State
      reads this
    {
      State(operation, chRestore, chRestoreDone, restoreChunkHashes, restoreChunkIndex, sent)
    }

    constructor (s: Store)
      ensures store == s && Now() == State(Idle, false, false, [], 0, [])
    {
      store := s;
      operation := Idle;
      chRestore, chRestoreDone := false, false;
      restoreChunkHashes, restoreChunkIndex := [], 0;
      sent := [];
    }

    method Begin(op: Operation) returns (ok: bool)
      modifies this`operation
      ensures ok <==> op != Idle && old(operation) == Idle
      ensures operation == if ok then op else old(operation)
    {
      if op == Idle || operation != Idle {
        return false;
      }
      operation := op;
      return true;
    }

    method End()
      modifies this
      ensures Now() == Finish(old(Now()))
    {
      operation := Idle;
      if chRestore {
        chRestore := false;
      }
      chRestoreDone := false;
      restoreChunkHashes := [];
      restoreChunkIndex := 0;
    }

    method Restore(snapshot: Snapshot, comesUp: bool) returns (r: OfferResult)
      modifies this
      ensures (Now(), r) == OfferStep(old(Now()), snapshot, comesUp)
    {
      if snapshot.chunks == 0 {
        return NoChunks;
      }
      if |snapshot.chunkHashes| % UINT32 != snapshot.chunks {
        return WrongCount;
      }
      var ok := Begin(Restoring);
      if !ok {
        return Busy;
      }
      if !comesUp {
        End();
        return TargetFailed;
      }
      chRestore, chRestoreDone := true, true;
      restoreChunkHashes, restoreChunkIndex := snapshot.chunkHashes, 0;
      sent := [];
      return Ready;
    }

    method RestoreChunk(chunk: Bytes, endedEarly: bool, done: RestoreDone) returns (r: ChunkResult)
      modifies this
      ensures (Now(), r) == ChunkStep(old(Now()), chunk, endedEarly, done, store.sha256)
    {
      if operation != Restoring {
        return NotRestoring;
      }
      if restoreChunkIndex >= |restoreChunkHashes| {
        return Unexpected;
      }
      if endedEarly {
        End();
        return TargetEnded;
      }
      if store.sha256(chunk) != restoreChunkHashes[restoreChunkIndex] {
        return Mismatch;
      }
      sent := sent + [chunk];
      restoreChunkIndex := (restoreChunkIndex + 1) % UINT32;
      if restoreChunkIndex >= |restoreChunkHashes| {
        chRestore := false;
        End();
        if done.err {
          return TargetEnded;
        }
        if !done.complete {
          return Premature;
        }
        return Complete;
      }
      return More;
    }

    /** `Create`: refused while busy and when a snapshot at this height or above exists; otherwise the
        new snapshot's height exceeds every stored one, whatever its format. */
    method Create(height: nat, target: Option<seq<Bytes>>) returns (r: Option<Snapshot>)
      requires store.Valid() && InRange(height, CURRENT_FORMAT)
      modifies this, store`db, store`dirs, store`heightDirs, store`saving
      ensures store.Valid() && store.saving == old(store.saving)
      ensures Now() == if old(operation) == Idle then Finish(old(Now())) else old(Now())
      ensures r.Some? <==>
                && old(operation) == Idle && target.Some? && height > 0 && height !in store.saving
                && Above(height, old(store.db))
      ensures r.None? ==> store.db == old(store.db)
      ensures r.Some? ==>
                && Describes(r.value, height, CURRENT_FORMAT, target.value, store.sha256)
                && store.db == old(store.db)[EncodeKey(height, CURRENT_FORMAT) := r.value]
                && OnDisk(store.dirs, height, CURRENT_FORMAT, target.value, |target.value|)
    {
      hide EncodeKey, DecodeKey;
      r := None;
      var ok := Begin(Snapshotting);
      if !ok {
        return;
      }
      var latest := store.GetLatest();
      if latest.Some? && latest.value.height >= height {
        End();
        return;
      }
      if target.Some? {
        FreshKey(store.db, height);
        var saved := store.Save(height, CURRENT_FORMAT, target.value);
        r := if saved.Saved? then Some(saved.snapshot) else None;
      }
      End();
    }

    method Prune(retain: nat) returns (r: Option<nat>, ghost kept: set<nat>)
      requires store.Valid()
      modifies this, store`db, store`dirs, store`heightDirs
      ensures store.Valid()
      ensures Now() == if old(operation) == Idle then Finish(old(Now())) else old(Now())
      ensures old(operation) != Idle ==> r.None? && store.db == old(store.db)
      ensures old(operation) == Idle ==>
                && TopHeights(kept, Heights(old(store.db)), retain)
                && (r.Some? <==> AllPrunable(old(store.db), store.saving, old(store.heightDirs), old(store.dirs),
                                             Heights(old(store.db)) - kept))
                && Retains(old(store.db), store.db, kept)
      ensures r.Some? ==> store.db == Kept(old(store.db), kept) && r.value == |old(store.db)| - |store.db|
    {
      hide Kept, Retains, TopHeights, Heights, AllPrunable, Store.Valid;
      r, kept := None, {};
      var ok := Begin(Pruning);
      if !ok {
        return;
      }
      r, kept := store.Prune(retain);
      End();
    }
  }

  /** The height exceeds those of all stored snapshots below the largest possible key. */
  ghost predicate Above(height: nat, db: map<Bytes, Snapshot>) {
    forall k :: k in db && k != MAX_KEY ==> db[k].height < height
  }

  lemma CurrentIsNotMax(height: nat)
    requires InRange(height, CURRENT_FORMAT)
    ensures EncodeKey(height, CURRENT_FORMAT) != MAX_KEY
  {
    hide EncodeKey;
    KeyRoundTrip(height, CURRENT_FORMAT);
    KeyRoundTrip(MAX_HEIGHT, MAX_FORMAT);
  }

  lemma FreshKey(db: map<Bytes, Snapshot>, height: nat)
    requires KeysMatch(db) && Above(height, db) && InRange(height, CURRENT_FORMAT)
    ensures EncodeKey(height, CURRENT_FORMAT) !in db
  {
    hide EncodeKey, DecodeKey;
    CurrentIsNotMax(height);
    KeyRoundTrip(height, CURRENT_FORMAT);
  }
}
