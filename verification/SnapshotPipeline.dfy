/** From a byte stream through chunking, saving, loading and restoring, back to the byte stream. */
module SnapshotPipeline {
  import opened Lex
  import opened Outcomes
  import opened ChunkStream
  import opened SnapshotKeys
  import opened SnapshotStore
  import opened SnapshotManager

  /** The writer side: any split of the stream into writes gives the chunks of that stream. */
  method WriteChunked(writes: seq<Bytes>, chunkSize: nat) returns (chunks: seq<Bytes>)
    ensures WellChunked(chunks, chunkSize) && Concat(chunks) == Concat(writes)
  {
    var w := new ChunkWriter(chunkSize);
    for i := 0 to |writes|
      invariant w.Valid() && !w.closed && w.chunkSize == chunkSize
      invariant w.stream == Concat(writes[..i])
    {
      var n, ok := w.Write(writes[i]);
      ConcatSnoc(writes[..i], writes[i]);
      assert writes[..i + 1] == writes[..i] + [writes[i]];
    }
    assert writes[..|writes|] == writes;
    w.Close();
    return w.chunks;
  }

  /** Chunks that fail their hash check change nothing. */
  method FeedWrong(m: Manager, wrong: seq<Bytes>)
    requires m.operation == Restoring && m.restoreChunkIndex < |m.restoreChunkHashes|
    modifies m
    ensures m.Now() == old(m.Now())
  {
    for j := 0 to |wrong|
      invariant m.Now() == old(m.Now())
    {
      if m.store.sha256(wrong[j]) != m.restoreChunkHashes[m.restoreChunkIndex] {
        var r := m.RestoreChunk(wrong[j], false, Report(false));
      }
    }
  }

  /** Feeding the chunks in order completes the restore, whatever chunks that fail their hash check are
      offered in between, and what the target received is exactly the chunks. From 2^32 hashes on the
      restore is refused or the 32-bit chunk index never reaches their number, whatever is fed. */
  method FeedAll(m: Manager, s: Snapshot, chunks: seq<Bytes>, wrong: nat -> seq<Bytes>) returns (ok: bool)
    requires m.operation == Idle && s.chunks == |s.chunkHashes| % UINT32
    requires |s.chunkHashes| < UINT32 ==> Hashed(chunks, s.chunkHashes, m.store.sha256)
    modifies m
    ensures ok <==> 0 < |s.chunkHashes| < UINT32
    ensures ok ==> m.operation == Idle && m.sent == chunks
  {
    var offered := m.Restore(s, true);
    if offered != Ready {
      return false;
    }
    ghost var after := m.Now();
    var r := More;
    for i := 0 to |chunks|
      invariant |s.chunkHashes| < UINT32 && i < |chunks| ==> m.Now() == after.(index := i, sent := chunks[..i])
      invariant |s.chunkHashes| < UINT32 && i == |chunks| ==> r == Complete && m.operation == Idle && m.sent == chunks
      invariant |s.chunkHashes| >= UINT32 ==> r != Complete && NeverEnds(m.Now(), s)
    {
      FeedWrong(m, wrong(i));
      r := m.RestoreChunk(chunks[i], false, Report(false));
      assert chunks[..i + 1] == chunks[..i] + [chunks[i]];
    }
    ok := r == Complete;
  }

  ghost predicate NeverEnds(m: State, s: Snapshot) {
    m.operation == Restoring && m.hashes == s.chunkHashes && m.index < UINT32
  }

  /** Write, save, load, restore and read give the original stream, for every non-empty stream, every
      way of writing it, every wrong chunk on the way and every sequence of buffer sizes on the reading
      side, if and only if there are fewer than 2^32 chunks. */
  method SnapshotAndRestore(writes: seq<Bytes>, chunkSize: nat, source: Store, height: nat, format: nat,
                            m: Manager, wrong: nat -> seq<Bytes>)
    returns (chunks: seq<Bytes>, stream: Option<Bytes>)
    requires Concat(writes) != []
    requires source.Valid() && InRange(height, format) && height != 0 && height !in source.saving
    requires EncodeKey(height, format) !in source.db
    requires m.operation == Idle && m.store.sha256 == source.sha256
    modifies source, m
    ensures WellChunked(chunks, chunkSize) && Concat(chunks) == Concat(writes)
    ensures stream == if |chunks| < UINT32 then Some(Concat(writes)) else None
  {
    hide EncodeKey, Store.Valid;
    stream := None;
    chunks := WriteChunked(writes, chunkSize);
    var saved := source.Save(height, format, chunks);
    var loaded := source.Load(height, format);
    var (snapshot, parts) := loaded.value;
    if |chunks| < UINT32 {
      ReadBack(source.dirs, height, format, chunks, parts);
    }
    var ok := FeedAll(m, snapshot, parts, wrong);
    if ok {
      var reader := new ChunkReader(m.sent);
      var bytes := reader.ReadAll();
      stream := Some(bytes);
    }
  }
}
