/** Splitting a byte stream into chunks and joining them again (snapshots/util.go).

  Pipes and channels are sequences: a pipe is the bytes written to it, a channel the pipes sent on it. */
module ChunkStream {
  import opened Lex

  function Concat(chunks: seq<Bytes>): Bytes {
    if chunks == [] then [] else chunks[0] + Concat(chunks[1..])
  }

  lemma ConcatFirst(chunks: seq<Bytes>)
    requires chunks != []
    ensures Concat(chunks) == chunks[0] + Concat(chunks[1..])
  {
  }

  lemma {:induction false} ConcatSnoc(chunks: seq<Bytes>, c: Bytes)
    ensures Concat(chunks + [c]) == Concat(chunks) + c
  {
    if chunks == [] {
      assert chunks + [c] == [c] && [c][1..] == [];
    } else {
      assert (chunks + [c])[1..] == chunks[1..] + [c];
      ConcatSnoc(chunks[1..], c);
    }
  }

  /** No chunk is empty and all but the last are full. Size zero means a single chunk. */
  ghost predicate WellChunked(chunks: seq<Bytes>, size: nat) {
    && (forall i :: 0 <= i < |chunks| ==> chunks[i] != [])
    && (size == 0 ==> |chunks| <= 1)
    && (size > 0 ==> forall i :: 0 <= i < |chunks| ==> |chunks[i]| <= size)
    && (size > 0 ==> forall i :: 0 <= i < |chunks| - 1 ==> |chunks[i]| == size)
  }

  lemma ConcatNonEmpty(chunks: seq<Bytes>, size: nat)
    requires WellChunked(chunks, size) && chunks != []
    ensures Concat(chunks) != []
  {
    assert chunks[0] != [];
  }

  lemma SingleChunk(a: seq<Bytes>)
    requires |a| == 1
    ensures Concat(a) == a[0]
  {
    assert a[1..] == [];
  }

  /** The chunks of a stream are determined by the stream, so they cannot depend on how it was written. */
  lemma {:induction false} ChunksUnique(a: seq<Bytes>, b: seq<Bytes>, size: nat)
    requires WellChunked(a, size) && WellChunked(b, size)
    requires Concat(a) == Concat(b)
    ensures a == b
    decreases |a|
  {
    if a == [] || b == [] {
      if b != [] { ConcatNonEmpty(b, size); }
      if a != [] { ConcatNonEmpty(a, size); }
    } else {
      SameFirstChunk(a, b, size);
      assert Concat(a[1..]) == Concat(a)[|a[0]|..] && Concat(b[1..]) == Concat(b)[|b[0]|..];
      TailWellChunked(a, size);
      TailWellChunked(b, size);
      ChunksUnique(a[1..], b[1..], size);
      assert a == [a[0]] + a[1..] && b == [b[0]] + b[1..];
    }
  }

  lemma TailWellChunked(a: seq<Bytes>, size: nat)
    requires WellChunked(a, size) && a != []
    ensures WellChunked(a[1..], size)
  {
  }

  lemma SameFirstChunk(a: seq<Bytes>, b: seq<Bytes>, size: nat)
    requires WellChunked(a, size) && WellChunked(b, size) && a != [] && b != []
    requires Concat(a) == Concat(b)
    ensures a[0] == b[0]
  {
    FirstChunkLength(a, size);
    FirstChunkLength(b, size);
    assert a[0] == Concat(a)[..|a[0]|] && b[0] == Concat(b)[..|b[0]|];
  }

  lemma FirstChunkLength(a: seq<Bytes>, size: nat)
    requires WellChunked(a, size) && a != []
    ensures |a[0]| == if size == 0 || |Concat(a)| < size then |Concat(a)| else size
  {
    if |a| == 1 { SingleChunk(a); }
  }

  class ChunkWriter {
    const chunkSize: nat
    /** The pipes sent on the channel; the last one is still open for writing. */
    var chunks: seq<Bytes>
    var written: nat
    var closed: bool
    ghost var stream: Bytes

    ghost predicate Valid()
      reads this
    {
      && WellChunked(chunks, chunkSize)
      && Concat(chunks) == stream
      && (chunks != [] ==> written == |chunks[|chunks| - 1]|)
    }

    constructor (size: nat)
      ensures Valid() && chunkSize == size && stream == [] && chunks == [] && !closed
    {
      chunkSize := size;
      chunks := [];
      written := 0;
      closed := false;
      stream := [];
    }

    method Close()
      modifies this`closed
      ensures closed
    {
      closed := true;
    }

    /** Appends `data` to the stream. Whatever the chunk boundaries of earlier writes, the chunks stay
        well formed; a closed writer refuses and writes nothing. */
    method Write(data0: Bytes) returns (n: nat, ok: bool)
      requires Valid()
      modifies this`chunks, this`written, this`stream
      ensures Valid()
      ensures ok <==> !closed
      ensures ok ==> n == |data0| && stream == old(stream) + data0
      ensures !ok ==> n == 0 && stream == old(stream) && chunks == old(chunks)
    {
      hide Concat, WellChunked;
      if closed {
        return 0, false;
      }
      var data := data0;
      n := 0;
      while |data| > 0
        invariant Valid()
        invariant n + |data| == |data0|
        invariant stream + data == old(stream) + data0
        decreases |data|
      {
        if chunks == [] || (written >= chunkSize && chunkSize > 0) {
          var size := if chunkSize == 0 || chunkSize > |data| then |data| else chunkSize;
          StartChunk(data[..size]);
          n := n + size;
          assert stream + data[size..] == old(stream) + data0;
          data := data[size..];
        } else {
          var size := if chunkSize == 0 || chunkSize - written > |data| then |data| else chunkSize - written;
          ExtendChunk(data[..size]);
          n := n + size;
          assert stream + data[size..] == old(stream) + data0;
          data := data[size..];
        }
      }
      assert stream + [] == stream;
      return n, true;
    }

    /** A new pipe is sent and the bytes go into it. */
    method StartChunk(part: Bytes)
      requires Valid() && part != []
      requires chunkSize == 0 ==> chunks == []
      requires chunkSize > 0 ==> |part| <= chunkSize && (chunks == [] || written >= chunkSize)
      modifies this`chunks, this`written, this`stream
      ensures Valid() && stream == old(stream) + part
      ensures chunks == old(chunks) + [part]
    {
      ConcatSnoc(chunks, part);
      chunks := chunks + [part];
      written := |part|;
      stream := stream + part;
    }

    method ExtendChunk(part: Bytes)
      requires Valid() && part != [] && chunks != []
      requires chunkSize > 0 ==> written + |part| <= chunkSize
      modifies this`chunks, this`written, this`stream
      ensures Valid() && stream == old(stream) + part
      ensures |chunks| == |old(chunks)|
    {
      var k := |chunks| - 1;
      var last := chunks[k] + part;
      ConcatSnoc(chunks[..k], chunks[k]);
      ConcatSnoc(chunks[..k], last);
      assert chunks[..k] + [chunks[k]] == chunks;
      assert Concat(chunks[..k]) + last == stream + part;
      chunks := chunks[..k] + [last];
      written := written + |part|;
      stream := stream + part;
    }
  }

  class ChunkReader {
    /** Chunks still in the channel, which the sender has closed. */
    var ch: seq<Bytes>
    var open: bool
    /** What is left of the current chunk, if `open`. */
    var rest: Bytes

    function Remaining(): Bytes
      reads this
    {
      (if open then rest else []) + Concat(ch)
    }

    constructor (chunks: seq<Bytes>)
      ensures Remaining() == Concat(chunks)
    {
      ch := chunks;
      open := false;
      rest := [];
    }

    /** `Read` into a buffer of `size` bytes. A reader may return less than asked, but something; it
        reports the end of its chunk with zero bytes, and then the next chunk is read. */
    method Read(size: nat) returns (out: Bytes, eof: bool)
      modifies this
      ensures out + Remaining() == old(Remaining())
      ensures |out| <= size
      ensures eof ==> old(Remaining()) == []
      ensures !eof && size > 0 ==> out != []
      decreases |ch|, open
    {
      if !open {
        if ch == [] {
          return [], true;
        }
        ConcatFirst(ch);
        rest := ch[0];
        ch := ch[1..];
        open := true;
      }
      hide Concat;
      if rest == [] {
        open := false;
        assert [] + Concat(ch) == rest + Concat(ch);
        out, eof := Read(size);
        return;
      }
      var limit := if size < |rest| then size else |rest|;
      var k :| 0 <= k <= limit && (size > 0 ==> k > 0);
      out, eof := rest[..k], false;
      assert out + (rest[k..] + Concat(ch)) == rest + Concat(ch);
      rest := rest[k..];
    }

    /** Reading to the end with any sequence of buffer sizes gives the whole stream. */
    method ReadAll() returns (stream: Bytes)
      modifies this
      ensures stream == old(Remaining())
    {
      stream := [];
      var eof := false;
      while !eof
        invariant stream + Remaining() == old(Remaining())
        invariant eof ==> Remaining() == []
        decreases !eof, |Remaining()|
      {
        var size: nat :| size > 0;
        var out;
        ghost var before := Remaining();
        out, eof := Read(size);
        assert |before| == |out| + |Remaining()|;
        assert stream + before == stream + out + Remaining();
        stream := stream + out;
      }
    }
  }
}
