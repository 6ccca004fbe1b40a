/** Content hashing of one file: `compute_file_hash` streams the file in
    fixed-size chunks through an incremental digest engine. The engine
    (OpenSSL's EVP interface with BLAKE2b-512) is abstract: it may fail to
    initialise, to absorb a chunk or to finalise, and its digest is a
    deterministic function of all the bytes it absorbed. */
module Hashing {
  import opened Wrappers
  import opened Hex

  /** Size of the read buffer. */
  const ChunkSize: nat := 65536

  /** BLAKE2b-512 produces 64-byte digests. */
  const DigestSize: nat := 64

  type Digest = d: seq<byte> | |d| == DigestSize witness seq(DigestSize, _ => 0)

  /** The abstract digest engine.
      - `initOk`: whether `EVP_DigestInit_ex` succeeds;
      - `updateOk`: whether `EVP_DigestUpdate` succeeds;
      - `finish`: `EVP_DigestFinal_ex` applied to everything absorbed since
        initialisation, `None` when finalisation fails. */
  datatype Engine = Engine(initOk: bool, updateOk: bool, finish: seq<byte> -> Option<Digest>)

  /** What opening a path for reading yields: either the stream cannot be
      opened, or it delivers `content` and then either ends cleanly or
      fails with an I/O error (`readFault`, which sets the stream's badbit). */
  datatype FileState = Unreadable | Readable(content: seq<byte>, readFault: bool)

  /** The concatenation of a sequence of chunks, in order. */
  function Flatten(chunks: seq<seq<byte>>): (s: seq<byte>)
    ensures chunks == [] ==> s == []
  {
    if chunks == [] then []
    else Flatten(chunks[..|chunks| - 1]) + chunks[|chunks| - 1]
  }

  /** The chunks a buffered reader with a `ChunkSize` buffer delivers for
      `s`: full buffers, then one shorter, non-empty remainder if any. */
  function Chunks(s: seq<byte>): (cs: seq<seq<byte>>)
    ensures forall k :: 0 <= k < |cs| ==> 0 < |cs[k]| <= ChunkSize
    decreases |s|
  {
    if s == [] then []
    else if |s| <= ChunkSize then [s]
    else [s[..ChunkSize]] + Chunks(s[ChunkSize..])
  }

  lemma {:induction false} FlattenAppend(a: seq<seq<byte>>, b: seq<seq<byte>>)
    ensures Flatten(a + b) == Flatten(a) + Flatten(b)
    decreases |b|
  {
    if b != [] {
      var b' := b[..|b| - 1];
      assert (a + b)[..|a + b| - 1] == a + b';
      assert (a + b)[|a + b| - 1] == b[|b| - 1];
      FlattenAppend(a, b');
    } else {
      assert a + b == a;
    }
  }

  /** Reading the chunks back to back gives the whole content. */
  lemma {:induction false} FlattenChunks(s: seq<byte>)
    ensures Flatten(Chunks(s)) == s
    decreases |s|
  {
    if s != [] && |s| <= ChunkSize {
      assert Flatten([s]) == Flatten([]) + s;
    } else if s != [] {
      FlattenChunks(s[ChunkSize..]);
      FlattenAppend([s[..ChunkSize]], Chunks(s[ChunkSize..]));
      assert Flatten([s[..ChunkSize]]) == Flatten([]) + s[..ChunkSize];
      assert s[..ChunkSize] + s[ChunkSize..] == s;
    }
  }

  /** One read of the streaming loop takes the next chunk. */
  lemma ChunksStep(content: seq<byte>, pos: nat, count: nat)
    requires pos < |content|
    requires count == if |content| - pos < ChunkSize then |content| - pos else ChunkSize
    ensures Chunks(content[pos..]) == [content[pos..pos + count]] + Chunks(content[pos + count..])
  {
    var s := content[pos..];
    if |s| <= ChunkSize {
      assert content[pos..pos + count] == s;
      assert content[pos + count..] == [];
    } else {
      assert content[pos..pos + count] == s[..ChunkSize];
      assert content[pos + count..] == s[ChunkSize..];
    }
  }

  /** Feeding the next chunk keeps the streaming loop's invariant: what
      was fed is the content read so far, and together with the chunks of
      the rest it is the chunking of the whole content. */
  lemma FeedStep(content: seq<byte>, pos: nat, count: nat, fed: seq<seq<byte>>)
    requires pos < |content|
    requires count == if |content| - pos < ChunkSize then |content| - pos else ChunkSize
    requires content[..pos] == Flatten(fed)
    requires fed + Chunks(content[pos..]) == Chunks(content)
    ensures content[..pos + count] == Flatten(fed + [content[pos..pos + count]])
    ensures content[..pos + count] == content[..pos] + content[pos..pos + count]
    ensures (fed + [content[pos..pos + count]]) + Chunks(content[pos + count..]) == Chunks(content)
  {
    var chunk := content[pos..pos + count];
    ChunksStep(content, pos, count);
    assert (fed + [chunk])[..|fed|] == fed;
    assert content[..pos + count] == content[..pos] + chunk;
  }

  /** The outcome of hashing a file, in closed form: no value when the
      engine cannot be initialised or the file cannot be opened, when the
      engine rejects a chunk (which only happens if there is a chunk to
      feed), when the stream reports an I/O error, or when finalisation
      fails; otherwise the digest of the entire content. */
  function FileHash(engine: Engine, file: FileState): (r: Option<Digest>)
    ensures r.Some? <==> engine.initOk && file.Readable? && (file.content == [] || engine.updateOk)
                         && !file.readFault && engine.finish(file.content).Some?
    ensures r.Some? ==> r == engine.finish(Flatten(Chunks(file.content)))
  {
    FlattenChunks(if file.Readable? then file.content else []);
    if !engine.initOk || file.Unreadable? then None
    else if |file.content| > 0 && !engine.updateOk then None
    else if file.readFault then None
    else engine.finish(file.content)
  }

  /** `compute_file_hash`: read up to `ChunkSize` bytes at a time until a
      read yields nothing or the stream stops being good (a short read sets
      eof and fail), feeding each non-empty chunk to the engine. `fed` is
      the sequence of chunks passed to `EVP_DigestUpdate`. */
  method ComputeFileHash(engine: Engine, file: FileState) returns (r: Option<Digest>, fed: seq<seq<byte>>)
    ensures r == FileHash(engine, file)
    ensures forall k :: 0 <= k < |fed| ==> 0 < |fed[k]| <= ChunkSize
    ensures r.Some? ==> fed == Chunks(file.content) && Flatten(fed) == file.content
  {
    fed := [];
    if !engine.initOk || file.Unreadable? {
      return None, fed;
    }
    var content := file.content;
    var pos := 0;
    var absorbed: seq<byte> := [];
    var good := true;
    while good
      invariant 0 <= pos <= |content|
      invariant absorbed == content[..pos] == Flatten(fed)
      invariant fed + Chunks(content[pos..]) == Chunks(content)
      invariant forall k :: 0 <= k < |fed| ==> 0 < |fed[k]| <= ChunkSize
      invariant !good ==> pos == |content|
      invariant pos > 0 ==> engine.updateOk
      decreases |content| - pos
    {
      var count := if |content| - pos < ChunkSize then |content| - pos else ChunkSize;
      var chunk := content[pos..pos + count];
      if count < ChunkSize {
        good := false;
      }
      if count == 0 {
        break;
      }
      if !engine.updateOk {
        return None, fed;
      }
      FeedStep(content, pos, count, fed);
      absorbed := absorbed + chunk;
      fed := fed + [chunk];
      pos := pos + count;
    }
    assert absorbed == content;
    if file.readFault {
      return None, fed;
    }
    r := engine.finish(absorbed);
  }
}
