/** Restoring (RestoreFile, restoreChunked, fetchShard, downloadShard): the result as a function of the
    manifest and of whatever the peers and the local directory happen to answer. */
module Restore {
  import opened Prelude
  import opened Erasure
  import opened Manifest
  import opened Sealing

  /** One run's answers, by chunk and shard index: each shard is asked for once. `None` is any failed
      request or any status but 200; `Some` is an arbitrary body, of any length. */
  datatype Sources = Sources(remote: (nat, nat) -> Option<Bytes>, useLocal: bool, local: (nat, nat) -> Option<Bytes>)

  /** `downloadShard`: a body longer than allowed is an error. */
  function Download(body: Option<Bytes>, limit: nat): Option<Bytes> {
    if body.Some? && |body.value| <= limit then body else None
  }

  /** `Store.Get`: the content must hash to its name. */
  function ReadLocal(env: Env, hash: string, content: Option<Bytes>): Option<Bytes> {
    if ValidHash(hash) && content.Some? && env.hash(content.value) == hash then content else None
  }

  /** `fetchShard`: the peer first, then the local directory if there is one. */
  function Fetch(env: Env, ref: ShardRef, src: Sources, i: nat, j: nat, limit: nat): Option<Bytes> {
    var data := if ref.url == "" then None else Download(src.remote(i, j), limit);
    if data.Some? && env.hash(data.value) == ref.hash then data
    else if src.useLocal then ReadLocal(env, ref.hash, src.local(i, j))
    else None
  }

  /** The shards in hand for one list of references; what cannot be fetched stays empty. */
  function Held(env: Env, refs: seq<ShardRef>, src: Sources, i: nat, limit: nat): seq<Bytes> {
    seq(|refs|, j requires 0 <= j < |refs| =>
      if refs[j].hash == "" then []
      else match Fetch(env, refs[j], src, i, j, limit) case Some(b) => b case None => [])
  }

  function Limit(ciphertextSize: int, l: Layout): nat
    requires l.Sound()
  {
    if ciphertextSize <= 0 then 0 else CeilDiv(ciphertextSize, l.dataShards)
  }

  /** One chunk: decode, decrypt, and check the plaintext's length. */
  function RestoreChunk(env: Env, l: Layout, key: Bytes, c: Chunk, src: Sources, i: nat): Option<Bytes>
    requires l.Sound()
  {
    if c.ciphertextSize < 0 then None else
    match Decode(env.code, l, Held(env, c.shards, src, i, Limit(c.ciphertextSize, l)), c.ciphertextSize)
    case None => None
    case Some(ciphertext) =>
      match Decrypt(env, ciphertext, key, c.nonce)
      case None => None
      case Some(plain) => if |plain| == c.plaintextSize then Some(plain) else None
  }

  /** Chunks are written in order until one fails. */
  function JoinAll(results: seq<Option<Bytes>>): Option<Bytes> {
    if results == [] then Some([]) else
    var n := |results| - 1;
    match JoinAll(results[..n])
    case None => None
    case Some(before) => if results[n].Some? then Some(before + results[n].value) else None
  }

  function ChunkResults(env: Env, l: Layout, m: Manifest, src: Sources): seq<Option<Bytes>>
    requires l.Sound()
  {
    seq(|m.chunks|, i requires 0 <= i < |m.chunks| => RestoreChunk(env, l, m.key, m.chunks[i], src, i))
  }

  /** Versions 0 and 1: one shard list for the whole file, and no length check. */
  function RestoreWhole(env: Env, l: Layout, m: Manifest, src: Sources): Option<Bytes>
    requires l.Sound()
  {
    if m.ciphertextSize < 0 then None else
    match Decode(env.code, l, Held(env, m.shards, src, 0, Limit(m.ciphertextSize, l)), m.ciphertextSize)
    case None => None
    case Some(ciphertext) => Decrypt(env, ciphertext, m.key, m.nonce)
  }

  /** What restoring an accepted manifest writes, or `None` if it fails before writing anything. */
  function Restored(env: Env, m: Manifest, src: Sources): Option<Bytes>
    requires Acceptable(m)
  {
    var n := Normalised(m);
    var l := NewLayout(n.dataShards, n.parityShards).value;
    if n.version == 2 then JoinAll(ChunkResults(env, l, n, src)) else RestoreWhole(env, l, n, src)
  }

  // ---------------------------------------------------------------- the exact outcome

  /** No answer of this run is a second preimage of a genuine shard's digest. */
  ghost predicate NoCollision(env: Env, src: Sources, i: nat, genuine: seq<Bytes>) {
    forall j | 0 <= j < |genuine| ::
      && (src.remote(i, j).Some? && env.hash(src.remote(i, j).value) == env.hash(genuine[j]) ==>
            src.remote(i, j).value == genuine[j])
      && (src.local(i, j).Some? && env.hash(src.local(i, j).value) == env.hash(genuine[j]) ==>
            src.local(i, j).value == genuine[j])
  }

  /** Which genuine shards of chunk `i` some source really answers with. */
  function Answered(src: Sources, refs: seq<ShardRef>, i: nat, genuine: seq<Bytes>): seq<bool>
    requires |refs| == |genuine|
  {
    seq(|genuine|, j requires 0 <= j < |genuine| =>
      (refs[j].url != "" && src.remote(i, j) == Some(genuine[j]))
      || (src.useLocal && src.local(i, j) == Some(genuine[j])))
  }

  /** Enough genuine shards of chunk `i` can be fetched. */
  predicate ChunkReachable(env: Env, m: Manifest, file: Bytes, src: Sources, i: nat)
    requires Genuine(env, m, file) && i < |m.chunks|
  {
    CountTrue(Answered(src, m.chunks[i].shards, i, GenuineShards(env, m, file, i))) >= m.dataShards
  }

  lemma {:induction false} PresentCounts(held: seq<Bytes>, flags: seq<bool>)
    requires |held| == |flags| && forall j | 0 <= j < |held| :: flags[j] <==> held[j] != []
    ensures Present(held) == CountTrue(flags)
  {
    if held != [] {
      assert flags[0] <==> held[0] != [];
      forall j | 0 <= j < |held| - 1 ensures flags[1..][j] <==> held[1..][j] != [] {
        assert flags[j + 1] <==> held[j + 1] != [];
      }
      PresentCounts(held[1..], flags[1..]);
    }
  }

  /** A genuine shard is never rejected for its size, and nothing else ever passes the hash check. */
  lemma FetchExactly(env: Env, ref: ShardRef, src: Sources, i: nat, j: nat, limit: nat, genuine: Bytes)
    requires ref.hash == env.hash(genuine) && ValidHash(ref.hash) && |genuine| <= limit
    requires src.remote(i, j).Some? && env.hash(src.remote(i, j).value) == ref.hash ==>
               src.remote(i, j).value == genuine
    requires src.local(i, j).Some? && env.hash(src.local(i, j).value) == ref.hash ==> src.local(i, j).value == genuine
    ensures Fetch(env, ref, src, i, j, limit) ==
            if (ref.url != "" && src.remote(i, j) == Some(genuine))
               || (src.useLocal && src.local(i, j) == Some(genuine))
            then Some(genuine) else None
  {
  }

  lemma HeldExactly(env: Env, l: Layout, key: Bytes, c: Chunk, piece: Bytes, src: Sources, i: nat)
    requires Lawful(env, l) && |key| == KEY_SIZE && SealsPiece(env, l, key, c, piece)
    requires NoCollision(env, src, i, PieceShards(env, l, key, c.nonce, piece))
    ensures var genuine := PieceShards(env, l, key, c.nonce, piece);
            var held := Held(env, c.shards, src, i, Limit(c.ciphertextSize, l));
            Partial(held, genuine) && Present(held) == CountTrue(Answered(src, c.shards, i, genuine))
  {
    var genuine := PieceShards(env, l, key, c.nonce, piece);
    var limit := Limit(c.ciphertextSize, l);
    var held, flags := Held(env, c.shards, src, i, limit), Answered(src, c.shards, i, genuine);
    PieceShardsSize(env, l, key, c.nonce, piece);
    forall j | 0 <= j < |genuine|
      ensures held[j] == (if flags[j] then genuine[j] else [])
    {
      assert |env.hash(genuine[j])| == 64;
      FetchExactly(env, c.shards[j], src, i, j, limit, genuine[j]);
    }
    PresentCounts(held, flags);
  }

  lemma ChunkExactly(env: Env, m: Manifest, file: Bytes, src: Sources, i: nat)
    requires Lawful(env, LayoutOf(m)) && Genuine(env, m, file) && i < |m.chunks|
    requires NoCollision(env, src, i, GenuineShards(env, m, file, i))
    ensures RestoreChunk(env, LayoutOf(m), m.key, m.chunks[i], src, i) ==
            if ChunkReachable(env, m, file, src, i) then Some(Pieces(file, m.chunkSize)[i]) else None
  {
    var l, c, piece := LayoutOf(m), m.chunks[i], Pieces(file, m.chunkSize)[i];
    assert SealsPiece(env, l, m.key, c, piece);
    HeldExactly(env, l, m.key, c, piece, src, i);
    DecodeExactly(env.code, l, env.seal(piece, m.key, c.nonce),
                  Held(env, c.shards, src, i, Limit(c.ciphertextSize, l)));
  }

  ghost predicate NoCollisions(env: Env, m: Manifest, file: Bytes, src: Sources)
    requires Genuine(env, m, file)
  {
    forall i | 0 <= i < |m.chunks| :: NoCollision(env, src, i, GenuineShards(env, m, file, i))
  }

  /** If each result is its piece or a failure, the join is all the pieces or a failure. */
  lemma {:induction false} JoinAllExactly(results: seq<Option<Bytes>>, pieces: seq<Bytes>)
    requires |results| == |pieces|
    requires forall i | 0 <= i < |results| :: results[i] == None || results[i] == Some(pieces[i])
    ensures JoinAll(results) ==
            if forall i | 0 <= i < |results| :: results[i].Some? then Some(Concat(pieces)) else None
  {
    if results != [] {
      var n := |results| - 1;
      JoinAllExactly(results[..n], pieces[..n]);
      AppendPiece(pieces, n + 1);
      assert pieces[..n + 1] == pieces;
      assert results == results[..n] + [results[n]];
      if forall i | 0 <= i < n :: results[..n][i].Some? {
        assert forall i | 0 <= i < n :: results[i] == results[..n][i];
      }
    }
  }

  lemma ChunksExactly(env: Env, m: Manifest, file: Bytes, src: Sources)
    requires Lawful(env, LayoutOf(m)) && Genuine(env, m, file) && NoCollisions(env, m, file, src)
    ensures JoinAll(ChunkResults(env, LayoutOf(m), m, src)) ==
            if forall i | 0 <= i < |m.chunks| :: ChunkReachable(env, m, file, src, i) then Some(file) else None
  {
    hide Lawful, NoCollision, RestoreChunk, Pieces, GenuineShards;
    var results, pieces := ChunkResults(env, LayoutOf(m), m, src), Pieces(file, m.chunkSize);
    forall i | 0 <= i < |m.chunks|
      ensures results[i] == if ChunkReachable(env, m, file, src, i) then Some(pieces[i]) else None
    {
      ChunkExactly(env, m, file, src, i);
    }
    JoinAllExactly(results, pieces);
    PiecesJoin(file, m.chunkSize);
  }

  /** Soundness and completeness at once, against arbitrary peers and an arbitrary local directory:
      restoring a file's manifest yields exactly the file if every chunk has enough genuine shards
      within reach, and otherwise fails before anything is written. It never yields other bytes. */
  lemma RestoreExactly(env: Env, m: Manifest, file: Bytes, src: Sources)
    requires Lawful(env, LayoutOf(m)) && Genuine(env, m, file) && Acceptable(m) && NoCollisions(env, m, file, src)
    ensures Restored(env, m, src) ==
            if forall i | 0 <= i < |m.chunks| :: ChunkReachable(env, m, file, src, i) then Some(file) else None
  {
    hide Lawful, NoCollisions, ChunkReachable, JoinAll;
    ChunksExactly(env, m, file, src);
    assert NewLayout(m.dataShards, m.parityShards) == Some(LayoutOf(m));
  }

  /** Every shard handed to the decoder hashes to its reference: for any manifest, genuine or not. */
  lemma HeldShardsMatchTheirNames(env: Env, refs: seq<ShardRef>, src: Sources, i: nat, limit: nat, j: nat)
    requires j < |refs|
    ensures var b := Held(env, refs, src, i, limit)[j];
            b == [] || (env.hash(b) == refs[j].hash && refs[j].hash != ""
                        && ((Some(b) == src.remote(i, j) && refs[j].url != "" && |b| <= limit)
                            || (src.useLocal && Some(b) == src.local(i, j) && ValidHash(refs[j].hash))))
  {
  }

  /** A chunk that comes back has the recorded size, whatever was answered and whatever the manifest says. */
  lemma {:induction false} RestoredSize(env: Env, l: Layout, m: Manifest, src: Sources, n: nat)
    requires l.Sound() && n <= |m.chunks| && JoinAll(ChunkResults(env, l, m, src)[..n]).Some?
    ensures |JoinAll(ChunkResults(env, l, m, src)[..n]).value| == PlainTotal(m.chunks[..n])
  {
    hide Decode, Held, Decrypt;
    if n > 0 {
      var results := ChunkResults(env, l, m, src);
      assert results[..n][..n - 1] == results[..n - 1];
      assert m.chunks[..n][..n - 1] == m.chunks[..n - 1];
      RestoredSize(env, l, m, src, n - 1);
    }
  }

  /** For any accepted manifest of the current version and any answers: what is restored has exactly the recorded size,
      and at most 2^40 bytes. */
  lemma RestoredHasRecordedSize(env: Env, m: Manifest, src: Sources)
    requires Acceptable(m) && m.version == 2 && Restored(env, m, src).Some?
    ensures |Restored(env, m, src).value| == m.plaintextSize <= 0x100_0000_0000
  {
    hide RestoreChunk;
    var l := NewLayout(m.dataShards, m.parityShards).value;
    assert ChunkResults(env, l, m, src)[..|m.chunks|] == ChunkResults(env, l, m, src);
    assert m.chunks[..|m.chunks|] == m.chunks;
    RestoredSize(env, l, m, src, |m.chunks|);
  }

  // ---------------------------------------------------------------- versions 0 and 1

  /** The layout an old manifest means: version 0 records none. */
  function OldLayout(m: Manifest): Layout {
    if m.version == 0 then Layout(2, 1) else Layout(m.dataShards, m.parityShards)
  }

  /** An old manifest of this file: sealed in one piece, its shards in one list. */
  ghost predicate GenuineOld(env: Env, m: Manifest, file: Bytes) {
    && m.version in {0, 1} && OldLayout(m).Sound()
    && m.ciphertextSize == |env.seal(file, m.key, m.nonce)| > 0
    && var shards := PieceShards(env, OldLayout(m), m.key, m.nonce, file);
       && |m.shards| == |shards|
       && forall j | 0 <= j < |shards| :: m.shards[j].hash == env.hash(shards[j])
  }

  /** Restoring an old manifest gives the file, decrypted, if enough of its genuine shards are answered, and fails
      otherwise. */
  lemma OldRestoresExactly(env: Env, m: Manifest, file: Bytes, src: Sources)
    requires Acceptable(m) && GenuineOld(env, m, file) && Lawful(env, OldLayout(m))
    requires NoCollision(env, src, 0, PieceShards(env, OldLayout(m), m.key, m.nonce, file))
    ensures var shards := PieceShards(env, OldLayout(m), m.key, m.nonce, file);
            Restored(env, m, src) ==
            if CountTrue(Answered(src, m.shards, 0, shards)) >= OldLayout(m).dataShards then Some(file) else None
  {
    var l, c := OldLayout(m), Chunk(|file|, m.ciphertextSize, m.nonce, m.shards);
    HeldExactly(env, l, m.key, c, file, src, 0);
    DecodeExactly(env.code, l, env.seal(file, m.key, m.nonce), Held(env, m.shards, src, 0, Limit(m.ciphertextSize, l)));
  }
}
