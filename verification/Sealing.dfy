/** How a file becomes a manifest: cut into pieces, each sealed, split into shards and named by hash.
    Hashing, encryption and the erasure code are parameters with the laws stated here. */
module Sealing {
  import opened Prelude
  import opened Erasure
  import opened Manifest

  datatype Env = Env(
    hash: Bytes -> string,
    seal: (Bytes, Bytes, Bytes) -> Bytes,           // plaintext, key, nonce
    open: (Bytes, Bytes, Bytes) -> Option<Bytes>,   // ciphertext, key, nonce
    code: Code)

  const KEY_SIZE := 32
  const NONCE_SIZE := 12
  const TAG_SIZE := 16

  ghost predicate HashesNameShards(env: Env) {
    forall b: Bytes :: ValidHash(env.hash(b))
  }

  /** Digests print as shard names; AES-256-GCM (section 5.2 of RFC 5116) opens what it sealed and adds
      16 bytes; any `dataShards` shards suffice. */
  ghost predicate Lawful(env: Env, l: Layout) {
    && l.Sound() && AnyKSuffice(env.code, l.dataShards, l.parityShards)
    && HashesNameShards(env)
    && (forall p: Bytes, key: Bytes, nonce: Bytes | |key| == KEY_SIZE && |nonce| == NONCE_SIZE ::
          && |env.seal(p, key, nonce)| == |p| + TAG_SIZE
          && env.open(env.seal(p, key, nonce), key, nonce) == Some(p))
  }

  /** `cryptofile.Decrypt`: wrong key or nonce sizes are errors too. */
  function Decrypt(env: Env, ciphertext: Bytes, key: Bytes, nonce: Bytes): Option<Bytes> {
    if |key| != KEY_SIZE || |nonce| != NONCE_SIZE then None else env.open(ciphertext, key, nonce)
  }

  // ---------------------------------------------------------------- pieces of a file

  /** The plaintext chunks of a file: full ones, then a last one that is empty only for an empty file. */
  function Pieces(file: Bytes, size: nat): (ps: seq<Bytes>)
    requires size > 0
    ensures |ps| > 0
  {
    if |file| <= size then [file] else [file[..size]] + Pieces(file[size..], size)
  }

  lemma {:induction false} PiecesJoin(file: Bytes, size: nat)
    requires size > 0
    ensures Concat(Pieces(file, size)) == file
  {
    if |file| <= size {
      ConcatOne(file);
    } else {
      PiecesJoin(file[size..], size);
      assert Pieces(file, size)[1..] == Pieces(file[size..], size);
      assert file == file[..size] + file[size..];
    }
  }

  lemma {:induction false} PiecesShape(file: Bytes, size: nat, i: nat)
    requires size > 0 && i < |Pieces(file, size)|
    ensures i < |Pieces(file, size)| - 1 ==> |Pieces(file, size)[i]| == size
    ensures |Pieces(file, size)[i]| <= Min(size, |file|)
    ensures file != [] ==> Pieces(file, size)[i] != []
    decreases |file|
  {
    if |file| > size && i > 0 { PiecesShape(file[size..], size, i - 1); }
  }

  /** max(1, ceiling of length over size) pieces: one for an empty file, none left over after an exact multiple. */
  lemma {:induction false} PiecesCount(file: Bytes, size: nat)
    requires size > 0
    ensures |Pieces(file, size)| == Max(1, CeilDiv(|file|, size))
    decreases |file|
  {
    if |file| > size {
      PiecesCount(file[size..], size);
      var q := CeilDiv(|file| - size, size);
      Scaled(1, q, size);
      CeilUnique(|file|, size, q + 1);
    } else {
      CeilUnique(|file|, size, if |file| > 0 then 1 else 0);
    }
  }

  /** Appending a last piece after full ones: how the read loop builds the list. */
  lemma {:induction false} PiecesExtend(full: seq<Bytes>, last: Bytes, size: nat)
    requires size > 0 && |last| <= size && (full == [] || last != [])
    requires forall i | 0 <= i < |full| :: |full[i]| == size
    ensures Pieces(Concat(full + [last]), size) == full + [last]
  {
    if full == [] {
      assert full + [last] == [last];
      ConcatOne(last);
    } else {
      var rest := full[1..] + [last];
      assert (full + [last])[1..] == rest;
      PiecesExtend(full[1..], last, size);
      var all := Concat(full + [last]);
      assert all == full[0] + Concat(rest);
      assert |Concat(rest)| > 0 by { ConcatAppend(full[1..], [last]); ConcatOne(last); }
      assert all[..size] == full[0] && all[size..] == Concat(rest);
    }
  }

  /** The bytes of all shards of one piece of this length. */
  function PieceShardBytes(l: Layout, size: nat): nat
    requires l.Sound()
  {
    (l.dataShards + l.parityShards) * ShardSize(size + TAG_SIZE, l.dataShards)
  }

  /** The bytes of all shards of these pieces together: what storing them adds to a shard directory at most. */
  function ShardBytes(l: Layout, pieces: seq<Bytes>): nat
    requires l.Sound()
  {
    if pieces == [] then 0
    else
      var n := |pieces| - 1;
      ShardBytes(l, pieces[..n]) + PieceShardBytes(l, |pieces[n]|)
  }

  lemma ShardBytesAppend(l: Layout, pieces: seq<Bytes>, piece: Bytes)
    requires l.Sound()
    ensures ShardBytes(l, pieces + [piece]) == ShardBytes(l, pieces) + PieceShardBytes(l, |piece|)
  {
    assert (pieces + [piece])[..|pieces|] == pieces;
  }

  lemma {:induction false} ShardBytesPrefix(l: Layout, some: seq<Bytes>, all: seq<Bytes>)
    requires l.Sound() && some <= all
    ensures ShardBytes(l, some) <= ShardBytes(l, all)
  {
    if some != all {
      var n := |all| - 1;
      ShardBytesPrefix(l, some, all[..n]);
    }
  }

  lemma {:induction false} PiecesAfter(full: seq<Bytes>, rest: Bytes, size: nat)
    requires size > 0 && (forall i | 0 <= i < |full| :: |full[i]| == size) && (rest != [] || full == [])
    ensures Pieces(Concat(full) + rest, size) == full + Pieces(rest, size)
  {
    if full == [] {
      assert Concat(full) + rest == rest;
    } else {
      var tail := Concat(full[1..]) + rest;
      var whole := full[0] + tail;
      PiecesAfter(full[1..], rest, size);
      assert Concat(full) + rest == whole;
      assert whole[..size] == full[0] && whole[size..] == tail;
    }
  }

  /** Reading on from full pieces of a file gives the next of its pieces. */
  lemma PiecesPrefix(full: seq<Bytes>, next: Bytes, file: Bytes, size: nat)
    requires size > 0 && (forall i | 0 <= i < |full| :: |full[i]| == size) && (next != [] || full == [])
    requires var t := |Concat(full)|; t <= |file| && Concat(full) == file[..t] && next == file[t..Min(t + size, |file|)]
    ensures full + [next] <= Pieces(file, size)
  {
    var rest := file[|Concat(full)|..];
    hide Concat;
    assert file == Concat(full) + rest;
    PiecesAfter(full, rest, size);
    assert next == rest[..Min(size, |rest|)];
    assert Pieces(rest, size)[0] == next;
  }

  // ---------------------------------------------------------------- what a manifest stands for

  function PieceShards(env: Env, l: Layout, key: Bytes, nonce: Bytes, piece: Bytes): seq<Bytes>
    requires l.Sound()
  {
    Shards(env.code, l, env.seal(piece, key, nonce))
  }

  /** The chunk records exactly this piece, sealed under its nonce. */
  predicate SealsPiece(env: Env, l: Layout, key: Bytes, c: Chunk, piece: Bytes)
    requires l.Sound()
  {
    && c.plaintextSize == |piece| && c.ciphertextSize == |piece| + TAG_SIZE && |c.nonce| == NONCE_SIZE
    && var shards := PieceShards(env, l, key, c.nonce, piece);
    && |c.shards| == |shards|
    && forall j | 0 <= j < |shards| :: c.shards[j].hash == env.hash(shards[j])
  }

  predicate SealsPieces(env: Env, l: Layout, key: Bytes, chunks: seq<Chunk>, pieces: seq<Bytes>)
    requires l.Sound()
  {
    && |key| == KEY_SIZE && |chunks| == |pieces|
    && forall i | 0 <= i < |chunks| :: SealsPiece(env, l, key, chunks[i], pieces[i])
  }

  function LayoutOf(m: Manifest): Layout {
    Layout(m.dataShards, m.parityShards)
  }

  /** The manifest describes this file and nothing else. */
  predicate Genuine(env: Env, m: Manifest, file: Bytes) {
    && m.version == 2 && LayoutOf(m).Sound() && m.chunkSize > 0
    && SealsPieces(env, LayoutOf(m), m.key, m.chunks, Pieces(file, m.chunkSize))
  }

  lemma GenuineBasics(env: Env, m: Manifest, file: Bytes)
    requires Genuine(env, m, file)
    ensures LayoutOf(m).Sound() && m.chunks != []
  {
    hide Pieces, PieceShards;
  }

  /** The shards of chunk `i`, which its references name. */
  function GenuineShards(env: Env, m: Manifest, file: Bytes, i: nat): (shards: seq<Bytes>)
    requires Genuine(env, m, file) && i < |m.chunks|
    ensures |shards| == |m.chunks[i].shards|
    ensures forall j | 0 <= j < |shards| :: m.chunks[i].shards[j].hash == env.hash(shards[j])
  {
    var piece := Pieces(file, m.chunkSize)[i];
    assert SealsPiece(env, LayoutOf(m), m.key, m.chunks[i], piece);
    PieceShards(env, LayoutOf(m), m.key, m.chunks[i].nonce, piece)
  }

  /** Every shard of a piece has the one size that sender, manifest and restorer compute. */
  lemma PieceShardsSize(env: Env, l: Layout, key: Bytes, nonce: Bytes, piece: Bytes)
    requires Lawful(env, l) && |key| == KEY_SIZE && |nonce| == NONCE_SIZE
    ensures |PieceShards(env, l, key, nonce, piece)| == l.TotalShards() == l.dataShards + l.parityShards
    ensures forall j | 0 <= j < l.TotalShards() ::
              0 < |PieceShards(env, l, key, nonce, piece)[j]| == ShardSize(|piece| + TAG_SIZE, l.dataShards)
    ensures |PieceShards(env, l, key, nonce, piece)| * ShardSize(|piece| + TAG_SIZE, l.dataShards)
            == PieceShardBytes(l, |piece|)
  {
    ShardsUniform(env.code, l, env.seal(piece, key, nonce));
  }

  /** The bound `processFile` computes from the file's size before reading anything when the layout is a real one. */
  function PlacementBound(fileSize: nat, chunkSize: nat, l: Layout): nat
    requires l.Sound()
  {
    CeilDiv(Min(chunkSize, fileSize) + TAG_SIZE, l.dataShards)
  }

  /** That bound as the source computes it: the sum can wrap around, and the quotient is cut off towards zero. */
  function MaxShardBytes(fileSize: nat, chunkSize: nat, l: Layout): int
    requires l.dataShards > 0 && chunkSize <= MAX_CHUNK
  {
    var sum: int := Wrap(Min(chunkSize, fileSize) + TAG_SIZE + l.dataShards - 1);
    if sum >= 0 then sum / l.dataShards else -(-sum / l.dataShards)
  }

  lemma MaxShardBytesIs(fileSize: nat, chunkSize: nat, l: Layout)
    requires l.Sound() && chunkSize <= MAX_CHUNK
    ensures MaxShardBytes(fileSize, chunkSize, l) == PlacementBound(fileSize, chunkSize, l)
  {
  }

  lemma BoundCovers(pieceSize: nat, fileSize: nat, chunkSize: nat, l: Layout)
    requires l.Sound() && pieceSize <= Min(chunkSize, fileSize)
    ensures ShardSize(pieceSize + TAG_SIZE, l.dataShards) <= PlacementBound(fileSize, chunkSize, l)
  {
    CeilMonotone(pieceSize + TAG_SIZE, Min(chunkSize, fileSize) + TAG_SIZE, l.dataShards);
  }

  lemma SealedSizes(env: Env, l: Layout, key: Bytes, c: Chunk, piece: Bytes, j: nat)
    requires Lawful(env, l) && |key| == KEY_SIZE && SealsPiece(env, l, key, c, piece)
    requires j < |PieceShards(env, l, key, c.nonce, piece)|
    ensures c.ciphertextSize == |piece| + TAG_SIZE
    ensures 0 < |PieceShards(env, l, key, c.nonce, piece)[j]| == ShardSize(|piece| + TAG_SIZE, l.dataShards)
  {
    PieceShardsSize(env, l, key, c.nonce, piece);
  }

  /** No shard of the file is larger than the bound peers were chosen by, none is empty, and each has
      exactly the size that restore allows a download to have. */
  lemma ShardSizesAgree(env: Env, m: Manifest, file: Bytes, i: nat, j: nat)
    requires Lawful(env, LayoutOf(m)) && Genuine(env, m, file)
    requires i < |m.chunks| && j < |GenuineShards(env, m, file, i)|
    ensures var size := |GenuineShards(env, m, file, i)[j]|;
            && 0 < size <= PlacementBound(|file|, m.chunkSize, LayoutOf(m))
            && m.chunks[i].ciphertextSize > 0 && size == ShardSize(m.chunks[i].ciphertextSize, m.dataShards)
  {
    hide Lawful, Pieces, PieceShards, CeilDiv;
    var piece := Pieces(file, m.chunkSize)[i];
    assert SealsPiece(env, LayoutOf(m), m.key, m.chunks[i], piece);
    SealedSizes(env, LayoutOf(m), m.key, m.chunks[i], piece, j);
    PiecesShape(file, m.chunkSize, i);
    BoundCovers(|piece|, |file|, m.chunkSize, LayoutOf(m));
  }
}
