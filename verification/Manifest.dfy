/** Manifests (internal/manifest): construction, and the checks a decoded manifest must pass. */
module Manifest {
  import opened Prelude
  import opened Erasure

  datatype ShardRef = ShardRef(hash: string, peer: string, url: string)

  datatype Chunk = Chunk(plaintextSize: int, ciphertextSize: int, nonce: Bytes, shards: seq<ShardRef>)

  datatype Manifest = Manifest(
    version: int, dataShards: Word, parityShards: Word, shareID: string, fileID: string, fileName: string,
    ciphertextSize: int, plaintextSize: int, chunkSize: int, key: Bytes, nonce: Bytes,
    shards: seq<ShardRef>, chunks: seq<Chunk>)

  const MAX_TOTAL := 0x100_0000_0000    // 1 << 40
  const MAX_CHUNK := 0x4000_0000        // 1 << 30

  // ---------------------------------------------------------------- file names

  function TrimSlashes(path: string): string {
    if path != "" && path[|path| - 1] == '/' then TrimSlashes(path[..|path| - 1]) else path
  }

  function AfterLastSlash(path: string): string {
    if path == "" || path[|path| - 1] == '/' then "" else AfterLastSlash(path[..|path| - 1]) + [path[|path| - 1]]
  }

  /** `filepath.Base`. */
  function Base(path: string): string {
    if path == "" then "."
    else if TrimSlashes(path) == "" then "/"
    else AfterLastSlash(TrimSlashes(path))
  }

  /** The name check of `Unmarshal`, in the order the source writes it. */
  predicate AcceptsName(name: string) {
    && name != "" && name != "." && name != ".."
    && Base(name) == name
    && '/' !in name && '\\' !in name && '\0' !in name
  }

  /** What the kernel lets a directory entry be called. */
  predicate EntryName(name: string) {
    name != "" && name != "." && name != ".." && '/' !in name && '\0' !in name
  }

  lemma {:induction false} NoSlashIsBase(name: string)
    requires '/' !in name
    ensures AfterLastSlash(name) == name
  {
    if name != "" {
      var front := name[..|name| - 1];
      assert name == front + [name[|name| - 1]];
      NoSlashIsBase(front);
    }
  }

  /** A directory entry's name passes the check exactly when it has no backslash. */
  lemma EntryNameAccepted(name: string)
    requires EntryName(name)
    ensures AcceptsName(name) <==> '\\' !in name
  {
    NoSlashIsBase(name);
    assert name[|name| - 1] in name;
  }

  /** The name check for any name: not empty, no reference to a directory, no separator of either kind, no NUL. */
  lemma NameAcceptedExactly(name: string)
    ensures AcceptsName(name) <==>
              name != "" && name != "." && name != ".." && '/' !in name && '\\' !in name && '\0' !in name
  {
    if name != "" && '/' !in name {
      NoSlashIsBase(name);
      assert name[|name| - 1] in name;
    }
  }

  // ---------------------------------------------------------------- checks on parts

  predicate ValidRef(ref: ShardRef) {
    ValidHash(ref.hash)
  }

  /** `validateChunk`. */
  predicate ValidChunk(l: Layout, c: Chunk) {
    && c.plaintextSize >= 0 && c.ciphertextSize >= 16 && |c.nonce| == 12
    && |c.shards| == l.TotalShards()
    && forall i | 0 <= i < |c.shards| :: ValidRef(c.shards[i])
  }

  predicate Fits(c: Chunk, chunkSize: int) {
    c.plaintextSize <= chunkSize && c.ciphertextSize <= chunkSize + 16
  }

  predicate GoodChunks(l: Layout, chunkSize: int, chunks: seq<Chunk>) {
    forall i | 0 <= i < |chunks| :: Fits(chunks[i], chunkSize) && ValidChunk(l, chunks[i])
  }

  function PlainTotal(chunks: seq<Chunk>): int {
    if chunks == [] then 0 else PlainTotal(chunks[..|chunks| - 1]) + chunks[|chunks| - 1].plaintextSize
  }

  function CipherTotal(chunks: seq<Chunk>): int {
    if chunks == [] then 0 else CipherTotal(chunks[..|chunks| - 1]) + chunks[|chunks| - 1].ciphertextSize
  }

  // ---------------------------------------------------------------- NewChunked

  predicate CanBuild(l: Layout, plaintextSize: int, chunkSize: int, key: Bytes, chunks: seq<Chunk>) {
    && l.Sound() && plaintextSize >= 0 && chunkSize > 0 && |key| == 32 && chunks != []
    && GoodChunks(l, chunkSize, chunks)
    && PlainTotal(chunks) == plaintextSize
  }

  function Built(l: Layout, fileID: string, fileName: string, plaintextSize: int, chunkSize: int,
                 key: Bytes, chunks: seq<Chunk>): Manifest {
    Manifest(2, l.dataShards, l.parityShards, "", fileID, fileName, CipherTotal(chunks), plaintextSize,
             chunkSize, key, [], [], chunks)
  }

  /** `NewChunked`: succeeds exactly on consistent chunk lists, and records their cipher total. */
  method NewChunked(l: Layout, fileID: string, fileName: string, plaintextSize: int, chunkSize: int,
                    key: Bytes, chunks: seq<Chunk>) returns (r: Option<Manifest>)
    ensures r == if CanBuild(l, plaintextSize, chunkSize, key, chunks)
                 then Some(Built(l, fileID, fileName, plaintextSize, chunkSize, key, chunks)) else None
  {
    ValidatesExactly(l);
    if !l.Validates() { return None; }
    if plaintextSize < 0 || chunkSize <= 0 { return None; }
    if |key| != 32 { return None; }
    if |chunks| == 0 { return None; }
    var ciphertextSize, plainTotal := 0, 0;
    for i := 0 to |chunks|
      invariant GoodChunks(l, chunkSize, chunks[..i])
      invariant plainTotal == PlainTotal(chunks[..i]) && ciphertextSize == CipherTotal(chunks[..i])
    {
      var chunk := chunks[i];
      if chunk.plaintextSize > chunkSize || chunk.ciphertextSize > chunkSize + 16 { return None; }
      if !ValidChunk(l, chunk) { return None; }
      plainTotal := plainTotal + chunk.plaintextSize;
      ciphertextSize := ciphertextSize + chunk.ciphertextSize;
      assert chunks[..i + 1] == chunks[..i] + [chunk];
    }
    assert chunks[..|chunks|] == chunks;
    if plainTotal != plaintextSize { return None; }
    assert ValidChunk(l, chunks[0]);
    r := Some(Manifest(2, l.dataShards, l.parityShards, "", fileID, fileName, ciphertextSize, plaintextSize,
                       chunkSize, key, [], [], chunks));
  }

  // ---------------------------------------------------------------- Unmarshal

  /** Version 0 manifests carry no layout: the default is filled in. */
  function Normalised(m: Manifest): Manifest {
    if m.version == 0 then m.(dataShards := DATA_SHARDS, parityShards := PARITY_SHARDS) else m
  }

  predicate GoodTotals(m: Manifest) {
    && m.shards == [] && m.nonce == []
    && 0 < m.chunkSize <= MAX_CHUNK && m.chunks != []
    && 0 <= m.plaintextSize <= MAX_TOTAL && 16 <= m.ciphertextSize <= MAX_TOTAL
  }

  /** The manifests `Unmarshal` lets through, once decoded. */
  predicate Acceptable(m: Manifest) {
    && m.version in {0, 1, 2}
    && var n := Normalised(m);
    && var l := NewLayout(n.dataShards, n.parityShards);
    && l.Some? && l.value.Sound()
    && AcceptsName(m.fileName) && |m.key| == 32
    && if m.version == 2 then
         && GoodTotals(m) && GoodChunks(l.value, m.chunkSize, m.chunks)
         && CipherTotal(m.chunks) == m.ciphertextSize && PlainTotal(m.chunks) == m.plaintextSize
       else
         && |m.shards| == l.value.TotalShards() && |m.nonce| == 12
         && 16 <= m.ciphertextSize <= MAX_CHUNK + 16
         && forall i | 0 <= i < |m.shards| :: ValidRef(m.shards[i])
  }

  method CheckChunks(l: Layout, m: Manifest) returns (ok: bool)
    ensures ok <==> GoodChunks(l, m.chunkSize, m.chunks)
                    && CipherTotal(m.chunks) == m.ciphertextSize && PlainTotal(m.chunks) == m.plaintextSize
  {
    var plainTotal, cipherTotal := 0, 0;
    for i := 0 to |m.chunks|
      invariant GoodChunks(l, m.chunkSize, m.chunks[..i])
      invariant plainTotal == PlainTotal(m.chunks[..i]) && cipherTotal == CipherTotal(m.chunks[..i])
    {
      var chunk := m.chunks[i];
      if chunk.plaintextSize > m.chunkSize || chunk.ciphertextSize > m.chunkSize + 16 { return false; }
      if !ValidChunk(l, chunk) { return false; }
      plainTotal := plainTotal + chunk.plaintextSize;
      cipherTotal := cipherTotal + chunk.ciphertextSize;
      assert m.chunks[..i + 1] == m.chunks[..i] + [chunk];
    }
    assert m.chunks[..|m.chunks|] == m.chunks;
    ok := cipherTotal == m.ciphertextSize && plainTotal == m.plaintextSize;
  }

  /** `Unmarshal` after JSON decoding (`None` when the text does not decode). */
  method Unmarshal(decoded: Option<Manifest>) returns (r: Option<Manifest>)
    ensures r == if decoded.Some? && Acceptable(decoded.value) then Some(Normalised(decoded.value)) else None
  {
    if decoded == None { return None; }
    var m := decoded.value;
    if m.version != 0 && m.version != 1 && m.version != 2 { return None; }
    if m.version == 0 {
      m := m.(dataShards := DATA_SHARDS, parityShards := PARITY_SHARDS);
    }
    var layout := NewLayout(m.dataShards, m.parityShards);
    if layout == None { return None; }
    ValidatesExactly(layout.value);
    if !AcceptsName(m.fileName) { return None; }
    if |m.key| != 32 { return None; }
    if m.version == 2 {
      if |m.shards| != 0 || |m.nonce| != 0 || m.chunkSize <= 0 || m.chunkSize > MAX_CHUNK || |m.chunks| == 0
         || m.plaintextSize < 0 || m.plaintextSize > MAX_TOTAL || m.ciphertextSize < 16
         || m.ciphertextSize > MAX_TOTAL {
        return None;
      }
      var ok := CheckChunks(layout.value, m);
      if !ok { return None; }
      assert ValidChunk(layout.value, m.chunks[0]);
      return Some(m);
    }
    if |m.shards| != layout.value.TotalShards() { return None; }
    if |m.nonce| != 12 || m.ciphertextSize < 16 || m.ciphertextSize > MAX_CHUNK + 16 { return None; }
    for i := 0 to |m.shards|
      invariant forall j | 0 <= j < i :: ValidRef(m.shards[j])
    {
      if !ValidRef(m.shards[i]) { return None; }
    }
    return Some(m);
  }

  // ---------------------------------------------------------------- properties

  /** What restore can rely on in an accepted manifest, whoever wrote it: a name that stays in its directory, a layout
      of 2 to 64 shards, a whole key. */
  lemma AcceptedIsPlain(m: Manifest)
    requires Acceptable(m)
    ensures m.fileName != "" && m.fileName != "." && m.fileName != ".."
            && '/' !in m.fileName && '\\' !in m.fileName && '\0' !in m.fileName
    ensures m.version in {0, 1, 2} && |m.key| == 32
    ensures m.version != 0 ==>
              if m.dataShards == 0 && m.parityShards == 0 then true
              else 1 <= m.dataShards && 1 <= m.parityShards && m.dataShards + m.parityShards <= 64
  {
    NameAcceptedExactly(m.fileName);
  }

  /** And for the current version: chunks of at most 1 GiB that add up to the recorded sizes, at most 2^40 bytes in all;
      whole nonces; one digest of 64 hexadecimal digits for every shard, so that no reference leaves the directory. */
  lemma AcceptedChunks(m: Manifest)
    requires Acceptable(m) && m.version == 2
    ensures m.chunks != [] && m.shards == [] && m.nonce == [] && 0 < m.chunkSize <= 0x4000_0000
    ensures 0 <= m.plaintextSize == PlainTotal(m.chunks) <= 0x100_0000_0000
    ensures 16 <= m.ciphertextSize == CipherTotal(m.chunks) <= 0x100_0000_0000
    ensures forall i | 0 <= i < |m.chunks| ::
              && 0 <= m.chunks[i].plaintextSize <= m.chunkSize && |m.chunks[i].nonce| == 12
              && 16 <= m.chunks[i].ciphertextSize <= m.chunkSize + 16
              && |m.chunks[i].shards| == (if m.dataShards == 0 && m.parityShards == 0 then 3
                                          else m.dataShards + m.parityShards)
              && forall j | 0 <= j < |m.chunks[i].shards| ::
                   |m.chunks[i].shards[j].hash| == 64
                   && forall d | 0 <= d < 64 :: HexDigit(m.chunks[i].shards[j].hash[d])
  {
    var l := NewLayout(m.dataShards, m.parityShards).value;
    forall i | 0 <= i < |m.chunks| ensures Fits(m.chunks[i], m.chunkSize) && ValidChunk(l, m.chunks[i]) { }
    forall i, j | 0 <= i < |m.chunks| && 0 <= j < |m.chunks[i].shards|
      ensures |m.chunks[i].shards[j].hash| == 64 && forall d | 0 <= d < 64 :: HexDigit(m.chunks[i].shards[j].hash[d])
    {
      assert ValidRef(m.chunks[i].shards[j]);
    }
  }

  /** And exactly these old manifests are accepted. */
  lemma AcceptedOldExactly(m: Manifest)
    requires m.version in {0, 1}
    ensures var k := if m.version == 0 || (m.dataShards == 0 && m.parityShards == 0) then 2 else m.dataShards;
            var p := if m.version == 0 || (m.dataShards == 0 && m.parityShards == 0) then 1 else m.parityShards;
            Acceptable(m) <==>
              && 1 <= k && 1 <= p && k + p <= 64 && |m.shards| == k + p
              && m.fileName != "" && m.fileName != "." && m.fileName != ".."
              && '/' !in m.fileName && '\\' !in m.fileName && '\0' !in m.fileName
              && |m.key| == 32 && |m.nonce| == 12 && 16 <= m.ciphertextSize <= 0x4000_0010
              && forall j | 0 <= j < |m.shards| ::
                   |m.shards[j].hash| == 64 && forall d | 0 <= d < 64 :: HexDigit(m.shards[j].hash[d])
  {
    NameAcceptedExactly(m.fileName);
    hide AcceptsName;
    var k: Word := if m.version == 0 || (m.dataShards == 0 && m.parityShards == 0) then 2 else m.dataShards;
    var p: Word := if m.version == 0 || (m.dataShards == 0 && m.parityShards == 0) then 1 else m.parityShards;
    ValidatesExactly(Layout(k, p));
    assert forall j | 0 <= j < |m.shards| ::
             ValidRef(m.shards[j]) <==>
             |m.shards[j].hash| == 64 && forall d | 0 <= d < 64 :: HexDigit(m.shards[j].hash[d]);
  }

  /** Restore builds its layout again from the accepted manifest: it gets a real layout, the one the
      checks used, and every shard list it indexes has exactly that many entries. */
  lemma RestoreUsesCheckedLayout(m: Manifest)
    requires Acceptable(m)
    ensures var n := Normalised(m);
            var l := NewLayout(n.dataShards, n.parityShards);
            && l.Some? && l.value.Sound() && l.value.TotalShards() == l.value.dataShards + l.value.parityShards
            && (n.version == 2 ==> forall i | 0 <= i < |n.chunks| :: |n.chunks[i].shards| == l.value.TotalShards())
            && (n.version != 2 ==> |n.shards| == l.value.TotalShards())
  {
    if m.version == 2 {
      var l := NewLayout(m.dataShards, m.parityShards);
      forall i | 0 <= i < |m.chunks| ensures |m.chunks[i].shards| == l.value.TotalShards() {
        assert ValidChunk(l.value, m.chunks[i]);
      }
    }
  }

  /** A manifest `NewChunked` builds is accepted back exactly when its name has no backslash and its
      ciphertext is within the cap: reading checks two things that building does not. */
  lemma {:induction false} BuiltIsAccepted(l: Layout, fileID: string, fileName: string, plaintextSize: int,
                                          chunkSize: int, key: Bytes, chunks: seq<Chunk>, shareID: string)
    requires CanBuild(l, plaintextSize, chunkSize, key, chunks)
    requires chunkSize <= MAX_CHUNK && plaintextSize <= MAX_TOTAL
    requires EntryName(fileName)
    ensures var m := Built(l, fileID, fileName, plaintextSize, chunkSize, key, chunks).(shareID := shareID);
            && (Acceptable(m) <==> '\\' !in fileName && CipherTotal(chunks) <= MAX_TOTAL)
            && (Acceptable(m) ==> Normalised(m) == m)
  {
    EntryNameAccepted(fileName);
    CipherAtLeast(l, chunkSize, chunks);
  }

  lemma {:induction false} CipherAtLeast(l: Layout, chunkSize: int, chunks: seq<Chunk>)
    requires GoodChunks(l, chunkSize, chunks)
    ensures CipherTotal(chunks) >= 16 * |chunks|
  {
    if chunks != [] {
      assert ValidChunk(l, chunks[|chunks| - 1]);
      CipherAtLeast(l, chunkSize, chunks[..|chunks| - 1]);
    }
  }
}
