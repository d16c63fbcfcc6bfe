/** The promises that span the whole store: what was captured can be restored, after a crash, after a power failure and
    after losing peers; and exactly when those promises fail. */
module Guarantees {
  import opened Prelude
  import opened Erasure
  import opened Manifest
  import opened Sealing
  import opened FileSystem
  import opened StoreSpec
  import opened Restore
  import opened Pipeline
  import D = Discovery
  import P = Placement
  import R = RestoreFile
  import S = ShardServer
  import X = XorCode

  // ---------------------------------------------------------------- the written manifest can be read

  lemma {:induction false} SealedTotals(env: Env, m: Manifest, file: Bytes)
    requires Genuine(env, m, file)
    ensures CipherTotal(m.chunks) == |file| + TAG_SIZE * Max(1, CeilDiv(|file|, m.chunkSize))
  {
    var pieces := Pieces(file, m.chunkSize);
    ChunkTotals(env, LayoutOf(m), m.key, m.chunks, pieces);
    PiecesJoin(file, m.chunkSize);
    PiecesCount(file, m.chunkSize);
  }

  /** `processFile` writes some manifests that restore will not read. A manifest is accepted back exactly when the
      file's name has no backslash and its size plus 16 bytes for each chunk is at most 2^40. */
  lemma ReadableExactly(env: Env, m: Manifest, name: string, file: Bytes)
    requires BuiltFor(m, LayoutOf(m), name, m.chunkSize, file) && Genuine(env, m, file)
    requires EntryName(name) && m.chunkSize <= MAX_CHUNK && |file| <= MAX_TOTAL
    ensures Acceptable(m) <==> '\\' !in name && |file| + TAG_SIZE * Max(1, CeilDiv(|file|, m.chunkSize)) <= MAX_TOTAL
    ensures Acceptable(m) ==> Normalised(m) == m
  {
    BuiltIsAccepted(LayoutOf(m), m.fileID, name, |file|, m.chunkSize, m.key, m.chunks, m.shareID);
    SealedTotals(env, m, file);
  }

  /** Name and size allow the manifest of this run to be read back. */
  predicate Readable(b: Start) {
    '\\' !in b.path.name && |b.content| + TAG_SIZE * Max(1, CeilDiv(|b.content|, ChunkSize(b.cfg))) <= MAX_TOTAL
  }

  lemma IntendedIsReadable(env: Env, b: Start, m: Manifest)
    requires Intended(b, m) && Genuine(env, m, b.content) && EntryName(b.path.name)
    ensures Acceptable(m) <==> Readable(b)
  {
    hide Genuine, Acceptable, CanBuild, Chosen, PlacedOn;
    ReadableExactly(env, m, b.path.name, b.content);
  }

  lemma IntendedIsLawful(env: Env, b: Start, m: Manifest)
    requires Intended(b, m) && LawfulFor(env, b.cfg)
    ensures Lawful(env, LayoutOf(m))
  {
  }

  /** What every manifest that a run writes records, in plain terms. */
  lemma IntendedRecords(b: Start, m: Manifest)
    requires Intended(b, m)
    ensures forall stem: string :: b.path.name != stem + ".dstore"
    ensures |b.content| <= 0x100_0000_0000
            && |b.content| <= if b.cfg.maxFileBytes <= 0 then 0x400_0000 else b.cfg.maxFileBytes
    ensures m.version == 2 && m.fileName == b.path.name && m.plaintextSize == |b.content| && m.shareID == b.cfg.shareID
    ensures 0 < m.chunkSize <= 0x4000_0000
            && m.chunkSize == if b.cfg.chunkSize <= 0 then 0x100_0000 else b.cfg.chunkSize
    ensures if b.cfg.dataShards == 0 && b.cfg.parityShards == 0 then m.dataShards == 2 && m.parityShards == 1
            else m.dataShards == b.cfg.dataShards && m.parityShards == b.cfg.parityShards
    ensures |m.key| == 32 && m.shards == [] && m.nonce == [] && m.ciphertextSize == CipherTotal(m.chunks)
  {
    StubNames(b.path.name);
  }

  /** The shard is recorded with this peer: its name, and the URL at its address and port. */
  predicate RecordedWith(cfg: P.Config, p: D.Peer, ref: ShardRef) {
    var port := if p.hostName in cfg.peerPorts then cfg.peerPorts[p.hostName]
                else if cfg.listenPort == "" then "8080" else cfg.listenPort;
    && ref.peer == p.hostName
    && ref.url == (if ':' in p.tailIP then "http://[" + p.tailIP + "]:" + port else "http://" + p.tailIP + ":" + port)
                  + "/shards/" + ref.hash
  }

  /** And the peers: the usable ones in some order, shard `j` of every chunk with the one whose turn it is. */
  lemma IntendedPeers(b: Start, m: Manifest) returns (es: seq<D.Peer>)
    requires Intended(b, m)
    ensures var cfg := b.cfg.placement;
            && (cfg.peers != [] || b.discovered.Some?) && es != []
            && multiset(es) == multiset(P.Usable(cfg, if cfg.peers != [] then cfg.peers
                                                      else b.discovered.value, b.probe,
                                                 CeilDiv(Min(m.chunkSize, |b.content|) + 16, m.dataShards)))
            && forall i, j | 0 <= i < |m.chunks| && 0 <= j < |m.chunks[i].shards| ::
                 RecordedWith(cfg, es[j % |es|], m.chunks[i].shards[j])
  {
    hide P.Usable, P.CanPlace, Checks, P.DistinctDomains;
    var cfg, bound := b.cfg.placement, PlacementBound(|b.content|, ChunkSize(b.cfg), LayoutOf(m));
    es :| Chosen(cfg, b.discovered, b.probe, bound, es) && PlacedOn(cfg, es, m) && NamedAfter(es, m);
    forall i, j | 0 <= i < |m.chunks| && 0 <= j < |m.chunks[i].shards|
      ensures RecordedWith(cfg, es[j % |es|], m.chunks[i].shards[j])
    {
      URLInFull(cfg, es[j % |es|], m.chunks[i].shards[j].hash);
    }
  }

  lemma URLInFull(cfg: P.Config, p: D.Peer, hash: string)
    ensures RecordedWith(cfg, p, ShardRef(hash, p.hostName, ShardURL(p, PushPort(cfg, p), hash)))
  {
    var port := PushPort(cfg, p);
    assert "http://" + ("[" + p.tailIP + "]:" + port) == "http://[" + p.tailIP + "]:" + port;
    assert "http://" + (p.tailIP + ":" + port) == "http://" + p.tailIP + ":" + port;
  }

  /** No run ever removes a manifest, nor a file beyond the limits: in every recorded state with the original gone. */
  lemma NoManifestIsRemoved(s: Snapshot, b: Start, env: Env, json: Json, dir: string)
    requires Safe(s, b, env, json, dir, b.stub) && !Kept(s, b)
    ensures forall stem: string :: b.path.name != stem + ".dstore"
    ensures |b.content| <= 0x100_0000_0000
            && |b.content| <= if b.cfg.maxFileBytes <= 0 then 0x400_0000 else b.cfg.maxFileBytes
  {
    hide Intended, Captured, Kept;
    var m :| HandedOver(s, b, env, json, dir, b.stub, m);
    IntendedRecords(b, m);
  }

  // ---------------------------------------------------------------- captured files can be restored

  /** Restoring while every peer still answers as it did at this instant, and without a local directory. */
  function FromPeers(remote: map<string, Bytes>, m: Manifest): Sources {
    Sources((i: nat, j: nat) =>
              if i < |m.chunks| && j < |m.chunks[i].shards| && m.chunks[i].shards[j].url in remote
              then Some(remote[m.chunks[i].shards[j].url]) else None,
            false, (i: nat, j: nat) => None)
  }

  /** The peers that stored something answer so; the local directory may say anything. */
  ghost predicate PeersAnswer(src: Sources, remote: map<string, Bytes>, m: Manifest) {
    forall i: nat, j: nat | i < |m.chunks| && j < |m.chunks[i].shards| && m.chunks[i].shards[j].url in remote ::
      src.remote(i, j) == Some(remote[m.chunks[i].shards[j].url])
  }

  lemma {:induction false} AllTrue(flags: seq<bool>)
    requires forall j | 0 <= j < |flags| :: flags[j]
    ensures CountTrue(flags) == |flags|
  {
    if flags != [] { AllTrue(flags[1..]); }
  }

  /** The manifest describes this file, and all its shards are stored. */
  ghost predicate Shelved(s: Snapshot, env: Env, dir: string, m: Manifest, file: Bytes, since: Since) {
    s.disk.Valid() && Genuine(env, m, file) && AllStored(env, s.remote, Here(s, since), dir, LayoutOf(m), m.chunks)
  }

  lemma CapturedIsShelved(s: Snapshot, env: Env, json: Json, dir: string, stub: Path, m: Manifest, file: Bytes,
                          since: Since)
    requires Captured(s, env, json, dir, stub, m, file, since)
    ensures Shelved(s, env, dir, m, file, since) && stub in s.disk.names && View(s.disk)[stub] == json.encode(m)
  {
  }

  lemma ShelvedChunkReachable(s: Snapshot, env: Env, dir: string, m: Manifest, file: Bytes, since: Since, src: Sources,
                              i: nat)
    requires Shelved(s, env, dir, m, file, since) && Lawful(env, LayoutOf(m)) && i < |m.chunks|
    requires PeersAnswer(src, s.remote, m) && NoCollision(env, src, i, GenuineShards(env, m, file, i))
    ensures ChunkReachable(env, m, file, src, i)
  {
    var genuine, refs := GenuineShards(env, m, file, i), m.chunks[i].shards;
    var flags := Answered(src, refs, i, genuine);
    assert ChunkStored(env, s.remote, Here(s, since), dir, LayoutOf(m), m.chunks[i]);
    forall j | 0 <= j < |flags| ensures flags[j] {
      assert RefStored(env, s.remote, Here(s, since), dir, refs[j],
                       ShardSize(m.chunks[i].ciphertextSize, m.dataShards));
    }
    AllTrue(flags);
    GenuineShardCount(env, m, file, i);
  }

  lemma GenuineShardCount(env: Env, m: Manifest, file: Bytes, i: nat)
    requires Lawful(env, LayoutOf(m)) && Genuine(env, m, file) && i < |m.chunks|
    ensures |GenuineShards(env, m, file, i)| == m.dataShards + m.parityShards
  {
    var piece := Pieces(file, m.chunkSize)[i];
    assert SealsPiece(env, LayoutOf(m), m.key, m.chunks[i], piece);
    PieceShardsSize(env, LayoutOf(m), m.key, m.chunks[i].nonce, piece);
  }

  lemma ShelvedIsRestorable(s: Snapshot, env: Env, dir: string, m: Manifest, file: Bytes, since: Since, src: Sources)
    requires Shelved(s, env, dir, m, file, since) && Lawful(env, LayoutOf(m)) && Acceptable(m)
    requires PeersAnswer(src, s.remote, m) && NoCollisions(env, m, file, src)
    ensures Restored(env, m, src) == Some(file)
  {
    hide Lawful, GenuineShards, ChunkReachable, NoCollision, Restored, AllStored, Acceptable, PeersAnswer;
    forall i | 0 <= i < |m.chunks| ensures ChunkReachable(env, m, file, src, i) {
      ShelvedChunkReachable(s, env, dir, m, file, since, src, i);
    }
    RestoreExactly(env, m, file, src);
  }

  /** What restoring the manifest at `stub` gives, with these files on disk and these answers from the peers. */
  function FromManifest(files: Files, remote: map<string, Bytes>, env: Env, json: Json, stub: Path): Option<Bytes> {
    if stub !in files then None
    else
      match json.decode(files[stub])
      case None => None
      case Some(m) => if Acceptable(m) then Restored(env, m, FromPeers(remote, m)) else None
  }

  lemma ShelvedComesBack(s: Snapshot, files: Files, b: Start, env: Env, json: Json, dir: string, m: Manifest)
    requires Shelved(s, env, dir, m, b.content, b.since) && Intended(b, m)
    requires b.stub in files && files[b.stub] == json.encode(m)
    requires LawfulFor(env, b.cfg) && Faithful(json) && EntryName(b.path.name)
    requires NoCollisions(env, m, b.content, FromPeers(s.remote, m))
    ensures FromManifest(files, s.remote, env, json, b.stub) == if Readable(b) then Some(b.content) else None
  {
    hide Lawful, LawfulFor, Intended, Readable, Acceptable, Restored, AllStored, Genuine, NoCollisions;
    IntendedIsReadable(env, b, m);
    IntendedIsLawful(env, b, m);
    if Readable(b) {
      ShelvedIsRestorable(s, env, dir, m, b.content, b.since, FromPeers(s.remote, m));
    }
  }

  /** A captured file is not lost: as long as the peers keep answering, restoring the manifest that is on disk gives
      back exactly the file if its name and size allow the manifest to be read, and otherwise fails. */
  lemma CapturedComesBack(s: Snapshot, files: Files, b: Start, env: Env, json: Json, dir: string, m: Manifest)
    requires Captured(s, env, json, dir, b.stub, m, b.content, b.since) && Intended(b, m)
    requires b.stub in files && files[b.stub] == json.encode(m)
    requires LawfulFor(env, b.cfg) && Faithful(json) && EntryName(b.path.name)
    requires NoCollisions(env, m, b.content, FromPeers(s.remote, m))
    ensures FromManifest(files, s.remote, env, json, b.stub) == if Readable(b) then Some(b.content) else None
  {
    hide Captured, Shelved, LawfulFor, Intended, Readable, FromManifest, NoCollisions;
    CapturedIsShelved(s, env, json, dir, b.stub, m, b.content, b.since);
    ShelvedComesBack(s, files, b, env, json, dir, m);
  }

  /** In every recorded state of every run, wherever it is cut off: what is at the manifest's path, if anything, is the
      complete manifest of this file, and every one of its shards is stored with its peer by then. */
  lemma ManifestComesLast(s: Snapshot, b: Start, env: Env, json: Json, dir: string) returns (m: Manifest)
    requires Safe(s, b, env, json, dir, b.stub) && b.stub in s.disk.names
    ensures s.disk.Valid() && View(s.disk)[b.stub] == json.encode(m)
    ensures Shelved(s, env, dir, m, b.content, b.since) && Intended(b, m)
    ensures forall i, j | 0 <= i < |m.chunks| && 0 <= j < |m.chunks[i].shards| ::
              var ref := m.chunks[i].shards[j];
              ref.url != "" && ref.url in s.remote && env.hash(s.remote[ref.url]) == ref.hash
  {
    hide Kept, Captured, Intended, Genuine, AllStored, Here, Elsewhere;
    if Kept(s, b) { KeptIsValid(s, b); }
    if Kept(s, b) && exists m :: Announced(s, b, env, json, dir, b.stub, m) {
      m :| Announced(s, b, env, json, dir, b.stub, m);
    } else {
      m :| HandedOver(s, b, env, json, dir, b.stub, m);
      CapturedIsShelved(s, env, json, dir, b.stub, m, b.content, b.since);
    }
    ShelvedWithPeers(s, env, dir, m, b.content, b.since);
  }

  lemma KeptIsValid(s: Snapshot, b: Start)
    requires Kept(s, b)
    ensures s.disk.Valid()
  {
  }

  lemma ShelvedWithPeers(s: Snapshot, env: Env, dir: string, m: Manifest, file: Bytes, since: Since)
    requires Shelved(s, env, dir, m, file, since)
    ensures forall i, j | 0 <= i < |m.chunks| && 0 <= j < |m.chunks[i].shards| ::
              var ref := m.chunks[i].shards[j];
              ref.url != "" && ref.url in s.remote && env.hash(s.remote[ref.url]) == ref.hash
  {
    hide Genuine;
    GenuineBasics(env, m, file);
    forall i, j | 0 <= i < |m.chunks| && 0 <= j < |m.chunks[i].shards|
      ensures var ref := m.chunks[i].shards[j];
              ref.url != "" && ref.url in s.remote && env.hash(s.remote[ref.url]) == ref.hash
    {
      var c := m.chunks[i];
      assert ChunkStored(env, s.remote, Here(s, since), dir, LayoutOf(m), c);
      assert RefStored(env, s.remote, Here(s, since), dir, c.shards[j], ShardSize(c.ciphertextSize, m.dataShards));
    }
  }

  /** This is the manifest on disk; it describes the file, and all its shards are stored. */
  ghost predicate Visible(s: Snapshot, env: Env, json: Json, dir: string, m: Manifest, b: Start) {
    && Shelved(s, env, dir, m, b.content, b.since)
    && b.stub in s.disk.names && View(s.disk)[b.stub] == json.encode(m)
  }

  /** So whoever finds a manifest, at any instant, can restore the file from it: with the peers' answers as they are it
      gives back exactly the file if that is readable, and is refused otherwise. */
  lemma VisibleManifestRestores(s: Snapshot, b: Start, env: Env, json: Json, dir: string)
    requires Safe(s, b, env, json, dir, b.stub) && b.stub in s.disk.names
    requires LawfulFor(env, b.cfg) && Faithful(json) && EntryName(b.path.name)
    requires forall m | Visible(s, env, json, dir, m, b) :: NoCollisions(env, m, b.content, FromPeers(s.remote, m))
    ensures s.disk.Valid()
            && FromManifest(View(s.disk), s.remote, env, json, b.stub) == if Readable(b) then Some(b.content) else None
  {
    hide Safe, Shelved, LawfulFor, Intended, Readable, FromManifest, NoCollisions;
    var m := ManifestComesLast(s, b, env, json, dir);
    ShelvedComesBack(s, View(s.disk), b, env, json, dir, m);
  }

  /** Nor does any run touch another file: in every recorded state all but the source, the manifest and what the shard
      store uses is as it was when the run began. */
  lemma NothingElseIsTouched(s: Snapshot, b: Start, env: Env, json: Json, dir: string)
    requires Safe(s, b, env, json, dir, b.stub)
    ensures s.disk.Valid()
            && forall p | p != b.path && p != b.stub && !InStore(b.dir, p) ::
                 (p in s.disk.names <==> p in b.others) && (p in b.others ==> View(s.disk)[p] == b.others[p])
  {
    hide Captured, Announced, Intended;
    if !Kept(s, b) {
      var m :| HandedOver(s, b, env, json, dir, b.stub, m);
      CapturedIsShelved(s, env, json, dir, b.stub, m, b.content, b.since);
    }
  }

  /** Restoring with the local directory as it is at this instant, whatever the peers answer, if anything. */
  ghost function FromDirectory(s: Snapshot, dir: string, m: Manifest, peers: (nat, nat) -> Option<Bytes>): Sources
    requires s.disk.Valid()
  {
    var files := View(s.disk);
    Sources(peers, true,
            (i: nat, j: nat) =>
              if i < |m.chunks| && j < |m.chunks[i].shards| && ShardPath(dir, m.chunks[i].shards[j].hash) in files
              then Some(files[ShardPath(dir, m.chunks[i].shards[j].hash)]) else None)
  }

  /** None of the manifest's shards has had an owner on record, nor is anybody about to record one. */
  predicate Nobodys(s: Snapshot, since: Since, dir: string, m: Manifest) {
    forall i, j | 0 <= i < |m.chunks| && 0 <= j < |m.chunks[i].shards| ::
      OwnerPath(dir, m.chunks[i].shards[j].hash) !in since.names
      && OwnerPath(dir, m.chunks[i].shards[j].hash) !in s.claimed
  }

  lemma DirectoryChunkReachable(s: Snapshot, env: Env, json: Json, dir: string, stub: Path, m: Manifest, file: Bytes,
                                since: Since, peers: (nat, nat) -> Option<Bytes>, i: nat)
    requires Captured(s, env, json, dir, stub, m, file, since) && Lawful(env, LayoutOf(m)) && i < |m.chunks|
    requires s.meddled == since.meddled || Nobodys(s, since, dir, m)
    requires NoCollision(env, FromDirectory(s, dir, m, peers), i, GenuineShards(env, m, file, i))
    ensures ChunkReachable(env, m, file, FromDirectory(s, dir, m, peers), i)
  {
    var genuine, refs, src := GenuineShards(env, m, file, i), m.chunks[i].shards, FromDirectory(s, dir, m, peers);
    var flags := Answered(src, refs, i, genuine);
    assert ChunkStored(env, s.remote, Here(s, since), dir, LayoutOf(m), m.chunks[i]);
    forall j | 0 <= j < |flags| ensures flags[j] {
      assert RefStored(env, s.remote, Here(s, since), dir, refs[j],
                       ShardSize(m.chunks[i].ciphertextSize, m.dataShards));
      assert OwnerPath(dir, m.chunks[i].shards[j].hash) in since.names + s.claimed ==> s.meddled == since.meddled;
    }
    AllTrue(flags);
    GenuineShardCount(env, m, file, i);
  }

  /** Nor does it need the peers: with none of them left, the local directory gives back a file whose manifest can be
      read, as long as nobody else has used the directory or none of its shards is anybody's. Others may put, record
      owners and delete there as they like. */
  lemma DirectoryIsEnough(s: Snapshot, b: Start, env: Env, json: Json, dir: string, m: Manifest,
                          peers: (nat, nat) -> Option<Bytes>)
    requires Captured(s, env, json, dir, b.stub, m, b.content, b.since) && Intended(b, m) && LawfulFor(env, b.cfg)
    requires EntryName(b.path.name) && Readable(b)
    requires s.meddled == b.since.meddled || Nobodys(s, b.since, dir, m)
    requires NoCollisions(env, m, b.content, FromDirectory(s, dir, m, peers))
    ensures Acceptable(m) && Restored(env, m, FromDirectory(s, dir, m, peers)) == Some(b.content)
  {
    hide Lawful, LawfulFor, GenuineShards, ChunkReachable, NoCollision, Restored, AllStored, Acceptable, Nobodys,
      FromDirectory, Intended, Readable;
    IntendedIsReadable(env, b, m);
    IntendedIsLawful(env, b, m);
    forall i | 0 <= i < |m.chunks| ensures ChunkReachable(env, m, b.content, FromDirectory(s, dir, m, peers), i) {
      DirectoryChunkReachable(s, env, json, dir, b.stub, m, b.content, b.since, peers, i);
    }
    RestoreExactly(env, m, b.content, FromDirectory(s, dir, m, peers));
  }

  /** No peer answers with anything else of the same digest as a genuine shard. */
  ghost predicate NoForgeries(s: Snapshot, b: Start, env: Env, json: Json, dir: string) {
    forall m | HandedOver(s, b, env, json, dir, b.stub, m) ::
      NoCollisions(env, m, b.content, FromPeers(s.remote, m))
  }

  /** After a power failure at any recorded instant, if the file was on stable storage and the user did not change it,
      it is still at its path; or, where the original had been removed, restoring the manifest that is on disk gives it
      back, provided its name and size allow that. */
  lemma PowerFailureLosesNothing(s: Snapshot, after: Disk, b: Start, env: Env, json: Json, dir: string)
    requires Safe(s, b, env, json, dir, b.stub) && b.pinned && s.edits == b.edits && s.disk.Valid()
             && AfterCrash(s.disk, after)
    requires LawfulFor(env, b.cfg) && Faithful(json) && EntryName(b.path.name) && NoForgeries(s, b, env, json, dir)
    ensures if Kept(s, b) then b.path in View(after) && View(after)[b.path] == b.content
            else FromManifest(View(after), s.remote, env, json, b.stub) == if Readable(b) then Some(b.content) else None
  {
    hide LawfulFor, Intended, Readable, FromManifest, AllStored, Genuine;
    if Kept(s, b) {
      PinnedSurvives(s.disk, after, b.path, b.content);
    } else {
      var m :| HandedOver(s, b, env, json, dir, b.stub, m);
      PinnedSurvives(s.disk, after, b.stub, json.encode(m));
      CapturedComesBack(s, View(after), b, env, json, dir, m);
    }
  }

  lemma ManifestOf(s: Snapshot, disk: Disk, b: Start, env: Env, json: Json, dir: string) returns (m: Manifest)
    requires Safe(s, b, env, json, dir, b.stub) && s.disk.Valid() && disk.Valid()
    requires if disk == s.disk then b.stub in s.disk.names else !Kept(s, b) && AfterCrash(s.disk, disk)
    ensures Visible(s, env, json, dir, m, b) && Intended(b, m) && Genuine(env, m, b.content)
    ensures b.stub in disk.names && View(disk)[b.stub] == json.encode(m)
  {
    hide Kept, Captured, Intended, Genuine, AllStored, AfterCrash;
    if disk == s.disk {
      m := ManifestComesLast(s, b, env, json, dir);
    } else {
      m :| HandedOver(s, b, env, json, dir, b.stub, m);
      CapturedIsShelved(s, env, json, dir, b.stub, m, b.content, b.since);
      CapturedIsPinned(s, env, json, dir, b.stub, m, b.content, b.since);
      PinnedSurvives(s.disk, disk, b.stub, json.encode(m));
    }
  }

  lemma CapturedIsPinned(s: Snapshot, env: Env, json: Json, dir: string, stub: Path, m: Manifest, file: Bytes,
                         since: Since)
    requires Captured(s, env, json, dir, stub, m, file, since)
    ensures Pinned(s.disk, stub, json.encode(m))
  {
  }

  /** `processFile` cut off by a kill at any recorded state with a manifest on disk, or by a power failure after the
      removal, and `RestoreFile` run on what is left. If name and size allow it, the output path, at every instant, is
      as the user has it or holds exactly the original's content, and without failures it does in the end unless the
      user has something there; otherwise nothing changes. With the usual names and after a kill, that puts the original
      back where it was. */
  method RestoreWhatIsLeft(w: World, env: Env, json: Json, stub: Path, asked: Option<Path>, src: Sources,
                           ghost s: Snapshot, ghost b: Start, ghost dir: string) returns (r: R.Ending)
    requires Safe(s, b, env, json, dir, stub) && stub == b.stub && IsStubName(stub.name) && s.disk.Valid()
    requires w.disk.Valid() && if w.disk == s.disk then stub in s.disk.names
                               else !Kept(s, b) && AfterCrash(s.disk, w.disk)
    requires LawfulFor(env, b.cfg) && Faithful(json) && EntryName(b.path.name)
    requires forall m | Visible(s, env, json, dir, m, b) ::
               PeersAnswer(src, s.remote, m) && NoCollisions(env, m, b.content, src)
    modifies w
    ensures w.disk.Valid()
    ensures !Readable(b) ==> r == R.Failed && w.disk == old(w.disk)
    ensures Readable(b) ==>
              var output := Output(stub, asked);
              && R.Ended(old(w.Now()), w.Now(), old(w.trace), w.trace, output, Some(b.content), r)
              && (w.faults == old(w.faults) ==> (r.Done? <==> R.Free(old(w.Now()), w.Now(), output)))
    ensures asked.None? && stub == Path(b.path.dir, b.path.name + STUB_EXTENSION) ==>
              && Output(stub, asked) == b.path
              && (Readable(b) && old(w.disk) == s.disk && b.path !in s.disk.names && w.edits == old(w.edits)
                  && w.faults == old(w.faults) ==>
                    r == R.Done(b.path) && View(w.disk) == View(old(w.disk))[b.path := b.content])
  {
    hide LawfulFor, Lawful, Intended, Readable, Acceptable, Restored, Genuine, NoCollisions, PeersAnswer, Kept, Safe,
      Shelved;
    ghost var m := ManifestOf(s, w.disk, b, env, json, dir);
    IntendedIsReadable(env, b, m);
    IntendedIsLawful(env, b, m);
    if Readable(b) { ShelvedIsRestorable(s, env, dir, m, b.content, b.since, src); }
    assert json.decode(View(w.disk)[stub]) == Some(m);
    r := R.RestoreFile(w, env, json, stub, asked, src);
  }

  /** Where the output goes: where asked, else the manifest's path without its extension. */
  function Output(stub: Path, asked: Option<Path>): Path
    requires IsStubName(stub.name)
  {
    if asked.Some? then asked.value else Path(stub.dir, R.StripStub(stub.name))
  }

  // ---------------------------------------------------------------- the window between the last look and the removal

  /** No shard of one file has the digest of a different shard, in the same place, of the other. */
  ghost predicate NoTwins(env: Env, m: Manifest, f: Bytes, g: Bytes)
    requires Genuine(env, m, f) && Genuine(env, m, g)
  {
    forall i, j | 0 <= i < |m.chunks| && 0 <= j < |m.chunks[i].shards| ::
      var a, b := GenuineShards(env, m, f, i)[j], GenuineShards(env, m, g, i)[j]; env.hash(a) == env.hash(b) ==> a == b
  }

  /** Every shard of this file, from the local directory. */
  function AllOf(env: Env, m: Manifest, file: Bytes): Sources
    requires Genuine(env, m, file)
  {
    Sources((i: nat, j: nat) => None, true,
            (i: nat, j: nat) => if i < |m.chunks| && j < |GenuineShards(env, m, file, i)|
                                then Some(GenuineShards(env, m, file, i)[j]) else None)
  }

  lemma AllOfReaches(env: Env, m: Manifest, f: Bytes, g: Bytes, i: nat)
    requires Lawful(env, LayoutOf(m)) && Genuine(env, m, f) && Genuine(env, m, g) && NoTwins(env, m, f, g)
             && i < |m.chunks|
    ensures NoCollision(env, AllOf(env, m, f), i, GenuineShards(env, m, g, i))
            && ChunkReachable(env, m, g, AllOf(env, m, f), i)
  {
    var a, b := GenuineShards(env, m, f, i), GenuineShards(env, m, g, i);
    var src, flags := AllOf(env, m, f), Answered(AllOf(env, m, f), m.chunks[i].shards, i, b);
    GenuineShardCount(env, m, g, i);
    hide Genuine, GenuineShards, Lawful;
    forall j | 0 <= j < |b| ensures src.local(i, j) == Some(b[j]) {
      assert env.hash(a[j]) == m.chunks[i].shards[j].hash == env.hash(b[j]);
    }
    AllTrue(flags);
  }

  /** One manifest cannot stand for two files, unless two shards collide. */
  lemma GenuineForOne(env: Env, m: Manifest, f: Bytes, g: Bytes)
    requires Lawful(env, LayoutOf(m)) && Genuine(env, m, f) && Genuine(env, m, g) && NoTwins(env, m, f, g)
    ensures f == g
  {
    var src := AllOf(env, m, f);
    assert NoTwins(env, m, f, f);
    hide Lawful, ChunkReachable, NoCollision, Genuine, NoTwins, AllOf;
    forall i | 0 <= i < |m.chunks|
      ensures NoCollision(env, src, i, GenuineShards(env, m, f, i)) && ChunkReachable(env, m, f, src, i)
      ensures NoCollision(env, src, i, GenuineShards(env, m, g, i)) && ChunkReachable(env, m, g, src, i)
    {
      AllOfReaches(env, m, f, f, i);
      AllOfReaches(env, m, f, g, i);
    }
    ChunksExactly(env, m, f, src);
    ChunksExactly(env, m, g, src);
  }

  /** The user's newest version can still be had from this state: at its path, or by restoring the manifest. */
  ghost predicate Recoverable(s: Snapshot, env: Env, json: Json, path: Path, stub: Path) {
    s.latest.Some? ==>
      && s.disk.Valid()
      && ((path in View(s.disk) && View(s.disk)[path] == s.latest.value)
          || FromManifest(View(s.disk), s.remote, env, json, stub) == s.latest)
  }

  /** After the removal the newest version can be had exactly when it is the one the manifest was made from and that
      manifest can be read: a change since the last look, which no check covers, is lost, and so is a file whose name
      has a backslash or that is too large. */
  lemma RemovalSafeExactly(s: Snapshot, b: Start, env: Env, json: Json, dir: string, m: Manifest)
    requires HandedOver(s, b, env, json, dir, b.stub, m) && LawfulFor(env, b.cfg) && Faithful(json)
    requires EntryName(b.path.name) && NoCollisions(env, m, b.content, FromPeers(s.remote, m))
    ensures Recoverable(s, env, json, b.path, b.stub)
            <==> s.latest.None? || (s.latest == Some(b.content) && Readable(b))
  {
    hide LawfulFor, Intended, Readable, FromManifest, AllStored, Genuine, NoCollisions;
    ViewAt(s.disk, b.stub);
    CapturedComesBack(s, View(s.disk), b, env, json, dir, m);
  }

  /** Every recorded state of every run of `processFile`: the newest version can be had unless the original was removed
      and either the user had changed it since the last look or its name or size keeps the manifest from being read; if
      the user left it alone, only for the latter. */
  lemma NothingElseIsLost(s: Snapshot, b: Start, env: Env, json: Json, dir: string)
    requires Safe(s, b, env, json, dir, b.stub) && LawfulFor(env, b.cfg) && Faithful(json)
    requires EntryName(b.path.name) && NoForgeries(s, b, env, json, dir)
    ensures Recoverable(s, env, json, b.path, b.stub)
            <==> Kept(s, b) || s.latest.None? || (s.latest == Some(b.content) && Readable(b))
    ensures s.edits == b.edits ==> (Recoverable(s, env, json, b.path, b.stub) <==> Kept(s, b) || Readable(b))
  {
    hide LawfulFor, Captured, Intended, Readable, FromManifest, NoCollisions;
    if !Kept(s, b) {
      var m :| HandedOver(s, b, env, json, dir, b.stub, m);
      RemovalSafeExactly(s, b, env, json, dir, m);
    }
  }

  /** The first loss can happen: from every state between publication and removal, the user replaces the file by any
      other content, the original is removed, and the new content is gone. */
  lemma EditInWindowIsLost(s: Snapshot, b: Start, env: Env, json: Json, dir: string, m: Manifest, ino: nat, data: Bytes,
                          mtime: nat)
    requires Kept(s, b) && Captured(s, env, json, dir, b.stub, m, b.content, b.since) && Suits(b, env, dir)
    requires Intended(b, m) && LawfulFor(env, b.cfg) && Faithful(json) && EntryName(b.path.name)
    requires ino !in s.disk.inodes && Stamp(ino, |data|, mtime) !in s.disk.seen && data != b.content
             && NoCollisions(env, m, b.content, FromPeers(s.remote, m))
    ensures var edited := s.(disk := Replaced(s.disk, b.path, ino, data, mtime), latest := Some(data),
                           edits := s.edits + 1);
            var removed := edited.(disk := edited.disk.(names := edited.disk.names - {b.path}));
            && UserEdited(s, edited, b.path) && Kept(edited, b)
            && HandedOver(removed, b, env, json, dir, b.stub, m)
            && !Recoverable(removed, env, json, b.path, b.stub)
  {
    var edited := s.(disk := Replaced(s.disk, b.path, ino, data, mtime), latest := Some(data),
                           edits := s.edits + 1);
    var removed := edited.(disk := edited.disk.(names := edited.disk.names - {b.path}));
    ReplacingEdits(s.disk, b.path, ino, data, mtime);
    hide LawfulFor, Captured, Intended, Edited, Replaced, Addressed, NoCollisions, Recoverable, Elsewhere;
    EditKeeps(s, edited, b);
    RemovalElsewhere(edited, removed, b);
    EditKeepsCaptured(s, edited, b, env, json, dir, m);
    RemovalKeepsCaptured(edited, removed, b.path, b.content, b.since, env, json, dir, b.stub, m);
    RemovalSafeExactly(removed, b, env, json, dir, m);
  }

  /** And the second: from every state between publication and removal of a file that nobody touched, but whose name or
      size is not readable, the removal loses it. */
  lemma UnreadableIsLost(s: Snapshot, b: Start, env: Env, json: Json, dir: string, m: Manifest)
    requires Kept(s, b) && s.edits == b.edits && Captured(s, env, json, dir, b.stub, m, b.content, b.since)
    requires Suits(b, env, dir) && Intended(b, m) && LawfulFor(env, b.cfg) && Faithful(json) && EntryName(b.path.name)
    requires !Readable(b) && NoCollisions(env, m, b.content, FromPeers(s.remote, m))
    ensures var removed := s.(disk := s.disk.(names := s.disk.names - {b.path}));
            HandedOver(removed, b, env, json, dir, b.stub, m) && !Recoverable(removed, env, json, b.path, b.stub)
  {
    var removed := s.(disk := s.disk.(names := s.disk.names - {b.path}));
    hide LawfulFor, Captured, Intended, Addressed, NoCollisions, Recoverable, Readable;
    RemovalKeepsCaptured(s, removed, b.path, b.content, b.since, env, json, dir, b.stub, m);
    RemovalSafeExactly(removed, b, env, json, dir, m);
  }

  // ---------------------------------------------------------------- losing peers

  /** Ports are written without a colon, as numbers are. */
  predicate PlainPorts(cfg: P.Config) {
    ':' !in cfg.listenPort && forall h | h in cfg.peerPorts :: ':' !in cfg.peerPorts[h]
  }

  /** The shard's URL is that of a peer in a lost failure domain. */
  ghost predicate Unanswered(cfg: P.Config, down: set<P.Domain>, ref: ShardRef) {
    exists p: D.Peer :: P.DomainOf(cfg, p) in down && ref.url == ShardURL(p, PushPort(cfg, p), ref.hash)
  }

  /** Every URL answers with its shard, except those of peers in the lost domains. */
  ghost function WithoutDomains(env: Env, cfg: P.Config, m: Manifest, file: Bytes, down: set<P.Domain>): Sources
    requires Genuine(env, m, file)
  {
    Sources((i: nat, j: nat) =>
              if i < |m.chunks| && j < |GenuineShards(env, m, file, i)| && !Unanswered(cfg, down, m.chunks[i].shards[j])
              then Some(GenuineShards(env, m, file, i)[j]) else None,
            false, (i: nat, j: nat) => None)
  }

  lemma LastColon(x: string, p: string, y: string, q: string)
    requires x + ":" + p == y + ":" + q && ':' !in p && ':' !in q
    ensures x == y && p == q
  {
    var s := x + ":" + p;
    assert s[|x|] == ':' && s[|y|] == ':';
    assert forall k | |x| < k < |s| :: s[k] == p[k - |x| - 1];
    assert forall k | |y| < k < |s| :: s[k] == q[k - |y| - 1];
    assert s[..|x|] == x && s[..|y|] == y && s[|x| + 1..] == p && s[|y| + 1..] == q;
  }

  lemma HostPortInjective(h: string, p: string, g: string, q: string)
    requires JoinHostPort(h, p) == JoinHostPort(g, q) && ':' !in p && ':' !in q
    ensures h == g && p == q
  {
    var x, y := if ':' in h then "[" + h + "]" else h, if ':' in g then "[" + g + "]" else g;
    assert ':' in h ==> "[" + h + "]:" + p == x + ":" + p;
    assert ':' in g ==> "[" + g + "]:" + q == y + ":" + q;
    LastColon(x, p, y, q);
    assert ':' in x <==> ':' in h;
    assert ':' in y <==> ':' in g;
    if ':' in h { assert h == x[1..|x| - 1] && g == y[1..|y| - 1]; }
  }

  lemma SamePushPort(cfg: P.Config, p: D.Peer, q: D.Peer)
    requires PushPort(cfg, p) == PushPort(cfg, q)
    ensures D.Port(p, cfg.listenPort, cfg.peerPorts) == D.Port(q, cfg.listenPort, cfg.peerPorts)
  {
  }

  /** A peer gets its shards on the port it was probed on, exactly when its port is not set to the empty string: the
      one set for its host, or else the usual one. */
  lemma PushedWhereProbed(cfg: P.Config, p: D.Peer)
    ensures PushPort(cfg, p) == D.Port(p, cfg.listenPort, cfg.peerPorts)
            <==> !(p.hostName in cfg.peerPorts && cfg.peerPorts[p.hostName] == "")
    ensures D.Port(p, cfg.listenPort, cfg.peerPorts)
            == (if p.hostName in cfg.peerPorts && |cfg.peerPorts[p.hostName]| > 0 then cfg.peerPorts[p.hostName]
                else if |cfg.listenPort| > 0 then cfg.listenPort else "8080")
  {
    var probed := D.Port(p, cfg.listenPort, cfg.peerPorts);
    assert |probed| > 0;
  }

  /** Two peers whose URLs for one shard are equal are in one failure domain. */
  lemma SameURLSameDomain(cfg: P.Config, p: D.Peer, q: D.Peer, hash: string)
    requires PlainPorts(cfg) && ShardURL(p, PushPort(cfg, p), hash) == ShardURL(q, PushPort(cfg, q), hash)
    ensures P.DomainOf(cfg, p) == P.DomainOf(cfg, q)
  {
    var a, b := JoinHostPort(p.tailIP, PushPort(cfg, p)), JoinHostPort(q.tailIP, PushPort(cfg, q));
    assert "http://" + a + "/shards/" + hash == "http://" + a + ("/shards/" + hash);
    assert "http://" + b + "/shards/" + hash == "http://" + b + ("/shards/" + hash);
    Middle("http://", a, b, "/shards/" + hash);
    PlainPushPort(cfg, p);
    PlainPushPort(cfg, q);
    HostPortInjective(p.tailIP, PushPort(cfg, p), q.tailIP, PushPort(cfg, q));
    SamePushPort(cfg, p, q);
  }

  lemma PlainPushPort(cfg: P.Config, p: D.Peer)
    requires PlainPorts(cfg)
    ensures ':' !in PushPort(cfg, p)
  {
  }

  lemma Middle(x: string, a: string, b: string, y: string)
    requires x + a + y == x + b + y
    ensures a == b
  {
    assert |a| == |b|;
    assert a == (x + a + y)[|x|..|x| + |a|];
    assert b == (x + b + y)[|x|..|x| + |b|];
  }

  /** What a server gets to see of a URL: the path, from the first slash after the scheme. */
  function URLPath(url: string): string {
    if |url| >= 7 && url[..7] == "http://" then FromSlash(url[7..]) else ""
  }

  function FromSlash(s: string): string {
    if s == "" || s[0] == '/' then s else FromSlash(s[1..])
  }

  lemma {:induction false} SkipsHost(host: string, path: string)
    requires '/' !in host && path != "" && path[0] == '/'
    ensures FromSlash(host + path) == path
  {
    if host == "" {
      assert host + path == path;
    } else {
      assert (host + path)[1..] == host[1..] + path;
      assert (host + path)[0] == host[0] && host[0] in host;
      SkipsHost(host[1..], path);
    }
  }

  /** The URL a shard is pushed to and fetched from names, to the server there, exactly that shard; and goes to that
      peer's address. */
  lemma URLNamesShard(p: D.Peer, port: string, hash: string)
    requires ValidHash(hash) && '/' !in p.tailIP && '/' !in port
    ensures var host := if ':' in p.tailIP then "[" + p.tailIP + "]:" + port else p.tailIP + ":" + port;
            ShardURL(p, port, hash) == "http://" + host + URLPath(ShardURL(p, port, hash))
    ensures S.NamedHash(URLPath(ShardURL(p, port, hash))) == Some(hash)
  {
    PathOfURL(JoinHostPort(p.tailIP, port), hash);
    PathNamesShard(hash);
  }

  lemma PathOfURL(host: string, hash: string)
    requires '/' !in host
    ensures var url := "http://" + host + "/shards/" + hash;
            URLPath(url) == "/shards/" + hash && url == "http://" + host + ("/shards/" + hash)
  {
    var path := "/shards/" + hash;
    SkipsHost(host, path);
    AfterScheme(host + path);
    hide URLPath, FromSlash;
    assert "http://" + host + "/shards/" + hash == "http://" + (host + path);
  }

  lemma AfterScheme(rest: string)
    ensures URLPath("http://" + rest) == FromSlash(rest)
  {
    assert ("http://" + rest)[7..] == rest && ("http://" + rest)[..7] == "http://";
  }

  lemma PathNamesShard(hash: string)
    requires ValidHash(hash)
    ensures S.NamedHash("/shards/" + hash) == Some(hash)
  {
    var path := "/shards/" + hash;
    assert path[8..] == hash && path[..8] == "/shards/";
  }

  /** The shards of peer `k` go unanswered exactly when its domain is lost. */
  lemma UnansweredExactly(cfg: P.Config, down: set<P.Domain>, ref: ShardRef, p: D.Peer)
    requires PlainPorts(cfg) && ref.url == ShardURL(p, PushPort(cfg, p), ref.hash)
    ensures Unanswered(cfg, down, ref) <==> P.DomainOf(cfg, p) in down
  {
    hide PlainPorts, PushPort;
    if Unanswered(cfg, down, ref) {
      var q: D.Peer :| P.DomainOf(cfg, q) in down && ref.url == ShardURL(q, PushPort(cfg, q), ref.hash);
      SameURLSameDomain(cfg, p, q, ref.hash);
    }
  }

  /** The places in the list of peers whose domains are lost. */
  function LostPlaces(cfg: P.Config, es: seq<D.Peer>, down: set<P.Domain>): set<nat> {
    set k: nat | k < |es| && P.DomainOf(cfg, es[k]) in down
  }

  /** Which shards of a chunk are answered depends on their peers alone. */
  lemma LossyAnswers(env: Env, cfg: P.Config, m: Manifest, file: Bytes, es: seq<D.Peer>, down: set<P.Domain>, i: nat)
    requires Genuine(env, m, file) && PlainPorts(cfg) && PlacedOn(cfg, es, m) && i < |m.chunks|
    ensures var genuine := GenuineShards(env, m, file, i);
            Answered(WithoutDomains(env, cfg, m, file, down), m.chunks[i].shards, i, genuine)
            == P.Remaining(|genuine|, |es|, LostPlaces(cfg, es, down))
  {
    var genuine, refs := GenuineShards(env, m, file, i), m.chunks[i].shards;
    hide Genuine, GenuineShards, PlainPorts, PushPort, Unanswered;
    var flags := Answered(WithoutDomains(env, cfg, m, file, down), refs, i, genuine);
    var remaining := P.Remaining(|genuine|, |es|, LostPlaces(cfg, es, down));
    forall j | 0 <= j < |genuine| ensures flags[j] == remaining[j] {
      var p := es[j % |es|];
      assert refs[j].url == ShardURL(p, PushPort(cfg, p), refs[j].hash);
      assert refs[j].url[0] == 'h';
      UnansweredExactly(cfg, down, refs[j], p);
    }
  }

  lemma LossyChunk(env: Env, cfg: P.Config, m: Manifest, file: Bytes, es: seq<D.Peer>, down: set<P.Domain>, i: nat)
    requires Lawful(env, LayoutOf(m)) && Genuine(env, m, file) && PlainPorts(cfg) && PlacedOn(cfg, es, m)
             && i < |m.chunks|
    requires LayoutOf(m).Sound()
    ensures ChunkReachable(env, m, file, WithoutDomains(env, cfg, m, file, down), i)
            <==> P.Tolerates(m.dataShards, m.parityShards, |es|, LostPlaces(cfg, es, down))
  {
    hide Lawful, Genuine, GenuineShards, CountTrue, P.Lost, Answered, WithoutDomains, LostPlaces, PlainPorts;
    GenuineShardCount(env, m, file, i);
    LossyAnswers(env, cfg, m, file, es, down, i);
    P.RemainingCount(m.dataShards + m.parityShards, |es|, LostPlaces(cfg, es, down));
  }

  lemma LossyNoCollisions(env: Env, cfg: P.Config, m: Manifest, file: Bytes, down: set<P.Domain>)
    requires Genuine(env, m, file)
    ensures NoCollisions(env, m, file, WithoutDomains(env, cfg, m, file, down))
  {
    hide Unanswered;
  }

  /** Restoring after losing these domains gives the file exactly if enough shards of a chunk remain, and fails
      otherwise. */
  lemma RestoredAfterLoss(env: Env, cfg: P.Config, m: Manifest, file: Bytes, es: seq<D.Peer>, down: set<P.Domain>)
    requires Lawful(env, LayoutOf(m)) && Genuine(env, m, file) && Acceptable(m) && PlainPorts(cfg)
             && PlacedOn(cfg, es, m)
    requires LayoutOf(m).Sound() && m.chunks != []
    ensures Restored(env, m, WithoutDomains(env, cfg, m, file, down)) ==
            if P.Tolerates(m.dataShards, m.parityShards, |es|, LostPlaces(cfg, es, down)) then Some(file) else None
  {
    hide Lawful, ChunkReachable, NoCollision, Restored, P.Tolerates, Acceptable, WithoutDomains, Genuine, LostPlaces,
      PlainPorts;
    var src := WithoutDomains(env, cfg, m, file, down);
    LossyNoCollisions(env, cfg, m, file, down);
    forall i | 0 <= i < |m.chunks|
      ensures ChunkReachable(env, m, file, src, i)
              <==> P.Tolerates(m.dataShards, m.parityShards, |es|, LostPlaces(cfg, es, down))
    {
      LossyChunk(env, cfg, m, file, es, down, i);
    }
    RestoreExactly(env, m, file, src);
    assert ChunkReachable(env, m, file, src, 0) || !ChunkReachable(env, m, file, src, 0);
  }

  /** The domains at these places. */
  function DomainsAt(cfg: P.Config, es: seq<D.Peer>, places: set<nat>): set<P.Domain>
    requires forall k | k in places :: k < |es|
  {
    set k | k in places :: P.DomainOf(cfg, es[k])
  }

  lemma {:induction false} AsManyDomains(cfg: P.Config, es: seq<D.Peer>, places: set<nat>)
    requires P.DistinctDomains(cfg, es) && forall k | k in places :: k < |es|
    ensures |DomainsAt(cfg, es, places)| == |places|
  {
    hide P.DomainOf;
    if places != {} {
      var k :| k in places;
      AsManyDomains(cfg, es, places - {k});
      var d, rest := P.DomainOf(cfg, es[k]), DomainsAt(cfg, es, places - {k});
      assert DomainsAt(cfg, es, places) == rest + {d};
      assert d !in rest;
    }
  }

  /** With distinct domains, places and domains correspond one to one. */
  lemma SamePlaces(cfg: P.Config, es: seq<D.Peer>, places: set<nat>)
    requires P.DistinctDomains(cfg, es) && forall k | k in places :: k < |es|
    ensures LostPlaces(cfg, es, DomainsAt(cfg, es, places)) == places
  {
    hide P.DomainOf;
    var down := DomainsAt(cfg, es, places);
    forall j: nat | j < |es| ensures P.DomainOf(cfg, es[j]) in down <==> j in places {
      if P.DomainOf(cfg, es[j]) in down {
        var k :| k in places && P.DomainOf(cfg, es[k]) == P.DomainOf(cfg, es[j]);
        assert k == j;
      }
    }
  }

  /** Any `f` of the failure domains that hold shards. */
  predicate LosesDomains(cfg: P.Config, es: seq<D.Peer>, down: set<P.Domain>, f: nat) {
    |down| == f && forall d | d in down :: exists k: nat | k < |es| :: P.DomainOf(cfg, es[k]) == d
  }

  lemma LostPlacesCount(cfg: P.Config, es: seq<D.Peer>, down: set<P.Domain>, f: nat)
    requires P.DistinctDomains(cfg, es) && LosesDomains(cfg, es, down, f)
    ensures P.LosesPeers(LostPlaces(cfg, es, down), |es|, f)
  {
    var places := LostPlaces(cfg, es, down);
    AsManyDomains(cfg, es, places);
    forall d | d in down ensures d in DomainsAt(cfg, es, places) {
      var k: nat :| k < |es| && P.DomainOf(cfg, es[k]) == d;
      assert k in places;
    }
    assert DomainsAt(cfg, es, places) == down;
  }

  /** The file comes back in spite of the loss of these domains. */
  ghost predicate Survives(env: Env, cfg: P.Config, m: Manifest, file: Bytes, down: set<P.Domain>)
    requires Genuine(env, m, file) && Acceptable(m)
  {
    Restored(env, m, WithoutDomains(env, cfg, m, file, down)) == Some(file)
  }

  ghost predicate SurvivesAny(env: Env, cfg: P.Config, m: Manifest, file: Bytes, es: seq<D.Peer>, f: nat)
    requires Genuine(env, m, file) && Acceptable(m)
  {
    forall down: set<P.Domain> | LosesDomains(cfg, es, down, f) :: Survives(env, cfg, m, file, down)
  }

  /** Placement, coding and restore together. For a manifest whose shards are placed on these peers, as `processFile`
      places them: restoring succeeds after the loss of any `f` of their failure domains exactly when f times the floor
      of n/e plus the smaller of f and n mod e is at most the number of parity shards, e being the number of peers. */
  lemma SurvivesAnyLossExactly(env: Env, cfg: P.Config, m: Manifest, file: Bytes, es: seq<D.Peer>, f: nat)
    requires Lawful(env, LayoutOf(m)) && Genuine(env, m, file) && Acceptable(m) && PlainPorts(cfg)
    requires P.DistinctDomains(cfg, es) && PlacedOn(cfg, es, m) && f <= |es|
    ensures SurvivesAny(env, cfg, m, file, es, f)
            <==> P.WorstLoss(m.dataShards + m.parityShards, |es|, f) <= m.parityShards
  {
    hide Lawful, Genuine, Acceptable, PlainPorts, Restored, P.WorstLoss, P.Tolerates, P.LosesPeers, WithoutDomains,
      LostPlaces, LosesDomains, P.DistinctDomains;
    GenuineBasics(env, m, file);
    var k, parity, e := m.dataShards, m.parityShards, |es|;
    P.SurvivesExactly(k, parity, e, f);
    forall down: set<P.Domain> | LosesDomains(cfg, es, down, f)
      ensures P.LosesPeers(LostPlaces(cfg, es, down), e, f)
      ensures Survives(env, cfg, m, file, down) <==> P.Tolerates(k, parity, e, LostPlaces(cfg, es, down))
    {
      LostPlacesCount(cfg, es, down, f);
      RestoredAfterLoss(env, cfg, m, file, es, down);
    }
    if SurvivesAny(env, cfg, m, file, es, f) {
      forall lost: set<nat> | P.LosesPeers(lost, e, f) ensures P.Tolerates(k, parity, e, lost) {
        PlacesLost(cfg, es, lost, f);
        assert LosesDomains(cfg, es, DomainsAt(cfg, es, lost), f);
        assert Survives(env, cfg, m, file, DomainsAt(cfg, es, lost));
      }
    }
  }

  lemma PlacesLost(cfg: P.Config, es: seq<D.Peer>, lost: set<nat>, f: nat)
    requires P.DistinctDomains(cfg, es) && P.LosesPeers(lost, |es|, f)
    ensures forall k | k in lost :: k < |es|
    ensures LosesDomains(cfg, es, DomainsAt(cfg, es, lost), f) && LostPlaces(cfg, es, DomainsAt(cfg, es, lost)) == lost
  {
    AsManyDomains(cfg, es, lost);
    SamePlaces(cfg, es, lost);
  }

  /** Everything together: in every recorded state after the removal, of a file whose manifest can be read, that
      manifest survives the loss of any `f` of the failure domains the placement chose exactly under the arithmetic
      condition. */
  lemma HandedOverSurvives(s: Snapshot, b: Start, env: Env, json: Json, dir: string, m: Manifest)
    requires HandedOver(s, b, env, json, dir, b.stub, m) && LawfulFor(env, b.cfg) && PlainPorts(b.cfg.placement)
    requires EntryName(b.path.name) && Readable(b)
    ensures Acceptable(m)
    ensures exists es ::
              && Chosen(b.cfg.placement, b.discovered, b.probe,
                        PlacementBound(|b.content|, ChunkSize(b.cfg), LayoutOf(m)), es)
              && forall f: nat | f <= |es| ::
                   SurvivesAny(env, b.cfg.placement, m, b.content, es, f)
                   <==> P.WorstLoss(m.dataShards + m.parityShards, |es|, f) <= m.parityShards
  {
    IntendedIsReadable(env, b, m);
    IntendedIsLawful(env, b, m);
    var es :| Chosen(b.cfg.placement, b.discovered, b.probe,
                     PlacementBound(|b.content|, ChunkSize(b.cfg), LayoutOf(m)), es)
              && PlacedOn(b.cfg.placement, es, m);
    assert P.DistinctDomains(b.cfg.placement, es);
    hide Lawful, LawfulFor, Intended, Readable, Acceptable, Genuine, AllStored, PlacedOn, PlainPorts, SurvivesAny,
      P.WorstLoss, P.DistinctDomains, Chosen;
    forall f: nat | f <= |es|
      ensures SurvivesAny(env, b.cfg.placement, m, b.content, es, f)
              <==> P.WorstLoss(m.dataShards + m.parityShards, |es|, f) <= m.parityShards
    {
      SurvivesAnyLossExactly(env, b.cfg.placement, m, b.content, es, f);
    }
  }

  lemma IntendedMachines(b: Start, m: Manifest) returns (es: seq<D.Peer>)
    requires Intended(b, m) && b.cfg.placement.peers == [] && b.cfg.placement.minPeers == 0
    ensures PlacedOn(b.cfg.placement, es, m) && |es| >= m.dataShards + m.parityShards
    ensures P.DistinctDomains(b.cfg.placement, es) && P.Machines(es)
  {
    var cfg, bound := b.cfg.placement, PlacementBound(|b.content|, ChunkSize(b.cfg), LayoutOf(m));
    es :| Chosen(cfg, b.discovered, b.probe, bound, es) && PlacedOn(cfg, es, m);
    hide PlacedOn, P.Usable, P.DistinctDomains, P.CanPlace, BuiltFor, Checks;
    var usable := P.Usable(cfg, b.discovered.value, b.probe, bound);
    assert |es| == |multiset(es)| == |multiset(usable)| == |usable|;
    P.CanPlaceIsEnough(cfg, b.discovered, b.probe, LayoutOf(m).TotalShards(), bound);
    P.EnoughExactly(cfg, b.discovered.value, b.probe, m.dataShards + m.parityShards, bound);
    P.MachinesOfDomains(cfg, es);
  }

  /** With discovery and no minimum, as by default, for every manifest a run writes: the shards are with pairwise
      different machines, at least one for each shard, and any `parityShards` of them may be lost. */
  lemma AnyMachinesMayFail(b: Start, env: Env, m: Manifest)
    requires Intended(b, m) && Genuine(env, m, b.content) && LawfulFor(env, b.cfg) && PlainPorts(b.cfg.placement)
    requires EntryName(b.path.name) && Readable(b) && b.cfg.placement.peers == [] && b.cfg.placement.minPeers == 0
    ensures Acceptable(m)
    ensures exists es: seq<D.Peer> ::
              && PlacedOn(b.cfg.placement, es, m) && |es| >= m.dataShards + m.parityShards
              && (forall i, j | 0 <= i < j < |es| :: es[i].tailIP != es[j].tailIP)
              && SurvivesAny(env, b.cfg.placement, m, b.content, es, m.parityShards)
  {
    hide Lawful, LawfulFor, Readable, Acceptable, PlacedOn, PlainPorts, SurvivesAny, P.WorstLoss, P.DistinctDomains,
      Intended, Genuine;
    IntendedIsReadable(env, b, m);
    IntendedIsLawful(env, b, m);
    var es := IntendedMachines(b, m);
    LawfulIsSound(env, LayoutOf(m));
    P.EnoughPeers(m.dataShards, m.parityShards, |es|);
    SurvivesAnyLossExactly(env, b.cfg.placement, m, b.content, es, m.parityShards);
  }

  // ---------------------------------------------------------------- manifests of older versions

  /** Restoring a manifest of version 0 or 1: the output path, at every instant, is as the user has it or holds exactly
      the file, and without failures it does in the end unless the user has something there, if enough genuine shards
      are answered; otherwise nothing changes. */
  method RestoreOldFile(w: World, env: Env, json: Json, stub: Path, asked: Option<Path>, src: Sources,
                        ghost m: Manifest, ghost file: Bytes) returns (r: R.Ending)
    requires w.disk.Valid() && stub in w.disk.names && json.decode(View(w.disk)[stub]) == Some(m) && Acceptable(m)
    requires GenuineOld(env, m, file) && Lawful(env, OldLayout(m))
    requires NoCollision(env, src, 0, PieceShards(env, OldLayout(m), m.key, m.nonce, file))
    modifies w
    ensures w.disk.Valid()
    ensures var shards := PieceShards(env, OldLayout(m), m.key, m.nonce, file);
            var enough := CountTrue(Answered(src, m.shards, 0, shards)) >= OldLayout(m).dataShards;
            var output := R.OutputPath(stub, m, asked);
            && R.Ended(old(w.Now()), w.Now(), old(w.trace), w.trace, output, if enough then Some(file) else None, r)
            && (w.faults == old(w.faults) ==> (r.Done? <==> enough && R.Free(old(w.Now()), w.Now(), output)))
  {
    hide Acceptable, Restored, GenuineOld, Lawful, NoCollision, R.Ended, R.Free;
    OldRestoresExactly(env, m, file, src);
    r := R.RestoreFile(w, env, json, stub, asked, src);
  }

  /** Where a restore goes: where asked; else, beside the manifest whoever wrote that, to the manifest's name without
      its extension or, if it has none, to the recorded name. */
  lemma OutputStaysBeside(stub: Path, m: Manifest, stem: string, place: Path)
    requires Acceptable(m) && '/' !in stub.name
    ensures R.OutputPath(stub, Normalised(m), Some(place)) == place
    ensures var output := R.OutputPath(stub, Normalised(m), None);
            && output.dir == stub.dir && '/' !in output.name
            && (stub.name == stem + ".dstore" ==> output.name == stem)
            && ((forall s: string :: stub.name != s + ".dstore") ==>
                  output.name == m.fileName && output.name != "" && output.name != "." && output.name != "..")
  {
    AcceptedIsPlain(m);
    StubNames(stub.name);
  }

  // ---------------------------------------------------------------- the laws can be met

  /** For the default 2+1 layout the exclusive-or code meets the codec's law, so there the theorems above need
      nothing from a library. */
  lemma DefaultLayoutNeedsNoLibrary(env: Env)
    requires env.code == X.XOR && HashesNameShards(env)
    requires forall p: Bytes, key: Bytes, nonce: Bytes | |key| == KEY_SIZE && |nonce| == NONCE_SIZE ::
               |env.seal(p, key, nonce)| == |p| + TAG_SIZE && env.open(env.seal(p, key, nonce), key, nonce) == Some(p)
    ensures Lawful(env, Layout(DATA_SHARDS, PARITY_SHARDS))
  {
    hide AnyKSuffice;
    X.XorMeetsContract(2);
  }

  /** All laws hold together for some environment. */
  lemma LawsAreConsistent()
    ensures exists env: Env :: Lawful(env, Layout(DATA_SHARDS, PARITY_SHARDS))
  {
    var zeros := seq(64, _ => '0');
    assert ValidHash(zeros);
    var env := Env(_ => zeros, (p, key, nonce) => p + Zeros(TAG_SIZE),
                   (c: Bytes, key, nonce) => if |c| >= TAG_SIZE then Some(c[..|c| - TAG_SIZE]) else None, X.XOR);
    forall p: Bytes, key: Bytes, nonce: Bytes
      ensures |env.seal(p, key, nonce)| == |p| + TAG_SIZE && env.open(env.seal(p, key, nonce), key, nonce) == Some(p)
    {
      assert (p + Zeros(TAG_SIZE))[..|p|] == p;
    }
    DefaultLayoutNeedsNoLibrary(env);
  }

  // ---------------------------------------------------------------- every file can be stored

  /** The chunk for one piece, its shards with these peers in turn. */
  function ChunkFor(env: Env, l: Layout, key: Bytes, nonce: Bytes, cfg: P.Config, es: seq<D.Peer>, piece: Bytes): Chunk
    requires l.Sound() && es != []
  {
    var shards := PieceShards(env, l, key, nonce, piece);
    Chunk(|piece|, |piece| + TAG_SIZE, nonce, seq(|shards|, j requires 0 <= j < |shards| =>
      var p := es[j % |es|]; ShardRef(env.hash(shards[j]), p.hostName,
                                      ShardURL(p, PushPort(cfg, p), env.hash(shards[j])))))
  }

  lemma PiecesAreReadOut(file: Bytes, size: nat)
    requires size > 0
    ensures ReadOut(Pieces(file, size), size)
  {
    var pieces := Pieces(file, size);
    forall i | 0 <= i < |pieces| ensures i < |pieces| - 1 ==> |pieces[i]| == size
      ensures |pieces[i]| <= size && (file != [] ==> pieces[i] != [])
    {
      PiecesShape(file, size, i);
    }
  }

  lemma ChunksArePlaced(env: Env, l: Layout, key: Bytes, nonce: Bytes, cfg: P.Config, es: seq<D.Peer>,
                        pieces: seq<Bytes>, m: Manifest)
    requires l.Sound() && es != []
    requires m.chunks == seq(|pieces|, i requires 0 <= i < |pieces| => ChunkFor(env, l, key, nonce, cfg, es, pieces[i]))
    ensures PlacedOn(cfg, es, m)
  {
    hide PieceShards, ShardURL, PushPort;
    forall i, j | 0 <= i < |m.chunks| && 0 <= j < |m.chunks[i].shards|
      ensures m.chunks[i].shards[j].url
              == ShardURL(es[j % |es|], PushPort(cfg, es[j % |es|]), m.chunks[i].shards[j].hash)
    {
      assert m.chunks[i] == ChunkFor(env, l, key, nonce, cfg, es, pieces[i]);
    }
  }

  lemma ChunksSeal(env: Env, l: Layout, key: Bytes, nonce: Bytes, cfg: P.Config, es: seq<D.Peer>, pieces: seq<Bytes>,
                   chunks: seq<Chunk>)
    requires l.Sound() && es != [] && |key| == KEY_SIZE && |nonce| == NONCE_SIZE && Lawful(env, l)
    requires chunks == seq(|pieces|, i requires 0 <= i < |pieces| => ChunkFor(env, l, key, nonce, cfg, es, pieces[i]))
    ensures SealsPieces(env, l, key, chunks, pieces)
  {
    hide ShardURL, PushPort, PieceShards;
    forall i | 0 <= i < |pieces| ensures SealsPiece(env, l, key, chunks[i], pieces[i]) {
      assert chunks[i] == ChunkFor(env, l, key, nonce, cfg, es, pieces[i]);
    }
  }

  lemma ManifestFor(env: Env, l: Layout, file: Bytes, size: nat, name: string, key: Bytes, cfg: P.Config,
                    es: seq<D.Peer>) returns (m: Manifest)
    requires Lawful(env, l) && |key| == KEY_SIZE && es != [] && 0 < size <= MAX_CHUNK
    ensures Genuine(env, m, file) && LayoutOf(m) == l && PlacedOn(cfg, es, m) && BuiltFor(m, l, name, size, file)
  {
    var pieces, nonce := Pieces(file, size), Zeros(NONCE_SIZE);
    var chunks := seq(|pieces|, i requires 0 <= i < |pieces| => ChunkFor(env, l, key, nonce, cfg, es, pieces[i]));
    m := Built(l, "", name, |file|, size, key, chunks).(shareID := "");
    PiecesAreReadOut(file, size);
    PiecesJoin(file, size);
    ChunksArePlaced(env, l, key, nonce, cfg, es, pieces, m);
    ChunksSeal(env, l, key, nonce, cfg, es, pieces, chunks);
    assert l.Sound() && LayoutOf(m) == l;
    hide Lawful, SealsPieces, ReadOut, Pieces, CanBuild, PlacedOn, ChunkFor, CeilDiv;
    UploadedCanBuild(env, l, key, chunks, pieces, size);
    UploadedIsGenuine(env, l, key, chunks, pieces, size, file, "", name, "");
  }

  /** Nothing stands in the way of storing and restoring: every file, whatever its content and under every name a
      directory can have, has on every list of peers a manifest that is genuine and is placed there, and it is accepted
      back if and only if the name has no backslash and the ciphertexts are within the cap. */
  lemma EveryFileHasManifest(env: Env, l: Layout, file: Bytes, size: nat, name: string, key: Bytes, cfg: P.Config,
                             es: seq<D.Peer>)
    requires Lawful(env, l) && |key| == KEY_SIZE && es != [] && 0 < size <= MAX_CHUNK
    requires EntryName(name) && |file| <= MAX_TOTAL
    ensures exists m :: Genuine(env, m, file) && LayoutOf(m) == l && PlacedOn(cfg, es, m)
                        && BuiltFor(m, l, name, size, file)
                        && (Acceptable(m) <==> '\\' !in name
                                               && |file| + TAG_SIZE * Max(1, CeilDiv(|file|, size)) <= MAX_TOTAL)
  {
    var m := ManifestFor(env, l, file, size, name, key, cfg, es);
    hide Lawful, Acceptable, PlacedOn, Pieces;
    assert m.chunkSize == size && m.fileName == name && |m.key| == KEY_SIZE;
    ReadableExactly(env, m, name, file);
  }

  /** An input: an empty file with a backslash in its name. What is written for it is genuine, and never read again. */
  lemma BackslashUnreadable(env: Env, l: Layout, size: nat, key: Bytes, cfg: P.Config, es: seq<D.Peer>)
    requires Lawful(env, l) && |key| == KEY_SIZE && es != [] && 0 < size <= MAX_CHUNK
    ensures exists m :: Genuine(env, m, []) && BuiltFor(m, l, "a\\b", size, []) && PlacedOn(cfg, es, m)
                        && !Acceptable(m)
  {
    hide Lawful, Genuine, Acceptable, PlacedOn, BuiltFor, CeilDiv;
    assert "a\\b"[1] == '\\';
    EveryFileHasManifest(env, l, [], size, "a\\b", key, cfg, es);
  }

  /** The other: a file of exactly 2^40 bytes, under any name. */
  lemma LargestUnreadable(env: Env, l: Layout, size: nat, name: string, key: Bytes, cfg: P.Config, es: seq<D.Peer>)
    requires Lawful(env, l) && |key| == KEY_SIZE && es != [] && 0 < size <= MAX_CHUNK && EntryName(name)
    ensures exists file, m :: |file| == MAX_TOTAL && Genuine(env, m, file) && BuiltFor(m, l, name, size, file)
                              && PlacedOn(cfg, es, m)
                              && !Acceptable(m)
  {
    var file := Zeros(MAX_TOTAL);
    assert |file| == MAX_TOTAL;
    hide Lawful, Genuine, Acceptable, PlacedOn, BuiltFor, Zeros, CeilDiv, EntryName;
    EveryFileHasManifest(env, l, file, size, name, key, cfg, es);
  }
}
