/** `processFile`: read a file chunk by chunk, seal, split, push and verify every shard, keep a local copy, publish
    the manifest, and only then remove the original. The peers answer as they please, any operation can fail, the
    process can be killed and the power can fail after any step; meanwhile the user can change the file, and other
    processes use the shard directory. */
module Pipeline {
  import opened Prelude
  import opened Erasure
  import opened Manifest
  import opened Sealing
  import opened FileSystem
  import opened AtomicFile
  import opened StoreSpec
  import opened LocalStore
  import D = Discovery
  import P = Placement

  const STUB_EXTENSION := ".dstore"

  predicate IsStubName(name: string) {
    |name| >= |STUB_EXTENSION| && name[|name| - |STUB_EXTENSION|..] == STUB_EXTENSION
  }

  lemma StubNames(name: string)
    ensures IsStubName(name) <==> exists stem: string :: name == stem + ".dstore"
  {
    if IsStubName(name) {
      var n := |name| - 7;
      assert name == name[..n] + ".dstore";
    } else {
      forall stem: string ensures name != stem + ".dstore" {
        assert (stem + ".dstore")[|stem|..] == ".dstore";
      }
    }
  }

  lemma StubIsNotInStore(dir: string, stub: Path)
    requires IsStubName(stub.name)
    ensures !InStore(dir, stub)
  {
    var n := |stub.name|;
    assert stub.name[n - 7] == STUB_EXTENSION[0] == '.' && stub.name[n - 6] == STUB_EXTENSION[1] == 'd';
    assert n == 71 ==> stub.name[64..][1] == stub.name[65];
    assert ".writer"[1] == 'w';
  }

  /** Manifest text; decoding what was encoded gives the manifest back. */
  datatype Json = Json(encode: Manifest -> Bytes, decode: Bytes -> Option<Manifest>)

  ghost predicate Faithful(json: Json) {
    forall m: Manifest :: json.decode(json.encode(m)) == Some(m)
  }

  datatype Config = Config(shardDir: string, dataShards: Word, parityShards: Word, maxFileBytes: int, chunkSize: int,
                           quota: int, shareID: string, keepOriginal: bool, placement: P.Config)

  function FileLimit(cfg: Config): int {
    if cfg.maxFileBytes <= 0 then 0x400_0000 else cfg.maxFileBytes   // 64 << 20
  }

  function ChunkSize(cfg: Config): int {
    if cfg.chunkSize <= 0 then 0x100_0000 else cfg.chunkSize   // 16 << 20
  }

  function JoinHostPort(host: string, port: string): string {
    if ':' in host then "[" + host + "]:" + port else host + ":" + port
  }

  function ShardURL(p: D.Peer, port: string, hash: string): string {
    "http://" + JoinHostPort(p.tailIP, port) + "/shards/" + hash
  }

  /** The port shards are pushed to: a configured one even if empty, unlike the port that is probed. */
  function PushPort(cfg: P.Config, p: D.Peer): string {
    if p.hostName in cfg.peerPorts then cfg.peerPorts[p.hostName]
    else if cfg.listenPort == "" then "8080" else cfg.listenPort
  }

  // ---------------------------------------------------------------- what must hold at every instant

  /** How often others had used the shard directory, and the names there were. */
  datatype Since = Since(meddled: nat, names: set<Path>)

  /** The source file as `processFile` found it, and where the manifest goes. `pinned` records that the file was on
      stable storage, `prefix` what had happened before, `others` all files there were; `roomy`, that the shard
      directory `dir` has no hash-named file that does not hash to its name, and no quota or room for all the file's
      shards beside the `used` bytes; `cfg`, `discovered` and `probe` are what the run was started with. */
  datatype Start = Start(path: Path, ino: nat, content: Bytes, mtime: nat, edits: nat, pinned: bool,
                         prefix: seq<Snapshot>, faults: nat, since: Since, stub: Path, dir: string,
                         hash: Bytes -> string, quota: int, used: nat, roomy: bool, others: Files,
                         cfg: Config, discovered: Option<seq<D.Peer>>, probe: D.Probe)

  /** Every owner record was there at the start or goes with a shard others have put. */
  ghost predicate Attributed(s: Snapshot, dir: string, since: Since) {
    forall p | p in s.disk.names && IsRecord(dir, p) :: p in since.names || p in s.claimed
  }

  /** Apart from the source, the manifest and what the shard store uses, all files are as they were. */
  ghost predicate Elsewhere(s: Snapshot, b: Start)
    requires s.disk.Valid()
  {
    forall p | p != b.path && p != b.stub && !InStore(b.dir, p) ::
      (p in s.disk.names <==> p in b.others) && (p in b.others ==> View(s.disk)[p] == b.others[p])
  }

  /** The user's newest version is still at its path; an unchanged file can be told from a changed one; and nothing else
      is touched. */
  ghost predicate Kept(s: Snapshot, b: Start) {
    && s.disk.Valid() && Stamp(b.ino, |b.content|, b.mtime) in s.disk.seen
    && s.edits >= b.edits && s.meddled >= b.since.meddled
    && (if s.latest.Some? then b.path in View(s.disk) && View(s.disk)[b.path] == s.latest.value
        else b.path !in s.disk.names)
    && (s.edits == b.edits ==>
          && s.latest == Some(b.content) && b.path in s.disk.names && s.disk.names[b.path] == b.ino
          && s.disk.inodes[b.ino].data == b.content && s.disk.inodes[b.ino].mtime == b.mtime
          && (b.pinned ==> Pinned(s.disk, b.path, b.content)))
    && (s.edits != b.edits && b.path in s.disk.names ==>
          s.disk.StampOf(s.disk.names[b.path]) != Stamp(b.ino, |b.content|, b.mtime))
    && b.ino in s.disk.inodes
    && Attributed(s, b.dir, b.since)
    && (b.roomy ==> Addressed(b.hash, b.dir, View(s.disk)))
    && Elsewhere(s, b)
  }

  ghost predicate AllKept(trace: seq<Snapshot>, b: Start) {
    b.prefix <= trace && forall i | |b.prefix| <= i < |trace| :: Kept(trace[i], b) && b.stub !in trace[i].disk.names
  }

  /** The source has been kept at every instant so far, and there has not been a manifest. */
  ghost predicate Going(w: World, b: Start)
    reads w
  {
    Kept(w.Now(), b) && b.stub !in w.disk.names && AllKept(w.trace, b) && w.faults >= b.faults
  }

  /** The source and the manifest are no shards of the directory in use. */
  ghost predicate Suits(b: Start, env: Env, dir: string) {
    && HashesNameShards(env) && b.hash == env.hash && b.dir == dir
    && !InStore(dir, b.path) && !InStore(dir, b.stub) && b.stub != b.path && !MeansDirectory(b.stub)
  }

  /** Unless others used the directory, at most `n` bytes of shards have come to it. */
  ghost predicate Spent(w: World, b: Start, n: nat)
    reads w
    requires w.disk.Valid()
  {
    w.meddled == b.since.meddled ==> Usage(View(w.disk), b.dir) <= b.used + n
  }

  /** There was room for `n` bytes of shards, if it matters. */
  predicate Room(b: Start, n: nat) {
    b.roomy ==> b.quota <= 0 || b.used + n <= b.quota
  }

  lemma SpentMore(w: World, b: Start, n: nat, more: nat)
    requires w.disk.Valid() && Spent(w, b, n) && n <= more
    ensures Spent(w, b, more)
  {
  }

  lemma RoomForLess(b: Start, n: nat, less: nat)
    requires Room(b, n) && less <= n
    ensures Room(b, less)
  {
  }

  /** The only reasons to give up once the file is open: a failure, a change by the user, or a directory that has, or
      that others left, no room or something corrupt in it. */
  ghost predicate Excused(w: World, b: Start)
    reads w
  {
    w.faults > b.faults || w.edits != b.edits || !b.roomy || (b.quota > 0 && w.meddled != b.since.meddled)
  }

  /** The files of the disk, whether nobody else has used the shard directory, and which shards have, or had, or are
      about to get an owner on record: those whose record was there at the start or that others have put meaning to
      write one. */
  datatype Local = Local(files: Files, calm: bool, claimed: set<Path>)

  ghost function Here(s: Snapshot, since: Since): Local
    requires s.disk.Valid()
  {
    Local(View(s.disk), s.meddled == since.meddled, since.names + s.claimed)
  }

  /** The shard a reference names: verified at its URL, and present in the local directory too if nobody else has used
      that or the shard is nobody's. */
  ghost predicate RefStored(env: Env, remote: map<string, Bytes>, local: Local, dir: string, ref: ShardRef, limit: nat)
  {
    && ref.url != "" && ref.url in remote && env.hash(remote[ref.url]) == ref.hash && |remote[ref.url]| <= limit
    && (local.calm || OwnerPath(dir, ref.hash) !in local.claimed ==>
          ShardPath(dir, ref.hash) in local.files && env.hash(local.files[ShardPath(dir, ref.hash)]) == ref.hash)
  }

  ghost predicate ChunkStored(env: Env, remote: map<string, Bytes>, local: Local, dir: string, l: Layout, c: Chunk)
    requires l.Sound()
  {
    c.ciphertextSize >= 0
    && forall j | 0 <= j < |c.shards| ::
         RefStored(env, remote, local, dir, c.shards[j], ShardSize(c.ciphertextSize, l.dataShards))
  }

  ghost predicate AllStored(env: Env, remote: map<string, Bytes>, local: Local, dir: string, l: Layout,
                            chunks: seq<Chunk>)
    requires l.Sound()
  {
    forall i | 0 <= i < |chunks| :: ChunkStored(env, remote, local, dir, l, chunks[i])
  }

  /** The manifest is published and durable, describes exactly this file, and all its shards are stored: with the peers,
      and those that are nobody's in the local directory, all of them there if nobody else has used that. */
  ghost predicate Captured(s: Snapshot, env: Env, json: Json, dir: string, stub: Path, m: Manifest, file: Bytes,
                           since: Since)
  {
    && s.disk.Valid() && Genuine(env, m, file) && Attributed(s, dir, since)
    && Pinned(s.disk, stub, json.encode(m))
    && AllStored(env, s.remote, Here(s, since), dir, LayoutOf(m), m.chunks)
  }

  /** The manifest this run is to write: of the configured layout, chunk size and share group, with the file's name and
      totals, its shards with the peers the placement chose. */
  ghost predicate Intended(b: Start, m: Manifest) {
    && Checks(b.cfg, b.path, |b.content|)
    && NewLayout(b.cfg.dataShards, b.cfg.parityShards) == Some(LayoutOf(m)) && LayoutOf(m).Sound()
    && BuiltFor(m, LayoutOf(m), b.path.name, ChunkSize(b.cfg), b.content) && Labelled(b.cfg, m)
    && var bound := PlacementBound(|b.content|, ChunkSize(b.cfg), LayoutOf(m));
       && P.CanPlace(b.cfg.placement, b.discovered, b.probe, LayoutOf(m).TotalShards(), bound)
       && exists es ::
            Chosen(b.cfg.placement, b.discovered, b.probe, bound, es) && PlacedOn(b.cfg.placement, es, m)
            && NamedAfter(es, m)
  }

  /** It carries the share group and a random identifier. */
  predicate Labelled(cfg: Config, m: Manifest) {
    m.shareID == cfg.shareID && |m.fileID| == 32 && forall i | 0 <= i < |m.fileID| :: HexDigit(m.fileID[i])
  }

  /** Shard `j` of every chunk is recorded with the name of peer `j` modulo their number. */
  predicate NamedAfter(es: seq<D.Peer>, m: Manifest) {
    && es != []
    && forall i, j | 0 <= i < |m.chunks| && 0 <= j < |m.chunks[i].shards| ::
         m.chunks[i].shards[j].peer == es[j % |es|].hostName
  }

  /** The original was removed; the manifest that was to be written captures it, and it was the newest version unless
      the user changed it. */
  ghost predicate HandedOver(s: Snapshot, b: Start, env: Env, json: Json, dir: string, stub: Path, m: Manifest) {
    && Captured(s, env, json, dir, stub, m, b.content, b.since) && Intended(b, m) && b.path !in s.disk.names
    && Elsewhere(s, b)
    && (s.edits == b.edits ==> s.latest == Some(b.content))
  }

  /** This manifest of the file, if there is one yet, is complete at its path, and all its shards are stored. */
  ghost predicate Announced(s: Snapshot, b: Start, env: Env, json: Json, dir: string, stub: Path, m: Manifest)
    requires s.disk.Valid()
  {
    && Genuine(env, m, b.content) && Intended(b, m)
    && AllStored(env, s.remote, Here(s, b.since), dir, LayoutOf(m), m.chunks)
    && (stub in s.disk.names ==> View(s.disk)[stub] == json.encode(m))
  }

  /** The newest version is at its path, and there is no manifest but the complete one to be written, whose shards are
      all stored by then; or the original was removed after that manifest had captured it. */
  ghost predicate Safe(s: Snapshot, b: Start, env: Env, json: Json, dir: string, stub: Path) {
    || (Kept(s, b) && (stub !in s.disk.names || exists m :: Announced(s, b, env, json, dir, stub, m)))
    || exists m :: HandedOver(s, b, env, json, dir, stub, m)
  }

  /** Files other than the source only accumulate. */
  ghost predicate GrowsBeside(before: Files, after: Files, path: Path) {
    forall p | p in before && p != path :: p in after && after[p] == before[p]
  }

  /** While nobody else uses the directory, files other than the source only accumulate; shards that are nobody's stay,
      and stay nobody's, in any case. */
  ghost predicate Beside(before: Local, after: Local, path: Path) {
    && before.claimed <= after.claimed
    && (after.calm ==> before.calm && GrowsBeside(before.files, after.files, path))
    && (forall p | p in before.files && p != path && ValidHash(p.name) && RecordOf(p) !in before.claimed ::
          p in after.files && after.files[p] == before.files[p] && RecordOf(p) !in after.claimed)
  }

  // ---------------------------------------------------------------- how each step keeps it

  lemma AddsKeeps(s: Snapshot, t: Snapshot, p: Path, data: Bytes, b: Start)
    requires Kept(s, b) && t == s.(disk := t.disk) && Adds(s.disk, t.disk, p, data) && p != b.path
    requires !IsRecord(b.dir, p) && (IsShard(b.dir, p) ==> b.hash(data) == p.name)
    requires p == b.stub || InStore(b.dir, p)
    ensures Kept(t, b) && Beside(Here(s, b.since), Here(t, b.since), b.path)
    ensures b.stub !in s.disk.names && p != b.stub ==> b.stub !in t.disk.names
  {
    AddsView(s.disk, t.disk, p, data);
    if s.edits == b.edits && b.pinned { AddsPinned(s.disk, t.disk, p, data, b.path, b.content); }
  }

  lemma AddingKeeps(s: Snapshot, earlier: seq<Snapshot>, trace: seq<Snapshot>, p: Path, data: Bytes, b: Start)
    requires Kept(s, b) && AllKept(earlier, b) && earlier <= trace && OnlyAdds(s, trace, |earlier|, p, data)
             && p != b.path && p != b.stub && b.stub !in s.disk.names && InStore(b.dir, p)
    requires !IsRecord(b.dir, p) && (IsShard(b.dir, p) ==> b.hash(data) == p.name)
    ensures AllKept(trace, b)
  {
    forall i | |b.prefix| <= i < |trace| ensures Kept(trace[i], b) && b.stub !in trace[i].disk.names {
      if i < |earlier| { assert trace[i] == earlier[i]; } else { AddsKeeps(s, trace[i], p, data, b); }
    }
  }

  lemma SameElsewhere(files: Files, more: Files, path: Path, p: Path)
    requires files - {path} == more - {path} && p != path
    ensures (p in files <==> p in more) && (p in files ==> files[p] == more[p])
  {
    assert p in files - {path} <==> p in files;
    assert p in more - {path} <==> p in more;
    if p in files { assert (files - {path})[p] == (more - {path})[p]; }
  }

  lemma EditElsewhere(s: Snapshot, t: Snapshot, b: Start)
    requires s.disk.Valid() && Elsewhere(s, b) && UserEdited(s, t, b.path)
    ensures t.disk.Valid() && Elsewhere(t, b)
  {
    hide InStore;
    EditFacts(s, t, b.path);
  }

  lemma RemovalElsewhere(s: Snapshot, t: Snapshot, b: Start)
    requires s.disk.Valid() && Elsewhere(s, b) && t == s.(disk := s.disk.(names := s.disk.names - {b.path}))
    ensures t.disk.Valid() && Elsewhere(t, b)
  {
  }

  lemma EditKeeps(s: Snapshot, t: Snapshot, b: Start)
    requires Kept(s, b) && UserEdited(s, t, b.path)
    requires !InStore(b.dir, b.path)
    ensures Kept(t, b) && Beside(Here(s, b.since), Here(t, b.since), b.path)
    ensures b.stub !in s.disk.names && b.stub != b.path ==> b.stub !in t.disk.names
    ensures Usage(View(t.disk), b.dir) == Usage(View(s.disk), b.dir)
  {
    EditUsage(s, t, b);
    EditFacts(s, t, b.path);
    EditElsewhere(s, t, b);
    hide Usage, Elsewhere, IsRecord, ValidHash, InStore, RecordOf, UserEdited;
  }

  lemma EditFacts(s: Snapshot, t: Snapshot, path: Path)
    requires s.disk.Valid() && UserEdited(s, t, path)
    ensures t == s.(disk := t.disk, latest := t.latest, edits := t.edits) && t.edits > s.edits
    ensures t.disk.Valid() && s.disk.seen <= t.disk.seen && (forall i | i in s.disk.inodes :: i in t.disk.inodes)
    ensures forall p | p != path ::
              (p in t.disk.names <==> p in s.disk.names)
              && (p in s.disk.names ==> t.disk.names[p] == s.disk.names[p] && View(t.disk)[p] == View(s.disk)[p])
    ensures if t.latest.Some? then path in View(t.disk) && View(t.disk)[path] == t.latest.value
                                   && t.disk.StampOf(t.disk.names[path]) !in s.disk.seen
            else path !in t.disk.names
  {
    EditView(s.disk, t.disk, path, t.latest);
    forall p | p != path
      ensures (p in t.disk.names <==> p in s.disk.names) && (p in s.disk.names ==> t.disk.names[p] == s.disk.names[p])
      ensures p in s.disk.names ==> View(t.disk)[p] == View(s.disk)[p]
    {
      SameElsewhere(View(s.disk), View(t.disk), path, p);
      assert p in t.disk.names <==> p in t.disk.names - {path};
      assert p in s.disk.names <==> p in s.disk.names - {path};
      assert p in t.disk.names ==> (t.disk.names - {path})[p] == (s.disk.names - {path})[p];
    }
  }

  lemma EditUsage(s: Snapshot, t: Snapshot, b: Start)
    requires s.disk.Valid() && UserEdited(s, t, b.path) && !InStore(b.dir, b.path)
    ensures t.disk.Valid() && Usage(View(t.disk), b.dir) == Usage(View(s.disk), b.dir)
  {
    hide Usage;
    EditView(s.disk, t.disk, b.path, t.latest);
    UsageUntouched(View(s.disk), View(t.disk), b.dir, b.path);
  }

  lemma AllEditingKeeps(s: Snapshot, earlier: seq<Snapshot>, trace: seq<Snapshot>, b: Start)
    requires Kept(s, b) && AllKept(earlier, b) && earlier <= trace && !InStore(b.dir, b.path)
             && b.stub !in s.disk.names && b.stub != b.path
    requires forall i | |earlier| <= i < |trace| :: UserEdited(s, trace[i], b.path)
    ensures AllKept(trace, b)
  {
    hide Kept, UserEdited;
    forall i | |b.prefix| <= i < |trace| ensures Kept(trace[i], b) && b.stub !in trace[i].disk.names {
      if i < |earlier| { assert trace[i] == earlier[i]; } else { EditKeeps(s, trace[i], b); }
    }
  }

  lemma GainKeeps(s: Snapshot, t: Snapshot, b: Start)
    requires Kept(s, b) && t == s.(remote := t.remote)
    ensures Kept(t, b)
  {
  }

  /** What others do to the shard directory leaves the shards there that are nobody's. */
  lemma MeddlingIsBeside(s: Snapshot, t: Snapshot, dir: string, digest: Bytes -> string, since: Since, path: Path)
    requires s.disk.Valid() && s.meddled >= since.meddled && Attributed(s, dir, since) && Interfered(s, t, dir, digest)
    ensures t.disk.Valid() && Attributed(t, dir, since) && Beside(Here(s, since), Here(t, since), path)
  {
    hide IsRecord, ValidHash, RecordOf;
    var before, after := Here(s, since), Here(t, since);
    forall p | p in before.files && p != path && ValidHash(p.name) && RecordOf(p) !in before.claimed
      ensures p in after.files && after.files[p] == before.files[p] && RecordOf(p) !in after.claimed
    {
      RecordOfShard(dir, p);
      if p.dir == dir { assert Unclaimed(s, p); } else { assert !InStore(dir, p) by { NotInStore(dir, p); } }
    }
  }

  lemma NotInStore(dir: string, p: Path)
    requires p.dir != dir
    ensures !InStore(dir, p)
  {
  }

  /** What others do to the shard directory does not touch the source or the manifest. */
  lemma MeddlingKeeps(s: Snapshot, t: Snapshot, b: Start)
    requires Kept(s, b) && Interfered(s, t, b.dir, b.hash) && !InStore(b.dir, b.path) && !InStore(b.dir, b.stub)
    ensures Kept(t, b) && Beside(Here(s, b.since), Here(t, b.since), b.path)
    ensures b.stub in s.disk.names <==> b.stub in t.disk.names
  {
    hide Spared, Beside, Here, Attributed, IsRecord, ValidHash;
    MeddlingIsBeside(s, t, b.dir, b.hash, b.since, b.path);
  }

  lemma AllMeddlingKeeps(s: Snapshot, earlier: seq<Snapshot>, trace: seq<Snapshot>, b: Start)
    requires Kept(s, b) && AllKept(earlier, b) && earlier <= trace && !InStore(b.dir, b.path) && !InStore(b.dir, b.stub)
             && b.stub !in s.disk.names
    requires forall i | |earlier| <= i < |trace| :: Interfered(s, trace[i], b.dir, b.hash)
    ensures AllKept(trace, b)
  {
    forall i | |b.prefix| <= i < |trace| ensures Kept(trace[i], b) && b.stub !in trace[i].disk.names {
      if i < |earlier| { assert trace[i] == earlier[i]; } else { MeddlingKeeps(s, trace[i], b); }
    }
  }

  lemma StillStored(env: Env, remote: map<string, Bytes>, more: map<string, Bytes>, local: Local, later: Local,
                    path: Path, dir: string, l: Layout, c: Chunk)
    requires l.Sound() && ChunkStored(env, remote, local, dir, l, c)
    requires Gains(remote, more) && Beside(local, later, path) && !InStore(dir, path)
    requires HashesNameShards(env)
    ensures ChunkStored(env, more, later, dir, l, c)
  {
    forall j | 0 <= j < |c.shards|
      ensures RefStored(env, more, later, dir, c.shards[j], ShardSize(c.ciphertextSize, l.dataShards))
    {
      assert RefStored(env, remote, local, dir, c.shards[j], ShardSize(c.ciphertextSize, l.dataShards));
      assert ShardPath(dir, c.shards[j].hash) != path;
    }
  }

  lemma AllStillStored(env: Env, remote: map<string, Bytes>, more: map<string, Bytes>, local: Local, later: Local,
                       path: Path, dir: string, l: Layout, chunks: seq<Chunk>)
    requires l.Sound() && AllStored(env, remote, local, dir, l, chunks)
    requires Gains(remote, more) && Beside(local, later, path) && !InStore(dir, path)
    requires HashesNameShards(env)
    ensures AllStored(env, more, later, dir, l, chunks)
  {
    forall i | 0 <= i < |chunks| ensures ChunkStored(env, more, later, dir, l, chunks[i]) {
      StillStored(env, remote, more, local, later, path, dir, l, chunks[i]);
    }
  }

  // ---------------------------------------------------------------- pushing and keeping one shard

  /** `downloadShard`. */
  method DownloadShard(w: World, url: string, limit: nat) returns (data: Option<Bytes>)
    modifies w`faults
    ensures data.Some? ==> url in w.remote && data.value == w.remote[url] && |data.value| <= limit
    ensures w.faults >= old(w.faults)
    ensures data.None? && w.faults == old(w.faults) ==> url in w.remote && |w.remote[url]| > limit
  {
    var body := w.GetRemote(url);
    if body.None? || |body.value| > limit { return None; }
    data := body;
  }

  /** `pushShard`: success means the peer's answer was read back and hashes to the shard's name; a peer that does its
      work is never turned down. */
  method PushShard(w: World, env: Env, url: string, shard: Bytes) returns (ok: bool)
    requires w.disk.Valid()
    modifies w
    ensures w.Now() == old(w.Now()).(remote := w.remote) && w.trace == old(w.trace) + [w.Now()]
            && Gains(old(w.remote), w.remote)
    ensures ok ==> url in w.remote && env.hash(w.remote[url]) == env.hash(shard) && |w.remote[url]| <= |shard|
                   && w.refusals == old(w.refusals)
    ensures w.faults >= old(w.faults) && (!ok ==> w.faults > old(w.faults))
  {
    var status := w.PutRemote(url, shard);
    if status != 201 && status != 200 { return false; }
    var data := DownloadShard(w, url, |shard|);
    if data.None? { return false; }
    ok := env.hash(data.value) == env.hash(shard);
  }

  /** What every part of the upload guarantees: the source is kept at every instant, and what peers and other files
      hold only grows. */
  twostate predicate Progress(w: World, b: Start)
    reads w
  {
    && Going(w, b)
    && old(w.disk.Valid()) && Beside(old(Here(w.Now(), b.since)), Here(w.Now(), b.since), b.path)
    && Gains(old(w.remote), w.remote) && w.edits >= old(w.edits)
  }

  /** Others use the shard directory. */
  method LetOthersAct(w: World, dir: string, env: Env, ghost b: Start)
    requires Going(w, b) && Suits(b, env, dir)
    modifies w
    ensures Progress(w, b) && w.Now() == old(w.Now()).(disk := w.disk, meddled := w.meddled, claimed := w.claimed)
            && w.faults == old(w.faults)
    ensures w.meddled == old(w.meddled) ==> w.disk == old(w.disk)
  {
    hide Addressed, Meddled, AnyKSuffice;
    w.OthersAct(dir, env.hash);
    AllMeddlingKeeps(old(w.Now()), old(w.trace), w.trace, b);
    if w.Now() != old(w.Now()) { MeddlingKeeps(old(w.Now()), w.Now(), b); }
  }

  /** `store.Put` during an upload. */
  method KeepLocally(w: World, env: Env, store: Store, shard: Bytes, ghost b: Start, ghost n: nat) returns (ok: bool)
    requires Going(w, b) && Suits(b, env, store.dir) && store.quota == b.quota
    requires Spent(w, b, n) && (w.edits == b.edits ==> Room(b, n + |shard|))
    modifies w
    ensures w.disk.Valid() && Spent(w, b, n + |shard|)
    ensures Progress(w, b) && w.Now() == old(w.Now()).(disk := w.disk, meddled := w.meddled, claimed := w.claimed)
            && (!ok ==> Excused(w, b))
    ensures ok ==> ShardPath(store.dir, env.hash(shard)) in View(w.disk)
                   && env.hash(View(w.disk)[ShardPath(store.dir, env.hash(shard))]) == env.hash(shard)
  {
    LetOthersAct(w, store.dir, env, b);
    ghost var before, trace := w.Now(), w.trace;
    var r := store.PutOwned(w, env.hash, shard, []);
    var sp := ShardPath(store.dir, env.hash(shard));
    AddsKeeps(before, w.Now(), sp, shard, b);
    AddingKeeps(before, trace, w.trace, sp, shard, b);
    PutSpends(View(before.disk), store.dir, env.hash(shard), shard, r);
    ok := r.Accepted();
  }

  lemma PutSpends(files: Files, dir: string, hash: string, shard: Bytes, r: PutResult)
    requires !r.OwnerFailed? && (r.Stored? || r.ShardLate? ==> ShardPath(dir, hash) !in files)
    ensures Usage(AfterPut(files, dir, hash, shard, [], r), dir) <= Usage(files, dir) + |shard|
  {
    if r.Stored? || r.ShardLate? { UsageAdd(files, dir, ShardPath(dir, hash), shard); }
  }

  /** One shard: to its peer, read back, then into the local directory. */
  method StoreShard(w: World, env: Env, cfg: Config, store: Store, p: D.Peer, shard: Bytes, limit: nat, ghost b: Start,
                    ghost n: nat)
    returns (r: Option<ShardRef>)
    requires Going(w, b) && Suits(b, env, store.dir) && store.quota == b.quota && |shard| <= limit
    requires Spent(w, b, n) && (w.edits == b.edits ==> Room(b, n + |shard|))
    modifies w
    ensures w.disk.Valid() && (r.Some? ==> Spent(w, b, n + |shard|))
    ensures Progress(w, b) && w.edits == old(w.edits) && (r.None? ==> Excused(w, b))
    ensures r.Some? ==> r.value.hash == env.hash(shard) && r.value.peer == p.hostName
                        && r.value.url == ShardURL(p, PushPort(cfg.placement, p), env.hash(shard))
                        && RefStored(env, w.remote, Here(w.Now(), b.since), store.dir, r.value, limit)
  {
    var url := ShardURL(p, PushPort(cfg.placement, p), env.hash(shard));
    var pushed := PushShard(w, env, url, shard);
    GainKeeps(old(w.Now()), w.Now(), b);
    if !pushed { return None; }
    ghost var remote := w.remote;
    var kept := KeepLocally(w, env, store, shard, b, n);
    if !kept { return None; }
    r := Some(ShardRef(env.hash(shard), p.hostName, url));
  }

  /** The references built so far name the first shards, each stored. */
  ghost predicate RefsStored(env: Env, remote: map<string, Bytes>, local: Local, dir: string, limit: nat,
                             refs: seq<ShardRef>, shards: seq<Bytes>) {
    && |refs| <= |shards|
    && forall j | 0 <= j < |refs| :: refs[j].hash == env.hash(shards[j])
                                     && RefStored(env, remote, local, dir, refs[j], limit)
  }

  lemma RefsStillStored(env: Env, remote: map<string, Bytes>, more: map<string, Bytes>, local: Local, later: Local,
                        path: Path, dir: string, limit: nat, refs: seq<ShardRef>, shards: seq<Bytes>)
    requires RefsStored(env, remote, local, dir, limit, refs, shards) && HashesNameShards(env)
    requires Gains(remote, more) && Beside(local, later, path) && !InStore(dir, path)
    ensures RefsStored(env, more, later, dir, limit, refs, shards)
  {
    forall j | 0 <= j < |refs| ensures RefStored(env, more, later, dir, refs[j], limit) {
      assert RefStored(env, remote, local, dir, refs[j], limit);
      assert ShardPath(dir, refs[j].hash) != path;
    }
  }

  lemma StillValid(w: World, b: Start)
    requires Going(w, b)
    ensures w.disk.Valid()
  {
  }

  lemma BesideTwice(early: Local, mid: Local, late: Local, path: Path)
    requires Beside(early, mid, path) && Beside(mid, late, path)
    ensures Beside(early, late, path)
  {
  }

  lemma BesideItself(local: Local, remote: map<string, Bytes>, path: Path)
    ensures Beside(local, local, path) && Gains(remote, remote)
  {
  }

  lemma GainsTwice(early: map<string, Bytes>, mid: map<string, Bytes>, late: map<string, Bytes>)
    requires Gains(early, mid) && Gains(mid, late)
    ensures Gains(early, late)
  {
  }

  /** The inner loop: every shard of one chunk in order, to the peer at the same index. */
  method StoreShards(w: World, env: Env, cfg: Config, store: Store, peers: seq<D.Peer>, shards: seq<Bytes>, limit: nat,
                     ghost b: Start, ghost n: nat) returns (r: Option<seq<ShardRef>>)
    requires Going(w, b) && Suits(b, env, store.dir) && store.quota == b.quota
    requires Spent(w, b, n) && (w.edits == b.edits ==> Room(b, n + |shards| * limit))
    requires |peers| == |shards| && forall j | 0 <= j < |shards| :: |shards[j]| <= limit
    modifies w
    ensures Progress(w, b) && w.edits == old(w.edits) && (r.None? ==> Excused(w, b))
    ensures w.disk.Valid() && (r.Some? ==> Spent(w, b, n + |shards| * limit))
    ensures r.Some? ==> |r.value| == |shards|
                        && RefsStored(env, w.remote, Here(w.Now(), b.since), store.dir, limit, r.value, shards)
    ensures r.Some? ==> forall j | 0 <= j < |shards| ::
                          && r.value[j].peer == peers[j].hostName
                          && r.value[j].url == ShardURL(peers[j], PushPort(cfg.placement, peers[j]),
                                                        env.hash(shards[j]))
  {
    hide AnyKSuffice, Going, Usage, Spent, Room, RefStored, Beside, Gains, Here, ShardURL;
    StillValid(w, b);
    var refs: seq<ShardRef> := [];
    BesideItself(Here(w.Now(), b.since), w.remote, b.path);
    while |refs| < |shards|
      invariant w.disk.Valid() && Progress(w, b) && w.edits == old(w.edits) && |refs| <= |shards|
                && Spent(w, b, n + |refs| * limit)
      invariant RefsStored(env, w.remote, Here(w.Now(), b.since), store.dir, limit, refs, shards)
      invariant forall j | 0 <= j < |refs| ::
                  && refs[j].peer == peers[j].hostName
                  && refs[j].url == ShardURL(peers[j], PushPort(cfg.placement, peers[j]), env.hash(shards[j]))
    {
      var i := |refs|;
      ghost var remote, local := w.remote, Here(w.Now(), b.since);
      assert (i + 1) * limit == i * limit + limit;
      Scaled(i + 1, |shards|, limit);
      if w.edits == b.edits { RoomForLess(b, n + |shards| * limit, n + i * limit + |shards[i]|); }
      var ref := StoreShard(w, env, cfg, store, peers[i], shards[i], limit, b, n + i * limit);
      BesideTwice(old(Here(w.Now(), b.since)), local, Here(w.Now(), b.since), b.path);
      GainsTwice(old(w.remote), remote, w.remote);
      if ref.None? { return None; }
      SpentMore(w, b, n + i * limit + |shards[i]|, n + (i + 1) * limit);
      RefsStillStored(env, remote, w.remote, local, Here(w.Now(), b.since), b.path, store.dir, limit, refs, shards);
      refs := refs + [ref.value];
    }
    r := Some(refs);
  }

  // ---------------------------------------------------------------- where the shards are

  /** Each shard of the chunk is at the URL of the peer at the same index, and under its name. */
  predicate Follows(cfg: P.Config, peers: seq<D.Peer>, c: Chunk) {
    && |c.shards| == |peers|
    && forall j | 0 <= j < |peers| ::
         && c.shards[j].peer == peers[j].hostName
         && c.shards[j].url == ShardURL(peers[j], PushPort(cfg, peers[j]), c.shards[j].hash)
  }

  predicate AllFollow(cfg: P.Config, peers: seq<D.Peer>, chunks: seq<Chunk>) {
    forall i | 0 <= i < |chunks| :: Follows(cfg, peers, chunks[i])
  }

  // ---------------------------------------------------------------- one chunk

  lemma ChunkOfRefs(env: Env, l: Layout, key: Bytes, nonce: Bytes, plain: Bytes, remote: map<string, Bytes>,
                    local: Local, dir: string, refs: seq<ShardRef>)
    requires Lawful(env, l) && |key| == KEY_SIZE && |nonce| == NONCE_SIZE
    requires var shards := PieceShards(env, l, key, nonce, plain);
             |refs| == |shards| && RefsStored(env, remote, local, dir, ShardSize(|plain| + TAG_SIZE, l.dataShards),
                                              refs, shards)
    ensures var c := Chunk(|plain|, |plain| + TAG_SIZE, nonce, refs);
            SealsPiece(env, l, key, c, plain) && ChunkStored(env, remote, local, dir, l, c)
  {
  }

  /** Encrypt, encode, push and keep one chunk. */
  method StoreChunk(w: World, env: Env, cfg: Config, store: Store, l: Layout, key: Bytes, peers: seq<D.Peer>,
                    plain: Bytes, ghost b: Start, ghost n: nat) returns (r: Option<Chunk>)
    requires Going(w, b) && Suits(b, env, store.dir) && store.quota == b.quota
    requires Lawful(env, l) && |key| == KEY_SIZE && |peers| == l.TotalShards()
    requires Spent(w, b, n) && (w.edits == b.edits ==> Room(b, n + PieceShardBytes(l, |plain|)))
    modifies w
    ensures Progress(w, b) && w.edits == old(w.edits) && (r.None? ==> Excused(w, b))
    ensures r.Some? ==> w.disk.Valid() && Spent(w, b, n + PieceShardBytes(l, |plain|))
    ensures r.Some? ==> Follows(cfg.placement, peers, r.value)
    ensures r.Some? ==> SealsPiece(env, l, key, r.value, plain)
                        && ChunkStored(env, w.remote, Here(w.Now(), b.since), store.dir, l, r.value)
  {
    assert w.disk.Valid();
    hide CeilDiv, ShardSize, AnyKSuffice, Usage, RefStored, AllKept, Addressed, Kept, Here, View, InStore, ValidHash,
      Elsewhere, ShardURL, PushPort, PieceShardBytes;
    var nonce := w.Random(NONCE_SIZE);
    if nonce.None? { return None; }
    var ciphertext := env.seal(plain, key, nonce.value);
    assert |ciphertext| == |plain| + TAG_SIZE;
    var shards := Encode(env.code, l, ciphertext);
    if shards.None? { return None; }
    assert shards.value == PieceShards(env, l, key, nonce.value, plain);
    PieceShardsSize(env, l, key, nonce.value, plain);
    var limit := ShardSize(|plain| + TAG_SIZE, l.dataShards);
    hide Beside, PieceShards, Encode, RefsStored, Lawful;
    var refs := StoreShards(w, env, cfg, store, peers, shards.value, limit, b, n);
    if refs.None? { return None; }
    ChunkOfRefs(env, l, key, nonce.value, plain, w.remote, Here(w.Now(), b.since), store.dir, refs.value);
    r := Some(Chunk(|plain|, |ciphertext|, nonce.value, refs.value));
  }

  // ---------------------------------------------------------------- the read loop

  /** The chunks so far seal the pieces read so far, and all their shards are stored. */
  ghost predicate Uploaded(env: Env, remote: map<string, Bytes>, local: Local, dir: string, l: Layout, key: Bytes,
                           chunks: seq<Chunk>, pieces: seq<Bytes>)
    requires l.Sound()
  {
    SealsPieces(env, l, key, chunks, pieces) && AllStored(env, remote, local, dir, l, chunks)
  }

  lemma UploadedMore(env: Env, remote: map<string, Bytes>, more: map<string, Bytes>, local: Local, later: Local,
                     path: Path, dir: string, l: Layout, key: Bytes, chunks: seq<Chunk>, pieces: seq<Bytes>, c: Chunk,
                     piece: Bytes)
    requires l.Sound() && HashesNameShards(env) && Uploaded(env, remote, local, dir, l, key, chunks, pieces)
    requires Gains(remote, more) && Beside(local, later, path) && !InStore(dir, path)
    requires SealsPiece(env, l, key, c, piece) && ChunkStored(env, more, later, dir, l, c)
    ensures Uploaded(env, more, later, dir, l, key, chunks + [c], pieces + [piece])
  {
    AllStillStored(env, remote, more, local, later, path, dir, l, chunks);
  }

  predicate AllFull(pieces: seq<Bytes>, size: int) {
    forall i | 0 <= i < |pieces| :: |pieces[i]| == size
  }

  /** A list of full pieces, or of full pieces and one short last one, is the file's list of pieces. */
  predicate ReadOut(pieces: seq<Bytes>, size: int) {
    && size > 0 && pieces != []
    && var n := |pieces| - 1;
    AllFull(pieces[..n], size) && |pieces[n]| <= size && (n == 0 || pieces[n] != [])
  }

  lemma ReadOutIsPieces(pieces: seq<Bytes>, size: int)
    requires ReadOut(pieces, size)
    ensures Pieces(Concat(pieces), size) == pieces
  {
    var n := |pieces| - 1;
    PiecesExtend(pieces[..n], pieces[n], size);
    assert pieces == pieces[..n] + [pieces[n]];
  }

  /** What was read, if the user never touched the file, is its content so far, and in the end all of it. */
  ghost predicate Faithfully(w: World, b: Start, pieces: seq<Bytes>, total: nat, more: bool)
    reads w
  {
    && total == |Concat(pieces)|
    && (w.edits == b.edits ==> total <= |b.content| && Concat(pieces) == b.content[..total]
                               && (!more ==> total == |b.content|))
  }

  lemma NextPiece(pieces: seq<Bytes>, piece: Bytes, content: Bytes, total: nat, max: nat)
    requires total == |Concat(pieces)| <= |content| && Concat(pieces) == content[..total]
    requires piece == content[total..Min(total + max, |content|)]
    ensures Concat(pieces + [piece]) == content[..total + |piece|]
  {
    ConcatAppend(pieces, [piece]);
    ConcatOne(piece);
  }

  /** Between two turns of the loop. */
  ghost predicate Uploading(w: World, env: Env, dir: string, l: Layout, key: Bytes, b: Start, chunks: seq<Chunk>,
                            pieces: seq<Bytes>, total: nat, limit: nat, size: nat, more: bool)
    reads w
    requires l.Sound() && w.disk.Valid()
  {
    && Uploaded(env, w.remote, Here(w.Now(), b.since), dir, l, key, chunks, pieces)
    && Faithfully(w, b, pieces, total, more) && total <= limit && Spent(w, b, ShardBytes(l, pieces))
    && (if more then AllFull(pieces, size) && (total == 0 ==> pieces == []) else ReadOut(pieces, size))
  }

  lemma OnePieceMore(pieces: seq<Bytes>, piece: Bytes, size: nat)
    requires size > 0 && AllFull(pieces, size) && |piece| <= size && (pieces == [] || piece != [])
    ensures ReadOut(pieces + [piece], size) && (|piece| == size ==> AllFull(pieces + [piece], size))
  {
    assert (pieces + [piece])[..|pieces|] == pieces;
  }

  lemma WithinLimit(w: World, env: Env, dir: string, l: Layout, key: Bytes, b: Start, chunks: seq<Chunk>,
                    pieces: seq<Bytes>, total: nat, limit: nat, size: nat, more: bool)
    requires l.Sound() && Going(w, b) && Uploading(w, env, dir, l, key, b, chunks, pieces, total, limit, size, more)
    ensures w.disk.Valid() && total <= limit
  {
  }

  /** A read that finds the end right after a full piece finishes the list as it is. */
  lemma NothingMore(w: World, env: Env, dir: string, l: Layout, key: Bytes, b: Start, chunks: seq<Chunk>,
                    pieces: seq<Bytes>, total: nat, limit: nat, size: nat)
    requires l.Sound() && w.disk.Valid() && size > 0 && total > 0
    requires Uploading(w, env, dir, l, key, b, chunks, pieces, total, limit, size, true)
    requires w.edits == b.edits ==> total == |b.content|
    ensures Uploading(w, env, dir, l, key, b, chunks, pieces, total, limit, size, false)
  {
    hide Uploaded;
    assert pieces != [];
  }

  /** One read: if the user has not touched the file since the start, it is the next part of its content. */
  method ReadPiece(w: World, path: Path, ino: nat, offset: nat, max: nat, ghost env: Env, ghost dir: string,
                   ghost l: Layout, ghost key: Bytes, ghost b: Start, ghost chunks: seq<Chunk>,
                   ghost pieces: seq<Bytes>, ghost limit: nat, ghost size: nat)
    returns (r: Option<Bytes>)
    requires Going(w, b) && path == b.path && ino == b.ino && Suits(b, env, dir) && l.Sound() && Lawful(env, l)
    requires Uploading(w, env, dir, l, key, b, chunks, pieces, offset, limit, size, true)
    modifies w
    ensures w.disk.Valid() && Going(w, b)
            && Uploading(w, env, dir, l, key, b, chunks, pieces, offset, limit, size, true)
    ensures if r.Some? then |r.value| <= max && w.faults == old(w.faults) else Excused(w, b)
    ensures r.Some? && w.edits == b.edits ==>
              offset <= |b.content| && r.value == b.content[offset..Min(offset + max, |b.content|)]
  {
    hide AnyKSuffice, AllStored, SealsPieces, Concat, AllFull, Addressed;
    var go := w.Attempt();
    if !go { return None; }
    r := w.ReadFull(path, ino, offset, max);
    AllEditingKeeps(old(w.Now()), old(w.trace), w.trace, b);
    if w.edits != old(w.edits) { EditKeeps(old(w.Now()), w.Now(), b); }
    AllStillStored(env, w.remote, w.remote, old(Here(w.Now(), b.since)), Here(w.Now(), b.since), b.path, dir, l,
                   chunks);
  }

  lemma ListsExtended(w: World, env: Env, dir: string, l: Layout, key: Bytes, b: Start, chunks: seq<Chunk>,
                      pieces: seq<Bytes>, bytes: Bytes, total: nat, max: nat, limit: nat, size: nat)
    requires l.Sound() && w.disk.Valid()
             && Uploaded(env, w.remote, Here(w.Now(), b.since), dir, l, key, chunks, pieces + [bytes])
    requires Faithfully(w, b, pieces, total, true) && AllFull(pieces, size) && (total == 0 ==> pieces == [])
    requires size > 0 && |bytes| <= size && (bytes != [] || total == 0) && total + |bytes| <= limit
    requires w.edits == b.edits ==> total <= |b.content| && bytes == b.content[total..Min(total + max, |b.content|)]
    requires |b.content| <= limit && max == Min(size, limit + 1 - total) && Spent(w, b, ShardBytes(l, pieces + [bytes]))
    ensures Uploading(w, env, dir, l, key, b, chunks, pieces + [bytes], total + |bytes|, limit, size, |bytes| == size)
  {
    hide Uploaded, Spent;
    ConcatAppend(pieces, [bytes]);
    ConcatOne(bytes);
    OnePieceMore(pieces, bytes, size);
    if w.edits == b.edits { NextPiece(pieces, bytes, b.content, total, max); }
  }

  /** Room for all the file's shards is room for those of what has been read of it. */
  lemma RoomForMore(w: World, l: Layout, b: Start, pieces: seq<Bytes>, bytes: Bytes, total: nat, max: nat, limit: nat,
                    size: nat)
    requires l.Sound() && Faithfully(w, b, pieces, total, true) && AllFull(pieces, size)
             && (total == 0 ==> pieces == [])
    requires size > 0 && (bytes != [] || total == 0) && |b.content| <= limit && max == Min(size, limit + 1 - total)
    requires w.edits == b.edits && total <= |b.content| && bytes == b.content[total..Min(total + max, |b.content|)]
    requires Room(b, ShardBytes(l, Pieces(b.content, size)))
    ensures Room(b, ShardBytes(l, pieces + [bytes]))
  {
    PiecesPrefix(pieces, bytes, b.content, size);
    ShardBytesPrefix(l, pieces + [bytes], Pieces(b.content, size));
  }

  /** After a read: seal and store the piece, and add it to the lists. */
  method UploadPiece(w: World, env: Env, cfg: Config, store: Store, l: Layout, key: Bytes, peers: seq<D.Peer>,
                     chunks: seq<Chunk>, bytes: Bytes, ghost b: Start, ghost pieces: seq<Bytes>, ghost total: nat,
                     ghost max: nat, ghost limit: nat, ghost size: nat)
    returns (r: Option<seq<Chunk>>)
    requires Going(w, b) && Suits(b, env, store.dir) && store.quota == b.quota
    requires Lawful(env, l) && |key| == KEY_SIZE && |peers| == l.TotalShards()
    requires Uploading(w, env, store.dir, l, key, b, chunks, pieces, total, limit, size, true)
    requires size > 0 && |bytes| <= size && (bytes != [] || total == 0) && total + |bytes| <= limit
    requires w.edits == b.edits ==> total <= |b.content| && bytes == b.content[total..Min(total + max, |b.content|)]
    requires |b.content| <= limit && max == Min(size, limit + 1 - total) && AllFollow(cfg.placement, peers, chunks)
    requires Room(b, ShardBytes(l, Pieces(b.content, size)))
    modifies w
    ensures Going(w, b) && (if r.None? then Excused(w, b) else AllFollow(cfg.placement, peers, r.value))
    ensures r.Some? ==> Uploading(w, env, store.dir, l, key, b, r.value, pieces + [bytes], total + |bytes|, limit, size,
                                  |bytes| == size)
  {
    hide AnyKSuffice, AllStored, SealsPieces, Concat, AllFull, AllKept, Adds, Addressed, Room, ShardBytes, Pieces,
      Usage, Kept, Beside, Here, ChunkStored, SealsPiece;
    ShardBytesAppend(l, pieces, bytes);
    if w.edits == b.edits { RoomForMore(w, l, b, pieces, bytes, total, max, limit, size); }
    var chunk := StoreChunk(w, env, cfg, store, l, key, peers, bytes, b, ShardBytes(l, pieces));
    if chunk.None? { return None; }
    UploadedMore(env, old(w.remote), w.remote, old(Here(w.Now(), b.since)), Here(w.Now(), b.since),
      b.path, store.dir, l, key, chunks, pieces, chunk.value, bytes);
    ListsExtended(w, env, store.dir, l, key, b, chunks + [chunk.value], pieces, bytes, total, max, limit, size);
    r := Some(chunks + [chunk.value]);
  }

  /** One turn of the loop. */
  method UploadStep(w: World, env: Env, cfg: Config, store: Store, l: Layout, key: Bytes, peers: seq<D.Peer>,
                    path: Path, ino: nat, limit: nat, chunkSize: nat, chunks: seq<Chunk>, total: nat, ghost b: Start,
                    ghost pieces: seq<Bytes>)
    returns (ok: bool, chunks': seq<Chunk>, total': nat, more: bool, ghost pieces': seq<Bytes>)
    requires Going(w, b) && Suits(b, env, store.dir) && store.quota == b.quota
    requires l.Sound() && Lawful(env, l) && |key| == KEY_SIZE && |peers| == l.TotalShards()
    requires chunkSize > 0 && path == b.path && ino == b.ino && |b.content| <= limit
    requires Uploading(w, env, store.dir, l, key, b, chunks, pieces, total, limit, chunkSize, true)
    requires AllFollow(cfg.placement, peers, chunks) && Room(b, ShardBytes(l, Pieces(b.content, chunkSize)))
    modifies w
    ensures Going(w, b) && (if ok then AllFollow(cfg.placement, peers, chunks') else Excused(w, b))
    ensures ok ==> Uploading(w, env, store.dir, l, key, b, chunks', pieces', total', limit, chunkSize, more)
    ensures ok && more ==> total' > total
  {
    hide Lawful, Going, Uploading, View, Concat, HashesNameShards;
    ok, chunks', total', more, pieces' := false, chunks, total, false, pieces;
    WithinLimit(w, env, store.dir, l, key, b, chunks, pieces, total, limit, chunkSize, true);
    var max := Min(chunkSize, limit + 1 - total);
    var bytes := ReadPiece(w, path, ino, total, max, env, store.dir, l, key, b, chunks, pieces, limit, chunkSize);
    if bytes.None? { return; }
    if |bytes.value| == 0 && total > 0 {
      NothingMore(w, env, store.dir, l, key, b, chunks, pieces, total, limit, chunkSize);
      ok := true;
      return;
    }
    if total + |bytes.value| > limit { return; }
    var extended := UploadPiece(w, env, cfg, store, l, key, peers, chunks, bytes.value, b, pieces, total, max, limit,
                                chunkSize);
    if extended.None? { return; }
    chunks', total', pieces' := extended.value, total + |bytes.value|, pieces + [bytes.value];
    ok, more := true, |bytes.value| == chunkSize;
  }

  /** The upload loop. It ends, and what it stored is some content cut into its pieces; if the user never touched the
      file, that content is the file's, as far as it was read. */
  method Upload(w: World, env: Env, cfg: Config, store: Store, l: Layout, key: Bytes, peers: seq<D.Peer>, path: Path,
                ino: nat, limit: nat, chunkSize: nat, ghost b: Start)
    returns (r: Option<(seq<Chunk>, nat)>, ghost pieces: seq<Bytes>)
    requires Going(w, b) && Suits(b, env, store.dir) && store.quota == b.quota
    requires l.Sound() && Lawful(env, l) && |key| == KEY_SIZE && |peers| == l.TotalShards()
    requires chunkSize > 0 && path == b.path && ino == b.ino && |b.content| <= limit
    requires Spent(w, b, 0) && Room(b, ShardBytes(l, Pieces(b.content, chunkSize)))
    modifies w
    ensures Going(w, b) && (if r.None? then Excused(w, b) else AllFollow(cfg.placement, peers, r.value.0))
    ensures r.Some? ==> Uploading(w, env, store.dir, l, key, b, r.value.0, pieces, r.value.1, limit, chunkSize, false)
  {
    var chunks, total: nat, more := [], 0, true;
    pieces := [];
    while more
      invariant Going(w, b)
      invariant Uploading(w, env, store.dir, l, key, b, chunks, pieces, total, limit, chunkSize, more)
      invariant AllFollow(cfg.placement, peers, chunks)
      decreases if more then 1 + limit - total else 0
    {
      var ok;
      ok, chunks, total, more, pieces :=
        UploadStep(w, env, cfg, store, l, key, peers, path, ino, limit, chunkSize, chunks, total, b, pieces);
      if !ok { return None, pieces; }
    }
    r := Some((chunks, total));
  }

  // ---------------------------------------------------------------- the manifest of what was uploaded

  lemma {:induction false} ChunkTotals(env: Env, l: Layout, key: Bytes, chunks: seq<Chunk>, pieces: seq<Bytes>)
    requires l.Sound() && SealsPieces(env, l, key, chunks, pieces)
    ensures PlainTotal(chunks) == |Concat(pieces)| && CipherTotal(chunks) == PlainTotal(chunks) + TAG_SIZE * |chunks|
  {
    if chunks != [] {
      var n := |chunks| - 1;
      assert SealsPiece(env, l, key, chunks[n], pieces[n]);
      ChunkTotals(env, l, key, chunks[..n], pieces[..n]);
      AppendPiece(pieces, n + 1);
      assert pieces[..n + 1] == pieces;
    }
  }

  lemma ChunksAreGood(env: Env, l: Layout, key: Bytes, chunks: seq<Chunk>, pieces: seq<Bytes>, size: nat)
    requires Lawful(env, l) && SealsPieces(env, l, key, chunks, pieces)
    requires forall i | 0 <= i < |pieces| :: |pieces[i]| <= size
    ensures GoodChunks(l, size, chunks)
  {
    forall i | 0 <= i < |chunks| ensures Fits(chunks[i], size) && ValidChunk(l, chunks[i]) {
      assert SealsPiece(env, l, key, chunks[i], pieces[i]);
      PieceShardsSize(env, l, key, chunks[i].nonce, pieces[i]);
    }
  }

  lemma ReadOutFits(pieces: seq<Bytes>, size: nat, i: nat)
    requires ReadOut(pieces, size) && i < |pieces|
    ensures |pieces[i]| <= size
  {
    if i < |pieces| - 1 { assert pieces[..|pieces| - 1][i] == pieces[i]; }
  }

  /** Whatever was uploaded, `NewChunked` accepts it. */
  lemma UploadedCanBuild(env: Env, l: Layout, key: Bytes, chunks: seq<Chunk>, pieces: seq<Bytes>, size: nat)
    requires Lawful(env, l) && SealsPieces(env, l, key, chunks, pieces) && ReadOut(pieces, size)
    ensures CanBuild(l, |Concat(pieces)|, size, key, chunks)
  {
    forall i | 0 <= i < |pieces| ensures |pieces[i]| <= size { ReadOutFits(pieces, size, i); }
    ChunksAreGood(env, l, key, chunks, pieces, size);
    ChunkTotals(env, l, key, chunks, pieces);
  }

  /** If the pieces are those of the file, the manifest is the file's. */
  lemma UploadedIsGenuine(env: Env, l: Layout, key: Bytes, chunks: seq<Chunk>, pieces: seq<Bytes>, size: nat,
                          file: Bytes, fileID: string, name: string, shareID: string)
    requires l.Sound() && SealsPieces(env, l, key, chunks, pieces) && ReadOut(pieces, size) && Concat(pieces) == file
    ensures Genuine(env, Built(l, fileID, name, |file|, size, key, chunks).(shareID := shareID), file)
  {
    ReadOutIsPieces(pieces, size);
  }

  /** The manifest `NewChunked` builds for this file. */
  predicate BuiltFor(m: Manifest, l: Layout, name: string, chunkSize: int, file: Bytes) {
    && CanBuild(l, |file|, chunkSize, m.key, m.chunks)
    && m == Built(l, m.fileID, name, |file|, chunkSize, m.key, m.chunks).(shareID := m.shareID)
  }

  // ---------------------------------------------------------------- publish, then remove

  datatype Failure =
    | StubGiven | NoShardDir | BadLayout | StubExists | NoSource | FileTooLarge | ChunkTooLarge | SourceChanged
      | NoPeers
    | UploadFailed | NoRandomness | Cancelled | StubNotWritten | OriginalNotRemoved | Panicked

  ghost predicate AllSafe(trace: seq<Snapshot>, b: Start, env: Env, json: Json, dir: string, stub: Path) {
    b.prefix <= trace && forall i | |b.prefix| <= i < |trace| :: Safe(trace[i], b, env, json, dir, stub)
  }

  lemma KeptIsSafe(trace: seq<Snapshot>, b: Start, env: Env, json: Json, dir: string, stub: Path)
    requires AllKept(trace, b) && stub == b.stub
    ensures AllSafe(trace, b, env, json, dir, stub)
  {
  }

  lemma OneMoreSafe(trace: seq<Snapshot>, s: Snapshot, b: Start, env: Env, json: Json, dir: string, stub: Path,
                    m: Manifest)
    requires AllSafe(trace, b, env, json, dir, stub)
    requires Ready(s, b, env, json, dir, m) || HandedOver(s, b, env, json, dir, stub, m)
    requires stub == b.stub
    ensures AllSafe(trace + [s], b, env, json, dir, stub)
  {
    hide Kept, Announced, HandedOver;
  }

  /** Ready for publication, or beyond: the original is there, the shards are stored, and there is no other manifest. */
  ghost predicate Ready(s: Snapshot, b: Start, env: Env, json: Json, dir: string, m: Manifest) {
    Kept(s, b) && Announced(s, b, env, json, dir, b.stub, m)
  }

  lemma StillAnnounced(s: Snapshot, t: Snapshot, b: Start, env: Env, json: Json, dir: string, m: Manifest)
    requires s.disk.Valid() && Announced(s, b, env, json, dir, b.stub, m) && t.disk.Valid() && Suits(b, env, dir)
    requires Gains(s.remote, t.remote) && Beside(Here(s, b.since), Here(t, b.since), b.path)
    requires b.stub in t.disk.names ==> View(t.disk)[b.stub] == json.encode(m)
    ensures Announced(t, b, env, json, dir, b.stub, m)
  {
    hide Intended, AllStored, Beside, Here, Genuine;
    GenuineBasics(env, m, b.content);
    AllStillStored(env, s.remote, t.remote, Here(s, b.since), Here(t, b.since), b.path, dir, LayoutOf(m), m.chunks);
  }

  lemma PublishingKeepsReady(s: Snapshot, t: Snapshot, b: Start, env: Env, json: Json, dir: string, m: Manifest)
    requires Ready(s, b, env, json, dir, m) && Suits(b, env, dir)
    requires t == s.(disk := t.disk) && Adds(s.disk, t.disk, b.stub, json.encode(m))
    ensures Ready(t, b, env, json, dir, m)
  {
    hide Intended, AllStored, Beside, Here, Genuine, Elsewhere;
    AddsKeeps(s, t, b.stub, json.encode(m), b);
    AddsView(s.disk, t.disk, b.stub, json.encode(m));
    StillAnnounced(s, t, b, env, json, dir, m);
  }

  lemma EditKeepsReady(s: Snapshot, t: Snapshot, b: Start, env: Env, json: Json, dir: string, m: Manifest)
    requires Ready(s, b, env, json, dir, m) && Suits(b, env, dir) && UserEdited(s, t, b.path)
    ensures Ready(t, b, env, json, dir, m)
    ensures b.stub in t.disk.names <==> b.stub in s.disk.names
    ensures Pinned(s.disk, b.stub, json.encode(m)) ==> Pinned(t.disk, b.stub, json.encode(m))
  {
    hide Intended, AllStored, Beside, Here, Genuine, Elsewhere;
    EditKeeps(s, t, b);
    EditView(s.disk, t.disk, b.path, t.latest);
    SameElsewhere(View(s.disk), View(t.disk), b.path, b.stub);
    StillAnnounced(s, t, b, env, json, dir, m);
    if Pinned(s.disk, b.stub, json.encode(m)) {
      EditPinned(s.disk, t.disk, b.path, t.latest, b.stub, json.encode(m));
    }
  }

  lemma MeddlingKeepsReady(s: Snapshot, t: Snapshot, b: Start, env: Env, json: Json, dir: string, m: Manifest)
    requires Ready(s, b, env, json, dir, m) && Suits(b, env, dir) && Interfered(s, t, dir, env.hash)
    ensures Ready(t, b, env, json, dir, m)
    ensures b.stub in t.disk.names <==> b.stub in s.disk.names
    ensures Pinned(s.disk, b.stub, json.encode(m)) ==> Pinned(t.disk, b.stub, json.encode(m))
  {
    hide Intended, AllStored, Beside, Here, Genuine, Elsewhere;
    MeddlingKeeps(s, t, b);
    StillAnnounced(s, t, b, env, json, dir, m);
    if Pinned(s.disk, b.stub, json.encode(m)) {
      MeddledPinned(s.disk, t.disk, dir, env.hash, b.stub, json.encode(m));
    }
  }

  /** A captured file stays captured while its manifest is pinned and what stores its shards only grows. */
  lemma StillCaptured(s: Snapshot, t: Snapshot, path: Path, file: Bytes, since: Since, env: Env, json: Json,
                      dir: string, stub: Path, m: Manifest)
    requires Captured(s, env, json, dir, stub, m, file, since) && t.disk.Valid() && Pinned(t.disk, stub, json.encode(m))
    requires Attributed(t, dir, since) && Gains(s.remote, t.remote) && Beside(Here(s, since), Here(t, since), path)
    requires !InStore(dir, path) && HashesNameShards(env)
    ensures Captured(t, env, json, dir, stub, m, file, since)
  {
    AllStillStored(env, s.remote, t.remote, Here(s, since), Here(t, since), path, dir, LayoutOf(m), m.chunks);
  }

  /** Removing the original leaves what captures it. */
  lemma RemovalKeepsCaptured(s: Snapshot, t: Snapshot, path: Path, file: Bytes, since: Since, env: Env, json: Json,
                             dir: string, stub: Path, m: Manifest)
    requires Captured(s, env, json, dir, stub, m, file, since) && stub != path && !InStore(dir, path)
             && HashesNameShards(env)
    requires t == s.(disk := s.disk.(names := s.disk.names - {path}))
    ensures Captured(t, env, json, dir, stub, m, file, since)
  {
    RemoveView(s.disk, path);
    StillCaptured(s, t, path, file, since, env, json, dir, stub, m);
  }

  lemma StoredIsReady(s: Snapshot, b: Start, env: Env, json: Json, dir: string, m: Manifest)
    requires Kept(s, b) && b.stub !in s.disk.names && Genuine(env, m, b.content) && Intended(b, m)
    requires AllStored(env, s.remote, Here(s, b.since), dir, LayoutOf(m), m.chunks)
    ensures Ready(s, b, env, json, dir, m)
  {
  }

  /** Once the manifest is durable beside the stored shards, the file is captured. */
  lemma PinnedIsCaptured(s: Snapshot, b: Start, env: Env, json: Json, dir: string, m: Manifest)
    requires Ready(s, b, env, json, dir, m) && Pinned(s.disk, b.stub, json.encode(m)) && Suits(b, env, dir)
    ensures Captured(s, env, json, dir, b.stub, m, b.content, b.since)
  {
  }

  lemma RemovalHandsOver(s: Snapshot, t: Snapshot, b: Start, env: Env, json: Json, dir: string, m: Manifest)
    requires Ready(s, b, env, json, dir, m) && Captured(s, env, json, dir, b.stub, m, b.content, b.since)
    requires Suits(b, env, dir) && t == s.(disk := s.disk.(names := s.disk.names - {b.path}))
    ensures HandedOver(t, b, env, json, dir, b.stub, m)
  {
    hide Captured, Intended, Genuine, AllStored, Elsewhere;
    RemovalElsewhere(s, t, b);
    RemovalKeepsCaptured(s, t, b.path, b.content, b.since, env, json, dir, b.stub, m);
  }

  /** So does any change the user makes to the original. */
  lemma EditKeepsCaptured(s: Snapshot, t: Snapshot, b: Start, env: Env, json: Json, dir: string, m: Manifest)
    requires Kept(s, b) && UserEdited(s, t, b.path)
    requires Captured(s, env, json, dir, b.stub, m, b.content, b.since) && Suits(b, env, dir)
    ensures Captured(t, env, json, dir, b.stub, m, b.content, b.since)
  {
    hide Genuine, AllStored, Kept, Edited, Pinned, Addressed;
    EditIsBeside(s, t, b);
    EditPinned(s.disk, t.disk, b.path, t.latest, b.stub, json.encode(m));
    StillCaptured(s, t, b.path, b.content, b.since, env, json, dir, b.stub, m);
  }

  lemma EditIsBeside(s: Snapshot, t: Snapshot, b: Start)
    requires Kept(s, b) && UserEdited(s, t, b.path)
    requires !InStore(b.dir, b.path)
    ensures t.disk.Valid() && Beside(Here(s, b.since), Here(t, b.since), b.path) && Attributed(t, b.dir, b.since)
  {
    EditKeeps(s, t, b);
  }

  lemma InterferenceIsMeddling(s: Snapshot, t: Snapshot, dir: string, digest: Bytes -> string)
    requires Interfered(s, t, dir, digest)
    ensures Meddled(s.disk, t.disk, dir, digest) && t.remote == s.remote
  {
  }

  /** And whatever others do to the shard directory. */
  lemma MeddlingKeepsCaptured(s: Snapshot, t: Snapshot, b: Start, env: Env, json: Json, dir: string, m: Manifest)
    requires s.meddled >= b.since.meddled && Interfered(s, t, dir, env.hash) && Suits(b, env, dir)
    requires Captured(s, env, json, dir, b.stub, m, b.content, b.since)
    ensures Captured(t, env, json, dir, b.stub, m, b.content, b.since)
  {
    hide Genuine, AllStored, Pinned, Attributed, Interfered, Beside, Here;
    MeddlingIsBeside(s, t, dir, env.hash, b.since, b.path);
    InterferenceIsMeddling(s, t, dir, env.hash);
    MeddledPinned(s.disk, t.disk, dir, env.hash, b.stub, json.encode(m));
    StillCaptured(s, t, b.path, b.content, b.since, env, json, dir, b.stub, m);
  }

  /** The states after this one, each reached by a step that keeps things ready, are safe. */
  lemma ReadyIsSafe(earlier: seq<Snapshot>, trace: seq<Snapshot>, b: Start, env: Env, json: Json, dir: string,
                    m: Manifest)
    requires AllSafe(earlier, b, env, json, dir, b.stub) && earlier <= trace
    requires forall i | |earlier| <= i < |trace| :: Ready(trace[i], b, env, json, dir, m)
    ensures AllSafe(trace, b, env, json, dir, b.stub)
  {
    hide Kept, Announced, HandedOver;
    forall i | |b.prefix| <= i < |trace| ensures Safe(trace[i], b, env, json, dir, b.stub) {
      if i < |earlier| { assert trace[i] == earlier[i]; }
    }
  }

  /** After the last look the user may still change the file, and others use the shard directory. */
  method LetWorldAct(w: World, path: Path, dir: string, env: Env, ghost b: Start, ghost json: Json, ghost m: Manifest)
    requires Ready(w.Now(), b, env, json, dir, m) && Suits(b, env, dir) && path == b.path
    requires AllSafe(w.trace, b, env, json, dir, b.stub)
    modifies w
    ensures Ready(w.Now(), b, env, json, dir, m) && AllSafe(w.trace, b, env, json, dir, b.stub)
    ensures w.edits >= old(w.edits) && w.remote == old(w.remote) && w.faults == old(w.faults)
    ensures b.stub in w.disk.names <==> b.stub in old(w.disk.names)
    ensures Pinned(old(w.disk), b.stub, json.encode(m)) ==> Pinned(w.disk, b.stub, json.encode(m))
  {
    hide Ready, AllSafe, Addressed, Meddled, AnyKSuffice, Edited, Pinned, Intended, Genuine;
    ReadyIsKept(w.Now(), b, env, json, dir, m);
    w.UserActs(path);
    forall i | |old(w.trace)| <= i < |w.trace| ensures Ready(w.trace[i], b, env, json, dir, m) {
      EditKeepsReady(old(w.Now()), w.trace[i], b, env, json, dir, m);
    }
    ReadyIsSafe(old(w.trace), w.trace, b, env, json, dir, m);
    if w.edits != old(w.edits) { EditKeepsReady(old(w.Now()), w.Now(), b, env, json, dir, m); }
    ghost var before, trace := w.Now(), w.trace;
    ReadyIsKept(w.Now(), b, env, json, dir, m);
    w.OthersAct(dir, env.hash);
    forall i | |trace| <= i < |w.trace| ensures Ready(w.trace[i], b, env, json, dir, m) {
      MeddlingKeepsReady(before, w.trace[i], b, env, json, dir, m);
    }
    ReadyIsSafe(trace, w.trace, b, env, json, dir, m);
    if w.Now() != before { MeddlingKeepsReady(before, w.Now(), b, env, json, dir, m); }
  }

  lemma ReadyIsKept(s: Snapshot, b: Start, env: Env, json: Json, dir: string, m: Manifest)
    requires Ready(s, b, env, json, dir, m)
    ensures s.disk.Valid() && Kept(s, b)
  {
  }

  lemma MeddlingKeepsHandedOver(s: Snapshot, t: Snapshot, b: Start, env: Env, json: Json, dir: string, m: Manifest)
    requires s.meddled >= b.since.meddled && Interfered(s, t, dir, env.hash) && Suits(b, env, dir)
             && HandedOver(s, b, env, json, dir, b.stub, m)
    ensures HandedOver(t, b, env, json, dir, b.stub, m)
  {
    MeddlingKeepsCaptured(s, t, b, env, json, dir, m);
  }

  /** Others go on using the shard directory after the original is gone. */
  method LetOthersFinish(w: World, dir: string, env: Env, ghost b: Start, ghost json: Json, ghost m: Manifest)
    requires w.disk.Valid() && w.meddled >= b.since.meddled && Suits(b, env, dir)
             && HandedOver(w.Now(), b, env, json, dir, b.stub, m)
    requires AllSafe(w.trace, b, env, json, dir, b.stub)
    modifies w
    ensures w.disk.Valid() && w.Now() == old(w.Now()).(disk := w.disk, meddled := w.meddled, claimed := w.claimed)
            && w.faults == old(w.faults)
    ensures HandedOver(w.Now(), b, env, json, dir, b.stub, m) && AllSafe(w.trace, b, env, json, dir, b.stub)
  {
    hide Meddled, AnyKSuffice, HandedOver;
    w.OthersAct(dir, env.hash);
    if w.Now() != old(w.Now()) { MeddlingKeepsHandedOver(old(w.Now()), w.Now(), b, env, json, dir, m); }
    forall i | |b.prefix| <= i < |w.trace| ensures Safe(w.trace[i], b, env, json, dir, b.stub) {
      if i < |old(w.trace)| { assert w.trace[i] == old(w.trace)[i]; }
      else { MeddlingKeepsHandedOver(old(w.Now()), w.trace[i], b, env, json, dir, m); }
    }
  }

  /** Everything after the last look at the source: publish the manifest, and only when that is durable remove the
      original. No look covers what the user does meanwhile. */
  method PublishAndRemove(w: World, env: Env, json: Json, dir: string, path: Path, stub: Path, m: Manifest,
                          keepOriginal: bool, ghost b: Start) returns (r: Result<Manifest, Failure>)
    requires Going(w, b) && w.edits == b.edits && path == b.path && stub == b.stub && Suits(b, env, dir)
    requires Genuine(env, m, b.content) && AllStored(env, w.remote, Here(w.Now(), b.since), dir, LayoutOf(m), m.chunks)
    requires Intended(b, m)
    modifies w
    ensures w.disk.Valid() && AllSafe(w.trace, b, env, json, dir, stub)
    ensures r.Ok? ==> r.value == m && Captured(w.Now(), env, json, dir, stub, m, b.content, b.since)
                      && (if keepOriginal then Kept(w.Now(), b) else HandedOver(w.Now(), b, env, json, dir, stub, m))
    ensures r.Err? ==> Kept(w.Now(), b) && Excused(w, b) && r != Err(Panicked)
    ensures w.faults >= b.faults && w.edits >= b.edits && (r.Ok? ==> w.faults == old(w.faults))
  {
    hide Pinned, Captured, AllSafe, Adds, AnyKSuffice, Genuine, Addressed, AllStored, Intended, Ready;
    KeptIsSafe(w.trace, b, env, json, dir, stub);
    StoredIsReady(w.Now(), b, env, json, dir, m);
    LetWorldAct(w, path, dir, env, b, json, m);
    ghost var before, trace := w.Now(), w.trace;
    ReadyIsKept(before, b, env, json, dir, m);
    var written := WriteNew(w, stub, json.encode(m));
    forall i | |trace| <= i < |w.trace| ensures Ready(w.trace[i], b, env, json, dir, m) {
      PublishingKeepsReady(before, w.trace[i], b, env, json, dir, m);
    }
    ReadyIsSafe(trace, w.trace, b, env, json, dir, m);
    PublishingKeepsReady(before, w.Now(), b, env, json, dir, m);
    ReadyIsKept(w.Now(), b, env, json, dir, m);
    if !written.Written? { return Err(StubNotWritten); }
    LetWorldAct(w, path, dir, env, b, json, m);
    ReadyIsKept(w.Now(), b, env, json, dir, m);
    PinnedIsCaptured(w.Now(), b, env, json, dir, m);
    if keepOriginal { return Ok(m); }
    before, trace := w.Now(), w.trace;
    var removed := w.Remove(path);
    if removed.Removed? { RemovalHandsOver(before, w.Now(), b, env, json, dir, m); }
    OneMoreSafe(trace, w.Now(), b, env, json, dir, stub, m);
    if !removed.Removed? { return Err(OriginalNotRemoved); }
    LetOthersFinish(w, dir, env, b, json, m);
    r := Ok(m);
  }

  // ---------------------------------------------------------------- processFile

  /** The second look: the same file, unchanged, and read completely. */
  method CheckUnchanged(w: World, path: Path, info: Stat, total: nat, ghost b: Start) returns (same: bool)
    requires Going(w, b) && path == b.path && info == Entry(b.ino, |b.content|, b.mtime) && !InStore(b.dir, path)
             && b.stub != path
    requires w.edits == b.edits ==> total == |b.content|
    modifies w
    ensures Going(w, b) && w.remote == old(w.remote) && w.edits >= old(w.edits)
    ensures Beside(old(Here(w.Now(), b.since)), Here(w.Now(), b.since), path)
    ensures if same then w.edits == b.edits && total == |b.content| && w.faults == old(w.faults) else Excused(w, b)
  {
    w.UserActs(path);
    AllEditingKeeps(old(w.Now()), old(w.trace), w.trace, b);
    if w.edits != old(w.edits) { EditKeeps(old(w.Now()), w.Now(), b); }
    var current := w.Lstat(path);
    same := current.Entry? && current.ino == info.ino && current.size == info.size && current.mtime == info.mtime
            && total == info.size;
  }

  /** What the run was started with, and the peers it chose. */
  ghost predicate Planned(b: Start, cfg: Config, l: Layout, chunkSize: nat, peers: seq<D.Peer>) {
    && b.cfg == cfg && NewLayout(cfg.dataShards, cfg.parityShards) == Some(l) && l.Sound()
    && chunkSize == ChunkSize(cfg) && Checks(cfg, b.path, |b.content|)
    && var bound := PlacementBound(|b.content|, chunkSize, l);
       && P.CanPlace(cfg.placement, b.discovered, b.probe, l.TotalShards(), bound)
       && Assigned(cfg.placement, b.discovered, b.probe, bound, peers)
  }

  lemma PlanIsIntended(b: Start, cfg: Config, l: Layout, chunkSize: nat, peers: seq<D.Peer>, m: Manifest)
    requires Planned(b, cfg, l, chunkSize, peers) && AllFollow(cfg.placement, peers, m.chunks) && Labelled(cfg, m)
    requires BuiltFor(m, l, b.path.name, chunkSize, b.content)
    ensures Intended(b, m)
  {
    hide Assigned, AllFollow, Chosen, PlacedOn, NamedAfter, PlacementBound, CanBuild, P.CanPlace, Checks, Labelled;
    BuiltLayout(m, l, b.path.name, chunkSize, b.content);
    FollowingIsPlaced(cfg.placement, b.discovered, b.probe, PlacementBound(|b.content|, chunkSize, l), peers, m);
  }

  lemma HexDigits(bytes: Bytes)
    ensures |Hex(bytes)| == 2 * |bytes| && forall i | 0 <= i < |Hex(bytes)| :: HexDigit(Hex(bytes)[i])
  {
    if bytes != [] {
      HexDigits(bytes[1..]);
      OneHexDigit(bytes[0] / 16);
      OneHexDigit(bytes[0]);
    }
  }

  lemma OneHexDigit(n: bv8)
    ensures HexDigit(HexDigitOf(n))
  {
    var k := (n % 16) as int;
    assert k < 16;
    assert forall i | 0 <= i < 16 :: HexDigit("0123456789abcdef"[i]);
  }

  /** After the upload: build the manifest, look again, publish, remove. */
  method Finish(w: World, env: Env, json: Json, cfg: Config, l: Layout, key: Bytes, chunks: seq<Chunk>, total: nat,
                chunkSize: nat, path: Path, stub: Path, info: Stat, limit: nat, ghost b: Start,
                ghost pieces: seq<Bytes>, ghost peers: seq<D.Peer>)
    returns (r: Result<Manifest, Failure>)
    requires Going(w, b) && path == b.path && stub == b.stub && info == Entry(b.ino, |b.content|, b.mtime)
    requires Suits(b, env, cfg.shardDir) && Lawful(env, l) && |key| == KEY_SIZE && chunkSize > 0
    requires Uploading(w, env, cfg.shardDir, l, key, b, chunks, pieces, total, limit, chunkSize, false)
    requires Planned(b, cfg, l, chunkSize, peers) && AllFollow(cfg.placement, peers, chunks)
    modifies w
    ensures w.disk.Valid() && AllSafe(w.trace, b, env, json, cfg.shardDir, stub)
    ensures r.Ok? ==> Captured(w.Now(), env, json, cfg.shardDir, stub, r.value, b.content, b.since)
                      && (if cfg.keepOriginal then Kept(w.Now(), b)
                          else HandedOver(w.Now(), b, env, json, cfg.shardDir, stub, r.value))
                      && Intended(b, r.value)
    ensures w.faults >= b.faults && w.edits >= b.edits
            && (if r.Ok? then w.faults == old(w.faults) else Kept(w.Now(), b) && Excused(w, b) && r != Err(Panicked))
  {
    hide AnyKSuffice, AllKept, AllSafe, Captured, HandedOver, GrowsBeside, AllStored, SealsPieces, CanBuild, Planned,
      Intended, AllFollow, Elsewhere, Attributed, ReadOut, AllFull, Concat, Spent, View, ValidHash, IsRecord, InStore,
      Usage, Addressed, Beside, Here, Pinned, Hex, Lawful, P.CanPlace, RecordOf;
    KeptIsSafe(w.trace, b, env, json, cfg.shardDir, stub);
    var id := w.Random(16);
    if id.None? { return Err(NoRandomness); }
    var fileID := Hex(id.value);
    UploadedCanBuild(env, l, key, chunks, pieces, chunkSize);
    var built := NewChunked(l, fileID, path.name, total, chunkSize, key, chunks);
    var m := built.value.(shareID := cfg.shareID);
    var same := CheckUnchanged(w, path, info, total, b);
    KeptIsSafe(w.trace, b, env, json, cfg.shardDir, stub);
    if !same { return Err(SourceChanged); }
    var go := w.Attempt();
    if !go { return Err(Cancelled); }
    assert b.content[..total] == b.content;
    UploadedIsGenuine(env, l, key, chunks, pieces, chunkSize, b.content, fileID, path.name, cfg.shareID);
    AllStillStored(env, w.remote, w.remote, old(Here(w.Now(), b.since)), Here(w.Now(), b.since), b.path, cfg.shardDir,
                   l, chunks);
    HexDigits(id.value);
    PlanIsIntended(b, cfg, l, chunkSize, peers, m);
    r := PublishAndRemove(w, env, json, cfg.shardDir, path, stub, m, cfg.keepOriginal, b);
  }

  function HexDigitOf(n: bv8): char {
    "0123456789abcdef"[(n % 16) as int]
  }

  function Hex(bytes: Bytes): string {
    if bytes == [] then "" else [HexDigitOf(bytes[0] / 16), HexDigitOf(bytes[0])] + Hex(bytes[1..])
  }

  /** Open the source: it must still be the file that was looked at. */
  method OpenSource(w: World, path: Path, info: Stat, ghost b: Start) returns (same: bool)
    requires Going(w, b) && path == b.path && info == Entry(b.ino, |b.content|, b.mtime) && !InStore(b.dir, path)
             && b.stub != path
    requires Spent(w, b, 0)
    modifies w
    ensures w.disk.Valid() && Going(w, b) && Spent(w, b, 0) && (!same ==> Excused(w, b))
    ensures same ==> path in w.disk.names && w.disk.names[path] == info.ino && w.faults == old(w.faults)
  {
    w.UserActs(path);
    AllEditingKeeps(old(w.Now()), old(w.trace), w.trace, b);
    if w.edits != old(w.edits) { EditKeeps(old(w.Now()), w.Now(), b); }
    var found := w.Lstat(path);
    same := found.Entry? && found.ino == info.ino;
  }

  /** From opening the source to the choice of peers. For an unsound layout, whose number of shards is negative, this
      ends in an error or in a panic, but not before the errors that come first. */
  method OpenAndPlace(w: World, cfg: Config, l: Layout, path: Path, info: Stat, chunkSize: nat,
                      discovered: Option<seq<D.Peer>>, probe: D.Probe, shuffle: seq<D.Peer> -> seq<D.Peer>,
                      ghost b: Start)
    returns (r: Result<(Bytes, seq<D.Peer>), Failure>)
    requires Going(w, b) && path == b.path && info == Entry(b.ino, |b.content|, b.mtime) && !InStore(b.dir, path)
             && b.stub != path
    requires Spent(w, b, 0) && l.Validates() && chunkSize <= MAX_CHUNK && forall es :: P.Permutes(shuffle, es)
    modifies w
    ensures Going(w, b) && w.disk.Valid() && Spent(w, b, 0)
    ensures var bound := MaxShardBytes(info.size, chunkSize, l);
            && (r.Ok? ==> P.CanPlace(cfg.placement, discovered, probe, l.TotalShards(), bound))
            && (r.Err? && P.CanPlace(cfg.placement, discovered, probe, l.TotalShards(), bound) ==> Excused(w, b))
            && (r == Err(Panicked) ==> Panics(cfg, discovered, probe, l, bound))
            && (r.Err? && Panics(cfg, discovered, probe, l, bound) ==> r == Err(Panicked) || Excused(w, b))
    ensures r.Ok? ==> path in w.disk.names && w.disk.names[path] == info.ino && w.faults == old(w.faults)
    ensures r.Ok? ==> |r.value.0| == KEY_SIZE && |r.value.1| == l.TotalShards() && l.Sound()
                      && Assigned(cfg.placement, discovered, probe, MaxShardBytes(info.size, chunkSize, l), r.value.1)
  {
    hide P.CanPlace, P.Enough, P.Usable, P.Permutes, Kept, AllKept, MaxShardBytes, Usage;
    ValidatesExactly(l);
    var same := OpenSource(w, path, info, b);
    if !same { return Err(SourceChanged); }
    var key := w.Random(KEY_SIZE);
    if key.None? { return Err(NoRandomness); }
    var placed := P.ShardPeers(cfg.placement, discovered, probe, shuffle, l.TotalShards(),
                               MaxShardBytes(info.size, chunkSize, l));
    if placed.Panics() { return Err(Panicked); }
    if !placed.Placed? { return Err(NoPeers); }
    r := Ok((key.value, placed.peers));
  }

  /** The choice of peers panics: there are enough of them, but the layout reports a negative number of shards, or
      enough is none at all. */
  predicate Panics(cfg: Config, discovered: Option<seq<D.Peer>>, probe: D.Probe, l: Layout, shardBytes: int) {
    && P.Enough(cfg.placement, discovered, probe, l.TotalShards(), shardBytes)
    && !P.CanPlace(cfg.placement, discovered, probe, l.TotalShards(), shardBytes)
  }

  /** The usable peers in turn, in some order. */
  ghost predicate Assigned(cfg: P.Config, discovered: Option<seq<D.Peer>>, probe: D.Probe, shardBytes: int,
                           peers: seq<D.Peer>)
  {
    && (cfg.peers != [] || discovered.Some?)
    && exists es | multiset(es)
       == multiset(P.Usable(cfg, if cfg.peers != [] then cfg.peers else discovered.value, probe, shardBytes)) ::
         es != [] && peers == P.RoundRobin(es, |peers|)
  }

  /** Upload, then finish. */
  method StoreAndFinish(w: World, env: Env, json: Json, cfg: Config, l: Layout, key: Bytes, peers: seq<D.Peer>,
                        path: Path, stub: Path, info: Stat, limit: nat, chunkSize: nat, store: Store, ghost b: Start)
    returns (r: Result<Manifest, Failure>)
    requires Going(w, b) && path == b.path && stub == b.stub && info == Entry(b.ino, |b.content|, b.mtime)
             && |b.content| <= limit
    requires Suits(b, env, cfg.shardDir) && Lawful(env, l) && chunkSize > 0 && store.dir == cfg.shardDir
             && store.quota == b.quota
    requires Spent(w, b, 0) && Room(b, ShardBytes(l, Pieces(b.content, chunkSize)))
    requires |key| == KEY_SIZE && |peers| == l.TotalShards() && Planned(b, cfg, l, chunkSize, peers)
    modifies w
    ensures w.disk.Valid() && AllSafe(w.trace, b, env, json, cfg.shardDir, stub)
    ensures r.Ok? ==> Captured(w.Now(), env, json, cfg.shardDir, stub, r.value, b.content, b.since)
                      && (if cfg.keepOriginal then Kept(w.Now(), b)
                          else HandedOver(w.Now(), b, env, json, cfg.shardDir, stub, r.value))
                      && Intended(b, r.value)
    ensures w.faults >= b.faults && w.edits >= b.edits
            && (r.Err? ==> Kept(w.Now(), b) && Excused(w, b) && r != Err(Panicked))
  {
    hide AnyKSuffice, AllKept, AllSafe, Captured, HandedOver, Uploading, Spent, Room, ShardBytes, Pieces,
      AllFollow, Addressed, Planned, Intended;
    var uploaded;
    ghost var pieces;
    uploaded, pieces := Upload(w, env, cfg, store, l, key, peers, path, info.ino, limit, chunkSize, b);
    KeptIsSafe(w.trace, b, env, json, cfg.shardDir, stub);
    if uploaded.None? { return Err(UploadFailed); }
    r := Finish(w, env, json, cfg, l, key, uploaded.value.0, uploaded.value.1, chunkSize, path, stub, info, limit, b,
                pieces, peers);
  }

  /** These peers, with pairwise different failure domains, are the usable ones in some order. */
  ghost predicate Chosen(cfg: P.Config, discovered: Option<seq<D.Peer>>, probe: D.Probe, shardBytes: int,
                         es: seq<D.Peer>)
  {
    && (cfg.peers != [] || discovered.Some?) && P.DistinctDomains(cfg, es)
    && multiset(es) == multiset(P.Usable(cfg, if cfg.peers != [] then cfg.peers
                                              else discovered.value, probe, shardBytes))
  }

  /** Shard `j` of every chunk is at the URL of peer `j` modulo their number. */
  predicate PlacedOn(cfg: P.Config, es: seq<D.Peer>, m: Manifest) {
    && es != []
    && forall i, j | 0 <= i < |m.chunks| && 0 <= j < |m.chunks[i].shards| ::
         m.chunks[i].shards[j].url == ShardURL(es[j % |es|], PushPort(cfg, es[j % |es|]), m.chunks[i].shards[j].hash)
  }

  lemma FollowingIsPlaced(cfg: P.Config, discovered: Option<seq<D.Peer>>, probe: D.Probe, shardBytes: int,
                          peers: seq<D.Peer>, m: Manifest)
    requires Assigned(cfg, discovered, probe, shardBytes, peers) && AllFollow(cfg, peers, m.chunks)
    ensures exists es :: Chosen(cfg, discovered, probe, shardBytes, es) && PlacedOn(cfg, es, m) && NamedAfter(es, m)
  {
    hide P.Usable, ShardURL, PushPort;
    var cs := if cfg.peers != [] then cfg.peers else discovered.value;
    var es: seq<D.Peer> :| multiset(es) == multiset(P.Usable(cfg, cs, probe, shardBytes)) && es != []
              && peers == P.RoundRobin(es, |peers|);
    P.UsableExactly(cfg, cs, probe, shardBytes);
    P.ShuffledDistinct(cfg, P.Usable(cfg, cs, probe, shardBytes), es);
    forall i, j | 0 <= i < |m.chunks| && 0 <= j < |m.chunks[i].shards|
      ensures m.chunks[i].shards[j].url
              == ShardURL(es[j % |es|], PushPort(cfg, es[j % |es|]), m.chunks[i].shards[j].hash)
      ensures m.chunks[i].shards[j].peer == es[j % |es|].hostName
    {
      assert Follows(cfg, peers, m.chunks[i]);
      assert peers[j] == es[j % |es|];
    }
    assert Chosen(cfg, discovered, probe, shardBytes, es) && PlacedOn(cfg, es, m) && NamedAfter(es, m);
  }

  /** The bytes of all shards of this content. */
  function SpaceFor(cfg: Config, content: Bytes): nat {
    var l := NewLayout(cfg.dataShards, cfg.parityShards);
    if l.Some? && l.value.Sound() then ShardBytes(l.value, Pieces(content, ChunkSize(cfg))) else 0
  }

  /** What `processFile` checks before it opens the file. */
  predicate Checks(cfg: Config, path: Path, size: nat) {
    && !IsStubName(path.name) && cfg.shardDir != ""
    && NewLayout(cfg.dataShards, cfg.parityShards).Some?
    && size <= FileLimit(cfg) <= MAX_TOTAL && ChunkSize(cfg) <= MAX_CHUNK
  }

  /** All that has to hold before anything is stored. Enough peers can be found only for a sound layout. */
  predicate Guards(cfg: Config, path: Path, size: nat, discovered: Option<seq<D.Peer>>, probe: D.Probe) {
    Checks(cfg, path, size)
    && var l := NewLayout(cfg.dataShards, cfg.parityShards).value;
       P.CanPlace(cfg.placement, discovered, probe, l.TotalShards(), MaxShardBytes(size, ChunkSize(cfg), l))
  }

  /** The guards in plain numbers: the file is no manifest and within both limits, 64 MiB being the default of the
      first; the chunk size, by default 16 MiB, is at most 1 GiB; the layout, by default 2+1, is a real one; and there
      are usable peers, as many as the minimum asks for or, without one, one, or under discovery one for each shard. */
  lemma GuardsExactly(cfg: Config, path: Path, size: nat, candidates: seq<D.Peer>, probe: D.Probe)
    ensures var k := if cfg.dataShards == 0 && cfg.parityShards == 0 then 2 else cfg.dataShards;
            var m := if cfg.dataShards == 0 && cfg.parityShards == 0 then 1 else cfg.parityShards;
            var chunk := if cfg.chunkSize <= 0 then 0x100_0000 else cfg.chunkSize;
            var limit := if cfg.maxFileBytes <= 0 then 0x400_0000 else cfg.maxFileBytes;
            Guards(cfg, path, size, Some(candidates), probe) <==>
              && (forall stem: string :: path.name != stem + ".dstore") && cfg.shardDir != ""
              && 1 <= k && 1 <= m && k + m <= 64
              && size <= limit <= 0x100_0000_0000 && chunk <= 0x4000_0000
              && var places := if cfg.placement.peers != [] then cfg.placement.peers else candidates;
                 var usable := P.Usable(cfg.placement, places, probe, CeilDiv(Min(chunk, size) + 16, k));
                 && usable != []
                 && |usable| >= (if cfg.placement.minPeers != 0 then cfg.placement.minPeers
                                 else if cfg.placement.peers == [] then k + m else 1)
  {
    StubNames(path.name);
    var k: Word := if cfg.dataShards == 0 && cfg.parityShards == 0 then 2 else cfg.dataShards;
    var m: Word := if cfg.dataShards == 0 && cfg.parityShards == 0 then 1 else cfg.parityShards;
    var l := Layout(k, m);
    ValidatesExactly(l);
    hide P.Usable, P.CanPlace, P.Enough, MaxShardBytes, IsStubName;
    if Checks(cfg, path, size) {
      assert NewLayout(cfg.dataShards, cfg.parityShards) == Some(l);
      var bound := MaxShardBytes(size, ChunkSize(cfg), l);
      P.EnoughExactly(cfg.placement, candidates, probe, l.TotalShards(), bound);
      if l.Sound() { MaxShardBytesIs(size, ChunkSize(cfg), l); }
    }
  }

  /** The choice of peers is reached and panics. */
  predicate Derails(cfg: Config, path: Path, size: nat, discovered: Option<seq<D.Peer>>, probe: D.Probe) {
    Checks(cfg, path, size)
    && var l := NewLayout(cfg.dataShards, cfg.parityShards).value;
       Panics(cfg, discovered, probe, l, MaxShardBytes(size, ChunkSize(cfg), l))
  }

  /** When that is, in plain numbers: past the same first guards, with a real layout if nothing can be used and the
      configured minimum is negative; or with two shard counts whose sum wraps around to a negative one, unless too few
      peers end it first. */
  lemma DerailsExactly(cfg: Config, path: Path, size: nat, candidates: seq<D.Peer>, probe: D.Probe)
    ensures var k := if cfg.dataShards == 0 && cfg.parityShards == 0 then 2 else cfg.dataShards;
            var m := if cfg.dataShards == 0 && cfg.parityShards == 0 then 1 else cfg.parityShards;
            var chunk := if cfg.chunkSize <= 0 then 0x100_0000 else cfg.chunkSize;
            var limit := if cfg.maxFileBytes <= 0 then 0x400_0000 else cfg.maxFileBytes;
            Derails(cfg, path, size, Some(candidates), probe) <==>
              && (forall stem: string :: path.name != stem + ".dstore") && cfg.shardDir != "" && 1 <= k && 1 <= m
              && size <= limit <= 0x100_0000_0000 && chunk <= 0x4000_0000
              && var places := if cfg.placement.peers != [] then cfg.placement.peers else candidates;
                 var usable := P.Usable(cfg.placement, places, probe, MaxShardBytes(size, chunk, Layout(k, m)));
                 if k + m <= 64 then usable == [] && cfg.placement.minPeers < 0
                 else k + m >= 0x8000_0000_0000_0000
                      && (if cfg.placement.minPeers != 0 then |usable| >= cfg.placement.minPeers
                          else cfg.placement.peers == [] || usable != [])
  {
    StubNames(path.name);
    var k: Word := if cfg.dataShards == 0 && cfg.parityShards == 0 then 2 else cfg.dataShards;
    var m: Word := if cfg.dataShards == 0 && cfg.parityShards == 0 then 1 else cfg.parityShards;
    var l := Layout(k, m);
    ValidatesExactly(l);
    hide P.Usable, P.CanPlace, P.Enough, MaxShardBytes, IsStubName;
    if Checks(cfg, path, size) {
      P.EnoughExactly(cfg.placement, candidates, probe, l.TotalShards(), MaxShardBytes(size, ChunkSize(cfg), l));
    }
  }

  /** Everything up to the two sizes, on names and configuration alone. */
  method LookFirst(w: World, cfg: Config, path: Path, stub: Path) returns (r: Result<(Layout, Stat), Failure>)
    requires w.disk.Valid()
    modifies w`faults
    ensures w.faults >= old(w.faults) && r != Err(Panicked)
    ensures r.Ok? ==> path in w.disk.names && stub !in w.disk.names && Checks(cfg, path, |View(w.disk)[path]|)
    ensures r.Ok? ==> NewLayout(cfg.dataShards, cfg.parityShards) == Some(r.value.0)
                      && r.value.1 == Entry(w.disk.names[path], |View(w.disk)[path]|,
                                            w.disk.inodes[w.disk.names[path]].mtime)
                      && r.value.0.Validates() && !IsStubName(path.name)
                         && |View(w.disk)[path]| <= FileLimit(cfg) <= MAX_TOTAL
                         && ChunkSize(cfg) <= MAX_CHUNK && w.faults == old(w.faults)
    ensures r.Err? && w.faults == old(w.faults) ==>
              path !in w.disk.names || stub in w.disk.names || !Checks(cfg, path, |View(w.disk)[path]|)
  {
    var go := w.Attempt();
    if !go { return Err(Cancelled); }
    if IsStubName(path.name) { return Err(StubGiven); }
    if cfg.shardDir == "" { return Err(NoShardDir); }
    var layout := NewLayout(cfg.dataShards, cfg.parityShards);
    if layout.None? { return Err(BadLayout); }
    var existing := w.Lstat(stub);
    if !existing.NoEntry? { return Err(StubExists); }
    var info := w.Lstat(path);
    if !info.Entry? { return Err(NoSource); }
    if FileLimit(cfg) > MAX_TOTAL || info.size > FileLimit(cfg) { return Err(FileTooLarge); }
    if ChunkSize(cfg) > MAX_CHUNK { return Err(ChunkTooLarge); }
    r := Ok((layout.value, info));
  }

  /** Everything from the open on. */
  method ProcessLooked(w: World, env: Env, json: Json, cfg: Config, l: Layout, path: Path, stub: Path, info: Stat,
                       discovered: Option<seq<D.Peer>>, probe: D.Probe, shuffle: seq<D.Peer> -> seq<D.Peer>,
                       ghost b: Start)
    returns (r: Result<Manifest, Failure>)
    requires Going(w, b) && path == b.path && stub == b.stub && info == Entry(b.ino, |b.content|, b.mtime)
    requires IsStubName(stub.name) && b.hash == env.hash && b.dir == cfg.shardDir && b.quota == cfg.quota
             && !InStore(b.dir, path) && stub != path
    requires NewLayout(cfg.dataShards, cfg.parityShards) == Some(l) && (l.Sound() ==> Lawful(env, l))
    requires b.cfg == cfg && b.discovered == discovered && b.probe == probe
    requires Checks(cfg, path, |b.content|) && Spent(w, b, 0)
             && Room(b, SpaceFor(cfg, b.content))
    requires forall es :: P.Permutes(shuffle, es)
    modifies w
    ensures w.disk.Valid() && AllSafe(w.trace, b, env, json, cfg.shardDir, stub) && w.faults >= b.faults
            && w.edits >= b.edits
    ensures r.Ok? ==> Captured(w.Now(), env, json, cfg.shardDir, stub, r.value, b.content, b.since)
                      && (if cfg.keepOriginal then Kept(w.Now(), b)
                          else HandedOver(w.Now(), b, env, json, cfg.shardDir, stub, r.value))
                      && Intended(b, r.value)
    ensures r.Err? ==> Kept(w.Now(), b)
    ensures var bound := MaxShardBytes(info.size, ChunkSize(cfg), l);
            && (r.Err? || P.CanPlace(cfg.placement, discovered, probe, l.TotalShards(), bound))
            && (r == Err(Panicked) ==> Panics(cfg, discovered, probe, l, bound))
            && (r.Err? && P.CanPlace(cfg.placement, discovered, probe, l.TotalShards(), bound) ==> Excused(w, b))
            && (Panics(cfg, discovered, probe, l, bound) ==> r == Err(Panicked) || Excused(w, b))
  {
    hide P.CanPlace, Captured, HandedOver, Lawful, P.Permutes, Addressed, Going, Spent, Room, SpaceFor, Usage,
      PlacementBound, MaxShardBytes, Kept, AllSafe, P.Enough, Assigned, Intended;
    StubIsNotInStore(cfg.shardDir, stub);
    var placed := OpenAndPlace(w, cfg, l, path, info, ChunkSize(cfg), discovered, probe, shuffle, b);
    GoingIsSafe(w, b, env, json, cfg.shardDir, stub);
    if placed.Err? { return Err(placed.error); }
    LawfulIsSound(env, l);
    SpaceIs(cfg, b.content, l);
    var store := new Store(cfg.shardDir, cfg.quota);
    var (key, peers) := placed.value;
    MaxShardBytesIs(info.size, ChunkSize(cfg), l);
    assert Planned(b, cfg, l, ChunkSize(cfg), peers);
    r := StoreAndFinish(w, env, json, cfg, l, key, peers, path, stub, info, FileLimit(cfg), ChunkSize(cfg), store, b);
  }

  /** The laws that a run of this configuration relies on. */
  ghost predicate LawfulFor(env: Env, cfg: Config) {
    var l := NewLayout(cfg.dataShards, cfg.parityShards);
    l.Some? && l.value.Sound() ==> Lawful(env, l.value)
  }

  /** `processFile` and everything it calls. Whatever the peers answer, whatever fails, wherever it is cut off, whatever
      the user does to the file and others to the shard directory: in every recorded state the newest version is at its
      path, or the original was removed after the manifest to be written had captured it, and then only a change after
      the last look, or a file whose manifest is not read back, can be lost (`Guarantees.NothingElseIsLost`). And if
      nothing fails, the user leaves the file alone and the shard directory has nothing corrupt in it and room for the
      shards, it succeeds exactly when its guards hold, the file is there and the manifest is not, and panics exactly
      when the choice of peers, reached, does. */
  method ProcessFile(w: World, env: Env, json: Json, cfg: Config, path: Path, stub: Path,
                     discovered: Option<seq<D.Peer>>, probe: D.Probe, shuffle: seq<D.Peer> -> seq<D.Peer>)
    returns (r: Result<Manifest, Failure>, ghost b: Start)
    requires w.disk.Valid() && w.latest == (if path in w.disk.names then Some(View(w.disk)[path]) else None)
    requires IsStubName(stub.name) && !InStore(cfg.shardDir, path)
    requires LawfulFor(env, cfg) && forall es :: P.Permutes(shuffle, es)
    modifies w
    ensures w.disk.Valid() && b.prefix == old(w.trace) && AllSafe(w.trace, b, env, json, cfg.shardDir, stub)
    ensures path in old(w.disk.names) ==>
              b.path == path && b.content == old(View(w.disk))[path]
              && (b.pinned <==> Pinned(old(w.disk), path, b.content))
    ensures r.Ok? ==> path in old(w.disk.names)
                      && Captured(w.Now(), env, json, cfg.shardDir, stub, r.value, b.content, b.since)
                      && Intended(b, r.value)
                      && (if cfg.keepOriginal then Kept(w.Now(), b)
                          else HandedOver(w.Now(), b, env, json, cfg.shardDir, stub, r.value))
    ensures b.edits == old(w.edits) && b.since == Since(old(w.meddled), old(w.disk.names).Keys) && b.stub == stub
            && b.dir == cfg.shardDir && b.hash == env.hash
            && b.cfg == cfg && b.discovered == discovered && b.probe == probe && b.others == old(View(w.disk))
    ensures r.Err? && path in old(w.disk.names) ==> Kept(w.Now(), b)
    ensures path !in old(w.disk.names) || stub in old(w.disk.names) ==>
              r.Err? && w.Now() == old(w.Now()) && w.trace == old(w.trace)
    ensures forall p | p != path && p != stub && !InStore(cfg.shardDir, p) ::
              (p in w.disk.names <==> p in old(w.disk.names))
              && (p in w.disk.names ==> View(w.disk)[p] == old(View(w.disk))[p])
    ensures w.faults == old(w.faults) && w.edits == old(w.edits) && (cfg.quota > 0 ==> w.meddled == old(w.meddled))
            && Addressed(env.hash, cfg.shardDir, old(View(w.disk)))
            && (cfg.quota > 0 && path in old(w.disk.names) ==>
                  Usage(old(View(w.disk)), cfg.shardDir) + SpaceFor(cfg, old(View(w.disk))[path]) <= cfg.quota) ==>
              && (r.Ok? <==> path in old(w.disk.names) && stub !in old(w.disk.names)
                             && Guards(cfg, path, |old(View(w.disk))[path]|, discovered, probe))
              && (r == Err(Panicked) <==> path in old(w.disk.names) && stub !in old(w.disk.names)
                                          && Derails(cfg, path, |old(View(w.disk))[path]|, discovered, probe))
    ensures r.Ok? ==> && (forall stem: string :: path.name != stem + ".dstore")
                      && |old(View(w.disk))[path]| <= 0x100_0000_0000
                      && |old(View(w.disk))[path]| <= if cfg.maxFileBytes <= 0 then 0x400_0000 else cfg.maxFileBytes
    ensures r == Err(Panicked) ==> path in old(w.disk.names)
                                   && Derails(cfg, path, |old(View(w.disk))[path]|, discovered, probe)
  {
    hide P.CanPlace, Captured, HandedOver, Lawful, P.Permutes, Addressed, Going, Spent, Room, SpaceFor, Usage,
      PlacementBound, MaxShardBytes, Kept, AllSafe, P.Enough, Assigned, Checks, Intended;
    b := StartOf(w, path, stub, env, cfg, discovered, probe);
    StartIsSafe(w, path, stub, env, cfg, discovered, probe, json, b);
    var looked := LookFirst(w, cfg, path, stub);
    if looked.Err? { return Err(looked.error), b; }
    StubNames(path.name);
    var (layout, info) := looked.value;
    StartIsKept(w, path, stub, env, cfg, discovered, probe, b);
    r := ProcessLooked(w, env, json, cfg, layout, path, stub, info, discovered, probe, shuffle, b);
    NothingElseTouched(w.Now(), b, env, json, cfg.shardDir, if r.Ok? then Some(r.value) else None);
  }

  lemma NothingElseTouched(s: Snapshot, b: Start, env: Env, json: Json, dir: string, m: Option<Manifest>)
    requires Kept(s, b) || (m.Some? && HandedOver(s, b, env, json, dir, b.stub, m.value))
    ensures s.disk.Valid() && Elsewhere(s, b)
  {
  }

  lemma GoingIsSafe(w: World, b: Start, env: Env, json: Json, dir: string, stub: Path)
    requires Going(w, b) && stub == b.stub
    ensures Kept(w.Now(), b) && w.faults >= b.faults && w.edits >= b.edits && AllSafe(w.trace, b, env, json, dir, stub)
  {
    KeptIsSafe(w.trace, b, env, json, dir, stub);
  }

  lemma BuiltLayout(m: Manifest, l: Layout, name: string, chunkSize: int, file: Bytes)
    requires BuiltFor(m, l, name, chunkSize, file)
    ensures LayoutOf(m) == l
  {
  }

  lemma SpaceIs(cfg: Config, content: Bytes, l: Layout)
    requires NewLayout(cfg.dataShards, cfg.parityShards) == Some(l) && l.Sound()
    ensures SpaceFor(cfg, content) == ShardBytes(l, Pieces(content, ChunkSize(cfg)))
  {
  }

  lemma LawfulIsSound(env: Env, l: Layout)
    requires Lawful(env, l)
    ensures l.Sound() && HashesNameShards(env)
  {
  }

  ghost function StartOf(w: World, path: Path, stub: Path, env: Env, cfg: Config, discovered: Option<seq<D.Peer>>,
                         probe: D.Probe): (b: Start)
    requires w.disk.Valid()
    reads w
    ensures path in w.disk.names ==> b.content == View(w.disk)[path]
  {
    var ino := if path in w.disk.names then w.disk.names[path] else 0;
    var i := if path in w.disk.names then w.disk.inodes[ino] else Inode([], 0, false);
    var used := Usage(View(w.disk), cfg.shardDir);
    var roomy := (cfg.quota <= 0 || used + SpaceFor(cfg, i.data) <= cfg.quota)
                 && Addressed(env.hash, cfg.shardDir, View(w.disk));
    Start(path, ino, i.data, i.mtime, w.edits, Pinned(w.disk, path, i.data), w.trace, w.faults,
          Since(w.meddled, w.disk.names.Keys), stub, cfg.shardDir, env.hash, cfg.quota, used, roomy, View(w.disk),
          cfg, discovered, probe)
  }

  lemma StartIsSafe(w: World, path: Path, stub: Path, env: Env, cfg: Config, discovered: Option<seq<D.Peer>>,
                    probe: D.Probe, json: Json, b: Start)
    requires w.disk.Valid() && w.latest == (if path in w.disk.names then Some(View(w.disk)[path]) else None)
    requires b == StartOf(w, path, stub, env, cfg, discovered, probe)
    ensures AllSafe(w.trace, b, env, json, cfg.shardDir, stub) && (path in w.disk.names ==> Kept(w.Now(), b))
  {
  }

  lemma StartIsKept(w: World, path: Path, stub: Path, env: Env, cfg: Config, discovered: Option<seq<D.Peer>>,
                    probe: D.Probe, b: Start)
    requires w.disk.Valid() && path in w.disk.names && w.latest == Some(View(w.disk)[path])
    requires b == StartOf(w, path, stub, env, cfg, discovered, probe).(faults := b.faults) && b.faults <= w.faults
             && stub !in w.disk.names
    ensures Going(w, b) && Spent(w, b, 0) && Room(b, SpaceFor(cfg, b.content))
  {
  }
}
