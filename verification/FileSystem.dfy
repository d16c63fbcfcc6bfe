/** The part of a file system the store relies on. Names map to inodes; an inode's data and a directory's
    names reach stable storage only when synced, so a power failure can lose what was not.
    Temporary names are never looked up by any caller: a temporary file is an inode without a name. */
module FileSystem {
  import opened Prelude

  datatype Path = Path(dir: string, name: string)

  type Files = map<Path, Bytes>

  /** A last component that means a directory, which exists: nothing can be linked there. */
  predicate MeansDirectory(p: Path) {
    p.name in {"", ".", ".."}
  }

  datatype Inode = Inode(data: Bytes, mtime: nat, flushed: bool)

  /** What a look at a file shows of it. */
  datatype Stamp = Stamp(ino: nat, size: nat, mtime: nat)

  /** `seen` has every stamp a file ever had. */
  datatype Disk = Disk(inodes: map<nat, Inode>, names: map<Path, nat>, stable: map<Path, nat>, seen: set<Stamp>) {
    ghost predicate Valid() {
      && (forall p | p in names :: names[p] in inodes)
      && (forall p | p in stable :: stable[p] in inodes)
      && (forall i | i in inodes :: StampOf(i) in seen)
    }

    function StampOf(i: nat): Stamp
      requires i in inodes
    {
      Stamp(i, |inodes[i].data|, inodes[i].mtime)
    }
  }

  /** What every process sees. */
  ghost function View(d: Disk): Files
    requires d.Valid()
  {
    map p | p in d.names :: d.inodes[d.names[p]].data
  }

  lemma ViewAt(d: Disk, p: Path)
    requires d.Valid()
    ensures p in View(d) <==> p in d.names
    ensures p in d.names ==> View(d)[p] == d.inodes[d.names[p]].data
  {
  }

  function WithInode(d: Disk, ino: nat, inode: Inode): Disk {
    d.(inodes := d.inodes[ino := inode], seen := d.seen + {Stamp(ino, |inode.data|, inode.mtime)})
  }

  function WithData(d: Disk, ino: nat, data: Bytes, mtime: nat): Disk {
    WithInode(d, ino, Inode(data, mtime, false))
  }

  function Flushed(d: Disk, ino: nat): Disk
    requires ino in d.inodes
  {
    d.(inodes := d.inodes[ino := d.inodes[ino].(flushed := true)])
  }

  function DirSynced(d: Disk, dir: string): Disk {
    d.(stable := (map p | p in d.stable && p.dir != dir :: d.stable[p])
               + (map p | p in d.names && p.dir == dir :: d.names[p]))
  }

  /** A power failure: each name is as last seen or as last synced, and unflushed data may be anything. */
  ghost predicate AfterCrash(d: Disk, after: Disk)
    requires d.Valid()
  {
    && after.Valid()
    && (forall p | p in after.names ::
          (p in d.names && after.names[p] == d.names[p]) || (p in d.stable && after.names[p] == d.stable[p]))
    && (forall p | p in d.names && p in d.stable :: p in after.names)
    && (forall i | i in d.inodes && d.inodes[i].flushed ::
          i in after.inodes && after.inodes[i].data == d.inodes[i].data)
  }

  /** The path holds exactly this data, and will still do so after a power failure. */
  ghost predicate Pinned(d: Disk, p: Path, data: Bytes) {
    && p in d.names && p in d.stable && d.names[p] == d.stable[p]
    && d.names[p] in d.inodes && d.inodes[d.names[p]].flushed && d.inodes[d.names[p]].data == data
  }

  lemma PinnedSurvives(d: Disk, after: Disk, p: Path, data: Bytes)
    requires d.Valid() && AfterCrash(d, after) && Pinned(d, p, data)
    ensures p in View(after) && View(after)[p] == data
  {
  }

  /** `after` differs from `before` at most by nameless inodes, by directory syncs, and by one path that was
      free and now holds the complete, flushed data. */
  ghost predicate Adds(before: Disk, after: Disk, path: Path, data: Bytes) {
    && after.Valid() && before.seen <= after.seen
    && (forall i | i in before.inodes :: i in after.inodes && after.inodes[i] == before.inodes[i])
    && (forall p | p in before.names :: p in after.names && after.names[p] == before.names[p])
    && (forall p | p in after.names && p !in before.names ::
          p == path && after.inodes[after.names[p]].data == data && after.inodes[after.names[p]].flushed)
    && (forall p | p in before.names && p in before.stable && before.stable[p] == before.names[p] ::
          p in after.stable && after.stable[p] == before.stable[p])
  }

  lemma AddsView(before: Disk, after: Disk, path: Path, data: Bytes)
    requires before.Valid() && Adds(before, after, path, data)
    ensures path in before.names || path !in after.names ==> View(after) == View(before)
    ensures path !in before.names && path in after.names ==> View(after) == View(before)[path := data]
  {
  }

  lemma RemoveView(d: Disk, p: Path)
    requires d.Valid()
    ensures d.(names := d.names - {p}).Valid() && View(d.(names := d.names - {p})) == View(d) - {p}
  {
  }

  lemma AddsPinned(before: Disk, after: Disk, path: Path, data: Bytes, p: Path, bytes: Bytes)
    requires before.Valid() && Adds(before, after, path, data) && Pinned(before, p, bytes)
    ensures Pinned(after, p, bytes)
  {
  }

  // ---------------------------------------------------------------- the machine

  datatype ReadResult = Content(data: Bytes) | NoFile | ReadFailed
  datatype LinkResult = Linked | LinkExists | LinkFailed
  datatype RemoveResult = Removed | NothingThere | RemoveFailed

  /** One instant of the world outside a running process. */
  datatype Snapshot = Snapshot(
    disk: Disk, remote: map<string, Bytes>, latest: Option<Bytes>, edits: nat, meddled: nat, claimed: set<Path>)

  datatype Stat = Entry(ino: nat, size: nat, mtime: nat) | NoEntry | StatFailed

  /** The user rewrote, replaced or deleted the file at `path`: nothing else is affected, and whatever is there now has
      an identity, size and modification time that no file ever had together. */
  ghost predicate Edited(before: Disk, after: Disk, path: Path, latest: Option<Bytes>) {
    && after.Valid() && before.seen <= after.seen && after.stable == before.stable
    && after.names - {path} == before.names - {path}
    && (forall i | i in before.inodes && !(path in before.names && before.names[path] == i) ::
          i in after.inodes && after.inodes[i] == before.inodes[i])
    && (forall p | p in before.names && p in after.names && p != path && before.names[p] in before.inodes ::
          after.inodes[after.names[p]] == before.inodes[before.names[p]])
    && (forall i | i in before.inodes :: i in after.inodes)
    && match latest
       case None => path !in after.names
       case Some(data) =>
         path in after.names && after.inodes[after.names[path]].data == data
         && after.StampOf(after.names[path]) !in before.seen
  }

  /** Nothing but the file at `path` changed, and that was the user's doing. */
  ghost predicate UserEdited(s: Snapshot, t: Snapshot, path: Path) {
    && t == s.(disk := t.disk, latest := t.latest, edits := t.edits) && t.edits > s.edits
    && Edited(s.disk, t.disk, path, t.latest)
  }

  /** Several changes of one file are one. */
  lemma EditedTwice(a: Disk, b: Disk, c: Disk, path: Path, early: Option<Bytes>, late: Option<Bytes>)
    requires a.Valid() && Edited(a, b, path, early) && Edited(b, c, path, late)
    ensures Edited(a, c, path, late)
  {
    forall p | p in a.names && p in c.names && p != path && a.names[p] in a.inodes
      ensures c.inodes[c.names[p]] == a.inodes[a.names[p]]
    {
      assert p in c.names - {path};
      assert p in b.names - {path};
      assert p in a.names - {path};
    }
  }

  /** A shard's digest with ".writer" appended: an owner record. */
  predicate IsRecord(dir: string, p: Path) {
    p.dir == dir && |p.name| == 71 && ValidHash(p.name[..64]) && p.name[64..] == ".writer"
  }

  /** Where the owner of this shard would be recorded. */
  function RecordOf(p: Path): Path {
    Path(p.dir, p.name + ".writer")
  }

  lemma RecordOfShard(dir: string, p: Path)
    ensures p.dir == dir && ValidHash(p.name) ==> IsRecord(dir, RecordOf(p))
    ensures IsRecord(dir, RecordOf(p)) ==> p.dir == dir && ValidHash(p.name)
    ensures forall q :: RecordOf(p) == RecordOf(q) ==> p == q
  {
    var name := p.name + ".writer";
    assert |name| == |p.name| + 7 && name[..|p.name|] == p.name && name[|p.name|..] == ".writer";
    forall q | RecordOf(p) == RecordOf(q) ensures p == q {
      assert |q.name| == |p.name| && name[..|q.name|] == q.name;
    }
  }

  /** A name the shard store uses: a shard's or an owner record's. */
  predicate InStore(dir: string, p: Path) {
    (p.dir == dir && ValidHash(p.name)) || IsRecord(dir, p)
  }

  /** Other processes put shards into the directory `dir`, recorded owners, deleted or synced: names the store does not
      use are left alone, and a new shard hashes to its name. */
  ghost predicate Meddled(before: Disk, after: Disk, dir: string, digest: Bytes -> string) {
    && after.Valid() && before.seen <= after.seen
    && (forall i | i in before.inodes :: i in after.inodes && after.inodes[i] == before.inodes[i])
    && (forall p | !InStore(dir, p) ::
          (p in after.names <==> p in before.names) && (p in before.names ==> after.names[p] == before.names[p]))
    && (forall p | p in before.names && p in before.stable && before.stable[p] == before.names[p] && !InStore(dir, p) ::
          p in after.stable && after.stable[p] == before.stable[p])
    && (forall p | p in after.names && p.dir == dir && ValidHash(p.name) ::
          (p in before.names && after.names[p] == before.names[p])
          || digest(after.inodes[after.names[p]].data) == p.name)
  }

  /** Every other file stays, and the edited one is what the user made of it. */
  lemma EditView(before: Disk, after: Disk, path: Path, latest: Option<Bytes>)
    requires before.Valid() && Edited(before, after, path, latest)
    ensures after.Valid() && View(after) - {path} == View(before) - {path}
    ensures if latest.Some? then path in View(after) && View(after)[path] == latest.value else path !in View(after)
  {
    forall p | p != path ensures p in after.names <==> p in before.names
      ensures p in after.names ==> after.names[p] == before.names[p]
    {
      assert p in after.names <==> p in after.names - {path};
      assert p in before.names <==> p in before.names - {path};
      assert p in after.names ==> (after.names - {path})[p] == (before.names - {path})[p];
    }
  }

  lemma EditPinned(before: Disk, after: Disk, path: Path, latest: Option<Bytes>, p: Path, bytes: Bytes)
    requires before.Valid() && Edited(before, after, path, latest) && Pinned(before, p, bytes) && p != path
    ensures Pinned(after, p, bytes)
  {
    assert p in before.names - {path};
    assert p in after.names - {path} && (after.names - {path})[p] == (before.names - {path})[p];
  }

  lemma MeddledPinned(before: Disk, after: Disk, dir: string, digest: Bytes -> string, p: Path, bytes: Bytes)
    requires before.Valid() && Meddled(before, after, dir, digest) && Pinned(before, p, bytes) && !InStore(dir, p)
    ensures Pinned(after, p, bytes)
  {
  }

  /** A shard that is there and has no owner on record, nor anybody who put it and is about to record one. */
  ghost predicate Unclaimed(s: Snapshot, p: Path) {
    p in s.disk.names && RecordOf(p) !in s.disk.names && RecordOf(p) !in s.claimed
  }

  /** Only whoever puts a new shard records an owner for it, and only shards with an owner are removed: an unclaimed
      shard stays, and stays unclaimed. */
  ghost predicate Spared(s: Snapshot, t: Snapshot, dir: string) {
    && s.claimed <= t.claimed && (forall p | p in t.claimed && p !in s.claimed :: IsRecord(dir, p))
    && (forall p | p in t.disk.names && p !in s.disk.names && IsRecord(dir, p) :: p in t.claimed)
    && (forall p: Path | p.dir == dir && ValidHash(p.name) && Unclaimed(s, p) ::
          Unclaimed(t, p) && t.disk.names[p] == s.disk.names[p])
  }

  /** Nothing but the shard directory changed, and that was somebody else's doing. */
  ghost predicate Interfered(s: Snapshot, t: Snapshot, dir: string, digest: Bytes -> string) {
    && t == s.(disk := t.disk, meddled := t.meddled, claimed := t.claimed) && t.meddled > s.meddled
    && Meddled(s.disk, t.disk, dir, digest) && Spared(s, t, dir)
  }

  lemma SparedTwice(s: Snapshot, t: Snapshot, u: Snapshot, dir: string)
    requires Spared(s, t, dir) && Spared(t, u, dir)
    ensures Spared(s, u, dir)
  {
  }

  lemma InterferedTwice(s: Snapshot, t: Snapshot, u: Snapshot, dir: string, digest: Bytes -> string)
    requires s == t || Interfered(s, t, dir, digest)
    requires Interfered(t, u, dir, digest)
    ensures Interfered(s, u, dir, digest)
  {
    hide Meddled, Spared;
    if s != t {
      MeddledTwice(s.disk, t.disk, u.disk, dir, digest);
      SparedTwice(s, t, u, dir);
    }
  }

  /** The things a process can do to the store, one at a time. */
  function LinkedNew(d: Disk, p: Path, ino: nat, data: Bytes): Disk {
    WithInode(d, ino, Inode(data, 0, true)).(names := d.names[p := ino])
  }

  lemma PuttingMeddles(d: Disk, dir: string, digest: Bytes -> string, ino: nat, data: Bytes)
    requires d.Valid() && ino !in d.inodes && ValidHash(digest(data))
    ensures LinkedNew(d, Path(dir, digest(data)), ino, data).Valid()
    ensures Meddled(d, LinkedNew(d, Path(dir, digest(data)), ino, data), dir, digest)
  {
  }

  lemma OwningMeddles(d: Disk, dir: string, digest: Bytes -> string, hash: string, ino: nat, owner: Bytes)
    requires d.Valid() && ino !in d.inodes && ValidHash(hash)
    ensures LinkedNew(d, RecordOf(Path(dir, hash)), ino, owner).Valid()
    ensures Meddled(d, LinkedNew(d, RecordOf(Path(dir, hash)), ino, owner), dir, digest)
  {
    RecordOfShard(dir, Path(dir, hash));
    assert !ValidHash(RecordOf(Path(dir, hash)).name);
  }

  lemma DeletingMeddles(d: Disk, dir: string, digest: Bytes -> string, p: Path)
    requires d.Valid() && InStore(dir, p)
    ensures d.(names := d.names - {p}).Valid() && Meddled(d, d.(names := d.names - {p}), dir, digest)
  {
  }

  lemma SyncingMeddles(d: Disk, dir: string, digest: Bytes -> string)
    requires d.Valid()
    ensures DirSynced(d, dir).Valid() && Meddled(d, DirSynced(d, dir), dir, digest)
  {
  }

  lemma MeddledTwice(a: Disk, b: Disk, c: Disk, dir: string, digest: Bytes -> string)
    requires Meddled(a, b, dir, digest) && Meddled(b, c, dir, digest)
    ensures Meddled(a, c, dir, digest)
  {
  }

  lemma PuttingSpares(s: Snapshot, t: Snapshot, dir: string, p: Path, ino: nat, data: Bytes)
    requires p.dir == dir && ValidHash(p.name) && p !in s.disk.names && t.disk == LinkedNew(s.disk, p, ino, data)
    requires t.claimed in {s.claimed, s.claimed + {RecordOf(p)}}
    ensures Spared(s, t, dir)
  {
    RecordOfShard(dir, p);
    forall q: Path | q.dir == dir && ValidHash(q.name) && Unclaimed(s, q)
      ensures Unclaimed(t, q) && t.disk.names[q] == s.disk.names[q]
    {
      assert |RecordOf(q).name| == 71;
    }
  }

  lemma OwningSpares(s: Snapshot, t: Snapshot, dir: string, p: Path, ino: nat, owner: Bytes)
    requires p.dir == dir && ValidHash(p.name) && RecordOf(p) in s.claimed
    requires t.disk == LinkedNew(s.disk, RecordOf(p), ino, owner) && t.claimed == s.claimed
    ensures Spared(s, t, dir)
  {
    assert !ValidHash(RecordOf(p).name);
  }

  lemma DeletingSpares(s: Snapshot, t: Snapshot, dir: string, p: Path)
    requires IsRecord(dir, p) || RecordOf(p) in s.disk.names || RecordOf(p) in s.claimed
    requires t.disk == s.disk.(names := s.disk.names - {p}) && t.claimed == s.claimed
    ensures Spared(s, t, dir)
  {
  }

  lemma SyncingSpares(s: Snapshot, t: Snapshot, dir: string)
    requires t.disk == DirSynced(s.disk, dir) && t.claimed == s.claimed
    ensures Spared(s, t, dir)
  {
  }

  /** The three ways to change a file: delete it, write into its inode, or put a new inode in its place. */
  function Unlinked(d: Disk, path: Path): Disk {
    d.(names := d.names - {path})
  }

  function Replaced(d: Disk, path: Path, ino: nat, data: Bytes, mtime: nat): Disk {
    WithData(d, ino, data, mtime).(names := d.names[path := ino])
  }

  lemma UnlinkingEdits(d: Disk, path: Path)
    requires d.Valid()
    ensures Unlinked(d, path).Valid() && Edited(d, Unlinked(d, path), path, None)
  {
  }

  lemma WritingEdits(d: Disk, path: Path, data: Bytes, mtime: nat)
    requires d.Valid() && path in d.names && forall p | p in d.names && p != path :: d.names[p] != d.names[path]
    requires Stamp(d.names[path], |data|, mtime) !in d.seen
    ensures var after := WithData(d, d.names[path], data, mtime); after.Valid() && Edited(d, after, path, Some(data))
  {
  }

  lemma ReplacingEdits(d: Disk, path: Path, ino: nat, data: Bytes, mtime: nat)
    requires d.Valid() && ino !in d.inodes && Stamp(ino, |data|, mtime) !in d.seen
    ensures var after := Replaced(d, path, ino, data, mtime); after.Valid() && Edited(d, after, path, Some(data))
  {
  }

  /** Peers only ever gain answers. */
  predicate Gains(before: map<string, Bytes>, after: map<string, Bytes>) {
    forall u | u in before :: u in after && after[u] == before[u]
  }

  /** The disk and the peers, changed one system call or request at a time. `trace` records the state after
      every step: what a crash at any moment would leave behind. `faults` counts I/O failures and requests that peers
      did not serve as they should. */
  class World {
    var disk: Disk
    var remote: map<string, Bytes>    // what a GET of each URL answers
    ghost var latest: Option<Bytes>   // the newest content the user gave the source file
    ghost var edits: nat              // how often the user changed it
    ghost var meddled: nat            // how often other processes changed the shard directory
    var claimed: set<Path>            // owner records that go, or will go, with shards other processes have put
    ghost var faults: nat
    ghost var sections: nat           // how often the lock of a shard directory was taken
    ghost var refusals: nat           // how often a peer answered an upload with a status that is no success
    ghost var trace: seq<Snapshot>

    constructor (disk: Disk, remote: map<string, Bytes>, ghost latest: Option<Bytes>)
      requires disk.Valid()
      ensures this.disk == disk && this.remote == remote && this.latest == latest
      ensures edits == 0 && meddled == 0 && claimed == {} && faults == 0 && trace == [Now()]
      ensures sections == 0 && refusals == 0
    {
      this.disk, this.remote, this.latest, this.edits, this.meddled, this.faults := disk, remote, latest, 0, 0, 0;
      this.claimed, this.sections, this.refusals := {}, 0, 0;
      this.trace := [Snapshot(disk, remote, latest, 0, 0, {})];
    }

    ghost function Now(): Snapshot
      reads this
    {
      Snapshot(disk, remote, latest, edits, meddled, claimed)
    }

    /** Whether the file system has room for a new inode, and which one it picks. */
    method CreateTemp() returns (ino: Option<nat>)
      requires disk.Valid()
      modifies this`disk, this`faults, this`trace
      ensures disk.Valid() && Now() == old(Now()).(disk := disk) && trace == old(trace) + [Now()]
      ensures ino.None? ==> disk == old(disk) && faults > old(faults)
      ensures ino.Some? ==> faults == old(faults) && ino.value !in old(disk).inodes
                            && disk == WithData(old(disk), ino.value, [], 0)
    {
      var full: bool := *;
      if full {
        ino, faults := None, faults + 1;
      } else {
        var n := FreeInode(disk.inodes.Keys);
        disk := WithData(disk, n, [], 0);
        ino := Some(n);
      }
      trace := trace + [Now()];
    }

    /** A write can stop short. Nobody looks at the times of files that are written this way. */
    method Append(ino: nat, data: Bytes) returns (ok: bool)
      requires disk.Valid() && ino in disk.inodes
      modifies this`disk, this`faults, this`trace
      ensures disk.Valid() && Now() == old(Now()).(disk := disk) && trace == old(trace) + [Now()]
      ensures ok ==> faults == old(faults) && disk == WithData(old(disk), ino, old(disk).inodes[ino].data + data, 0)
      ensures !ok ==> faults > old(faults)
                      && exists n: nat | n <= |data| ::
                           disk == WithData(old(disk), ino, old(disk).inodes[ino].data + data[..n], 0)
    {
      ok := *;
      var n: nat := |data|;
      if !ok {
        n :| 0 <= n <= |data|;
        faults := faults + 1;
      }
      assert data[..|data|] == data;
      disk := WithData(disk, ino, disk.inodes[ino].data + data[..n], 0);
      trace := trace + [Now()];
    }

    method Fsync(ino: nat) returns (ok: bool)
      requires disk.Valid() && ino in disk.inodes
      modifies this`disk, this`faults, this`trace
      ensures disk.Valid() && Now() == old(Now()).(disk := disk) && trace == old(trace) + [Now()]
      ensures ok ==> faults == old(faults) && disk == Flushed(old(disk), ino)
      ensures !ok ==> faults > old(faults) && disk == old(disk)
    {
      ok := *;
      if ok { disk := Flushed(disk, ino); } else { faults := faults + 1; }
      trace := trace + [Now()];
    }

    /** `os.Link` never replaces a name. */
    method Link(ino: nat, path: Path) returns (r: LinkResult)
      requires disk.Valid() && ino in disk.inodes
      modifies this`disk, this`faults, this`trace
      ensures disk.Valid() && Now() == old(Now()).(disk := disk) && trace == old(trace) + [Now()]
      ensures r.Linked? ==> path !in old(disk).names && !MeansDirectory(path)
                            && disk == old(disk).(names := old(disk).names[path := ino])
      ensures r.LinkExists? ==> path in old(disk).names || MeansDirectory(path)
      ensures !r.Linked? ==> disk == old(disk)
      ensures if r.LinkFailed? then faults > old(faults) else faults == old(faults)
    {
      var broken: bool := *;
      if broken {
        r, faults := LinkFailed, faults + 1;
      } else if path in disk.names || MeansDirectory(path) {
        r := LinkExists;
      } else {
        disk := disk.(names := disk.names[path := ino]);
        r := Linked;
      }
      trace := trace + [Now()];
    }

    method SyncDir(dir: string) returns (ok: bool)
      requires disk.Valid()
      modifies this`disk, this`faults, this`trace
      ensures disk.Valid() && Now() == old(Now()).(disk := disk) && trace == old(trace) + [Now()]
      ensures ok ==> faults == old(faults) && disk == DirSynced(old(disk), dir)
      ensures !ok ==> faults > old(faults) && disk in {old(disk), DirSynced(old(disk), dir)}
    {
      ok := *;
      var reached: bool := *;
      if ok || reached { disk := DirSynced(disk, dir); }
      if !ok { faults := faults + 1; }
      trace := trace + [Now()];
    }

    method Remove(path: Path) returns (r: RemoveResult)
      requires disk.Valid()
      modifies this`disk, this`faults, this`trace
      ensures disk.Valid() && Now() == old(Now()).(disk := disk) && trace == old(trace) + [Now()]
      ensures r.Removed? ==> path in old(disk).names && disk == old(disk).(names := old(disk).names - {path})
                             && View(disk) == View(old(disk)) - {path}
      ensures r.NothingThere? ==> path !in old(disk).names
      ensures !r.Removed? ==> disk == old(disk)
      ensures if r.RemoveFailed? then faults > old(faults) else faults == old(faults)
    {
      var broken: bool := *;
      if broken {
        r, faults := RemoveFailed, faults + 1;
      } else if path !in disk.names {
        r := NothingThere;
      } else {
        RemoveView(disk, path);
        disk := disk.(names := disk.names - {path});
        r := Removed;
      }
      trace := trace + [Now()];
    }

    /** `flock` on the lock file of a shard directory. */
    method Lock() returns (ok: bool)
      modifies this`faults, this`sections
      ensures if ok then faults == old(faults) && sections == old(sections) + 1
              else faults > old(faults) && sections == old(sections)
    {
      ok := *;
      if ok { sections := sections + 1; } else { faults := faults + 1; }
    }

    /** A call that can fail and leaves every file alone: `MkdirAll`, `ReadDir`, `Lstat`, `Open`. */
    method Attempt() returns (ok: bool)
      modifies this`faults
      ensures if ok then faults == old(faults) else faults > old(faults)
    {
      ok := *;
      if !ok { faults := faults + 1; }
    }

    method Lstat(path: Path) returns (r: Stat)
      requires disk.Valid()
      modifies this`faults
      ensures r.Entry? ==> path in disk.names && r.ino == disk.names[path]
                           && r.size == |disk.inodes[r.ino].data| && r.mtime == disk.inodes[r.ino].mtime
      ensures r.NoEntry? ==> path !in disk.names
      ensures if r.StatFailed? then faults > old(faults) else faults == old(faults)
    {
      var broken: bool := *;
      if broken {
        r, faults := StatFailed, faults + 1;
      } else if path in disk.names {
        var ino := disk.names[path];
        r := Entry(ino, |disk.inodes[ino].data|, disk.inodes[ino].mtime);
      } else {
        r := NoEntry;
      }
    }

    /** Between two steps of a program the user may change the file at `path` as often as they like, in any way. */
    method UserActs(path: Path)
      requires disk.Valid()
      modifies this
      ensures disk.Valid() && faults == old(faults)
      ensures Now() == old(Now()) || UserEdited(old(Now()), Now(), path)
      ensures old(trace) <= trace && forall i | |old(trace)| <= i < |trace| :: UserEdited(old(Now()), trace[i], path)
    {
      hide Edited;
      var n: nat := *;
      while n > 0
        invariant disk.Valid() && faults == old(faults)
        invariant Now() == old(Now()) || UserEdited(old(Now()), Now(), path)
        invariant old(trace) <= trace && forall i | |old(trace)| <= i < |trace| ::
                    UserEdited(old(Now()), trace[i], path)
      {
        ghost var before := Now();
        EditOnce(path);
        if before != old(Now()) {
          EditedTwice(old(disk), before.disk, disk, path, before.latest, latest);
        }
        n := n - 1;
      }
    }

    /** One change: delete the file, write into it, or put another in its place. */
    method EditOnce(path: Path)
      requires disk.Valid()
      modifies this
      ensures disk.Valid() && faults == old(faults) && UserEdited(old(Now()), Now(), path)
      ensures trace == old(trace) + [Now()]
    {
      var deletes: bool, inPlace: bool, data: Bytes, mtime: nat := *, *, *, *;
      hide Edited, WithData, Replaced, Unlinked;
      if deletes {
        UnlinkingEdits(disk, path);
        disk, latest := Unlinked(disk, path), None;
      } else if inPlace && path in disk.names && Stamp(disk.names[path], |data|, mtime) !in disk.seen
                && forall p | p in disk.names && p != path :: disk.names[p] != disk.names[path] {
        WritingEdits(disk, path, data, mtime);
        disk, latest := WithData(disk, disk.names[path], data, mtime), Some(data);
      } else {
        var ino := FreeInode(disk.inodes.Keys + set s | s in disk.seen :: s.ino);
        assert Stamp(ino, |data|, mtime).ino == ino;
        ReplacingEdits(disk, path, ino, data, mtime);
        disk, latest := Replaced(disk, path, ino, data, mtime), Some(data);
      }
      edits := edits + 1;
      trace := trace + [Now()];
    }

    /** Between two steps of a program other processes may use the shard directory as often as they like. */
    method OthersAct(dir: string, digest: Bytes -> string)
      requires disk.Valid()
      modifies this
      ensures disk.Valid() && Now() == old(Now()).(disk := disk, meddled := meddled, claimed := claimed)
              && faults == old(faults)
      ensures Now() == old(Now()) || Interfered(old(Now()), Now(), dir, digest)
      ensures old(trace) <= trace && forall i | |old(trace)| <= i < |trace| ::
                Interfered(old(Now()), trace[i], dir, digest)
    {
      hide Interfered;
      var n: nat := *;
      while n > 0
        invariant disk.Valid() && Now() == old(Now()).(disk := disk, meddled := meddled, claimed := claimed)
                  && faults == old(faults)
        invariant Now() == old(Now()) || Interfered(old(Now()), Now(), dir, digest)
        invariant old(trace) <= trace && forall i | |old(trace)| <= i < |trace| ::
                    Interfered(old(Now()), trace[i], dir, digest)
      {
        ghost var before := Now();
        ActOnce(dir, digest);
        InterferedTwice(old(Now()), before, Now(), dir, digest);
        n := n - 1;
      }
    }

    /** One step of some process: publish a shard, perhaps meaning to record an owner next; record that owner; remove a
        shard that has an owner, or whose owner could not be recorded; remove a record; or sync. */
    method ActOnce(dir: string, digest: Bytes -> string)
      requires disk.Valid()
      modifies this
      ensures disk.Valid() && Now() == old(Now()).(disk := disk, meddled := meddled, claimed := claimed)
              && faults == old(faults)
      ensures Interfered(old(Now()), Now(), dir, digest) && trace == old(trace) + [Now()]
    {
      var puts: bool, claims: bool, owns: bool, deletes: bool, bytes: Bytes, name: string := *, *, *, *, *, *;
      var ino := FreeInode(disk.inodes.Keys);
      hide Meddled, Spared, LinkedNew, DirSynced, ValidHash, IsRecord;
      var p := Path(dir, if puts then digest(bytes) else name);
      if puts && ValidHash(digest(bytes)) && p !in disk.names {
        PuttingMeddles(disk, dir, digest, ino, bytes);
        disk := LinkedNew(disk, p, ino, bytes);
        if claims { claimed := claimed + {RecordOf(p)}; }
        meddled := meddled + 1;
        PuttingSpares(old(Now()), Now(), dir, p, ino, bytes);
      } else if owns && ValidHash(p.name) && RecordOf(p) in claimed && RecordOf(p) !in disk.names {
        OwningMeddles(disk, dir, digest, p.name, ino, bytes);
        disk, meddled := LinkedNew(disk, RecordOf(p), ino, bytes), meddled + 1;
        OwningSpares(old(Now()), Now(), dir, p, ino, bytes);
      } else if deletes && ((ValidHash(p.name) && (RecordOf(p) in disk.names || RecordOf(p) in claimed))
                            || IsRecord(dir, p)) {
        DeletingMeddles(disk, dir, digest, p);
        disk, meddled := disk.(names := disk.names - {p}), meddled + 1;
        DeletingSpares(old(Now()), Now(), dir, p);
      } else {
        SyncingMeddles(disk, dir, digest);
        disk, meddled := DirSynced(disk, dir), meddled + 1;
        SyncingSpares(old(Now()), Now(), dir);
      }
      trace := trace + [Now()];
    }

    /** `io.ReadFull` from an open file, while the user may be at work: short exactly at the end of the file. */
    method ReadFull(path: Path, ino: nat, offset: nat, max: nat) returns (r: Option<Bytes>)
      requires disk.Valid() && ino in disk.inodes
      modifies this
      ensures disk.Valid() && faults >= old(faults)
      ensures Now() == old(Now()) || UserEdited(old(Now()), Now(), path)
      ensures old(trace) <= trace && forall i | |old(trace)| <= i < |trace| :: UserEdited(old(Now()), trace[i], path)
      ensures r.Some? ==> |r.value| <= max && faults == old(faults)
      ensures r.Some? && edits == old(edits) && offset <= |disk.inodes[ino].data| ==>
                r.value == disk.inodes[ino].data[offset..Min(offset + max, |disk.inodes[ino].data|)]
      ensures r.None? ==> faults > old(faults)
    {
      UserActs(path);
      var broken: bool := *;
      if broken {
        r, faults := None, faults + 1;
      } else {
        var data := disk.inodes[ino].data;
        r := Some(if offset > |data| then [] else data[offset..Min(offset + max, |data|)]);
      }
    }

    /** Fresh random bytes. */
    method Random(n: nat) returns (r: Option<Bytes>)
      modifies this`faults
      ensures if r.Some? then |r.value| == n && faults == old(faults) else faults > old(faults)
    {
      var broken: bool, bytes: Bytes := *, *;
      if broken {
        r, faults := None, faults + 1;
      } else {
        r := Some(if |bytes| == n then bytes else seq(n, _ => 0));
      }
    }

    /** A PUT to some peer. A peer that does its work answers 200 or 201 and from then on answers a GET of this URL with
        what it was sent; any other behaviour, whatever the status, counts as a failure. */
    method PutRemote(url: string, body: Bytes) returns (status: int)
      requires disk.Valid()
      modifies this
      ensures disk == old(disk) && latest == old(latest) && edits == old(edits) && trace == old(trace) + [Now()]
      ensures meddled == old(meddled) && claimed == old(claimed)
      ensures Gains(old(remote), remote) && faults >= old(faults)
      ensures faults == old(faults) ==> status in {200, 201} && url in remote && remote[url] == body
      ensures refusals == if status in {200, 201} then old(refusals) else old(refusals) + 1
    {
      var works: bool, stores: bool, answer: Bytes := *, *, *;
      if works && (url !in remote || remote[url] == body) {
        remote := remote[url := body];
        status := if stores then 201 else 200;
      } else {
        if stores && url !in remote { remote := remote[url := answer]; }
        status := *;
        faults := faults + 1;
        if status !in {200, 201} { refusals := refusals + 1; }
      }
      trace := trace + [Now()];
    }

    /** A GET: the peer's answer, or a failure. */
    method GetRemote(url: string) returns (body: Option<Bytes>)
      modifies this`faults
      ensures body.Some? ==> url in remote && body.value == remote[url] && faults == old(faults)
      ensures body.None? ==> faults > old(faults)
    {
      var reached: bool := *;
      if reached && url in remote {
        body := Some(remote[url]);
      } else {
        body, faults := None, faults + 1;
      }
    }

    method ReadFile(path: Path) returns (r: ReadResult)
      requires disk.Valid()
      modifies this`faults
      ensures r.Content? ==> path in disk.names && r.data == disk.inodes[disk.names[path]].data
      ensures r.NoFile? ==> path !in disk.names
      ensures if r.ReadFailed? then faults > old(faults) else faults == old(faults)
    {
      var broken: bool := *;
      if broken {
        r, faults := ReadFailed, faults + 1;
      } else if path in disk.names {
        r := Content(disk.inodes[disk.names[path]].data);
      } else {
        r := NoFile;
      }
    }
  }

  /** Some inode number that is not in use. */
  function FreeInode(used: set<nat>): (n: nat)
    ensures n !in used
  {
    FreeAbove(used);
    var n :| n !in used && forall k: nat | k < n :: k in used;
    n
  }

  lemma FreeAbove(used: set<nat>)
    ensures exists n: nat :: n !in used && forall k: nat | k < n :: k in used
  {
    var n := 0;
    while n in used
      invariant forall k: nat | k < n :: k in used
      decreases |used| - n
      invariant n <= |used|
    {
      InitialSize(used, n + 1);
      n := n + 1;
    }
  }

  lemma {:induction false} InitialSize(used: set<nat>, n: nat)
    requires forall k: nat | k < n :: k in used
    ensures n <= |used|
  {
    if n > 0 {
      assert used == (used - {n - 1}) + {n - 1};
      InitialSize(used - {n - 1}, n - 1);
    }
  }
}
