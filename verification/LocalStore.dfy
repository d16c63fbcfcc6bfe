/** internal/localstore: one shard directory, one call at a time. Interleaving is in ConcurrentStore. */
module LocalStore {
  import opened Prelude
  import opened FileSystem
  import opened AtomicFile
  import opened StoreSpec

  /** Whatever was there is as it was; what is new is the complete shard or the complete record of its writer. */
  predicate OnlyNew(files: Files, now: Files, dir: string, hash: string, shard: Bytes, writer: Bytes) {
    && (forall p | p in files :: p in now && now[p] == files[p])
    && (forall p | p in now && p !in files ::
          || (p == ShardPath(dir, hash) && now[p] == shard)
          || (p == OwnerPath(dir, hash) && now[p] == writer != []))
  }

  /** The files a crash in the middle of a put can leave: each is the state after some way of ending. */
  ghost predicate PutStage(files: Files, now: Files, dir: string, hash: string, shard: Bytes, writer: Bytes) {
    OnlyNew(files, now, dir, hash, shard, writer)
    && exists r: PutResult :: now == AfterPut(files, dir, hash, shard, writer, r)
  }

  ghost predicate PutStages(files: Files, trace: seq<Snapshot>, from: nat, dir: string, hash: string, shard: Bytes,
                            writer: Bytes)
  {
    forall i | from <= i < |trace| ::
      trace[i].disk.Valid() && PutStage(files, View(trace[i].disk), dir, hash, shard, writer)
  }

  lemma AddingStage(base: Disk, now: Disk, dir: string, hash: string, shard: Bytes, writer: Bytes)
    requires base.Valid() && now.Valid() && Adds(base, now, ShardPath(dir, hash), shard)
             && ShardPath(dir, hash) !in base.names
    ensures PutStage(View(base), View(now), dir, hash, shard, writer)
  {
    hide Adds;
    var sp := ShardPath(dir, hash);
    AddsView(base, now, sp, shard);
    assert View(now) == AfterPut(View(base), dir, hash, shard, writer, if sp in now.names then ShardLate
                                                                       else Refused(WriteError));
  }

  lemma StagesOfAdding(before: Snapshot, trace: seq<Snapshot>, from: nat, dir: string, hash: string, shard: Bytes,
                       writer: Bytes)
    requires before.disk.Valid() && OnlyAdds(before, trace, from, ShardPath(dir, hash), shard)
    requires ShardPath(dir, hash) !in before.disk.names
    ensures PutStages(View(before.disk), trace, from, dir, hash, shard, writer)
  {
    forall i | from <= i < |trace|
      ensures trace[i].disk.Valid() && PutStage(View(before.disk), View(trace[i].disk), dir, hash, shard, writer)
    {
      AddingStage(before.disk, trace[i].disk, dir, hash, shard, writer);
    }
  }

  lemma OwnerStageFiles(files: Files, now: Files, dir: string, hash: string, shard: Bytes, writer: Bytes)
    requires writer != [] && ShardPath(dir, hash) !in files
    requires var mid := files[ShardPath(dir, hash) := shard];
             now == mid || (now == mid[OwnerPath(dir, hash) := writer] && OwnerPath(dir, hash) !in mid)
    ensures PutStage(files, now, dir, hash, shard, writer)
  {
    var mid := files[ShardPath(dir, hash) := shard];
    assert AfterPut(files, dir, hash, shard, writer, ShardLate) == mid;
    assert AfterPut(files, dir, hash, shard, writer, Stored) == mid[OwnerPath(dir, hash) := writer];
  }

  /** While the owner record is written, the shard is there and the record is absent or complete. */
  lemma OwnerStage(base: Disk, before: Disk, now: Disk, dir: string, hash: string, shard: Bytes, writer: Bytes)
    requires base.Valid() && before.Valid() && writer != [] && ShardPath(dir, hash) !in View(base)
    requires View(before) == View(base)[ShardPath(dir, hash) := shard]
    requires Adds(before, now, OwnerPath(dir, hash), writer)
    ensures PutStage(View(base), View(now), dir, hash, shard, writer)
  {
    AddsView(before, now, OwnerPath(dir, hash), writer);
    OwnerStageFiles(View(base), View(now), dir, hash, shard, writer);
  }

  lemma StagesOfOwner(base: Disk, before: Snapshot, earlier: seq<Snapshot>, trace: seq<Snapshot>, from: nat,
                      dir: string, hash: string, shard: Bytes, writer: Bytes)
    requires base.Valid() && before.disk.Valid() && writer != [] && ShardPath(dir, hash) !in View(base)
    requires View(before.disk) == View(base)[ShardPath(dir, hash) := shard]
    requires from <= |earlier| && earlier <= trace && PutStages(View(base), earlier, from, dir, hash, shard, writer)
    requires OnlyAdds(before, trace, |earlier|, OwnerPath(dir, hash), writer)
    ensures PutStages(View(base), trace, from, dir, hash, shard, writer)
  {
    forall i | from <= i < |trace|
      ensures trace[i].disk.Valid() && PutStage(View(base), View(trace[i].disk), dir, hash, shard, writer)
    {
      if i < |earlier| {
        assert trace[i] == earlier[i];
      } else {
        OwnerStage(base, before.disk, trace[i].disk, dir, hash, shard, writer);
      }
    }
  }

  /** Removing the shard again is one more stage. */
  lemma StageOfCleanup(files: Files, trace: seq<Snapshot>, from: nat, dir: string, hash: string, shard: Bytes,
                       writer: Bytes, r: PutResult, s: Snapshot)
    requires PutStages(files, trace, from, dir, hash, shard, writer)
    requires s.disk.Valid() && View(s.disk) == AfterPut(files, dir, hash, shard, writer, r)
    requires r.OwnerFailed? && writer != [] && ShardPath(dir, hash) !in files
    requires r.published ==> OwnerPath(dir, hash) !in files
    ensures PutStages(files, trace + [s], from, dir, hash, shard, writer)
  {
  }

  lemma NameIsLong(dir: string, hash: string)
    requires ValidHash(hash)
    ensures !MeansDirectory(ShardPath(dir, hash)) && !MeansDirectory(OwnerPath(dir, hash))
  {
    assert |hash| == 64 && |hash + ".writer"| == 71;
  }

  lemma StoredIsThere(files: Files, dir: string, hash: string, shard: Bytes, writer: Bytes)
    requires ValidHash(hash)
    ensures var after, sp := AfterPut(files, dir, hash, shard, writer, Stored), ShardPath(dir, hash);
            sp in after && after[sp] == shard
  {
    OwnerPathDistinct(dir, hash, hash);
  }

  lemma BothGone(files: Files, p: Path, q: Path)
    ensures files - {p} - {q} == files - {p, q}
  {
  }

  /** The files a crash in the middle of a delete can leave: the shard goes before its record. */
  predicate DeleteStage(files: Files, now: Files, dir: string, hash: string) {
    now in {files, files - {ShardPath(dir, hash)}, files - {ShardPath(dir, hash), OwnerPath(dir, hash)}}
  }

  class Store {
    const dir: string
    const quota: int

    constructor (dir: string, quota: int)
      ensures this.dir == dir && this.quota == quota
    {
      this.dir, this.quota := dir, quota;
    }

    /** `usage`: the directory is listed once, then each entry is asked for its size. */
    method UsedBytes(w: World) returns (total: Option<nat>)
      requires w.disk.Valid()
      modifies w`faults
      ensures total.Some? ==> total.value == Usage(View(w.disk), dir) && w.faults == old(w.faults)
      ensures total.None? ==> w.faults > old(w.faults)
    {
      var listed := w.Attempt();
      if !listed { return None; }
      var entries := set p | p in w.disk.names && p.dir == dir;
      ghost var files := View(w.disk);
      var sum: nat := 0;
      assert Named(entries, dir) == ShardsIn(files, dir);
      while entries != {}
        invariant entries <= files.Keys && (forall p | p in entries :: p.dir == dir) && w.faults == old(w.faults)
        invariant Named(entries, dir) <= files.Keys && sum + Total(files, Named(entries, dir)) == Usage(files, dir)
        decreases |entries|
      {
        var p :| p in entries;
        UsageStep(files, dir, entries, p);
        if ValidHash(p.name) {
          var info := w.Attempt();
          if !info { return None; }
          sum := sum + |w.disk.inodes[w.disk.names[p]].data|;
        }
        entries := entries - {p};
      }
      total := Some(sum);
    }

    /** The first half of `PutOwned`: everything that is checked before the shard is written. */
    method CheckPut(w: World, digest: Bytes -> string, shard: Bytes, ghost writer: Bytes) returns (r: Option<PutResult>)
      requires w.disk.Valid()
      modifies w`faults, w`sections
      ensures r.None? || r == Some(Duplicate) ==> w.sections > old(w.sections)
      ensures r.Some? ==> (r.value.Refused? || r.value.Duplicate?)
                          && PutPossible(View(w.disk), dir, quota, digest(shard), shard, writer, r.value)
      ensures r.Some? && w.faults == old(w.faults) ==>
                r.value == PutOutcome(digest, View(w.disk), dir, quota, shard, writer)
      ensures r == Some(Duplicate) ==> digest(View(w.disk)[ShardPath(dir, digest(shard))]) == digest(shard)
      ensures r.None? ==> w.faults == old(w.faults) && ValidHash(digest(shard))
                          && ShardPath(dir, digest(shard)) !in w.disk.names
                          && (quota > 0 ==> |shard| <= quota - Usage(View(w.disk), dir))
      ensures w.faults >= old(w.faults)
    {
      var locked := w.Lock();
      if !locked { return Some(Refused(LockError)); }
      var hash := digest(shard);
      if !ValidHash(hash) { return Some(Refused(InvalidHash)); }
      var existing := w.ReadFile(ShardPath(dir, hash));
      match existing {
        case Content(data) => return Some(if digest(data) != hash then Refused(Corrupt) else Duplicate);
        case ReadFailed => return Some(Refused(ReadError));
        case NoFile =>
      }
      var used := UsedBytes(w);
      if used.None? { return Some(Refused(UsageError)); }
      if quota > 0 && |shard| > quota - used.value { return Some(Refused(QuotaExceeded)); }
      r := None;
    }

    /** `Usage`: the same under the lock. */
    method ReportUsage(w: World) returns (total: Option<nat>)
      requires w.disk.Valid()
      modifies w`faults, w`sections
      ensures total.Some? ==> total.value == Usage(View(w.disk), dir) && w.faults == old(w.faults)
                              && w.sections > old(w.sections)
      ensures total.None? ==> w.faults > old(w.faults)
    {
      var locked := w.Lock();
      if !locked { return None; }
      total := UsedBytes(w);
    }

    /** The second half: record the owner of a shard just published, or remove the shard again. */
    method RecordOwner(w: World, hash: string, shard: Bytes, writer: Bytes, ghost base: Disk, ghost from: nat)
      returns (r: PutResult)
      requires w.disk.Valid() && base.Valid() && writer != [] && ValidHash(hash)
      requires ShardPath(dir, hash) !in base.names
      requires View(w.disk) == View(base)[ShardPath(dir, hash) := shard]
      requires from <= |w.trace| && PutStages(View(base), w.trace, from, dir, hash, shard, writer)
      modifies w`disk, w`faults, w`trace
      ensures w.disk.Valid() && w.Now() == old(w.Now()).(disk := w.disk) && old(w.trace) <= w.trace
      ensures PutStages(View(base), w.trace, from, dir, hash, shard, writer)
      ensures View(w.disk) == AfterPut(View(base), dir, hash, shard, writer, r)
      ensures r.Stored? || r.OwnerFailed?
      ensures r.Stored? || (r.OwnerFailed? && r.published) ==> OwnerPath(dir, hash) !in base.names
      ensures w.faults >= old(w.faults)
      ensures w.faults == old(w.faults) ==>
                r == if OwnerPath(dir, hash) in base.names then OwnerFailed(false, true) else Stored
    {
      hide ValidHash, MeansDirectory, View, PutStages;
      ghost var trace := w.trace;
      NameIsLong(dir, hash);
      ViewAt(w.disk, OwnerPath(dir, hash));
      ViewAt(base, OwnerPath(dir, hash));
      ViewAt(base, ShardPath(dir, hash));
      ghost var files, sp, op := View(base), ShardPath(dir, hash), OwnerPath(dir, hash);
      OwnerPathDistinct(dir, hash, hash);
      assert op in View(w.disk) <==> op in files;
      ghost var before := w.Now();
      var owner := WriteNew(w, OwnerPath(dir, hash), writer);
      StagesOfOwner(base, before, trace, w.trace, from, dir, hash, shard, writer);
      if owner.Written? {
        return Stored;
      }
      trace := w.trace;
      ghost var after := w.disk;
      var removed := w.Remove(ShardPath(dir, hash));
      assert sp in View(before.disk);
      ViewAt(after, sp);
      r := OwnerFailed(owner.Published(), removed.Removed?);
      AfterCleanup(files, dir, hash, shard, writer, owner.Published(), removed.Removed?);
      StageOfCleanup(files, trace, from, dir, hash, shard, writer, r, w.Now());
    }

    /** Publish the shard and record its owner. */
    method WriteShard(w: World, hash: string, shard: Bytes, writer: Bytes) returns (r: PutResult)
      requires w.disk.Valid() && ValidHash(hash) && ShardPath(dir, hash) !in w.disk.names
      modifies w`disk, w`faults, w`trace
      ensures w.disk.Valid() && w.Now() == old(w.Now()).(disk := w.disk) && old(w.trace) <= w.trace
      ensures View(w.disk) == AfterPut(View(old(w.disk)), dir, hash, shard, writer, r)
      ensures PutStages(View(old(w.disk)), w.trace, |old(w.trace)|, dir, hash, shard, writer)
      ensures r == Refused(WriteError) || r.Stored? || r.ShardLate? || (r.OwnerFailed? && writer != [])
      ensures (r.Stored? && writer != []) || (r.OwnerFailed? && r.published) ==>
                OwnerPath(dir, hash) !in old(w.disk).names
      ensures w.faults >= old(w.faults)
      ensures w.faults == old(w.faults) ==>
                r == if writer != [] && OwnerPath(dir, hash) in old(w.disk).names then OwnerFailed(false, true)
                     else Stored
      ensures writer == [] ==> OnlyAdds(old(w.Now()), w.trace, |old(w.trace)|, ShardPath(dir, hash), shard)
                               && Adds(old(w.disk), w.disk, ShardPath(dir, hash), shard)
    {
      hide Adds, OnlyAdds;
      ghost var before, from := w.Now(), |w.trace|;
      var written := WriteNew(w, ShardPath(dir, hash), shard);
      StagesOfAdding(before, w.trace, from, dir, hash, shard, writer);
      match written {
        case Abandoned => return Refused(WriteError);
        case Taken => assert false;
        case Late => return ShardLate;
        case Written =>
      }
      if writer == [] { return Stored; }
      r := RecordOwner(w, hash, shard, writer, before.disk, from);
    }

    /** `PutOwned`. Whatever fails, the files afterwards are exactly what the way it ended says, and at no
        instant are they anything but the state after some way of ending. */
    method PutOwned(w: World, digest: Bytes -> string, shard: Bytes, writer: Bytes) returns (r: PutResult)
      requires w.disk.Valid()
      modifies w`disk, w`faults, w`trace, w`sections
      ensures w.disk.Valid() && w.Now() == old(w.Now()).(disk := w.disk) && old(w.trace) <= w.trace
      ensures View(w.disk) == AfterPut(View(old(w.disk)), dir, digest(shard), shard, writer, r)
      ensures PutPossible(View(old(w.disk)), dir, quota, digest(shard), shard, writer, r)
      ensures w.faults >= old(w.faults)
      ensures w.faults == old(w.faults) ==> r == PutOutcome(digest, View(old(w.disk)), dir, quota, shard, writer)
      ensures r.Accepted() || w.disk != old(w.disk) ==> w.sections > old(w.sections)
      ensures PutStages(View(old(w.disk)), w.trace, |old(w.trace)|, dir, digest(shard), shard, writer)
      ensures OnlyNew(View(old(w.disk)), View(w.disk), dir, digest(shard), shard, writer)
      ensures r.Accepted() ==> ShardPath(dir, digest(shard)) in View(w.disk)
                               && digest(View(w.disk)[ShardPath(dir, digest(shard))]) == digest(shard)
      ensures writer == [] ==> OnlyAdds(old(w.Now()), w.trace, |old(w.trace)|, ShardPath(dir, digest(shard)), shard)
                               && Adds(old(w.disk), w.disk, ShardPath(dir, digest(shard)), shard)
    {
      hide Adds, OnlyAdds, Usage, ValidHash;
      NothingAdded(w.Now(), w.trace, ShardPath(dir, digest(shard)), shard);
      var refused := CheckPut(w, digest, shard, writer);
      if refused.Some? { return refused.value; }
      r := WriteShard(w, digest(shard), shard, writer);
      if r.Stored? { StoredIsThere(View(old(w.disk)), dir, digest(shard), shard, writer); }
    }

    /** `DeleteOwned`. */
    method DeleteOwned(w: World, hash: string, writer: Bytes) returns (r: DeleteResult)
      requires w.disk.Valid()
      modifies w`disk, w`faults, w`trace, w`sections
      ensures w.disk.Valid() && w.Now() == old(w.Now()).(disk := w.disk) && old(w.trace) <= w.trace
      ensures View(w.disk) == AfterDelete(View(old(w.disk)), dir, hash, r)
      ensures DeletePossible(View(old(w.disk)), dir, hash, writer, r)
      ensures forall i | |old(w.trace)| <= i < |w.trace| ::
                w.trace[i].disk.Valid() && DeleteStage(View(old(w.disk)), View(w.trace[i].disk), dir, hash)
      ensures w.faults >= old(w.faults)
      ensures w.faults == old(w.faults) ==> r == DeleteOutcome(View(old(w.disk)), dir, hash, writer)
      ensures r.Deleted? || w.disk != old(w.disk) ==> w.sections > old(w.sections)
    {
      hide ValidHash, View;
      ViewAt(w.disk, OwnerPath(dir, hash));
      ViewAt(w.disk, ShardPath(dir, hash));
      if !ValidHash(hash) { return DeleteRefused(InvalidHash); }
      OwnerPathDistinct(dir, hash, hash);
      var locked := w.Lock();
      if !locked { return DeleteRefused(LockError); }
      var owner := w.ReadFile(OwnerPath(dir, hash));
      match owner {
        case NoFile => return NotFound;
        case ReadFailed => return DeleteRefused(ReadError);
        case Content(data) => if writer == [] || data != writer { return NotOwner; }
      }
      ghost var files, sp, op := View(w.disk), ShardPath(dir, hash), OwnerPath(dir, hash);
      var shard := w.Remove(ShardPath(dir, hash));
      if shard.RemoveFailed? { return ShardStuck; }
      assert View(w.disk) == files - {sp};
      var record := w.Remove(OwnerPath(dir, hash));
      if record.RemoveFailed? { return OwnerStuck; }
      assert View(w.disk) == files - {sp} - {op};
      BothGone(files, sp, op);
      r := Deleted;
    }

    /** `Get`: reads without the lock and checks the digest. */
    method Get(w: World, digest: Bytes -> string, hash: string) returns (r: GetResult)
      requires w.disk.Valid()
      modifies w`faults
      ensures r.Found? ==> r == GetOutcome(digest, View(w.disk), dir, hash)
      ensures w.faults >= old(w.faults)
      ensures w.faults == old(w.faults) ==> r == GetOutcome(digest, View(w.disk), dir, hash)
    {
      if !ValidHash(hash) { return BadName; }
      var content := w.ReadFile(ShardPath(dir, hash));
      match content {
        case NoFile => return Absent;
        case ReadFailed => return Unreadable;
        case Content(data) => r := if digest(data) != hash then Unreadable else Found(data);
      }
    }
  }
}
