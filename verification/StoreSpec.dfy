/** What the operations of a shard directory do to its files: a shard lives under its digest, its owner
    under the digest with ".writer" appended. Shared by the step-by-step store, the concurrent machine
    and the server. */
module StoreSpec {
  import opened Prelude
  import opened FileSystem

  function ShardPath(dir: string, hash: string): Path {
    Path(dir, hash)
  }

  function OwnerPath(dir: string, hash: string): Path {
    Path(dir, hash + ".writer")
  }

  predicate IsShard(dir: string, p: Path) {
    p.dir == dir && ValidHash(p.name)
  }

  lemma OwnerPathDistinct(dir: string, h: string, g: string)
    requires ValidHash(h)
    ensures !IsShard(dir, OwnerPath(dir, h))
    ensures OwnerPath(dir, h) == OwnerPath(dir, g) ==> h == g
  {
    assert |h + ".writer"| == 71;
    if h + ".writer" == g + ".writer" {
      assert |g| == |h| && h == (h + ".writer")[..|h|] && g == (g + ".writer")[..|g|];
    }
  }

  /** Every hash-named file hashes to its name. */
  ghost predicate Addressed(digest: Bytes -> string, dir: string, files: Files) {
    forall p | p in files && IsShard(dir, p) :: digest(files[p]) == p.name
  }

  // ---------------------------------------------------------------- usage

  ghost function Total(files: Files, ps: set<Path>): nat
    requires ps <= files.Keys
  {
    if ps == {} then 0 else var p :| p in ps; |files[p]| + Total(files, ps - {p})
  }

  ghost function ShardsIn(files: Files, dir: string): set<Path> {
    set p | p in files && IsShard(dir, p)
  }

  /** Bytes of all hash-named files: what the quota limits. */
  ghost function Usage(files: Files, dir: string): nat {
    Total(files, ShardsIn(files, dir))
  }

  lemma {:induction false} TotalWithout(files: Files, ps: set<Path>, p: Path)
    requires ps <= files.Keys && p in ps
    ensures Total(files, ps) == |files[p]| + Total(files, ps - {p})
  {
    var q :| q in ps && Total(files, ps) == |files[q]| + Total(files, ps - {q});
    if p != q {
      TotalWithout(files, ps - {q}, p);
      TotalWithout(files, ps - {p}, q);
      assert ps - {q} - {p} == ps - {p} - {q};
    }
  }

  lemma {:induction false} TotalSame(a: Files, b: Files, ps: set<Path>)
    requires ps <= a.Keys && ps <= b.Keys && forall p | p in ps :: a[p] == b[p]
    ensures Total(a, ps) == Total(b, ps)
  {
    if ps != {} {
      var p :| p in ps;
      TotalWithout(a, ps, p);
      TotalWithout(b, ps, p);
      TotalSame(a, b, ps - {p});
    }
  }

  ghost function Named(entries: set<Path>, dir: string): set<Path> {
    set p | p in entries && IsShard(dir, p)
  }

  lemma UsageStep(files: Files, dir: string, entries: set<Path>, p: Path)
    requires entries <= files.Keys && p in entries && p.dir == dir
    ensures Named(entries, dir) <= files.Keys && Named(entries - {p}, dir) <= files.Keys
    ensures Total(files, Named(entries, dir))
            == Total(files, Named(entries - {p}, dir)) + if ValidHash(p.name) then |files[p]| else 0
  {
    var rest := Named(entries, dir);
    assert Named(entries - {p}, dir) == rest - {p};
    if ValidHash(p.name) {
      TotalWithout(files, rest, p);
    } else {
      assert rest - {p} == rest;
    }
  }

  lemma UsageAdd(files: Files, dir: string, p: Path, data: Bytes)
    requires p !in files
    ensures Usage(files[p := data], dir) == Usage(files, dir) + if IsShard(dir, p) then |data| else 0
  {
    var more := files[p := data];
    if IsShard(dir, p) {
      TotalWithout(more, ShardsIn(more, dir), p);
      assert ShardsIn(more, dir) - {p} == ShardsIn(files, dir);
    } else {
      assert ShardsIn(more, dir) == ShardsIn(files, dir);
    }
    TotalSame(more, files, ShardsIn(files, dir));
  }

  lemma UsageRemove(files: Files, dir: string, p: Path)
    ensures Usage(files - {p}, dir) == Usage(files, dir) - if p in files && IsShard(dir, p) then |files[p]| else 0
  {
    if p in files {
      var fewer := files - {p};
      UsageAdd(fewer, dir, p, files[p]);
      assert fewer[p := files[p]] == files;
    } else {
      assert files - {p} == files;
    }
  }

  /** A file that is no shard does not count. */
  lemma UsageUntouched(before: Files, after: Files, dir: string, path: Path)
    requires !IsShard(dir, path) && before - {path} == after - {path}
    ensures Usage(before, dir) == Usage(after, dir)
  {
    UsageRemove(before, dir, path);
    UsageRemove(after, dir, path);
  }

  // ---------------------------------------------------------------- put

  datatype Refusal = LockError | InvalidHash | Corrupt | ReadError | UsageError | QuotaExceeded | WriteError

  /** How a put ends. `ShardLate` is the error that comes after the shard was published;
      `OwnerFailed` the error while recording the owner, after which the shard is removed again. */
  datatype PutResult = Stored | Duplicate | Refused(why: Refusal) | ShardLate
    | OwnerFailed(published: bool, cleaned: bool) {
    predicate Accepted() { Stored? || Duplicate? }
  }

  /** The files after a put that ended this way. */
  function AfterPut(files: Files, dir: string, hash: string, shard: Bytes, writer: Bytes, r: PutResult): Files {
    var sp, op := ShardPath(dir, hash), OwnerPath(dir, hash);
    match r
    case Duplicate => files
    case Refused(_) => files
    case ShardLate => files[sp := shard]
    case Stored => if writer == [] then files[sp := shard] else files[sp := shard][op := writer]
    case OwnerFailed(published, cleaned) =>
      var owned := if published then files[op := writer] else files;
      if cleaned then owned else owned[sp := shard]
  }

  /** How a put ends when no I/O operation fails. */
  ghost function PutOutcome(digest: Bytes -> string, files: Files, dir: string, quota: int, shard: Bytes,
                            writer: Bytes): PutResult
  {
    var h := digest(shard);
    if !ValidHash(h) then Refused(InvalidHash)
    else if ShardPath(dir, h) in files then
      (if digest(files[ShardPath(dir, h)]) == h then Duplicate else Refused(Corrupt))
    else if quota > 0 && |shard| > quota - Usage(files, dir) then Refused(QuotaExceeded)
    else if writer != [] && OwnerPath(dir, h) in files then OwnerFailed(false, true)
    else Stored
  }

  /** What is left after trying to record an owner and then trying to remove the shard. */
  lemma AfterCleanup(files: Files, dir: string, hash: string, shard: Bytes, writer: Bytes, published: bool,
                     cleaned: bool)
    requires ValidHash(hash) && ShardPath(dir, hash) !in files
    ensures var sp, op := ShardPath(dir, hash), OwnerPath(dir, hash);
            var both := if published then files[sp := shard][op := writer] else files[sp := shard];
            AfterPut(files, dir, hash, shard, writer, OwnerFailed(published, cleaned))
            == if cleaned then both - {sp} else both
  {
    OwnerPathDistinct(dir, hash, hash);
    var sp, op := ShardPath(dir, hash), OwnerPath(dir, hash);
    assert files[sp := shard][op := writer] == files[op := writer][sp := shard];
    assert files[sp := shard] - {sp} == files;
    assert files[op := writer][sp := shard] - {sp} == files[op := writer];
  }

  /** How a put may end at all, whatever fails. */
  ghost predicate PutPossible(files: Files, dir: string, quota: int, hash: string, shard: Bytes, writer: Bytes,
                              r: PutResult)
  {
    var sp, op := ShardPath(dir, hash), OwnerPath(dir, hash);
    && (r.Duplicate? ==> sp in files)
    && (r.Stored? || r.ShardLate? || r.OwnerFailed? ==>
          ValidHash(hash) && sp !in files && (quota > 0 ==> |shard| <= quota - Usage(files, dir)))
    && (r.OwnerFailed? ==> writer != [] && (r.published ==> op !in files))
    && (r.Stored? && writer != [] ==> op !in files)
  }

  // ---------------------------------------------------------------- delete

  datatype DeleteResult = Deleted | NotFound | NotOwner | DeleteRefused(why: Refusal) | ShardStuck | OwnerStuck

  function AfterDelete(files: Files, dir: string, hash: string, r: DeleteResult): Files {
    match r
    case Deleted => files - {ShardPath(dir, hash), OwnerPath(dir, hash)}
    case OwnerStuck => files - {ShardPath(dir, hash)}
    case _ => files
  }

  function DeleteOutcome(files: Files, dir: string, hash: string, writer: Bytes): DeleteResult {
    if !ValidHash(hash) then DeleteRefused(InvalidHash)
    else if OwnerPath(dir, hash) !in files then NotFound
    else if writer == [] || files[OwnerPath(dir, hash)] != writer then NotOwner
    else Deleted
  }

  /** Only the recorded, named owner ever gets as far as removing anything. */
  predicate DeletePossible(files: Files, dir: string, hash: string, writer: Bytes, r: DeleteResult) {
    r.Deleted? || r.ShardStuck? || r.OwnerStuck? ==> DeleteOutcome(files, dir, hash, writer) == Deleted
  }

  // ---------------------------------------------------------------- get

  datatype GetResult = Found(data: Bytes) | BadName | Absent | Unreadable

  function GetOutcome(digest: Bytes -> string, files: Files, dir: string, hash: string): GetResult {
    if !ValidHash(hash) then BadName
    else if ShardPath(dir, hash) !in files then Absent
    else if digest(files[ShardPath(dir, hash)]) != hash then Unreadable
    else Found(files[ShardPath(dir, hash)])
  }

  // ---------------------------------------------------------------- consequences

  /** Whatever is asked for, and however it ends, only names the store uses are touched, and only by well-formed
      digests: no request reaches another file. */
  lemma OnlyStoreNames(files: Files, dir: string, quota: int, hash: string, shard: Bytes, writer: Bytes, put: PutResult,
                       delete: DeleteResult, p: Path)
    requires PutPossible(files, dir, quota, hash, shard, writer, put)
             && DeletePossible(files, dir, hash, writer, delete)
    requires !(p.dir == dir && |hash| == 64 && (forall i | 0 <= i < 64 :: HexDigit(hash[i]))
               && (p.name == hash || p.name == hash + ".writer"))
    ensures p in AfterPut(files, dir, hash, shard, writer, put) <==> p in files
    ensures p in AfterDelete(files, dir, hash, delete) <==> p in files
    ensures p in files ==> AfterPut(files, dir, hash, shard, writer, put)[p] == files[p]
                           && AfterDelete(files, dir, hash, delete)[p] == files[p]
  {
  }

  /** However a put ends, the bytes stored stay within the quota or do not grow. */
  lemma PutKeepsQuota(files: Files, dir: string, quota: int, hash: string, shard: Bytes, writer: Bytes, r: PutResult)
    requires PutPossible(files, dir, quota, hash, shard, writer, r) && quota > 0
    ensures Usage(AfterPut(files, dir, hash, shard, writer, r), dir) <= Max(quota, Usage(files, dir))
  {
    var sp, op := ShardPath(dir, hash), OwnerPath(dir, hash);
    if r.Stored? || r.ShardLate? || r.OwnerFailed? {
      OwnerPathDistinct(dir, hash, hash);
      UsageAdd(files, dir, sp, shard);
      if op !in files {
        UsageAdd(files[sp := shard], dir, op, writer);
        UsageAdd(files, dir, op, writer);
        UsageAdd(files[op := writer], dir, sp, shard);
      }
    }
  }

  lemma DeleteKeepsUsage(files: Files, dir: string, hash: string, writer: Bytes, r: DeleteResult)
    ensures Usage(AfterDelete(files, dir, hash, r), dir) <= Usage(files, dir)
  {
    var sp, op := ShardPath(dir, hash), OwnerPath(dir, hash);
    UsageRemove(files, dir, sp);
    UsageRemove(files - {sp}, dir, op);
    assert files - {sp} - {op} == files - {sp, op};
  }

  /** There is a shard that was not there before. */
  predicate LeavesShard(before: Files, dir: string, hash: string, after: Files) {
    ShardPath(dir, hash) !in before && ShardPath(dir, hash) in after
  }

  /** The endings of a put with which a new shard is there. */
  lemma PutLeavesShard(files: Files, dir: string, quota: int, hash: string, shard: Bytes, writer: Bytes, r: PutResult)
    requires PutPossible(files, dir, quota, hash, shard, writer, r)
    ensures LeavesShard(files, dir, hash, AfterPut(files, dir, hash, shard, writer, r)) <==>
            r.Stored? || r.ShardLate? || (r.OwnerFailed? && !r.cleaned)
  {
    if r.Stored? || r.OwnerFailed? { OwnerPathDistinct(dir, hash, hash); }
  }

  /** The hash holds these bytes, and this writer (nobody, if empty) is on record. */
  ghost predicate OnRecord(digest: Bytes -> string, files: Files, dir: string, hash: string, bytes: Bytes,
                           writer: Bytes)
  {
    && ValidHash(hash) && digest(bytes) == hash
    && ShardPath(dir, hash) in files && files[ShardPath(dir, hash)] == bytes
    && (if writer == [] then OwnerPath(dir, hash) !in files
        else OwnerPath(dir, hash) in files && files[OwnerPath(dir, hash)] == writer)
  }

  /** However a put ends, a shard that is there keeps its bytes and its recorded writer. */
  lemma PutKeepsRecord(digest: Bytes -> string, files: Files, dir: string, quota: int, shard: Bytes, caller: Bytes,
                       r: PutResult, hash: string, bytes: Bytes, writer: Bytes)
    requires OnRecord(digest, files, dir, hash, bytes, writer)
             && PutPossible(files, dir, quota, digest(shard), shard, caller, r)
    ensures OnRecord(digest, AfterPut(files, dir, digest(shard), shard, caller, r), dir, hash, bytes, writer)
  {
    var h := digest(shard);
    if ValidHash(h) {
      OwnerPathDistinct(dir, h, hash);
      OwnerPathDistinct(dir, hash, h);
    }
  }

  /** However a delete ends, a shard that is there keeps its bytes and its recorded writer, unless it was this shard and
      the delete, that writer's own, got as far as removing it. */
  lemma DeleteKeepsRecord(digest: Bytes -> string, files: Files, dir: string, h: string, caller: Bytes, r: DeleteResult,
                          hash: string, bytes: Bytes, writer: Bytes)
    requires OnRecord(digest, files, dir, hash, bytes, writer) && DeletePossible(files, dir, h, caller, r)
    ensures OnRecord(digest, AfterDelete(files, dir, h, r), dir, hash, bytes, writer)
            <==> !(h == hash && caller == writer && writer != [] && (r.Deleted? || r.OwnerStuck?))
  {
    if ValidHash(h) {
      OwnerPathDistinct(dir, h, hash);
      OwnerPathDistinct(dir, hash, h);
    }
  }

  /** After a late error the retry reports success and changes nothing: its writer is not recorded. Whoever an old
      record names can delete the shard, and if there is none nobody can. */
  lemma RetryAfterLateError(digest: Bytes -> string, files: Files, dir: string, quota: int, shard: Bytes, writer: Bytes)
    requires PutPossible(files, dir, quota, digest(shard), shard, writer, ShardLate)
    ensures var h, op := digest(shard), OwnerPath(dir, digest(shard));
            var after := AfterPut(files, dir, h, shard, writer, ShardLate);
            && PutOutcome(digest, after, dir, quota, shard, writer) == Duplicate
            && AfterPut(after, dir, h, shard, writer, Duplicate) == after
            && (op in after <==> op in files) && (op in files ==> after[op] == files[op])
            && (forall anyone: Bytes ::
                  DeleteOutcome(after, dir, h, anyone) == Deleted
                  <==> op in files && anyone != [] && files[op] == anyone)
            && ((exists anyone: Bytes :: DeleteOutcome(after, dir, h, anyone) == Deleted)
                <==> op in files && files[op] != [])
  {
    var h := digest(shard);
    OwnerPathDistinct(dir, h, h);
    var after, op := AfterPut(files, dir, h, shard, writer, ShardLate), OwnerPath(dir, h);
    if op in files && files[op] != [] { assert DeleteOutcome(after, dir, h, files[op]) == Deleted; }
  }

  /** From an owner record without a shard, every named put fails again and leaves the files as they are;
      the recorded owner's delete, without failures, removes the leftover and nothing else. */
  lemma LeftoverOwnerRecovers(digest: Bytes -> string, files: Files, dir: string, quota: int, shard: Bytes,
                              owner: Bytes)
    requires ValidHash(digest(shard)) && owner != []
    requires ShardPath(dir, digest(shard)) !in files && OwnerPath(dir, digest(shard)) in files
    requires files[OwnerPath(dir, digest(shard))] == owner
    ensures forall writer: Bytes | writer != [] ::
              var r := PutOutcome(digest, files, dir, quota, shard, writer);
              !r.Accepted() && AfterPut(files, dir, digest(shard), shard, writer, r) == files
    ensures DeleteOutcome(files, dir, digest(shard), owner) == Deleted
    ensures AfterDelete(files, dir, digest(shard), Deleted) == files - {OwnerPath(dir, digest(shard))}
  {
  }

  /** However an unowned put is accepted, newly stored or found there already, somebody can delete the shard afterwards
      if and only if a named owner is on record: left over from before, or the one who stored it first. */
  lemma UnownedShardDeletable(digest: Bytes -> string, files: Files, dir: string, quota: int, shard: Bytes)
    requires PutOutcome(digest, files, dir, quota, shard, []).Accepted()
    ensures var r := PutOutcome(digest, files, dir, quota, shard, []);
            var after, op := AfterPut(files, dir, digest(shard), shard, [], r), OwnerPath(dir, digest(shard));
            (exists anyone: Bytes :: DeleteOutcome(after, dir, digest(shard), anyone) == Deleted)
            <==> op in files && files[op] != []
  {
    var h := digest(shard);
    OwnerPathDistinct(dir, h, h);
    var after := AfterPut(files, dir, h, shard, [], PutOutcome(digest, files, dir, quota, shard, []));
    if OwnerPath(dir, h) in files && files[OwnerPath(dir, h)] != [] {
      assert DeleteOutcome(after, dir, h, files[OwnerPath(dir, h)]) == Deleted;
    }
  }
}
