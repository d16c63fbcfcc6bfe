/** The shard directory as a concurrent object. Any number of callers, in any number of processes, put, delete and
    get at the same time; each call is a program counter over directory operations, any of which can fail, and
    callers can be killed at any moment. Mutators hold the `flock`, which every call takes on a descriptor of its
    own, so it also excludes calls of one process; readers take no lock. */
module ConcurrentStore {
  import opened Prelude
  import opened FileSystem
  import opened StoreSpec

  datatype Site = Site(digest: Bytes -> string, dir: string, quota: int)

  datatype Op = Put(shard: Bytes, writer: Bytes) | Delete(hash: string, writer: Bytes) | Get(hash: string)

  /** How a call ended; `born` is the moment a read was invoked. */
  datatype Outcome =
    | PutEnded(shard: Bytes, writer: Bytes, put: PutResult)
    | DeleteEnded(hash: string, writer: Bytes, delete: DeleteResult)
    | GetEnded(hash: string, born: nat, get: GetResult)

  datatype Proc =
    | Wait(op: Op)                                                        // blocked in flock
    | PutRead(shard: Bytes, writer: Bytes)                                // from here on the lock is held
    | PutScan(shard: Bytes, writer: Bytes, todo: set<Path>, total: nat)   // usage: entries still to be measured
    | PutTemp(shard: Bytes, writer: Bytes)
    | PutWrite(shard: Bytes, writer: Bytes, ino: nat)
    | PutLink(shard: Bytes, writer: Bytes, ino: nat)
    | PutDirSync(shard: Bytes, writer: Bytes)
    | OwnTemp(shard: Bytes, writer: Bytes)
    | OwnWrite(shard: Bytes, writer: Bytes, ino: nat)
    | OwnLink(shard: Bytes, writer: Bytes, ino: nat)
    | OwnDirSync(shard: Bytes, writer: Bytes)
    | Undo(shard: Bytes, writer: Bytes, published: bool)
    | DelRead(hash: string, writer: Bytes)
    | DelShard(hash: string, writer: Bytes)
    | DelOwner(hash: string, writer: Bytes)
    | Unlock(outcome: Outcome)                                            // up to here
    | GetOpen(hash: string, born: nat)
    | GetRead(hash: string, born: nat, ino: nat, got: Bytes)
    | Finished(outcome: Outcome)
  {
    predicate HoldsLock() {
      !Wait? && !GetOpen? && !GetRead? && !Finished?
    }

    /** The inode this call is writing, which nobody else may touch. */
    predicate Owns(i: nat) {
      (PutWrite? || PutLink? || OwnWrite? || OwnLink?) && ino == i
    }
  }

  /** `Fail` makes the next operation fail; `Part(n)` moves at most `n` bytes of a read or write. */
  datatype Choice = Go | Fail | Part(n: nat)

  datatype Action = Invoke(p: nat, op: Op) | Move(p: nat, choice: Choice) | Kill(ps: set<nat>)

  /** One completed or interrupted critical section: whose it was, the files it found, how it ended, the files it left,
      and whether all its operations succeeded. */
  datatype Commit = Commit(caller: nat, before: Files, outcome: Outcome, after: Files, clean: bool)

  /** `since` records for each caller how long the log was when its last call was invoked. */
  datatype State = State(names: map<Path, nat>, data: map<nat, Bytes>, procs: map<nat, Proc>, lock: Option<nat>,
                         entry: Files, clean: bool, log: seq<Commit>, clock: nat, since: map<nat, nat>)

  ghost predicate Linked(names: map<Path, nat>, data: map<nat, Bytes>) {
    forall p | p in names :: names[p] in data
  }

  ghost function Seen(names: map<Path, nat>, data: map<nat, Bytes>): Files
    requires Linked(names, data)
  {
    map p | p in names :: data[names[p]]
  }

  // ---------------------------------------------------------------- the lock holder

  /** The part of the state the holder can change. */
  datatype Section = Section(proc: Proc, names: map<Path, nat>, data: map<nat, Bytes>, clean: bool)

  function Ended(shard: Bytes, writer: Bytes, r: PutResult): Proc {
    Unlock(PutEnded(shard, writer, r))
  }

  function Gone(hash: string, writer: Bytes, r: DeleteResult): Proc {
    Unlock(DeleteEnded(hash, writer, r))
  }

  function Take(bytes: Bytes, from: nat, c: Choice): Bytes
    requires from <= |bytes|
  {
    if c.Part? && c.n < |bytes| - from then bytes[from..from + c.n] else bytes[from..]
  }

  /** Directory entries are measured one at a time, in some order. */
  ghost function NextEntry(todo: set<Path>): (p: Path)
    requires todo != {}
    ensures p in todo
  {
    var p :| p in todo; p
  }

  ghost function PutStep(site: Site, s: Section, c: Choice): (t: Section)
    requires Linked(s.names, s.data)
    requires s.proc.PutWrite? || s.proc.PutLink? ==> s.proc.ino in s.data
    ensures s.proc.HoldsLock() ==> t.proc.HoldsLock()
    ensures t == s || !t.proc.Unlock? || !t.proc.outcome.GetEnded?
  {
    match s.proc
    case PutRead(shard, writer) =>
      var h := site.digest(shard);
      var sp := ShardPath(site.dir, h);
      if !ValidHash(h) then s.(proc := Ended(shard, writer, Refused(InvalidHash)))
      else if c.Fail? then s.(proc := Ended(shard, writer, Refused(ReadError)), clean := false)
      else if sp in s.names then
        s.(proc := Ended(shard, writer, if site.digest(s.data[s.names[sp]]) == h then Duplicate else Refused(Corrupt)))
      else s.(proc := PutScan(shard, writer, set p | p in s.names && p.dir == site.dir, 0))
    case PutScan(shard, writer, todo, total) =>
      if todo == {} then
        if site.quota > 0 && |shard| > site.quota - total then s.(proc := Ended(shard, writer, Refused(QuotaExceeded)))
        else s.(proc := PutTemp(shard, writer))
      else if c.Fail? then s.(proc := Ended(shard, writer, Refused(UsageError)), clean := false)
      else
        var p := NextEntry(todo);
        var size := if ValidHash(p.name) && p in s.names then |s.data[s.names[p]]| else 0;
        s.(proc := PutScan(shard, writer, todo - {p}, total + size))
    case PutTemp(shard, writer) =>
      if c.Fail? then s.(proc := Ended(shard, writer, Refused(WriteError)), clean := false)
      else
        var ino := FreeInode(s.data.Keys);
        s.(proc := PutWrite(shard, writer, ino), data := s.data[ino := []])
    case PutWrite(shard, writer, ino) =>
      if c.Fail? then s.(proc := Ended(shard, writer, Refused(WriteError)), clean := false)
      else if |s.data[ino]| >= |shard| then s.(proc := PutLink(shard, writer, ino))
      else s.(data := s.data[ino := s.data[ino] + Take(shard, |s.data[ino]|, c)])
    case PutLink(shard, writer, ino) =>
      var sp := ShardPath(site.dir, site.digest(shard));
      if c.Fail? || sp in s.names then s.(proc := Ended(shard, writer, Refused(WriteError)), clean := false)
      else s.(proc := PutDirSync(shard, writer), names := s.names[sp := ino])
    case PutDirSync(shard, writer) =>
      if c.Fail? then s.(proc := Ended(shard, writer, ShardLate), clean := false)
      else s.(proc := if writer == [] then Ended(shard, writer, Stored) else OwnTemp(shard, writer))
    case _ => s
  }

  ghost function OwnerStep(site: Site, s: Section, c: Choice): (t: Section)
    requires Linked(s.names, s.data)
    requires s.proc.OwnWrite? || s.proc.OwnLink? ==> s.proc.ino in s.data
    ensures s.proc.HoldsLock() ==> t.proc.HoldsLock()
    ensures t == s || !t.proc.Unlock? || !t.proc.outcome.GetEnded?
  {
    match s.proc
    case OwnTemp(shard, writer) =>
      if c.Fail? then s.(proc := Undo(shard, writer, false), clean := false)
      else
        var ino := FreeInode(s.data.Keys);
        s.(proc := OwnWrite(shard, writer, ino), data := s.data[ino := []])
    case OwnWrite(shard, writer, ino) =>
      if c.Fail? then s.(proc := Undo(shard, writer, false), clean := false)
      else if |s.data[ino]| >= |writer| then s.(proc := OwnLink(shard, writer, ino))
      else s.(data := s.data[ino := s.data[ino] + Take(writer, |s.data[ino]|, c)])
    case OwnLink(shard, writer, ino) =>
      var op := OwnerPath(site.dir, site.digest(shard));
      if c.Fail? then s.(proc := Undo(shard, writer, false), clean := false)
      else if op in s.names then s.(proc := Undo(shard, writer, false))
      else s.(proc := OwnDirSync(shard, writer), names := s.names[op := ino])
    case OwnDirSync(shard, writer) =>
      if c.Fail? then s.(proc := Undo(shard, writer, true), clean := false)
      else s.(proc := Ended(shard, writer, Stored))
    case Undo(shard, writer, published) =>
      if c.Fail? then s.(proc := Ended(shard, writer, OwnerFailed(published, false)), clean := false)
      else s.(proc := Ended(shard, writer, OwnerFailed(published, true)),
              names := s.names - {ShardPath(site.dir, site.digest(shard))})
    case _ => s
  }

  ghost function DeleteStep(site: Site, s: Section, c: Choice): (t: Section)
    requires Linked(s.names, s.data)
    ensures s.proc.HoldsLock() ==> t.proc.HoldsLock()
    ensures t == s || !t.proc.Unlock? || !t.proc.outcome.GetEnded?
  {
    match s.proc
    case DelRead(hash, writer) =>
      var op := OwnerPath(site.dir, hash);
      if c.Fail? then s.(proc := Gone(hash, writer, DeleteRefused(ReadError)), clean := false)
      else if op !in s.names then s.(proc := Gone(hash, writer, NotFound))
      else if writer == [] || s.data[s.names[op]] != writer then s.(proc := Gone(hash, writer, NotOwner))
      else s.(proc := DelShard(hash, writer))
    case DelShard(hash, writer) =>
      if c.Fail? then s.(proc := Gone(hash, writer, ShardStuck), clean := false)
      else s.(proc := DelOwner(hash, writer), names := s.names - {ShardPath(site.dir, hash)})
    case DelOwner(hash, writer) =>
      if c.Fail? then s.(proc := Gone(hash, writer, OwnerStuck), clean := false)
      else s.(proc := Gone(hash, writer, Deleted), names := s.names - {OwnerPath(site.dir, hash)})
    case _ => s
  }

  predicate HolderReady(s: Section) {
    s.proc.PutWrite? || s.proc.PutLink? || s.proc.OwnWrite? || s.proc.OwnLink? ==> s.proc.ino in s.data
  }

  ghost function HolderStep(site: Site, s: Section, c: Choice): (t: Section)
    requires Linked(s.names, s.data) && HolderReady(s)
    ensures s.proc.HoldsLock() ==> t.proc.HoldsLock()
    ensures t == s || !t.proc.Unlock? || !t.proc.outcome.GetEnded?
  {
    if s.proc.PutRead? || s.proc.PutScan? || s.proc.PutTemp? || s.proc.PutWrite? || s.proc.PutLink?
       || s.proc.PutDirSync? then PutStep(site, s, c)
    else if s.proc.DelRead? || s.proc.DelShard? || s.proc.DelOwner? then DeleteStep(site, s, c)
    else OwnerStep(site, s, c)
  }

  // ---------------------------------------------------------------- what a critical section has done so far

  ghost function AfterOutcome(site: Site, files: Files, o: Outcome): Files {
    match o
    case PutEnded(shard, writer, r) => AfterPut(files, site.dir, site.digest(shard), shard, writer, r)
    case DeleteEnded(hash, writer, r) => AfterDelete(files, site.dir, hash, r)
    case GetEnded(_, _, _) => files
  }

  ghost predicate Possible(site: Site, files: Files, o: Outcome) {
    match o
    case PutEnded(shard, writer, r) => PutPossible(files, site.dir, site.quota, site.digest(shard), shard, writer, r)
    case DeleteEnded(hash, writer, r) => DeletePossible(files, site.dir, hash, writer, r)
    case GetEnded(_, _, _) => true
  }

  /** The one way of ending when no operation fails. */
  ghost predicate Exact(site: Site, files: Files, o: Outcome) {
    match o
    case PutEnded(shard, writer, r) => r == PutOutcome(site.digest, files, site.dir, site.quota, shard, writer)
    case DeleteEnded(hash, writer, r) => r == DeleteOutcome(files, site.dir, hash, writer)
    case GetEnded(_, _, _) => true
  }

  /** How the call would count as having ended if it were killed here. */
  function SoFar(c: Proc): Outcome {
    match c
    case PutRead(shard, writer) => PutEnded(shard, writer, Refused(WriteError))
    case PutScan(shard, writer, _, _) => PutEnded(shard, writer, Refused(WriteError))
    case PutTemp(shard, writer) => PutEnded(shard, writer, Refused(WriteError))
    case PutWrite(shard, writer, _) => PutEnded(shard, writer, Refused(WriteError))
    case PutLink(shard, writer, _) => PutEnded(shard, writer, Refused(WriteError))
    case PutDirSync(shard, writer) => PutEnded(shard, writer, ShardLate)
    case OwnTemp(shard, writer) => PutEnded(shard, writer, ShardLate)
    case OwnWrite(shard, writer, _) => PutEnded(shard, writer, ShardLate)
    case OwnLink(shard, writer, _) => PutEnded(shard, writer, ShardLate)
    case OwnDirSync(shard, writer) => PutEnded(shard, writer, Stored)
    case Undo(shard, writer, published) => PutEnded(shard, writer, OwnerFailed(published, false))
    case DelRead(hash, writer) => DeleteEnded(hash, writer, DeleteRefused(ReadError))
    case DelShard(hash, writer) => DeleteEnded(hash, writer, ShardStuck)
    case DelOwner(hash, writer) => DeleteEnded(hash, writer, OwnerStuck)
    case Unlock(o) => o
    case _ => GetEnded("", 0, Absent)
  }

  ghost predicate Room(site: Site, files: Files, shard: Bytes) {
    && ValidHash(site.digest(shard)) && ShardPath(site.dir, site.digest(shard)) !in files
    && (site.quota > 0 ==> |shard| <= site.quota - Usage(files, site.dir))
  }

  ghost predicate Scanned(site: Site, files: Files, shard: Bytes, todo: set<Path>, total: nat) {
    && ValidHash(site.digest(shard)) && ShardPath(site.dir, site.digest(shard)) !in files
    && todo <= files.Keys && (forall p | p in todo :: p.dir == site.dir)
    && Named(todo, site.dir) <= files.Keys
    && total + Total(files, Named(todo, site.dir)) == Usage(files, site.dir)
  }

  /** What the holder relies on at each program counter besides the state of the directory: that the computed usage
      stays exact until the link, and that its temporary file holds what it has written. */
  ghost predicate Remembers(site: Site, entry: Files, s: Section) {
    match s.proc
    case PutScan(shard, _, todo, total) => Scanned(site, entry, shard, todo, total)
    case PutTemp(shard, _) => Room(site, entry, shard)
    case PutWrite(shard, _, ino) => Room(site, entry, shard) && ino in s.data && s.data[ino] <= shard
    case PutLink(shard, _, ino) => Room(site, entry, shard) && ino in s.data && s.data[ino] == shard
    case OwnTemp(_, writer) => writer != []
    case OwnWrite(_, writer, ino) => writer != [] && ino in s.data && s.data[ino] <= writer
    case OwnLink(_, writer, ino) => writer != [] && ino in s.data && s.data[ino] == writer
    case OwnDirSync(_, writer) => writer != []
    case Undo(shard, writer, published) =>
      writer != [] && (s.clean ==> !published && OwnerPath(site.dir, site.digest(shard)) in entry)
    case DelRead(hash, _) => ValidHash(hash)
    case DelShard(hash, _) => ValidHash(hash)
    case DelOwner(hash, _) => ValidHash(hash)
    case Unlock(o) => s.clean ==> Exact(site, entry, o)
    case _ => true
  }

  /** The directory is what it was when the lock was taken, changed by exactly what this call has done. */
  ghost predicate PhaseOK(site: Site, entry: Files, s: Section) {
    && Linked(s.names, s.data) && HolderReady(s)
    && Seen(s.names, s.data) == AfterOutcome(site, entry, SoFar(s.proc))
    && Possible(site, entry, SoFar(s.proc))
    && Remembers(site, entry, s)
    && (forall p | p in s.names :: !s.proc.Owns(s.names[p]))
  }

  /** What a step leaves alone: inodes the call does not own, and every name's inode. */
  ghost predicate Frame(s: Section, t: Section) {
    && (forall i | i in s.data :: i in t.data && (s.proc.Owns(i) || t.data[i] == s.data[i]))
    && (forall i | t.proc.Owns(i) :: s.proc.Owns(i) || i !in s.data)
  }

  lemma WriteFrame(s: Section, ino: nat, bytes: Bytes)
    requires Linked(s.names, s.data) && forall p | p in s.names :: s.names[p] != ino
    ensures Linked(s.names, s.data[ino := bytes]) && Seen(s.names, s.data[ino := bytes]) == Seen(s.names, s.data)
  {
  }

  lemma LinkSeen(s: Section, path: Path, ino: nat)
    requires Linked(s.names, s.data) && ino in s.data
    ensures Linked(s.names[path := ino], s.data)
    ensures Seen(s.names[path := ino], s.data) == Seen(s.names, s.data)[path := s.data[ino]]
  {
  }

  lemma UnlinkSeen(s: Section, path: Path)
    requires Linked(s.names, s.data)
    ensures Linked(s.names - {path}, s.data) && Seen(s.names - {path}, s.data) == Seen(s.names, s.data) - {path}
  {
  }

  lemma ReadKeepsPhase(site: Site, entry: Files, s: Section, c: Choice)
    requires PhaseOK(site, entry, s) && s.proc.PutRead?
    ensures PhaseOK(site, entry, PutStep(site, s, c)) && Frame(s, PutStep(site, s, c))
  {
    hide AfterOutcome, Usage, Total;
    var PutRead(shard, writer) := s.proc;
    var t := PutStep(site, s, c);
    ReadingChangesNothing(site, entry, shard, writer, t.proc);
    if t.proc.PutScan? {
      assert Named(t.proc.todo, site.dir) == ShardsIn(entry, site.dir);
      assert Usage(entry, site.dir) == Total(entry, Named(t.proc.todo, site.dir)) by { FullScan(entry, site.dir); }
    }
  }

  lemma FullScan(files: Files, dir: string)
    ensures Usage(files, dir) == Total(files, ShardsIn(files, dir))
  {
  }

  lemma ReadingChangesNothing(site: Site, entry: Files, shard: Bytes, writer: Bytes, c: Proc)
    requires c.PutRead? || c.PutScan? || c.PutTemp?
             || (c.Unlock? && c.outcome.PutEnded? && (c.outcome.put.Refused? || c.outcome.put.Duplicate?))
    ensures AfterOutcome(site, entry, SoFar(PutRead(shard, writer))) == AfterOutcome(site, entry, SoFar(c)) == entry
  {
  }

  lemma ScanFails(site: Site, entry: Files, s: Section, c: Choice)
    requires PhaseOK(site, entry, s) && s.proc.PutScan? && s.proc.todo != {} && c.Fail?
    ensures PhaseOK(site, entry, PutStep(site, s, c)) && Frame(s, PutStep(site, s, c))
  {
  }

  /** At the end of the scan the total is the exact usage, so the quota decision is the right one. */
  lemma ScanEnds(site: Site, entry: Files, s: Section, c: Choice)
    requires PhaseOK(site, entry, s) && s.proc.PutScan? && s.proc.todo == {}
    ensures PhaseOK(site, entry, PutStep(site, s, c)) && Frame(s, PutStep(site, s, c))
  {
    hide AfterOutcome;
    var PutScan(shard, writer, todo, total) := s.proc;
    ReadingChangesNothing(site, entry, shard, writer, s.proc);
    ReadingChangesNothing(site, entry, shard, writer, PutStep(site, s, c).proc);
    assert Named(todo, site.dir) == {};
    assert total == Usage(entry, site.dir);
    if site.quota > 0 && |shard| > site.quota - total {
      assert Exact(site, entry, PutEnded(shard, writer, Refused(QuotaExceeded)));
    } else {
      assert Room(site, entry, shard);
    }
  }

  lemma ScanContinues(site: Site, entry: Files, s: Section, c: Choice)
    requires PhaseOK(site, entry, s) && s.proc.PutScan? && s.proc.todo != {} && !c.Fail?
    ensures PhaseOK(site, entry, PutStep(site, s, c)) && Frame(s, PutStep(site, s, c))
  {
    hide Usage, PutPossible;
    var PutScan(shard, writer, todo, total) := s.proc;
    var p := NextEntry(todo);
    UsageStep(entry, site.dir, todo, p);
    var size := if ValidHash(p.name) then |entry[p]| else 0;
    assert Scanned(site, entry, shard, todo - {p}, total + size);
    assert PutStep(site, s, c) == s.(proc := PutScan(shard, writer, todo - {p}, total + size));
  }

  lemma TempKeepsPhase(site: Site, entry: Files, s: Section, c: Choice)
    requires PhaseOK(site, entry, s) && s.proc.PutTemp?
    ensures PhaseOK(site, entry, PutStep(site, s, c)) && Frame(s, PutStep(site, s, c))
  {
    if !c.Fail? { WriteFrame(s, FreeInode(s.data.Keys), []); }
  }

  lemma DirSyncKeepsPhase(site: Site, entry: Files, s: Section, c: Choice)
    requires PhaseOK(site, entry, s) && s.proc.PutDirSync?
    ensures PhaseOK(site, entry, PutStep(site, s, c)) && Frame(s, PutStep(site, s, c))
  {
  }

  lemma WriteKeepsPhase(site: Site, entry: Files, s: Section, c: Choice)
    requires PhaseOK(site, entry, s) && s.proc.PutWrite?
    ensures PhaseOK(site, entry, PutStep(site, s, c)) && Frame(s, PutStep(site, s, c))
  {
    hide Usage, AfterPut;
    var t := PutStep(site, s, c);
    WriteFrame(s, s.proc.ino, t.data[s.proc.ino]);
  }

  lemma LinkKeepsPhase(site: Site, entry: Files, s: Section, c: Choice)
    requires PhaseOK(site, entry, s) && s.proc.PutLink?
    ensures PhaseOK(site, entry, PutStep(site, s, c)) && Frame(s, PutStep(site, s, c))
  {
    LinkSeen(s, ShardPath(site.dir, site.digest(s.proc.shard)), s.proc.ino);
  }

  lemma OwnerTempKeepsPhase(site: Site, entry: Files, s: Section, c: Choice)
    requires PhaseOK(site, entry, s) && s.proc.OwnTemp?
    ensures PhaseOK(site, entry, OwnerStep(site, s, c)) && Frame(s, OwnerStep(site, s, c))
  {
    if !c.Fail? { WriteFrame(s, FreeInode(s.data.Keys), []); }
  }

  lemma OwnerWriteKeepsPhase(site: Site, entry: Files, s: Section, c: Choice)
    requires PhaseOK(site, entry, s) && s.proc.OwnWrite?
    ensures PhaseOK(site, entry, OwnerStep(site, s, c)) && Frame(s, OwnerStep(site, s, c))
  {
    hide Usage;
    var t := OwnerStep(site, s, c);
    if t.proc.OwnWrite? { WriteFrame(s, t.proc.ino, t.data[t.proc.ino]); }
  }

  lemma OwnerLinkKeepsPhase(site: Site, entry: Files, s: Section, c: Choice)
    requires PhaseOK(site, entry, s) && s.proc.OwnLink?
    ensures PhaseOK(site, entry, OwnerStep(site, s, c)) && Frame(s, OwnerStep(site, s, c))
  {
    hide AfterOutcome, Usage;
    var OwnLink(shard, writer, ino) := s.proc;
    var op := OwnerPath(site.dir, site.digest(shard));
    RecordingOwner(site, entry, shard, writer, ino);
    assert op in Seen(s.names, s.data) <==> op in s.names;
    LinkSeen(s, op, ino);
    var t := if c.Fail? then s.(proc := Undo(shard, writer, false), clean := false)
             else if op in s.names then s.(proc := Undo(shard, writer, false))
             else s.(proc := OwnDirSync(shard, writer), names := s.names[op := ino]);
    assert OwnerStep(site, s, c) == t;
    hide OwnerStep, Linked, Seen;
    assert PhaseOK(site, entry, t);
  }

  /** The directory while an owner is being recorded: the shard alone, then both. */
  lemma RecordingOwner(site: Site, entry: Files, shard: Bytes, writer: Bytes, ino: nat)
    requires ValidHash(site.digest(shard)) && writer != []
    ensures var sp, op := ShardPath(site.dir, site.digest(shard)), OwnerPath(site.dir, site.digest(shard));
            && sp != op
            && AfterOutcome(site, entry, SoFar(OwnLink(shard, writer, ino))) == entry[sp := shard]
            && AfterOutcome(site, entry, SoFar(Undo(shard, writer, false))) == entry[sp := shard]
            && AfterOutcome(site, entry, SoFar(OwnDirSync(shard, writer))) == entry[sp := shard][op := writer]
  {
    OwnerPathDistinct(site.dir, site.digest(shard), site.digest(shard));
  }

  lemma OwnerSyncKeepsPhase(site: Site, entry: Files, s: Section, c: Choice)
    requires PhaseOK(site, entry, s) && s.proc.OwnDirSync?
    ensures PhaseOK(site, entry, OwnerStep(site, s, c)) && Frame(s, OwnerStep(site, s, c))
  {
    var h := site.digest(s.proc.shard);
    OwnerPathDistinct(site.dir, h, h);
    AfterCleanup(entry, site.dir, h, s.proc.shard, s.proc.writer, true, false);
  }

  lemma UndoKeepsPhase(site: Site, entry: Files, s: Section, c: Choice)
    requires PhaseOK(site, entry, s) && s.proc.Undo?
    ensures PhaseOK(site, entry, OwnerStep(site, s, c)) && Frame(s, OwnerStep(site, s, c))
  {
    hide Usage, AfterPut;
    var h := site.digest(s.proc.shard);
    AfterCleanup(entry, site.dir, h, s.proc.shard, s.proc.writer, s.proc.published, false);
    AfterCleanup(entry, site.dir, h, s.proc.shard, s.proc.writer, s.proc.published, true);
    UnlinkSeen(s, ShardPath(site.dir, h));
  }

  lemma DelReadKeepsPhase(site: Site, entry: Files, s: Section, c: Choice)
    requires PhaseOK(site, entry, s) && s.proc.DelRead?
    ensures PhaseOK(site, entry, DeleteStep(site, s, c)) && Frame(s, DeleteStep(site, s, c))
  {
    hide AfterOutcome, Usage, PutPossible;
    var DelRead(hash, writer) := s.proc;
    var t := DeleteStep(site, s, c);
    LookingChangesNothing(site, entry, hash, writer, t.proc);
    assert Seen(s.names, s.data) == entry;
    assert OwnerPath(site.dir, hash) in Seen(s.names, s.data) <==> OwnerPath(site.dir, hash) in s.names;
  }

  lemma LookingChangesNothing(site: Site, entry: Files, hash: string, writer: Bytes, c: Proc)
    requires c.DelShard?
             || (c.Unlock? && c.outcome.DeleteEnded? && !c.outcome.delete.Deleted? && !c.outcome.delete.OwnerStuck?)
    ensures AfterOutcome(site, entry, SoFar(DelRead(hash, writer))) == AfterOutcome(site, entry, SoFar(c)) == entry
  {
  }

  lemma DelShardKeepsPhase(site: Site, entry: Files, s: Section, c: Choice)
    requires PhaseOK(site, entry, s) && s.proc.DelShard?
    ensures PhaseOK(site, entry, DeleteStep(site, s, c)) && Frame(s, DeleteStep(site, s, c))
  {
    hide AfterPut, PutPossible, Usage;
    UnlinkSeen(s, ShardPath(site.dir, s.proc.hash));
  }

  lemma DelOwnerKeepsPhase(site: Site, entry: Files, s: Section, c: Choice)
    requires PhaseOK(site, entry, s) && s.proc.DelOwner?
    ensures PhaseOK(site, entry, DeleteStep(site, s, c)) && Frame(s, DeleteStep(site, s, c))
  {
    hide AfterPut, PutPossible, Usage;
    var sp, op := ShardPath(site.dir, s.proc.hash), OwnerPath(site.dir, s.proc.hash);
    UnlinkSeen(s, op);
    assert entry - {sp} - {op} == entry - {sp, op};
  }

  /** Every step of the lock holder keeps its own account of the directory right. */
  lemma HolderKeepsPhase(site: Site, entry: Files, s: Section, c: Choice)
    requires PhaseOK(site, entry, s)
    ensures PhaseOK(site, entry, HolderStep(site, s, c)) && Frame(s, HolderStep(site, s, c))
  {
    hide AfterOutcome, Possible, Remembers;
    match s.proc {
      case PutRead(_, _) => ReadKeepsPhase(site, entry, s, c);
      case PutScan(_, _, todo, _) =>
        if todo == {} { ScanEnds(site, entry, s, c); }
        else if c.Fail? { ScanFails(site, entry, s, c); }
        else { ScanContinues(site, entry, s, c); }
      case PutTemp(_, _) => TempKeepsPhase(site, entry, s, c);
      case PutWrite(_, _, _) => WriteKeepsPhase(site, entry, s, c);
      case PutLink(_, _, _) => LinkKeepsPhase(site, entry, s, c);
      case PutDirSync(_, _) => DirSyncKeepsPhase(site, entry, s, c);
      case OwnTemp(_, _) => OwnerTempKeepsPhase(site, entry, s, c);
      case OwnWrite(_, _, _) => OwnerWriteKeepsPhase(site, entry, s, c);
      case OwnLink(_, _, _) => OwnerLinkKeepsPhase(site, entry, s, c);
      case OwnDirSync(_, _) => OwnerSyncKeepsPhase(site, entry, s, c);
      case Undo(_, _, _) => UndoKeepsPhase(site, entry, s, c);
      case DelRead(_, _) => DelReadKeepsPhase(site, entry, s, c);
      case DelShard(_, _) => DelShardKeepsPhase(site, entry, s, c);
      case DelOwner(_, _) => DelOwnerKeepsPhase(site, entry, s, c);
      case _ => assert HolderStep(site, s, c) == s;
    }
  }

  // ---------------------------------------------------------------- the whole machine

  ghost predicate Valid(s: State) {
    Linked(s.names, s.data)
  }

  ghost function ViewOf(s: State): Files
    requires Valid(s)
  {
    Seen(s.names, s.data)
  }

  function Holding(s: State, p: nat): Section
    requires p in s.procs
  {
    Section(s.procs[p], s.names, s.data, s.clean)
  }

  function Begin(op: Op, clock: nat): Proc {
    match op
    case Put(_, _) => Wait(op)
    case Delete(hash, writer) => if ValidHash(hash) then Wait(op)
                                 else Finished(DeleteEnded(hash, writer, DeleteRefused(InvalidHash)))
    case Get(hash) => if ValidHash(hash) then GetOpen(hash, clock) else Finished(GetEnded(hash, clock, BadName))
  }

  function Locked(op: Op): Proc {
    match op
    case Put(shard, writer) => PutRead(shard, writer)
    case Delete(hash, writer) => DelRead(hash, writer)
    case Get(hash) => GetOpen(hash, 0)
  }

  function NotLocked(op: Op): Outcome {
    match op
    case Put(shard, writer) => PutEnded(shard, writer, Refused(LockError))
    case Delete(hash, writer) => DeleteEnded(hash, writer, DeleteRefused(LockError))
    case Get(hash) => GetEnded(hash, 0, Unreadable)
  }

  /** Readers: open the name, then read the inode piece by piece until the end of the file. */
  function ReadStep(site: Site, s: State, c: Proc, choice: Choice): Proc {
    match c
    case GetOpen(hash, born) =>
      var sp := ShardPath(site.dir, hash);
      if choice.Fail? then Finished(GetEnded(hash, born, Unreadable))
      else if sp !in s.names then Finished(GetEnded(hash, born, Absent))
      else GetRead(hash, born, s.names[sp], [])
    case GetRead(hash, born, ino, got) =>
      if choice.Fail? || ino !in s.data then Finished(GetEnded(hash, born, Unreadable))
      else if |got| >= |s.data[ino]| then
        Finished(GetEnded(hash, born, if site.digest(got) != hash then Unreadable else Found(got)))
      else GetRead(hash, born, ino, got + Take(s.data[ino], |got|, choice))
    case _ => c
  }

  /** A call moves. A call waiting for a lock somebody holds stays where it is. */
  ghost function MoveStep(site: Site, s: State, p: nat, choice: Choice): State
    requires Valid(s) && p in s.procs && (s.procs[p].HoldsLock() ==> HolderReady(Holding(s, p)))
  {
    var c := s.procs[p];
    match c
    case Wait(op) =>
      if s.lock.Some? || op.Get? then s
      else if choice.Fail? then
        s.(procs := s.procs[p := Finished(NotLocked(op))])
      else s.(procs := s.procs[p := Locked(op)], lock := Some(p), entry := ViewOf(s), clean := true)
    case Unlock(o) =>
      s.(procs := s.procs[p := Finished(o)], lock := None, log := s.log + [Commit(p, s.entry, o, ViewOf(s), s.clean)])
    case GetOpen(_, _) => s.(procs := s.procs[p := ReadStep(site, s, c, choice)])
    case GetRead(_, _, _, _) => s.(procs := s.procs[p := ReadStep(site, s, c, choice)])
    case Finished(_) => s
    case _ =>
      var t := HolderStep(site, Holding(s, p), choice);
      s.(procs := s.procs[p := t.proc], names := t.names, data := t.data, clean := t.clean)
  }

  /** Killing callers releases their lock; what they had done to the directory stays. */
  ghost function KillStep(s: State, ps: set<nat>): State
    requires Valid(s)
  {
    var dead := s.lock.Some? && s.lock.value in ps && s.lock.value in s.procs;
    s.(procs := s.procs - ps,
       lock := if dead then None else s.lock,
       log := if dead then s.log + [Commit(s.lock.value, s.entry, SoFar(s.procs[s.lock.value]), ViewOf(s), false)]
              else s.log)
  }

  ghost predicate Ready(s: State) {
    Valid(s) && forall p | p in s.procs && s.procs[p].HoldsLock() :: HolderReady(Holding(s, p))
  }

  ghost function Act(site: Site, s: State, a: Action): (t: State)
    requires Ready(s)
  {
    match a
    case Invoke(p, op) => if p in s.procs && !s.procs[p].Finished? then s
                         else s.(procs := s.procs[p := Begin(op, s.clock)], since := s.since[p := |s.log|])
    case Move(p, choice) => if p in s.procs then MoveStep(site, s, p, choice) else s
    case Kill(ps) => KillStep(s, ps)
  }

  ghost function Next(site: Site, s: State, a: Action): State
    requires Ready(s)
  {
    Act(site, s, a).(clock := s.clock + 1)
  }

  // ---------------------------------------------------------------- the invariant

  /** The log is a sequential history: each section starts from the files the one before it left, and changes them
      exactly as its ending says; a section in which nothing failed ends in the one fault-free way. */
  ghost predicate Serial(site: Site, first: Files, log: seq<Commit>, last: Files) {
    if log == [] then first == last
    else
      var n := |log| - 1;
      && Serial(site, first, log[..n], log[n].before)
      && log[n].after == last && log[n].after == AfterOutcome(site, log[n].before, log[n].outcome)
      && Possible(site, log[n].before, log[n].outcome)
      && (log[n].clean ==> Exact(site, log[n].before, log[n].outcome))
  }

  ghost predicate LockOK(s: State) {
    && (forall p | p in s.procs && s.procs[p].HoldsLock() :: s.lock == Some(p))
    && (s.lock.Some? ==> s.lock.value in s.procs && s.procs[s.lock.value].HoldsLock())
  }

  /** A reader's inode is complete, and the lock holder never writes it. */
  ghost predicate ReaderOK(site: Site, s: State, c: Proc) {
    c.GetRead? ==>
      && c.ino in s.data && c.got <= s.data[c.ino]
      && (s.lock.Some? && s.lock.value in s.procs ==> !s.procs[s.lock.value].Owns(c.ino))
  }

  /** Names are checked before anything else, and no read ends holding the lock. */
  predicate NameOK(c: Proc) {
    && (c.Unlock? ==> !c.outcome.GetEnded?)
    && (c.Wait? ==> !c.op.Get? && (c.op.Delete? ==> ValidHash(c.op.hash)))
    && (c.GetOpen? ==> ValidHash(c.hash))
  }

  ghost predicate Invariant(site: Site, first: Files, s: State) {
    && Valid(s) && LockOK(s)
    && (s.lock.Some? ==> PhaseOK(site, s.entry, Holding(s, s.lock.value)))
    && (forall p | p in s.procs :: ReaderOK(site, s, s.procs[p]))
    && (forall p | p in s.procs :: NameOK(s.procs[p]))
    && Serial(site, first, s.log, if s.lock.Some? then s.entry else ViewOf(s))
  }

  lemma {:induction false} SerialGrows(site: Site, first: Files, log: seq<Commit>, c: Commit)
    requires Serial(site, first, log, c.before)
    requires c.after == AfterOutcome(site, c.before, c.outcome) && Possible(site, c.before, c.outcome)
    requires c.clean ==> Exact(site, c.before, c.outcome)
    ensures Serial(site, first, log + [c], c.after)
  {
    assert (log + [c])[..|log|] == log;
  }

  lemma HolderKeepsInvariant(site: Site, first: Files, s: State, p: nat, choice: Choice)
    requires Invariant(site, first, s) && p in s.procs && s.procs[p].HoldsLock() && !s.procs[p].Unlock?
    ensures Invariant(site, first, MoveStep(site, s, p, choice))
  {
    hide AfterOutcome, Possible, Exact, Serial, HolderStep;
    var h := Holding(s, p);
    HolderKeepsPhase(site, s.entry, h, choice);
    var t := MoveStep(site, s, p, choice);
    assert t.procs[p] == HolderStep(site, h, choice).proc;
    assert Holding(t, p) == HolderStep(site, h, choice);
    forall q | q in t.procs ensures ReaderOK(site, t, t.procs[q]) {
      if q != p { assert ReaderOK(site, s, s.procs[q]); }
    }
  }

  lemma UnlockKeepsInvariant(site: Site, first: Files, s: State, p: nat, choice: Choice)
    requires Invariant(site, first, s) && p in s.procs && s.procs[p].Unlock?
    ensures Invariant(site, first, MoveStep(site, s, p, choice))
  {
    hide AfterOutcome, Possible, Exact, Serial;
    var o := s.procs[p].outcome;
    var t := MoveStep(site, s, p, choice);
    SerialGrows(site, first, s.log, Commit(p, s.entry, o, ViewOf(s), s.clean));
    forall q | q in t.procs ensures ReaderOK(site, t, t.procs[q]) {
      if q != p { assert ReaderOK(site, s, s.procs[q]); }
    }
  }

  lemma LockKeepsInvariant(site: Site, first: Files, s: State, p: nat)
    requires Invariant(site, first, s) && p in s.procs && s.procs[p].Wait? && !s.procs[p].op.Get? && s.lock.None?
    ensures Invariant(site, first, MoveStep(site, s, p, Go))
  {
    hide Serial;
    var t := MoveStep(site, s, p, Go);
    assert PhaseOK(site, t.entry, Holding(t, p));
    forall q | q in t.procs ensures ReaderOK(site, t, t.procs[q]) {
      if q != p { assert ReaderOK(site, s, s.procs[q]); }
    }
  }

  lemma WaitKeepsInvariant(site: Site, first: Files, s: State, p: nat, choice: Choice)
    requires Invariant(site, first, s) && p in s.procs && s.procs[p].Wait?
    ensures Invariant(site, first, MoveStep(site, s, p, choice))
  {
    var t := MoveStep(site, s, p, choice);
    if s.lock.None? && !s.procs[p].op.Get? && !choice.Fail? {
      LockKeepsInvariant(site, first, s, p);
    } else {
      forall q | q in t.procs ensures ReaderOK(site, t, t.procs[q]) {
        if q != p { assert ReaderOK(site, s, s.procs[q]); }
      }
    }
  }

  /** A reader opens only what is linked, and so complete; reading on keeps a prefix of it. */
  lemma ReaderStaysOK(site: Site, first: Files, s: State, p: nat, choice: Choice)
    requires Invariant(site, first, s) && p in s.procs && (s.procs[p].GetOpen? || s.procs[p].GetRead?)
    ensures var c := ReadStep(site, s, s.procs[p], choice); ReaderOK(site, s, c) && NameOK(c) && !c.HoldsLock()
  {
    hide AfterOutcome, Possible, Exact, Serial;
    assert ReaderOK(site, s, s.procs[p]);
    if s.procs[p].GetOpen? {
      var sp := ShardPath(site.dir, s.procs[p].hash);
      assert sp in s.names ==> sp in ViewOf(s);
    }
  }

  lemma ReadKeepsInvariant(site: Site, first: Files, s: State, p: nat, choice: Choice)
    requires Invariant(site, first, s) && p in s.procs && (s.procs[p].GetOpen? || s.procs[p].GetRead?)
    ensures Invariant(site, first, MoveStep(site, s, p, choice))
  {
    hide AfterOutcome, Possible, Exact, Serial, ReadStep;
    var t := MoveStep(site, s, p, choice);
    ReaderStaysOK(site, first, s, p, choice);
    forall q | q in t.procs ensures ReaderOK(site, t, t.procs[q]) {
      if q != p { assert ReaderOK(site, s, s.procs[q]); }
    }
  }

  lemma KillKeepsInvariant(site: Site, first: Files, s: State, ps: set<nat>)
    requires Invariant(site, first, s)
    ensures Invariant(site, first, KillStep(s, ps))
  {
    hide AfterOutcome, Possible, Exact, Serial;
    var t := KillStep(s, ps);
    if s.lock.Some? && s.lock.value in ps {
      var o := SoFar(s.procs[s.lock.value]);
      SerialGrows(site, first, s.log, Commit(s.lock.value, s.entry, o, ViewOf(s), false));
    }
    forall q | q in t.procs ensures ReaderOK(site, t, t.procs[q]) { assert ReaderOK(site, s, s.procs[q]); }
  }

  lemma InvokeKeepsInvariant(site: Site, first: Files, s: State, p: nat, op: Op)
    requires Invariant(site, first, s) && (p in s.procs ==> s.procs[p].Finished?)
    ensures Invariant(site, first, s.(procs := s.procs[p := Begin(op, s.clock)], since := s.since[p := |s.log|]))
  {
    hide AfterOutcome, Possible, Exact, Serial;
    var t := s.(procs := s.procs[p := Begin(op, s.clock)], since := s.since[p := |s.log|]);
    forall q | q in t.procs ensures ReaderOK(site, t, t.procs[q]) {
      if q != p { assert ReaderOK(site, s, s.procs[q]); }
    }
  }

  lemma MoveKeepsInvariant(site: Site, first: Files, s: State, p: nat, choice: Choice)
    requires Invariant(site, first, s) && p in s.procs
    ensures Invariant(site, first, MoveStep(site, s, p, choice))
  {
    var c := s.procs[p];
    if c.Wait? { WaitKeepsInvariant(site, first, s, p, choice); }
    else if c.Unlock? { UnlockKeepsInvariant(site, first, s, p, choice); }
    else if c.GetOpen? || c.GetRead? { ReadKeepsInvariant(site, first, s, p, choice); }
    else if c.HoldsLock() { HolderKeepsInvariant(site, first, s, p, choice); }
    else { assert MoveStep(site, s, p, choice) == s; }
  }

  lemma InvariantReady(site: Site, first: Files, s: State)
    requires Invariant(site, first, s)
    ensures Ready(s)
  {
  }

  lemma ActKeepsInvariant(site: Site, first: Files, s: State, a: Action)
    requires Invariant(site, first, s) && Ready(s)
    ensures Invariant(site, first, Act(site, s, a))
  {
    match a {
      case Invoke(p, op) =>
        if p !in s.procs || s.procs[p].Finished? { InvokeKeepsInvariant(site, first, s, p, op); }
      case Kill(ps) => KillKeepsInvariant(site, first, s, ps);
      case Move(p, choice) =>
        if p in s.procs { MoveKeepsInvariant(site, first, s, p, choice); }
    }
  }

  lemma NextKeepsInvariant(site: Site, first: Files, s: State, a: Action)
    requires Invariant(site, first, s) && Ready(s)
    ensures Invariant(site, first, Next(site, s, a))
  {
    ActKeepsInvariant(site, first, s, a);
    ClockIrrelevant(site, first, Act(site, s, a), s.clock + 1);
  }

  lemma ClockIrrelevant(site: Site, first: Files, s: State, clock: nat)
    requires Invariant(site, first, s)
    ensures Invariant(site, first, s.(clock := clock))
  {
    var t := s.(clock := clock);
    forall q | q in t.procs ensures ReaderOK(site, t, t.procs[q]) { assert ReaderOK(site, s, s.procs[q]); }
  }

  // ---------------------------------------------------------------- runs

  /** A directory found at the start, with any files whatever, and nobody using it. */
  ghost predicate Fresh(s: State) {
    Valid(s) && s.procs == map[] && s.lock == None && s.log == [] && s.clock == 0 && s.since == map[]
  }

  /** Any interleaving of any calls, with failures and kills wherever the actions put them. */
  ghost function Run(site: Site, start: State, actions: seq<Action>): (end: State)
    requires Fresh(start)
    ensures Invariant(site, ViewOf(start), end) && Ready(end) && end.clock == |actions|
    decreases |actions|
  {
    if actions == [] then start
    else
      var n := |actions| - 1;
      var s := Run(site, start, actions[..n]);
      NextKeepsInvariant(site, ViewOf(start), s, actions[n]);
      InvariantReady(site, ViewOf(start), Next(site, s, actions[n]));
      Next(site, s, actions[n])
  }

  /** Every run is a sequential history of whole critical sections, plus the one in progress: at most one call
      holds the lock, and the directory is what the history and that call's own account say. */
  lemma RunsAreSerial(site: Site, start: State, actions: seq<Action>)
    requires Fresh(start)
    ensures var end := Run(site, start, actions);
            && (forall p, q | p in end.procs && q in end.procs && end.procs[p].HoldsLock()
                              && end.procs[q].HoldsLock() :: p == q)
            && (end.lock.None? ==> Serial(site, ViewOf(start), end.log, ViewOf(end)))
            && (end.lock.Some? ==>
                  && end.lock.value in end.procs && Serial(site, ViewOf(start), end.log, end.entry)
                  && ViewOf(end) == AfterOutcome(site, end.entry, SoFar(end.procs[end.lock.value]))
                  && Possible(site, end.entry, SoFar(end.procs[end.lock.value])))
  {
    var end := Run(site, start, actions);
    assert Invariant(site, ViewOf(start), end);
  }

  lemma OutcomeKeepsQuota(site: Site, files: Files, o: Outcome)
    requires site.quota > 0 && Possible(site, files, o)
    ensures Usage(AfterOutcome(site, files, o), site.dir) <= Max(site.quota, Usage(files, site.dir))
  {
    match o {
      case PutEnded(shard, writer, r) =>
        PutKeepsQuota(files, site.dir, site.quota, site.digest(shard), shard, writer, r);
      case DeleteEnded(hash, writer, r) => DeleteKeepsUsage(files, site.dir, hash, writer, r);
      case GetEnded(_, _, _) =>
    }
  }

  lemma {:induction false} SerialKeepsQuota(site: Site, first: Files, log: seq<Commit>, last: Files)
    requires site.quota > 0 && Serial(site, first, log, last)
    ensures Usage(last, site.dir) <= Max(site.quota, Usage(first, site.dir))
  {
    if log != [] {
      var n := |log| - 1;
      SerialKeepsQuota(site, first, log[..n], log[n].before);
      OutcomeKeepsQuota(site, log[n].before, log[n].outcome);
    }
  }

  /** The quota under every interleaving, failure and kill: hash-named files never exceed the larger of the
      quota and what was there at the start. */
  lemma QuotaHolds(site: Site, start: State, actions: seq<Action>)
    requires Fresh(start) && site.quota > 0
    ensures Usage(ViewOf(Run(site, start, actions)), site.dir) <= Max(site.quota, Usage(ViewOf(start), site.dir))
  {
    var end := Run(site, start, actions);
    SerialKeepsQuota(site, ViewOf(start), end.log, if end.lock.Some? then end.entry else ViewOf(end));
    if end.lock.Some? { OutcomeKeepsQuota(site, end.entry, SoFar(end.procs[end.lock.value])); }
  }

  /** Some put among these outcomes brought exactly this shard, or this owner of this hash. */
  ghost predicate Brought(site: Site, os: seq<Outcome>, p: Path, bytes: Bytes) {
    exists i | 0 <= i < |os| :: Brings(site, os[i], p, bytes)
  }

  predicate Brings(site: Site, o: Outcome, p: Path, bytes: Bytes) {
    && o.PutEnded?
    && ((p == ShardPath(site.dir, site.digest(o.shard)) && bytes == o.shard)
        || (p == OwnerPath(site.dir, site.digest(o.shard)) && bytes == o.writer && bytes != []))
  }

  ghost predicate Accounted(site: Site, first: Files, os: seq<Outcome>, files: Files) {
    forall p | p in files :: (p in first && first[p] == files[p]) || Brought(site, os, p, files[p])
  }

  function OutcomesOf(log: seq<Commit>): seq<Outcome> {
    seq(|log|, i requires 0 <= i < |log| => log[i].outcome)
  }

  lemma AccountedNext(site: Site, first: Files, os: seq<Outcome>, files: Files, o: Outcome)
    requires Accounted(site, first, os, files) && Possible(site, files, o)
    ensures Accounted(site, first, os + [o], AfterOutcome(site, files, o))
  {
    var after := AfterOutcome(site, files, o);
    forall p | p in after ensures (p in first && first[p] == after[p]) || Brought(site, os + [o], p, after[p]) {
      if p in files && files[p] == after[p] {
        if Brought(site, os, p, files[p]) {
          var i :| 0 <= i < |os| && Brings(site, os[i], p, files[p]);
          assert (os + [o])[i] == os[i];
        }
      } else {
        assert (os + [o])[|os|] == o;
        assert Brings(site, o, p, after[p]);
      }
    }
  }

  lemma {:induction false} SerialAccounts(site: Site, first: Files, log: seq<Commit>, last: Files)
    requires Serial(site, first, log, last)
    ensures Accounted(site, first, OutcomesOf(log), last)
  {
    if log != [] {
      var n := |log| - 1;
      SerialAccounts(site, first, log[..n], log[n].before);
      AccountedNext(site, first, OutcomesOf(log[..n]), log[n].before, log[n].outcome);
      assert OutcomesOf(log) == OutcomesOf(log[..n]) + [log[n].outcome];
    }
  }

  /** Nothing partial is ever visible: in every reachable state each file of the directory was there at the start or is
      the complete shard, or the complete non-empty owner record, that some put brought. */
  lemma NothingPartial(site: Site, start: State, actions: seq<Action>)
    requires Fresh(start)
    ensures var end := Run(site, start, actions);
            end.lock.Some? ==> end.lock.value in end.procs
    ensures var end := Run(site, start, actions);
            Accounted(site, ViewOf(start),
                      OutcomesOf(end.log) + if end.lock.Some? then [SoFar(end.procs[end.lock.value])]
                                            else [], ViewOf(end))
  {
    hide Accounted, AfterOutcome, Possible;
    var end := Run(site, start, actions);
    RunsAreSerial(site, start, actions);
    SerialAccounts(site, ViewOf(start), end.log, if end.lock.Some? then end.entry else ViewOf(end));
    if end.lock.Some? {
      AccountedNext(site, ViewOf(start), OutcomesOf(end.log), end.entry, SoFar(end.procs[end.lock.value]));
    } else {
      assert OutcomesOf(end.log) + [] == OutcomesOf(end.log);
    }
  }

  /** In every reachable state every hash-named file hashes to its name, unless it is one found at the start that does
      not. */
  lemma ContentAddressed(site: Site, start: State, actions: seq<Action>)
    requires Fresh(start)
    ensures var end := Run(site, start, actions);
            forall p | p in ViewOf(end) && IsShard(site.dir, p) ::
              site.digest(ViewOf(end)[p]) == p.name || (p in ViewOf(start) && ViewOf(start)[p] == ViewOf(end)[p])
    ensures Addressed(site.digest, site.dir, ViewOf(start)) ==>
              Addressed(site.digest, site.dir, ViewOf(Run(site, start, actions)))
  {
    var end := Run(site, start, actions);
    NothingPartial(site, start, actions);
    var os := OutcomesOf(end.log) + if end.lock.Some? then [SoFar(end.procs[end.lock.value])] else [];
    forall p | p in ViewOf(end) && IsShard(site.dir, p)
      ensures site.digest(ViewOf(end)[p]) == p.name || (p in ViewOf(start) && ViewOf(start)[p] == ViewOf(end)[p])
    {
      if Brought(site, os, p, ViewOf(end)[p]) { BroughtByName(site, os, p, ViewOf(end)[p]); }
    }
  }

  lemma BroughtByName(site: Site, os: seq<Outcome>, p: Path, bytes: Bytes)
    requires Brought(site, os, p, bytes) && IsShard(site.dir, p)
    ensures site.digest(bytes) == p.name
  {
    var i :| 0 <= i < |os| && Brings(site, os[i], p, bytes);
    OwnerIsNoShard(site.dir, site.digest(os[i].shard));
  }

  lemma OwnerIsNoShard(dir: string, h: string)
    ensures !IsShard(dir, OwnerPath(dir, h))
  {
    assert OwnerPath(dir, h).name[|h|] == '.';
  }

  // ---------------------------------------------------------------- what one action changes

  lemma HolderTouchesOne(site: Site, s: State, p: nat, choice: Choice)
    requires Ready(s) && p in s.procs && s.procs[p].HoldsLock() && !s.procs[p].Unlock?
    ensures var t, h := MoveStep(site, s, p, choice), HolderStep(site, Holding(s, p), choice);
            t.procs == s.procs[p := h.proc] && t.log == s.log && t.since == s.since
  {
    hide HolderStep, HolderReady;
  }

  lemma OthersTouchOne(site: Site, s: State, p: nat, choice: Choice)
    requires Ready(s) && p in s.procs && (!s.procs[p].HoldsLock() || s.procs[p].Unlock?)
    ensures var t := MoveStep(site, s, p, choice); t.procs - {p} == s.procs - {p} && t.since == s.since
  {
    hide HolderStep, HolderReady, ReadStep, Locked, NotLocked, Seen;
    var c, t := s.procs[p], MoveStep(site, s, p, choice);
    if c.Unlock? {
      assert t.procs == s.procs[p := Finished(c.outcome)];
    } else if c.GetOpen? || c.GetRead? {
      assert t.procs == s.procs[p := ReadStep(site, s, c, choice)];
    } else if c.Wait? {
      assert t.procs == s.procs || t.procs == s.procs[p := Finished(NotLocked(c.op))]
             || t.procs == s.procs[p := Locked(c.op)];
    } else {
      assert t == s;
    }
  }

  lemma OthersLeaveFiles(site: Site, s: State, p: nat, choice: Choice)
    requires Ready(s) && p in s.procs && (!s.procs[p].HoldsLock() || s.procs[p].Unlock?)
    ensures var c, t := s.procs[p], MoveStep(site, s, p, choice);
            && t.names == s.names && t.data == s.data
            && t.log == s.log + if c.Unlock? then [Commit(p, s.entry, c.outcome, ViewOf(s), s.clean)] else []
  {
    hide HolderStep, HolderReady, ReadStep, Locked, NotLocked, Seen;
  }

  lemma MoveTouchesOne(site: Site, s: State, p: nat, choice: Choice, q: nat)
    requires Ready(s) && p in s.procs && q != p
    ensures var t := MoveStep(site, s, p, choice);
            (q in t.procs <==> q in s.procs) && (q in s.procs ==> t.procs[q] == s.procs[q]) && t.since == s.since
  {
    hide HolderStep, MoveStep, HolderReady;
    var t := MoveStep(site, s, p, choice);
    if s.procs[p].HoldsLock() && !s.procs[p].Unlock? {
      HolderTouchesOne(site, s, p, choice);
    } else {
      OthersTouchOne(site, s, p, choice);
      assert q in t.procs <==> q in t.procs - {p};
      assert q in s.procs <==> q in s.procs - {p};
      assert q in t.procs ==> t.procs[q] == (t.procs - {p})[q];
    }
  }

  // ---------------------------------------------------------------- what callers are told

  /** An ending before the lock was ever held: nothing was done. */
  predicate RefusedEarly(o: Outcome) {
    match o
    case PutEnded(_, _, r) => r == Refused(LockError)
    case DeleteEnded(_, _, r) => r == DeleteRefused(LockError) || r == DeleteRefused(InvalidHash)
    case GetEnded(_, _, _) => false
  }

  /** None of the sections from `k` on is this caller's. */
  ghost predicate NoneSince(log: seq<Commit>, k: nat, p: nat) {
    k <= |log| && forall i | k <= i < |log| :: log[i].caller != p
  }

  /** Exactly one of the sections from `k` on is this caller's, and it ended like this. */
  ghost predicate OneSince(log: seq<Commit>, k: nat, p: nat, o: Outcome) {
    exists i | k <= i < |log| :: SectionOf(log[i], p, o) && NoneSince(log[..i], k, p) && NoneSince(log, i + 1, p)
  }

  predicate SectionOf(c: Commit, p: nat, o: Outcome) {
    c.caller == p && c.outcome == o
  }

  /** A call invoked when the log had `k` entries has one section from there on if it was told of one, and none while it
      goes on, if it was refused early, or if it only reads. */
  ghost predicate Told(log: seq<Commit>, k: nat, p: nat, c: Proc) {
    if c.Finished? && !c.outcome.GetEnded?
    then (RefusedEarly(c.outcome) && NoneSince(log, k, p)) || OneSince(log, k, p, c.outcome)
    else NoneSince(log, k, p)
  }

  lemma LogGrows(site: Site, s: State, a: Action)
    requires Ready(s)
    ensures s.log <= Next(site, s, a).log
  {
    hide HolderStep, HolderReady, MoveStep, SoFar;
    if a.Move? && a.p in s.procs { MoveLogs(site, s, a.p, a.choice); }
  }

  lemma MoveLogs(site: Site, s: State, p: nat, choice: Choice)
    requires Ready(s) && p in s.procs
    ensures var t := MoveStep(site, s, p, choice);
            t.log == s.log || (|t.log| == |s.log| + 1 && s.log <= t.log && t.log[|s.log|].caller == p)
  {
    hide HolderStep, HolderReady, MoveStep;
    if s.procs[p].HoldsLock() && !s.procs[p].Unlock? {
      HolderTouchesOne(site, s, p, choice);
    } else {
      OthersLeaveFiles(site, s, p, choice);
    }
  }

  /** One action logs at most one section; a call that does not itself move does not own it. */
  lemma OthersLog(site: Site, s: State, a: Action, p: nat)
    requires Ready(s) && p in Next(site, s, a).procs && !(a.Move? && a.p == p)
    ensures var t := Next(site, s, a);
            t.log == s.log || (|t.log| == |s.log| + 1 && s.log <= t.log && t.log[|s.log|].caller != p)
  {
    hide HolderStep, HolderReady, MoveStep, SoFar;
    if a.Move? && a.p in s.procs { MoveLogs(site, s, a.p, a.choice); }
  }

  lemma StillTold(log: seq<Commit>, more: seq<Commit>, k: nat, p: nat, c: Proc)
    requires Told(log, k, p, c)
    requires more == log || (|more| == |log| + 1 && log <= more && more[|log|].caller != p)
    ensures Told(more, k, p, c)
  {
    if c.Finished? && OneSince(log, k, p, c.outcome) {
      var i :| k <= i < |log| && SectionOf(log[i], p, c.outcome) && NoneSince(log[..i], k, p)
               && NoneSince(log, i + 1, p);
      assert more[..i] == log[..i] && SectionOf(more[i], p, c.outcome);
    }
  }

  lemma OwnSection(log: seq<Commit>, k: nat, c: Commit)
    requires NoneSince(log, k, c.caller)
    ensures OneSince(log + [c], k, c.caller, c.outcome)
  {
    var more, i := log + [c], |log|;
    assert more[..i] == log;
    assert SectionOf(more[i], c.caller, c.outcome);
  }

  lemma MoverIsTold(site: Site, s: State, p: nat, choice: Choice)
    requires Ready(s) && p in s.procs && p in s.since && Told(s.log, s.since[p], p, s.procs[p]) && NameOK(s.procs[p])
    ensures var t := MoveStep(site, s, p, choice); t.since == s.since && Told(t.log, t.since[p], p, t.procs[p])
  {
    hide HolderStep, ReadStep, SoFar, OneSince, NoneSince;
    var c := s.procs[p];
    if c.Unlock? {
      OwnSection(s.log, s.since[p], Commit(p, s.entry, c.outcome, ViewOf(s), s.clean));
    } else if c.GetOpen? || c.GetRead? {
      ReadEndsAsRead(site, s, c, choice);
    } else if c.HoldsLock() {
      HolderTouchesOne(site, s, p, choice);
      assert HolderStep(site, Holding(s, p), choice).proc.HoldsLock();
    }
  }

  lemma ReadEndsAsRead(site: Site, s: State, c: Proc, choice: Choice)
    requires c.GetOpen? || c.GetRead?
    ensures var t := ReadStep(site, s, c, choice); t.Finished? ==> t.outcome.GetEnded?
  {
  }

  lemma SinceMoves(site: Site, s: State, a: Action, q: nat)
    requires Ready(s)
    ensures var t := Next(site, s, a);
            && (q in s.since ==> q in t.since && (t.since[q] == s.since[q] || t.since[q] == |s.log|))
            && (Invokes(s, a, q) ==> q in t.since && t.since[q] == |s.log|)
  {
    hide HolderStep, ReadStep, MoveStep, KillStep;
    if a.Move? && a.p in s.procs {
      MoveTouchesOne(site, s, a.p, a.choice, a.p + 1);
    } else if a.Kill? {
      KillForgetsNothing(s, a.ps);
    }
  }

  lemma KillForgetsNothing(s: State, ps: set<nat>)
    requires Valid(s)
    ensures KillStep(s, ps).since == s.since && KillStep(s, ps).procs == s.procs - ps
  {
  }

  /** This action starts a call of `q`. */
  predicate Invokes(s: State, a: Action, q: nat) {
    a.Invoke? && a.p == q && (q in s.procs ==> s.procs[q].Finished?)
  }

  lemma ToldStep(site: Site, first: Files, s: State, a: Action, p: nat)
    requires Invariant(site, first, s) && Ready(s) && p in Next(site, s, a).procs
    requires p in s.procs ==> p in s.since && Told(s.log, s.since[p], p, s.procs[p])
    ensures var t := Next(site, s, a); p in t.since && Told(t.log, t.since[p], p, t.procs[p])
  {
    hide AfterOutcome, Possible, Serial, PhaseOK, HolderStep, ReadStep, Told, MoveStep, KillStep;
    SinceMoves(site, s, a, p);
    var t := Next(site, s, a);
    if a.Move? && a.p == p {
      MoverIsTold(site, s, p, a.choice);
    } else if Invokes(s, a, p) {
      BeginsTold(a.op, s.clock, s.log, p);
    } else {
      MovesOnlyItself(site, s, a, p);
      OthersLog(site, s, a, p);
      SinceStays(site, s, a, p);
      StillTold(s.log, t.log, s.since[p], p, s.procs[p]);
    }
  }

  lemma SinceStays(site: Site, s: State, a: Action, p: nat)
    requires Ready(s) && p in s.since && !Invokes(s, a, p)
    ensures p in Next(site, s, a).since && Next(site, s, a).since[p] == s.since[p]
  {
    hide HolderStep, ReadStep, MoveStep, KillStep;
    if a.Move? && a.p in s.procs {
      MoveTouchesOne(site, s, a.p, a.choice, a.p + 1);
    } else if a.Kill? {
      KillForgetsNothing(s, a.ps);
    }
  }

  lemma BeginsTold(op: Op, clock: nat, log: seq<Commit>, p: nat)
    ensures Told(log, |log|, p, Begin(op, clock))
  {
  }

  lemma {:induction false} ToldThroughout(site: Site, start: State, actions: seq<Action>, p: nat)
    requires Fresh(start) && p in Run(site, start, actions).procs
    ensures var s := Run(site, start, actions); p in s.since && Told(s.log, s.since[p], p, s.procs[p])
    decreases |actions|
  {
    if actions != [] {
      hide Told, Invariant, MoveStep, KillStep, RefusedEarly;
      var n := |actions| - 1;
      var before, a := actions[..n], actions[n];
      assert actions == before + [a];
      RunMore(site, start, before, a);
      var s := Run(site, start, before);
      if p in s.procs { ToldThroughout(site, start, before, p); }
      ToldStep(site, ViewOf(start), s, a, p);
    }
  }

  /** What a caller is told is what happened: in every run a finished put or delete either never held the lock, was
      refused and left no section, or it has exactly one section since its invocation, with that very ending; a call
      that is not finished has none yet. */
  lemma OutcomesAreHistory(site: Site, start: State, actions: seq<Action>, p: nat)
    requires Fresh(start) && p in Run(site, start, actions).procs
    ensures var end := Run(site, start, actions);
            && p in end.since && end.since[p] <= |end.log|
            && (var c, k := end.procs[p], end.since[p];
                if c.Finished? && !c.outcome.GetEnded?
                then (RefusedEarly(c.outcome) && NoneSince(end.log, k, p)) || OneSince(end.log, k, p, c.outcome)
                else NoneSince(end.log, k, p))
            && Serial(site, ViewOf(start), end.log, if end.lock.Some? then end.entry else ViewOf(end))
  {
    ToldThroughout(site, start, actions, p);
  }

  lemma {:induction false} LogMonotone(site: Site, start: State, actions: seq<Action>, m: nat)
    requires Fresh(start) && m <= |actions|
    ensures Run(site, start, actions[..m]).log <= Run(site, start, actions).log
    decreases |actions|
  {
    var n := |actions| - 1;
    if m == |actions| {
      assert actions[..m] == actions;
    } else {
      assert actions == actions[..n] + [actions[n]] && actions[..n][..m] == actions[..m];
      RunMore(site, start, actions[..n], actions[n]);
      LogMonotone(site, start, actions[..n], m);
      LogGrows(site, Run(site, start, actions[..n]), actions[n]);
    }
  }

  /** Real time: what was logged when a call was invoked comes before every section of that call, and of this caller's
      calls after it. */
  lemma {:induction false} InvokedLater(site: Site, start: State, actions: seq<Action>, j: nat, q: nat)
    requires Fresh(start) && j < |actions| && Invokes(Run(site, start, actions[..j]), actions[j], q)
    ensures var end := Run(site, start, actions); q in end.since && end.since[q] >= |Run(site, start, actions[..j]).log|
    decreases |actions|
  {
    hide Run, Fresh, Invariant, Next, Invokes, Ready;
    var n := |actions| - 1;
    var before := actions[..n];
    assert actions == before + [actions[n]];
    RunMore(site, start, before, actions[n]);
    SinceMoves(site, Run(site, start, before), actions[n], q);
    if j < n {
      assert before[..j] == actions[..j] && before[j] == actions[j];
      InvokedLater(site, start, before, j, q);
      LogMonotone(site, start, before, j);
    }
  }

  // ---------------------------------------------------------------- who can take a shard away

  /** A section that removes this hash's shard for this writer. */
  predicate Removes(o: Outcome, hash: string, writer: Bytes) {
    o.DeleteEnded? && o.hash == hash && o.writer == writer && writer != []
    && (o.delete.Deleted? || o.delete.OwnerStuck?)
  }

  /** A section keeps a held shard with its writer exactly when it is not that writer's removal of it. */
  lemma SectionKeepsRecord(site: Site, files: Files, o: Outcome, hash: string, bytes: Bytes, writer: Bytes)
    requires Possible(site, files, o) && OnRecord(site.digest, files, site.dir, hash, bytes, writer)
    ensures OnRecord(site.digest, AfterOutcome(site, files, o), site.dir, hash, bytes, writer)
            <==> !Removes(o, hash, writer)
  {
    hide OnRecord, PutPossible, DeletePossible, AfterPut, AfterDelete;
    match o {
      case PutEnded(shard, caller, r) =>
        PutKeepsRecord(site.digest, files, site.dir, site.quota, shard, caller, r, hash, bytes, writer);
      case DeleteEnded(h, caller, r) =>
        DeleteKeepsRecord(site.digest, files, site.dir, h, caller, r, hash, bytes, writer);
      case GetEnded(_, _, _) =>
    }
  }

  lemma SerialUnique(site: Site, first: Files, log: seq<Commit>, a: Files, b: Files)
    requires Serial(site, first, log, a) && Serial(site, first, log, b)
    ensures a == b
  {
  }

  lemma {:induction false} SerialKeepsRecord(site: Site, first: Files, log: seq<Commit>, last: Files, k: nat,
                                             mid: Files, hash: string, bytes: Bytes, writer: Bytes)
    requires Serial(site, first, log, last) && k <= |log| && Serial(site, first, log[..k], mid)
    requires OnRecord(site.digest, mid, site.dir, hash, bytes, writer)
    requires forall i | k <= i < |log| :: !Removes(log[i].outcome, hash, writer)
    ensures OnRecord(site.digest, last, site.dir, hash, bytes, writer)
    decreases |log|
  {
    hide AfterOutcome, Possible, Exact, OnRecord, Removes;
    if k == |log| {
      assert log[..k] == log;
      SerialUnique(site, first, log, mid, last);
    } else {
      var n := |log| - 1;
      assert log[..n][..k] == log[..k];
      SerialKeepsRecord(site, first, log[..n], log[n].before, k, mid, hash, bytes, writer);
      SectionKeepsRecord(site, log[n].before, log[n].outcome, hash, bytes, writer);
    }
  }

  /** Ownership in every interleaving, with failures and kills: a shard that is held when nobody has the lock keeps its
      bytes and its recorded writer in every later state, unless that writer's own delete removed it; and one that is
      held for nobody stays for good. */
  lemma OwnedUntilDeleted(site: Site, start: State, actions: seq<Action>, m: nat, hash: string, bytes: Bytes,
                          writer: Bytes)
    requires Fresh(start) && m <= |actions|
    requires var s := Run(site, start, actions[..m]);
             s.lock.None? && OnRecord(site.digest, ViewOf(s), site.dir, hash, bytes, writer)
    requires var s, end := Run(site, start, actions[..m]), Run(site, start, actions);
             writer != [] ==> (forall i | |s.log| <= i < |end.log| :: !Removes(end.log[i].outcome, hash, writer))
                              && (end.lock.Some? && end.lock.value in end.procs ==>
                                    !Removes(SoFar(end.procs[end.lock.value]), hash, writer))
    ensures OnRecord(site.digest, ViewOf(Run(site, start, actions)), site.dir, hash, bytes, writer)
  {
    hide Run, Invariant, Serial, OnRecord, AfterOutcome, Possible;
    var s, end := Run(site, start, actions[..m]), Run(site, start, actions);
    RunsAreSerial(site, start, actions[..m]);
    RunsAreSerial(site, start, actions);
    LogMonotone(site, start, actions, m);
    assert end.log[..|s.log|] == s.log;
    var last := if end.lock.Some? then end.entry else ViewOf(end);
    SerialKeepsRecord(site, ViewOf(start), end.log, last, |s.log|, ViewOf(s), hash, bytes, writer);
    if end.lock.Some? { SectionKeepsRecord(site, end.entry, SoFar(end.procs[end.lock.value]), hash, bytes, writer); }
  }

  lemma {:induction false} SerialPrefix(site: Site, first: Files, log: seq<Commit>, last: Files, i: nat)
    requires Serial(site, first, log, last) && i < |log|
    ensures Serial(site, first, log[..i + 1], log[i].after)
    decreases |log|
  {
    hide AfterOutcome, Possible, Exact;
    var n := |log| - 1;
    if i == n {
      assert log[..i + 1] == log;
    } else {
      assert log[..n][..i + 1] == log[..i + 1];
      SerialPrefix(site, first, log[..n], log[n].before, i);
    }
  }

  /** The same from the end of any section of the history, whoever holds the lock by then. */
  lemma OwnedSinceSection(site: Site, start: State, actions: seq<Action>, i: nat, hash: string, bytes: Bytes,
                          writer: Bytes)
    requires Fresh(start)
    requires var end := Run(site, start, actions);
             && i < |end.log| && OnRecord(site.digest, end.log[i].after, site.dir, hash, bytes, writer)
             && (writer != [] ==>
                   && (forall j | i < j < |end.log| :: !Removes(end.log[j].outcome, hash, writer))
                   && (end.lock.Some? && end.lock.value in end.procs ==>
                         !Removes(SoFar(end.procs[end.lock.value]), hash, writer)))
    ensures OnRecord(site.digest, ViewOf(Run(site, start, actions)), site.dir, hash, bytes, writer)
  {
    hide Run, Invariant, Serial, OnRecord, AfterOutcome, Possible;
    var end := Run(site, start, actions);
    RunsAreSerial(site, start, actions);
    var last := if end.lock.Some? then end.entry else ViewOf(end);
    SerialPrefix(site, ViewOf(start), end.log, last, i);
    SerialKeepsRecord(site, ViewOf(start), end.log, last, i + 1, end.log[i].after, hash, bytes, writer);
    if end.lock.Some? { SectionKeepsRecord(site, end.entry, SoFar(end.procs[end.lock.value]), hash, bytes, writer); }
  }

  lemma {:induction false} SectionAt(site: Site, first: Files, log: seq<Commit>, last: Files, i: nat)
    requires Serial(site, first, log, last) && i < |log|
    ensures log[i].after == AfterOutcome(site, log[i].before, log[i].outcome)
            && Possible(site, log[i].before, log[i].outcome)
  {
    hide AfterOutcome, Possible, Exact;
    SerialPrefix(site, first, log, last, i);
    assert log[..i + 1][i] == log[i];
  }

  lemma StoredIsHeld(site: Site, files: Files, shard: Bytes, writer: Bytes)
    requires Possible(site, files, PutEnded(shard, writer, Stored))
    requires writer != [] || OwnerPath(site.dir, site.digest(shard)) !in files
    ensures OnRecord(site.digest, AfterOutcome(site, files, PutEnded(shard, writer, Stored)), site.dir,
                     site.digest(shard), shard, writer)
  {
    OwnerPathDistinct(site.dir, site.digest(shard), site.digest(shard));
  }

  /** What a put is promised: from its section on, if that ended in success, exactly its bytes are held for exactly its
      writer, until that writer's own delete removes them; for nobody, if it named nobody and found no record, for
      good. */
  lemma StoredUntilDeleted(site: Site, start: State, actions: seq<Action>, i: nat, shard: Bytes, writer: Bytes)
    requires Fresh(start)
    requires var end := Run(site, start, actions);
             && i < |end.log| && end.log[i].outcome == PutEnded(shard, writer, Stored)
             && (if writer == [] then OwnerPath(site.dir, site.digest(shard)) !in end.log[i].before
                 else
                   && (forall j | i < j < |end.log| :: !Removes(end.log[j].outcome, site.digest(shard), writer))
                   && (end.lock.Some? && end.lock.value in end.procs ==>
                         !Removes(SoFar(end.procs[end.lock.value]), site.digest(shard), writer)))
    ensures OnRecord(site.digest, ViewOf(Run(site, start, actions)), site.dir, site.digest(shard), shard, writer)
  {
    hide Run, Invariant, Serial, OnRecord, AfterOutcome, Possible, Removes;
    var end := Run(site, start, actions);
    RunsAreSerial(site, start, actions);
    SectionAt(site, ViewOf(start), end.log, if end.lock.Some? then end.entry else ViewOf(end), i);
    StoredIsHeld(site, end.log[i].before, shard, writer);
    OwnedSinceSection(site, start, actions, i, site.digest(shard), shard, writer);
  }

  // ---------------------------------------------------------------- shards left behind

  lemma PutEndsHow(site: Site, s: Section, c: Choice)
    requires Linked(s.names, s.data) && HolderReady(s) && !s.proc.Unlock? && PutStep(site, s, c).proc.Unlock?
    ensures var o := PutStep(site, s, c).proc.outcome;
            o.PutEnded? && !o.put.OwnerFailed? && (o.put.ShardLate? <==> c.Fail? && s.proc.PutDirSync?)
  {
  }

  lemma OwnerEndsHow(site: Site, s: Section, c: Choice)
    requires Linked(s.names, s.data) && HolderReady(s) && !s.proc.Unlock? && OwnerStep(site, s, c).proc.Unlock?
    ensures var o := OwnerStep(site, s, c).proc.outcome;
            o.PutEnded? && !o.put.ShardLate? && (o.put.OwnerFailed? && !o.put.cleaned <==> c.Fail? && s.proc.Undo?)
  {
  }

  lemma DeleteEndsHow(site: Site, s: Section, c: Choice)
    requires Linked(s.names, s.data) && !s.proc.Unlock? && DeleteStep(site, s, c).proc.Unlock?
    ensures DeleteStep(site, s, c).proc.outcome.DeleteEnded?
  {
  }

  /** Which operation makes a put end how. */
  lemma EndsHow(site: Site, s: Section, c: Choice)
    requires Linked(s.names, s.data) && HolderReady(s) && s.proc.HoldsLock() && !s.proc.Unlock?
    requires var t := HolderStep(site, s, c); t.proc.Unlock? && t.proc.outcome.PutEnded?
                                              && !t.proc.outcome.put.Accepted()
    ensures var r := HolderStep(site, s, c).proc.outcome.put;
            (r.ShardLate? || (r.OwnerFailed? && !r.cleaned)) <==> c.Fail? && (s.proc.PutDirSync? || s.proc.Undo?)
  {
    hide PutStep, OwnerStep, DeleteStep;
    if s.proc.PutRead? || s.proc.PutScan? || s.proc.PutTemp? || s.proc.PutWrite? || s.proc.PutLink?
       || s.proc.PutDirSync? {
      PutEndsHow(site, s, c);
    } else if s.proc.DelRead? || s.proc.DelShard? || s.proc.DelOwner? {
      DeleteEndsHow(site, s, c);
    } else {
      OwnerEndsHow(site, s, c);
    }
  }

  lemma FailingStep(site: Site, entry: Files, s: Section, c: Choice)
    requires PhaseOK(site, entry, s) && s.proc.HoldsLock() && !s.proc.Unlock?
    requires var t := HolderStep(site, s, c); t.proc.Unlock? && t.proc.outcome.PutEnded?
                                              && !t.proc.outcome.put.Accepted()
    ensures var t := HolderStep(site, s, c);
            && Linked(t.names, t.data)
            && (LeavesShard(entry, site.dir, site.digest(t.proc.outcome.shard), Seen(t.names, t.data)) <==>
                c.Fail? && (s.proc.PutDirSync? || s.proc.Undo?))
  {
    hide Exact, Remembers, PutPossible, AfterPut, HolderStep, LeavesShard, Frame;
    EndsHow(site, s, c);
    HolderKeepsPhase(site, entry, s, c);
    var o := HolderStep(site, s, c).proc.outcome;
    PutLeavesShard(entry, site.dir, site.quota, site.digest(o.shard), o.shard, o.writer, o.put);
  }

  /** In every run: a put that ends with a failure leaves a new shard behind exactly when the operation that just failed
      is the directory sync after the shard's link, or the removal that was to clean up after a failed owner record. */
  lemma FailedPutLeavesShard(site: Site, start: State, actions: seq<Action>, p: nat, choice: Choice)
    requires Fresh(start)
    requires var s := Run(site, start, actions); s.lock == Some(p) && p in s.procs && !s.procs[p].Unlock?
    requires var c := Next(site, Run(site, start, actions), Move(p, choice)).procs;
             p in c && c[p].Unlock? && c[p].outcome.PutEnded? && !c[p].outcome.put.Accepted()
    ensures var s := Run(site, start, actions);
            var t := Next(site, s, Move(p, choice));
            && Valid(t) && t.entry == s.entry
            && (LeavesShard(s.entry, site.dir, site.digest(t.procs[p].outcome.shard), ViewOf(t)) <==>
                choice.Fail? && (s.procs[p].PutDirSync? || s.procs[p].Undo?))
  {
    hide Serial, PhaseOK, LeavesShard, HolderStep, Run;
    var s := Run(site, start, actions);
    HolderMoves(site, ViewOf(start), s, p, choice);
    FailingStep(site, s.entry, Holding(s, p), choice);
  }

  lemma HolderMoves(site: Site, first: Files, s: State, p: nat, choice: Choice)
    requires Invariant(site, first, s) && Ready(s) && s.lock == Some(p) && p in s.procs && !s.procs[p].Unlock?
    ensures s.procs[p].HoldsLock() && PhaseOK(site, s.entry, Holding(s, p))
    ensures var t, h := Next(site, s, Move(p, choice)), HolderStep(site, Holding(s, p), choice);
            p in t.procs && t.procs[p] == h.proc && t.names == h.names && t.data == h.data && t.entry == s.entry
  {
    hide Serial, HolderStep, PhaseOK;
  }

  /** From the link of the shard to the end of the call. */
  predicate PastLink(c: Proc) {
    || c.PutDirSync? || c.OwnTemp? || c.OwnWrite? || c.OwnLink? || c.OwnDirSync? || c.Undo?
    || (c.Unlock? && c.outcome.PutEnded?
        && (c.outcome.put.Stored? || c.outcome.put.ShardLate?
            || (c.outcome.put.OwnerFailed? && !c.outcome.put.cleaned)))
  }

  /** In every run: a put that is killed leaves a new shard behind exactly when it was killed past the link (and before
      a cleanup took the shard away again). */
  lemma KilledPutLeavesShard(site: Site, start: State, actions: seq<Action>, ps: set<nat>)
    requires Fresh(start)
    requires var s := Run(site, start, actions);
             s.lock.Some? && s.lock.value in ps && s.lock.value in s.procs && SoFar(s.procs[s.lock.value]).PutEnded?
    ensures var s := Run(site, start, actions);
            var t := KillStep(s, ps);
            LeavesShard(s.entry, site.dir, site.digest(SoFar(s.procs[s.lock.value]).shard), ViewOf(t))
            <==> PastLink(s.procs[s.lock.value])
  {
    var s := Run(site, start, actions);
    assert PhaseOK(site, s.entry, Holding(s, s.lock.value));
    var o := SoFar(s.procs[s.lock.value]);
    hide Run, Serial, Invariant, Remembers, LeavesShard, PutPossible, AfterPut;
    PutLeavesShard(s.entry, site.dir, site.quota, site.digest(o.shard), o.shard, o.writer, o.put);
  }

  // ---------------------------------------------------------------- reads without the lock

  /** At some moment not before `born` the hash held these bytes. */
  ghost predicate WasThere(site: Site, start: State, actions: seq<Action>, born: nat, hash: string, bytes: Bytes)
    requires Fresh(start)
  {
    exists i | born <= i <= |actions| :: Showed(site, Run(site, start, actions[..i]), hash, bytes)
  }

  ghost predicate Showed(site: Site, s: State, hash: string, bytes: Bytes) {
    Valid(s) && ShardPath(site.dir, hash) in ViewOf(s) && ViewOf(s)[ShardPath(site.dir, hash)] == bytes
  }

  ghost predicate HistoryOK(site: Site, start: State, actions: seq<Action>, s: State, c: Proc)
    requires Fresh(start)
  {
    match c
    case GetOpen(_, born) => born <= |actions|
    case GetRead(hash, born, ino, _) => ino in s.data && WasThere(site, start, actions, born, hash, s.data[ino])
    case Finished(o) =>
      o.GetEnded? && o.get.Found? ==> site.digest(o.get.data) == o.hash
                                      && WasThere(site, start, actions, o.born, o.hash, o.get.data)
    case Unlock(o) => !o.GetEnded?
    case _ => true
  }

  lemma WasThereLater(site: Site, start: State, actions: seq<Action>, a: Action, born: nat, hash: string, bytes: Bytes)
    requires Fresh(start) && WasThere(site, start, actions, born, hash, bytes)
    ensures WasThere(site, start, actions + [a], born, hash, bytes)
  {
    hide Invariant, Showed;
    var i :| born <= i <= |actions| && Showed(site, Run(site, start, actions[..i]), hash, bytes);
    assert (actions + [a])[..i] == actions[..i];
  }

  /** Bytes a reader is reading do not change under it. */
  lemma ReaderDataStable(site: Site, first: Files, s: State, a: Action, p: nat)
    requires Invariant(site, first, s) && Ready(s) && p in s.procs && s.procs[p].GetRead?
    ensures s.procs[p].ino in Next(site, s, a).data && Next(site, s, a).data[s.procs[p].ino] == s.data[s.procs[p].ino]
  {
    hide AfterOutcome, Possible, Serial, HolderStep, MoveStep, PhaseOK, HolderReady, SoFar;
    assert ReaderOK(site, s, s.procs[p]);
    if a.Move? && a.p in s.procs {
      if s.procs[a.p].HoldsLock() && !s.procs[a.p].Unlock? {
        HolderDataStable(site, s, a.p, a.choice, s.procs[p].ino);
      } else {
        OthersLeaveFiles(site, s, a.p, a.choice);
      }
    }
  }

  lemma HolderDataStable(site: Site, s: State, p: nat, choice: Choice, i: nat)
    requires Ready(s) && p in s.procs && s.procs[p].HoldsLock() && !s.procs[p].Unlock?
             && PhaseOK(site, s.entry, Holding(s, p))
    requires i in s.data && !s.procs[p].Owns(i)
    ensures i in MoveStep(site, s, p, choice).data && MoveStep(site, s, p, choice).data[i] == s.data[i]
  {
    hide HolderStep, AfterOutcome, Possible, Remembers;
    HolderKeepsPhase(site, s.entry, Holding(s, p), choice);
  }

  /** A read that has opened its file cannot fail by itself: without an I/O error it ends with the whole content, or
      with an error when that does not hash to the name. */
  lemma GetNeverTorn(site: Site, first: Files, s: State, p: nat, choice: Choice)
    requires Invariant(site, first, s) && p in s.procs && s.procs[p].GetRead? && !choice.Fail?
    ensures var c, t := s.procs[p], ReadStep(site, s, s.procs[p], choice);
            || t.GetRead?
            || t == Finished(GetEnded(c.hash, c.born, if site.digest(s.data[c.ino]) == c.hash then Found(s.data[c.ino])
                                                      else Unreadable))
  {
    var c := s.procs[p];
    assert ReaderOK(site, s, c);
    if |c.got| >= |s.data[c.ino]| { assert c.got == s.data[c.ino]; }
  }

  /** The state after one more action. */
  lemma RunMore(site: Site, start: State, actions: seq<Action>, a: Action)
    requires Fresh(start)
    ensures var s := Run(site, start, actions); Ready(s) && Run(site, start, actions + [a]) == Next(site, s, a)
  {
    assert (actions + [a])[..|actions|] == actions;
    InvariantReady(site, ViewOf(start), Run(site, start, actions));
  }

  lemma ReaderMoves(site: Site, s: State, p: nat, choice: Choice)
    requires Ready(s) && p in s.procs && (s.procs[p].GetOpen? || s.procs[p].GetRead?)
    ensures var t := Next(site, s, Move(p, choice));
            p in t.procs && t.procs[p] == ReadStep(site, s, s.procs[p], choice) && t.data == s.data
  {
    hide HolderStep, ReadStep;
  }

  lemma OpensWhatShows(site: Site, s: State, c: Proc, choice: Choice)
    requires Valid(s) && c.GetOpen?
    ensures var t := ReadStep(site, s, c, choice);
            if t.GetRead? then t.hash == c.hash && t.born == c.born && t.ino in s.data
                               && Showed(site, s, c.hash, s.data[t.ino])
            else t.Finished? && t.outcome.GetEnded? && !t.outcome.get.Found?
  {
  }

  lemma OpenHistory(site: Site, start: State, actions: seq<Action>, s: State, p: nat, choice: Choice)
    requires Fresh(start) && s == Run(site, start, actions) && p in s.procs && Ready(s)
    requires s.procs[p].GetOpen? && s.procs[p].born <= |actions|
    ensures var a := Move(p, choice); var t := Next(site, s, a);
            p in t.procs && HistoryOK(site, start, actions + [a], t, t.procs[p])
  {
    hide Next, ReadStep, Showed, Invariant, Fresh, Run;
    var a := Move(p, choice);
    ReaderMoves(site, s, p, choice);
    OpensWhatShows(site, s, s.procs[p], choice);
    var c := Next(site, s, a).procs[p];
    assert (actions + [a])[..|actions|] == actions;
    if c.GetRead? { assert Showed(site, Run(site, start, (actions + [a])[..|actions|]), c.hash, s.data[c.ino]); }
  }

  lemma ReadHistory(site: Site, start: State, actions: seq<Action>, s: State, p: nat, choice: Choice)
    requires Fresh(start) && s == Run(site, start, actions) && p in s.procs && Ready(s)
    requires s.procs[p].GetRead? && HistoryOK(site, start, actions, s, s.procs[p])
    ensures var a := Move(p, choice); var t := Next(site, s, a);
            p in t.procs && HistoryOK(site, start, actions + [a], t, t.procs[p])
  {
    hide Next, WasThere, Invariant, Run;
    var a, c := Move(p, choice), s.procs[p];
    ReaderMoves(site, s, p, choice);
    WasThereLater(site, start, actions, a, c.born, c.hash, s.data[c.ino]);
    if !choice.Fail? { GetNeverTorn(site, ViewOf(start), s, p, choice); }
  }

  lemma IdleHistory(site: Site, start: State, actions: seq<Action>, s: State, p: nat, a: Action)
    requires Fresh(start) && s == Run(site, start, actions) && p in s.procs && Ready(s)
    requires HistoryOK(site, start, actions, s, s.procs[p])
    requires p in Next(site, s, a).procs && Next(site, s, a).procs[p] == s.procs[p]
    ensures HistoryOK(site, start, actions + [a], Next(site, s, a), s.procs[p])
  {
    var c := s.procs[p];
    if c.GetRead? {
      ReaderDataStable(site, ViewOf(start), s, a, p);
      WasThereLater(site, start, actions, a, c.born, c.hash, s.data[c.ino]);
    } else if c.Finished? && c.outcome.GetEnded? && c.outcome.get.Found? {
      WasThereLater(site, start, actions, a, c.outcome.born, c.outcome.hash, c.outcome.get.data);
    }
  }

  /** A call that does not read stays one, and its ending is not that of a read. */
  predicate NotReading(c: Proc) {
    !c.GetOpen? && !c.GetRead? && (c.Unlock? || c.Finished? ==> !c.outcome.GetEnded?)
  }

  lemma MutatorsDoNotRead(site: Site, s: State, p: nat, choice: Choice)
    requires Ready(s) && p in s.procs && NotReading(s.procs[p])
    requires s.procs[p].Wait? ==> !s.procs[p].op.Get?
    ensures NotReading(MoveStep(site, s, p, choice).procs[p])
  {
    hide PutPossible;
  }

  lemma MovesOnlyItself(site: Site, s: State, a: Action, p: nat)
    requires Ready(s) && p in Next(site, s, a).procs
    requires !(a.Move? && a.p == p)
    ensures (p in s.procs && Next(site, s, a).procs[p] == s.procs[p])
            || (a.Invoke? && a.p == p && Next(site, s, a).procs[p] == Begin(a.op, s.clock))
  {
    if a.Move? && a.p in s.procs { MoveTouchesOne(site, s, a.p, a.choice, p); }
  }

  lemma HistoryStep(site: Site, start: State, actions: seq<Action>, s: State, a: Action, p: nat)
    requires Fresh(start) && s == Run(site, start, actions) && Ready(s) && p in Next(site, s, a).procs
    requires p in s.procs ==> HistoryOK(site, start, actions, s, s.procs[p])
    ensures HistoryOK(site, start, actions + [a], Next(site, s, a), Next(site, s, a).procs[p])
  {
    hide Invariant, WasThere, HolderStep;
    var t := Next(site, s, a);
    if !(a.Move? && a.p == p) {
      MovesOnlyItself(site, s, a, p);
      if p in s.procs && t.procs[p] == s.procs[p] { IdleHistory(site, start, actions, s, p, a); }
    } else if s.procs[p].GetOpen? {
      OpenHistory(site, start, actions, s, p, a.choice);
    } else if s.procs[p].GetRead? {
      ReadHistory(site, start, actions, s, p, a.choice);
    } else if t.procs[p] == s.procs[p] {
      IdleHistory(site, start, actions, s, p, a);
    } else {
      MutatorsDoNotRead(site, s, p, a.choice);
    }
  }

  lemma {:induction false} HistoryThroughout(site: Site, start: State, actions: seq<Action>, p: nat)
    requires Fresh(start) && p in Run(site, start, actions).procs
    ensures HistoryOK(site, start, actions, Run(site, start, actions), Run(site, start, actions).procs[p])
    decreases |actions|
  {
    if actions != [] {
      var n := |actions| - 1;
      var before := actions[..n];
      assert actions == before + [actions[n]];
      RunMore(site, start, before, actions[n]);
      var s := Run(site, start, before);
      if p in s.procs { HistoryThroughout(site, start, before, p); }
      HistoryStep(site, start, before, s, actions[n], p);
    }
  }

  /** In every interleaving a successful read returns the complete bytes the hash held at some instant between its
      invocation and its end. */
  lemma GetIsAtomic(site: Site, start: State, actions: seq<Action>, p: nat)
    requires Fresh(start) && p in Run(site, start, actions).procs
    requires var c := Run(site, start, actions).procs[p]; c.Finished? && c.outcome.GetEnded? && c.outcome.get.Found?
    ensures var o := Run(site, start, actions).procs[p].outcome;
            site.digest(o.get.data) == o.hash && WasThere(site, start, actions, o.born, o.hash, o.get.data)
  {
    HistoryThroughout(site, start, actions, p);
  }
}
