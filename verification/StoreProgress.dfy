/** What becomes of the calls of ConcurrentStore: without failures each of them ends in the one fault-free way, and
    from every reachable state each can be brought to its end. */
module StoreProgress {
  import opened Prelude
  import opened FileSystem
  import opened StoreSpec
  import opened ConcurrentStore

  // ---------------------------------------------------------------- runs without failures

  /** An operation is made to fail, or callers are killed. */
  predicate Harms(a: Action) {
    a.Kill? || (a.Move? && a.choice.Fail?)
  }

  /** Nothing has failed in any critical section so far. */
  ghost predicate Unharmed(s: State) {
    (forall i | 0 <= i < |s.log| :: s.log[i].clean) && (s.lock.Some? ==> s.clean)
  }

  lemma HolderStaysClean(site: Site, entry: Files, s: Section, c: Choice)
    requires PhaseOK(site, entry, s) && s.clean && !c.Fail?
    ensures HolderStep(site, s, c).clean
  {
    if s.proc.PutLink? { PlaceIsFree(site, entry, s); }
    hide PhaseOK;
  }

  lemma PlaceIsFree(site: Site, entry: Files, s: Section)
    requires PhaseOK(site, entry, s) && s.proc.PutLink?
    ensures ShardPath(site.dir, site.digest(s.proc.shard)) !in s.names
  {
    hide Exact, Named, ValidHash;
    assert Seen(s.names, s.data).Keys == s.names.Keys;
  }

  lemma NextUnharmed(site: Site, first: Files, s: State, a: Action)
    requires Invariant(site, first, s) && Ready(s) && Unharmed(s) && !Harms(a)
    ensures Unharmed(Next(site, s, a))
  {
    hide Serial, PhaseOK, HolderStep, HolderReady, Seen;
    if a.Move? && a.p in s.procs && s.procs[a.p].HoldsLock() && !s.procs[a.p].Unlock? {
      assert s.lock == Some(a.p);
      HolderStaysClean(site, s.entry, Holding(s, a.p), a.choice);
    }
  }

  /** How no call ends without failures: refused for the lock, or refused a digest that is none. */
  predicate Untroubled(c: Proc) {
    c.Finished? || c.Unlock? ==>
      match c.outcome
      case PutEnded(_, _, r) => r != Refused(LockError)
      case DeleteEnded(hash, _, r) => r != DeleteRefused(LockError)
                                      && (r == DeleteRefused(InvalidHash) ==> !ValidHash(hash))
      case GetEnded(_, _, _) => true
  }

  lemma HolderUntroubled(site: Site, s: Section, c: Choice)
    requires ConcurrentStore.Linked(s.names, s.data) && HolderReady(s) && Untroubled(s.proc)
    ensures Untroubled(HolderStep(site, s, c).proc)
  {
    hide ValidHash;
    if s.proc.PutRead? || s.proc.PutScan? || s.proc.PutTemp? || s.proc.PutWrite? || s.proc.PutLink?
       || s.proc.PutDirSync? {
      PutUntroubled(site, s, c);
    } else if s.proc.DelRead? || s.proc.DelShard? || s.proc.DelOwner? {
      DeleteUntroubled(site, s, c);
    } else {
      OwnerUntroubled(site, s, c);
    }
  }

  lemma PutUntroubled(site: Site, s: Section, c: Choice)
    requires ConcurrentStore.Linked(s.names, s.data) && HolderReady(s) && Untroubled(s.proc)
    ensures Untroubled(PutStep(site, s, c).proc)
  {
    hide ValidHash, ConcurrentStore.Linked;
  }

  lemma OwnerUntroubled(site: Site, s: Section, c: Choice)
    requires ConcurrentStore.Linked(s.names, s.data) && HolderReady(s) && Untroubled(s.proc)
    ensures Untroubled(OwnerStep(site, s, c).proc)
  {
    hide ValidHash, ConcurrentStore.Linked;
  }

  lemma DeleteUntroubled(site: Site, s: Section, c: Choice)
    requires ConcurrentStore.Linked(s.names, s.data) && Untroubled(s.proc)
    ensures Untroubled(DeleteStep(site, s, c).proc)
  {
    hide ValidHash, ConcurrentStore.Linked;
  }

  lemma OtherMovesUntroubled(site: Site, s: State, p: nat, choice: Choice)
    requires Ready(s) && p in s.procs && Untroubled(s.procs[p]) && !choice.Fail?
    requires !s.procs[p].HoldsLock() || s.procs[p].Unlock?
    ensures var t := MoveStep(site, s, p, choice); p in t.procs && Untroubled(t.procs[p])
  {
    hide HolderStep, HolderReady, Seen, ValidHash, ConcurrentStore.Linked;
    var c := s.procs[p];
    if c.GetOpen? || c.GetRead? {
      assert ReadStep(site, s, c, choice).Finished? ==> ReadStep(site, s, c, choice).outcome.GetEnded?;
      hide ReadStep;
    }
  }

  lemma NextUntroubled(site: Site, s: State, a: Action, p: nat)
    requires Ready(s) && !Harms(a) && p in Next(site, s, a).procs && (p in s.procs ==> Untroubled(s.procs[p]))
    ensures Untroubled(Next(site, s, a).procs[p])
  {
    hide HolderStep, HolderReady, Seen, Untroubled;
    if a.Move? && a.p == p && p in s.procs {
      if s.procs[p].HoldsLock() && !s.procs[p].Unlock? {
        HolderUntroubled(site, Holding(s, p), a.choice);
        HolderTouchesOne(site, s, p, a.choice);
      } else {
        OtherMovesUntroubled(site, s, p, a.choice);
      }
      hide MoveStep;
    } else {
      MovesOnlyItself(site, s, a, p);
      BeginsUntroubled(s, a);
    }
  }

  lemma BeginsUntroubled(s: State, a: Action)
    ensures a.Invoke? ==> Untroubled(Begin(a.op, s.clock))
  {
  }

  lemma {:induction false} RunUnharmed(site: Site, start: State, actions: seq<Action>)
    requires Fresh(start) && forall i | 0 <= i < |actions| :: !Harms(actions[i])
    ensures var end := Run(site, start, actions);
            Unharmed(end) && forall p | p in end.procs :: Untroubled(end.procs[p])
    decreases |actions|
  {
    if actions != [] {
      var n := |actions| - 1;
      var s := Run(site, start, actions[..n]);
      assert forall i | 0 <= i < n :: actions[..n][i] == actions[i];
      RunUnharmed(site, start, actions[..n]);
      InvariantReady(site, ViewOf(start), s);
      NextUnharmed(site, ViewOf(start), s, actions[n]);
      forall p | p in Next(site, s, actions[n]).procs ensures Untroubled(Next(site, s, actions[n]).procs[p]) {
        NextUntroubled(site, s, actions[n], p);
      }
    }
  }

  lemma {:induction false} CleanIsExact(site: Site, first: Files, log: seq<Commit>, last: Files, i: nat)
    requires Serial(site, first, log, last) && i < |log| && log[i].clean
    ensures Exact(site, log[i].before, log[i].outcome)
            && log[i].after == AfterOutcome(site, log[i].before, log[i].outcome)
  {
    hide AfterOutcome, Possible, Exact;
    SerialPrefix(site, first, log, last, i);
    assert log[..i + 1][i] == log[i];
  }

  /** In every interleaving of any calls in which no operation fails and nobody is killed: a finished put or delete had
      a section of its own and ended there in the one fault-free way, unless it was a delete of a name that is no
      digest. */
  lemma WithoutFailures(site: Site, start: State, actions: seq<Action>, p: nat)
    requires Fresh(start) && forall i | 0 <= i < |actions| :: !Harms(actions[i])
    requires p in Run(site, start, actions).procs && Run(site, start, actions).procs[p].Finished?
    ensures var end := Run(site, start, actions);
            match end.procs[p].outcome
            case PutEnded(shard, writer, r) =>
              exists i | 0 <= i < |end.log| ::
                && end.log[i].caller == p
                && r == PutOutcome(site.digest, end.log[i].before, site.dir, site.quota, shard, writer)
                && end.log[i].after == AfterPut(end.log[i].before, site.dir, site.digest(shard), shard, writer, r)
            case DeleteEnded(hash, writer, r) =>
              if !ValidHash(hash) then r == DeleteRefused(InvalidHash)
              else exists i | 0 <= i < |end.log| ::
                  && end.log[i].caller == p && r == DeleteOutcome(end.log[i].before, site.dir, hash, writer)
                  && end.log[i].after == AfterDelete(end.log[i].before, site.dir, hash, r)
            case GetEnded(_, _, _) => true
  {
    hide Serial, Run, PutOutcome, DeleteOutcome, AfterPut, AfterDelete, ValidHash;
    var end := Run(site, start, actions);
    RunUnharmed(site, start, actions);
    OutcomesAreHistory(site, start, actions, p);
    InvariantReady(site, ViewOf(start), end);
    var o := end.procs[p].outcome;
    if !o.GetEnded? && OneSince(end.log, end.since[p], p, o) {
      var i :| end.since[p] <= i < |end.log| && SectionOf(end.log[i], p, o);
      CleanIsExact(site, ViewOf(start), end.log, if end.lock.Some? then end.entry else ViewOf(end), i);
      if o.DeleteEnded? { OnlyDigestsDeleted(end.log[i].before, site.dir, o.hash, o.writer); }
    }
  }

  lemma OnlyDigestsDeleted(files: Files, dir: string, hash: string, writer: Bytes)
    ensures !ValidHash(hash) ==> DeleteOutcome(files, dir, hash, writer) == DeleteRefused(InvalidHash)
  {
  }

  // ---------------------------------------------------------------- failures

  /** A failing operation changes no name and no content; the call ends with an error, or goes on to clean up. */
  lemma FailureChangesNothing(site: Site, entry: Files, s: Section)
    requires PhaseOK(site, entry, s) && s.proc.HoldsLock() && !s.proc.Unlock?
    requires s.proc.PutRead? ==> ValidHash(site.digest(s.proc.shard))
    requires s.proc.PutScan? ==> s.proc.todo != {}
    ensures var t := HolderStep(site, s, Fail);
            && t.names == s.names && t.data == s.data && !t.clean && (t.proc.Unlock? || t.proc.Undo?)
            && (t.proc.Unlock? && t.proc.outcome.PutEnded? ==> !t.proc.outcome.put.Accepted())
            && (t.proc.Unlock? && t.proc.outcome.DeleteEnded? ==> !t.proc.outcome.delete.Deleted?)
            && (t.proc.Undo? <==> s.proc.OwnTemp? || s.proc.OwnWrite? || s.proc.OwnLink? || s.proc.OwnDirSync?)
  {
    hide Seen, AfterOutcome, Possible, Remembers;
  }

  /** A call is refused at once exactly if it names no digest; a read opens exactly a name that is there. */
  lemma StartsExactly(site: Site, s: State, p: nat, op: Op, choice: Choice)
    requires Ready(s)
    ensures p !in s.procs || s.procs[p].Finished? ==>
              var t := Next(site, s, Invoke(p, op));
              p in t.procs && (t.procs[p].Finished? <==> !op.Put? && !ValidHash(op.hash))
    ensures p in s.procs && s.procs[p].GetOpen? ==>
              var c, t := s.procs[p], Next(site, s, Move(p, choice));
              var sp := ShardPath(site.dir, c.hash);
              p in t.procs && t.procs[p] == if choice.Fail? then Finished(GetEnded(c.hash, c.born, Unreadable))
                                            else if sp in s.names then GetRead(c.hash, c.born, s.names[sp], [])
                                            else Finished(GetEnded(c.hash, c.born, Absent))
  {
    hide HolderStep;
  }

  // ---------------------------------------------------------------- every call can finish

  function Left(bytes: Bytes, data: map<nat, Bytes>, ino: nat): nat {
    if ino in data && |data[ino]| <= |bytes| then |bytes| - |data[ino]| else 0
  }

  /** A bound on the moves a lock holder still makes. */
  function Rank(s: Section): nat {
    match s.proc
    case PutRead(shard, writer) => 12 + |writer| + |shard| + |s.names|
    case PutScan(shard, writer, todo, _) => 11 + |writer| + |shard| + |todo|
    case PutTemp(shard, writer) => 10 + |writer| + |shard|
    case PutWrite(shard, writer, ino) => 9 + |writer| + Left(shard, s.data, ino)
    case PutLink(_, writer, _) => 8 + |writer|
    case PutDirSync(_, writer) => 7 + |writer|
    case OwnTemp(_, writer) => 6 + |writer|
    case OwnWrite(_, writer, ino) => 5 + Left(writer, s.data, ino)
    case OwnLink(_, _, _) => 4
    case OwnDirSync(_, _) => 3
    case Undo(_, _, _) => 2
    case DelRead(_, _) => 4
    case DelShard(_, _) => 3
    case DelOwner(_, _) => 2
    case _ => 1
  }

  lemma NamesBoundScan(names: map<Path, nat>, dir: string)
    ensures |set p | p in names && p.dir == dir| <= |names|
  {
    var here := set p | p in names && p.dir == dir;
    SubsetSize(here, names.Keys);
  }

  /** Every move of a lock holder, failing or not, brings it closer to its end. */
  lemma HolderMovesOn(site: Site, entry: Files, s: Section, c: Choice)
    requires PhaseOK(site, entry, s) && s.proc.HoldsLock() && !s.proc.Unlock? && c != Part(0)
    ensures Rank(HolderStep(site, s, c)) < Rank(s)
  {
    hide Seen, AfterOutcome, Possible, Exact, Named, Scanned, Room, ValidHash;
    if s.proc.PutWrite? || s.proc.OwnWrite? {
      WriteMovesOn(site, s, c, if s.proc.PutWrite? then s.proc.shard else s.proc.writer);
    } else if s.proc.PutRead? || s.proc.PutScan? || s.proc.PutTemp? || s.proc.PutLink? || s.proc.PutDirSync? {
      PutMovesOn(site, s, c);
    } else if s.proc.DelRead? || s.proc.DelShard? || s.proc.DelOwner? {
      DeleteMovesOn(site, s, c);
    } else {
      OwnerMovesOn(site, s, c);
    }
  }

  lemma PutMovesOn(site: Site, s: Section, c: Choice)
    requires ConcurrentStore.Linked(s.names, s.data) && HolderReady(s)
    requires s.proc.PutRead? || s.proc.PutScan? || s.proc.PutTemp? || s.proc.PutLink? || s.proc.PutDirSync?
    ensures Rank(PutStep(site, s, c)) < Rank(s)
  {
    hide PutStep, ConcurrentStore.Linked, ValidHash;
    PutGoesTo(site, s, c);
  }

  /** Where a step of a put leads. */
  lemma PutGoesTo(site: Site, s: Section, c: Choice)
    requires ConcurrentStore.Linked(s.names, s.data) && HolderReady(s)
    ensures var t := PutStep(site, s, c);
            && (s.proc.PutRead? ==>
                  t.proc.Unlock? || (t.proc.PutScan? && SameCall(s, t) && |t.proc.todo| <= |s.names|))
            && (s.proc.PutScan? ==> || t.proc.Unlock? || (t.proc.PutTemp? && SameCall(s, t))
                                    || (t.proc.PutScan? && SameCall(s, t) && |t.proc.todo| < |s.proc.todo|))
            && (s.proc.PutTemp? ==>
                  t.proc.Unlock? || (t.proc.PutWrite? && SameCall(s, t) && t.data == s.data[t.proc.ino := []]))
            && (s.proc.PutLink? ==> t.proc.Unlock? || (t.proc.PutDirSync? && t.proc.writer == s.proc.writer))
            && (s.proc.PutDirSync? ==> t.proc.Unlock? || (t.proc.OwnTemp? && t.proc.writer == s.proc.writer))
  {
    hide ValidHash, ConcurrentStore.Linked;
    if s.proc.PutRead? { NamesBoundScan(s.names, site.dir); }
  }

  predicate SameCall(s: Section, t: Section)
    requires s.proc.PutRead? || s.proc.PutScan? || s.proc.PutTemp?
    requires t.proc.PutScan? || t.proc.PutTemp? || t.proc.PutWrite?
  {
    t.proc.shard == s.proc.shard && t.proc.writer == s.proc.writer
  }

  lemma OwnerMovesOn(site: Site, s: Section, c: Choice)
    requires ConcurrentStore.Linked(s.names, s.data) && HolderReady(s)
    requires s.proc.OwnTemp? || s.proc.OwnLink? || s.proc.OwnDirSync? || s.proc.Undo?
    ensures Rank(OwnerStep(site, s, c)) < Rank(s)
  {
    hide OwnerStep, ConcurrentStore.Linked, ValidHash;
    OwnerGoesTo(site, s, c);
  }

  lemma DeleteMovesOn(site: Site, s: Section, c: Choice)
    requires ConcurrentStore.Linked(s.names, s.data) && (s.proc.DelRead? || s.proc.DelShard? || s.proc.DelOwner?)
    ensures Rank(DeleteStep(site, s, c)) < Rank(s)
  {
    hide DeleteStep, ConcurrentStore.Linked, ValidHash;
    DeleteGoesTo(site, s, c);
  }

  lemma OwnerGoesTo(site: Site, s: Section, c: Choice)
    requires ConcurrentStore.Linked(s.names, s.data) && HolderReady(s)
    ensures var t := OwnerStep(site, s, c);
            && (s.proc.OwnTemp? ==> || t.proc.Undo? || (t.proc.OwnWrite? && t.proc.writer == s.proc.writer
                                                        && t.data == s.data[t.proc.ino := []]))
            && (s.proc.OwnLink? ==> t.proc.Undo? || t.proc.OwnDirSync?)
            && (s.proc.OwnDirSync? ==> t.proc.Undo? || t.proc.Unlock?)
            && (s.proc.Undo? ==> t.proc.Unlock?)
  {
    hide ConcurrentStore.Linked, ValidHash;
  }

  lemma DeleteGoesTo(site: Site, s: Section, c: Choice)
    requires ConcurrentStore.Linked(s.names, s.data) && (s.proc.DelRead? || s.proc.DelShard? || s.proc.DelOwner?)
    ensures var t := DeleteStep(site, s, c);
            t.proc.Unlock? || (s.proc.DelRead? && t.proc.DelShard?) || (s.proc.DelShard? && t.proc.DelOwner?)
  {
    hide ConcurrentStore.Linked;
  }

  /** A write that is not empty leaves less to be written. */
  lemma WriteMovesOn(site: Site, s: Section, c: Choice, bytes: Bytes)
    requires ConcurrentStore.Linked(s.names, s.data) && HolderReady(s) && c != Part(0)
    requires (s.proc.PutWrite? && bytes == s.proc.shard) || (s.proc.OwnWrite? && bytes == s.proc.writer)
    requires s.data[s.proc.ino] <= bytes
    ensures Rank(HolderStep(site, s, c)) < Rank(s)
  {
    hide ConcurrentStore.Linked;
    var done := s.data[s.proc.ino];
    if |done| < |bytes| { assert |Take(bytes, |done|, c)| > 0; }
  }

  /** The lock holder running alone, without failures, finishes, and its section is logged. */
  lemma {:induction false} SectionEnds(site: Site, start: State, actions: seq<Action>, p: nat)
    returns (more: seq<Action>)
    requires Fresh(start) && Run(site, start, actions).lock == Some(p)
    ensures forall i | 0 <= i < |more| :: more[i] == Move(p, Go)
    ensures var s, t := Run(site, start, actions), Run(site, start, actions + more);
            && p in s.procs && p in t.procs && t.procs[p].Finished? && t.lock == None
            && |t.log| == |s.log| + 1 && t.log[|s.log|].caller == p && t.log[|s.log|].outcome == t.procs[p].outcome
            && (s.clean ==> t.log[|s.log|].clean)
            && forall q | q in s.procs && q != p :: q in t.procs && t.procs[q] == s.procs[q]
    decreases Rank(Holding(Run(site, start, actions), p)), |actions|
  {
    hide Serial, HolderStep, PhaseOK, Run, Rank;
    var s := Run(site, start, actions);
    assert s.procs[p].HoldsLock();
    RunMore(site, start, actions, Move(p, Go));
    var next := Run(site, start, actions + [Move(p, Go)]);
    forall q | q in s.procs && q != p ensures q in next.procs && next.procs[q] == s.procs[q] {
      MoveTouchesOne(site, s, p, Go, q);
    }
    if s.procs[p].Unlock? {
      more := [Move(p, Go)];
    } else {
      HolderMoves(site, ViewOf(start), s, p, Go);
      HolderTouchesOne(site, s, p, Go);
      HolderMovesOn(site, s.entry, Holding(s, p), Go);
      if s.clean { HolderStaysClean(site, s.entry, Holding(s, p), Go); }
      var rest := SectionEnds(site, start, actions + [Move(p, Go)], p);
      more := [Move(p, Go)] + rest;
      assert actions + more == actions + [Move(p, Go)] + rest;
    }
  }

  function ReadingLeft(s: State, c: Proc): nat {
    if c.GetOpen? then 3 else if c.GetRead? && c.ino in s.data && |c.got| < |s.data[c.ino]| then 2
    else if c.GetRead? then 1 else 0
  }

  /** A reader running alone, without failures, finishes. */
  lemma {:induction false} ReadEnds(site: Site, start: State, actions: seq<Action>, p: nat) returns (more: seq<Action>)
    requires Fresh(start) && p in Run(site, start, actions).procs
    requires var c := Run(site, start, actions).procs[p]; c.GetOpen? || c.GetRead?
    ensures forall i | 0 <= i < |more| :: more[i] == Move(p, Go)
    ensures var t := Run(site, start, actions + more); p in t.procs && t.procs[p].Finished?
    decreases ReadingLeft(Run(site, start, actions), Run(site, start, actions).procs[p])
  {
    hide Serial, HolderStep, PhaseOK, Run;
    var s := Run(site, start, actions);
    assert ReaderOK(site, s, s.procs[p]);
    RunMore(site, start, actions, Move(p, Go));
    ReaderMoves(site, s, p, Go);
    var next := Run(site, start, actions + [Move(p, Go)]);
    if next.procs[p].Finished? {
      more := [Move(p, Go)];
    } else {
      var rest := ReadEnds(site, start, actions + [Move(p, Go)], p);
      more := [Move(p, Go)] + rest;
      assert actions + more == actions + [Move(p, Go)] + rest;
    }
  }

  /** Whoever waits while nobody holds the lock gets it. */
  lemma WaiterLocks(site: Site, first: Files, s: State, p: nat)
    requires Invariant(site, first, s) && Ready(s) && s.lock == None && p in s.procs && s.procs[p].Wait?
    ensures var t := Next(site, s, Move(p, Go)); t.lock == Some(p) && t.clean && t.log == s.log && p in t.procs
  {
    hide Serial, HolderStep, PhaseOK, Seen;
    assert NameOK(s.procs[p]);
  }

  /** Nothing gets stuck: in every reachable state, whatever has failed and whoever was killed before, there are moves
      without failures after which a given call has finished; and if that was still waiting for the lock, it has had
      its section, in which nothing failed. */
  lemma EveryCallCanFinish(site: Site, start: State, actions: seq<Action>, p: nat) returns (more: seq<Action>)
    requires Fresh(start) && p in Run(site, start, actions).procs
    ensures forall i | 0 <= i < |more| :: more[i].Move? && more[i].choice == Go
    ensures var s, t := Run(site, start, actions), Run(site, start, actions + more);
            && p in t.procs && t.procs[p].Finished?
            && (s.procs[p].Wait? ==> t.log != [] && t.log[|t.log| - 1].caller == p && t.log[|t.log| - 1].clean
                                     && t.log[|t.log| - 1].outcome == t.procs[p].outcome)
  {
    hide Serial, HolderStep, PhaseOK, Run, Rank;
    var s := Run(site, start, actions);
    if s.procs[p].Finished? {
      more := [];
      assert actions + more == actions;
    } else if s.procs[p].GetOpen? || s.procs[p].GetRead? {
      more := ReadEnds(site, start, actions, p);
    } else if s.procs[p].HoldsLock() {
      more := SectionEnds(site, start, actions, p);
    } else {
      var freeing := [];
      if s.lock.Some? { freeing := SectionEnds(site, start, actions, s.lock.value); }
      assert s.lock.None? ==> actions + freeing == actions;
      var free := Run(site, start, actions + freeing);
      WaiterLocks(site, ViewOf(start), free, p);
      RunMore(site, start, actions + freeing, Move(p, Go));
      var rest := SectionEnds(site, start, actions + freeing + [Move(p, Go)], p);
      more := freeing + [Move(p, Go)] + rest;
      assert actions + more == actions + freeing + [Move(p, Go)] + rest;
    }
  }
}
