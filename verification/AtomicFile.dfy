/** internal/atomicfile: publish a complete, synced file without replacing an existing path. */
module AtomicFile {
  import opened Prelude
  import opened FileSystem

  /** What became of a write. The caller of the source sees only success or an error: `Late` is the error
      that arrives after the file was published, when its directory cannot be opened or synced. */
  datatype WriteResult = Written | Taken | Abandoned | Late {
    predicate Published() { Written? || Late? }
  }

  /** Every state recorded since the base has `path` as it was or complete, and everything else untouched. */
  ghost predicate OnlyAdds(before: Snapshot, trace: seq<Snapshot>, from: nat, path: Path, data: Bytes) {
    forall i | from <= i < |trace| ::
      trace[i] == before.(disk := trace[i].disk) && Adds(before.disk, trace[i].disk, path, data)
  }

  lemma Recorded(before: Snapshot, trace: seq<Snapshot>, from: nat, path: Path, data: Bytes, s: Snapshot)
    requires OnlyAdds(before, trace, from, path, data)
    requires s == before.(disk := s.disk) && Adds(before.disk, s.disk, path, data)
    ensures OnlyAdds(before, trace + [s], from, path, data)
  {
  }

  lemma Joined(before: Snapshot, earlier: seq<Snapshot>, trace: seq<Snapshot>, from: nat, path: Path, data: Bytes)
    requires earlier <= trace && OnlyAdds(before, earlier, from, path, data)
             && OnlyAdds(before, trace, |earlier|, path, data)
    ensures OnlyAdds(before, trace, from, path, data)
  {
    forall i | from <= i < |trace|
      ensures trace[i] == before.(disk := trace[i].disk) && Adds(before.disk, trace[i].disk, path, data)
    {
      if i < |earlier| { assert trace[i] == earlier[i]; }
    }
  }

  /** A new inode without a name, holding anything. */
  ghost predicate Scratch(base: Disk, d: Disk, ino: nat) {
    && base.Valid() && d.Valid() && d.names == base.names && d.stable == base.stable
    && ino in d.inodes && ino !in base.inodes && base.seen <= d.seen
    && forall i | i in base.inodes :: i in d.inodes && d.inodes[i] == base.inodes[i]
  }

  lemma ScratchAdds(base: Disk, d: Disk, ino: nat, path: Path, data: Bytes)
    requires Scratch(base, d, ino)
    ensures Adds(base, d, path, data) && View(d) == View(base)
  {
  }

  lemma LinkAdds(base: Disk, d: Disk, ino: nat, path: Path, data: Bytes)
    requires Scratch(base, d, ino) && d.inodes[ino].data == data && d.inodes[ino].flushed
    requires path !in d.names
    ensures var after := d.(names := d.names[path := ino]);
            Adds(base, after, path, data) && View(after) == View(base)[path := data]
  {
  }

  lemma SyncAdds(base: Disk, d: Disk, path: Path, data: Bytes)
    requires base.Valid() && Adds(base, d, path, data) && path in d.names && path !in base.names
    ensures var synced := DirSynced(d, path.dir);
            && Adds(base, synced, path, data) && View(synced) == View(d)
            && Pinned(synced, path, data)
  {
  }

  lemma NothingAdded(before: Snapshot, trace: seq<Snapshot>, path: Path, data: Bytes)
    requires before.disk.Valid()
    ensures Adds(before.disk, before.disk, path, data) && OnlyAdds(before, trace, |trace|, path, data)
  {
  }

  /** The second half of `WriteNewFrom`: sync, close, link, and sync the directory. */
  method Publish(w: World, ino: nat, path: Path, ghost before: Snapshot, ghost data: Bytes) returns (r: WriteResult)
    requires Scratch(before.disk, w.disk, ino) && w.disk.inodes[ino].data == data && w.Now() == before.(disk := w.disk)
    modifies w`disk, w`faults, w`trace
    ensures w.disk.Valid() && w.Now() == before.(disk := w.disk) && old(w.trace) <= w.trace
    ensures OnlyAdds(before, w.trace, |old(w.trace)|, path, data) && Adds(before.disk, w.disk, path, data)
    ensures r.Published() ==> path !in before.disk.names && !MeansDirectory(path)
                              && View(w.disk) == View(before.disk)[path := data]
    ensures !r.Published() ==> View(w.disk) == View(before.disk)
    ensures r.Written? ==> Pinned(w.disk, path, data)
    ensures r.Taken? ==> path in before.disk.names || MeansDirectory(path)
    ensures r.Written? || r.Taken? ==> w.faults == old(w.faults)
    ensures r.Abandoned? || r.Late? ==> w.faults > old(w.faults)
  {
    hide Adds, OnlyAdds, View;
    ghost var trace := w.trace;
    NothingAdded(before, trace, path, data);
    var synced := w.Fsync(ino);
    ScratchAdds(before.disk, w.disk, ino, path, data);
    Recorded(before, trace, |old(w.trace)|, path, data, w.Now());
    if !synced { return Abandoned; }
    ghost var flushed := w.disk;
    trace := w.trace;
    assert old(w.trace) <= trace;
    var linked := w.Link(ino, path);
    if linked.Linked? { LinkAdds(before.disk, flushed, ino, path, data); }
    Recorded(before, trace, |old(w.trace)|, path, data, w.Now());
    match linked {
      case LinkExists => return Taken;
      case LinkFailed => return Abandoned;
      case Linked =>
    }
    trace := w.trace;
    assert old(w.trace) <= trace;
    SyncAdds(before.disk, w.disk, path, data);
    var durable := w.SyncDir(path.dir);
    Recorded(before, trace, |old(w.trace)|, path, data, w.Now());
    r := if durable then Written else Late;
  }

  /** The first half: a temporary file, empty so far. */
  method Begin(w: World) returns (ino: Option<nat>)
    requires w.disk.Valid()
    modifies w`disk, w`faults, w`trace
    ensures w.disk.Valid() && w.Now() == old(w.Now()).(disk := w.disk) && w.trace == old(w.trace) + [w.Now()]
    ensures View(w.disk) == View(old(w.disk))
    ensures ino.None? ==> w.disk == old(w.disk) && w.faults > old(w.faults)
    ensures ino.Some? ==> w.faults == old(w.faults) && Scratch(old(w.disk), w.disk, ino.value)
                          && w.disk.inodes[ino.value].data == []
  {
    ino := w.CreateTemp();
    if ino.Some? { ScratchAdds(old(w.disk), w.disk, ino.value, Path("", ""), []); }
  }

  /** The callback's writes go to the temporary file only. */
  method Write(w: World, ino: nat, bytes: Bytes, ghost base: Disk) returns (ok: bool)
    requires Scratch(base, w.disk, ino)
    modifies w`disk, w`faults, w`trace
    ensures w.disk.Valid() && w.Now() == old(w.Now()).(disk := w.disk) && w.trace == old(w.trace) + [w.Now()]
    ensures Scratch(base, w.disk, ino) && View(w.disk) == View(base)
    ensures ok ==> w.disk.inodes[ino].data == old(w.disk.inodes[ino].data) + bytes
    ensures if ok then w.faults == old(w.faults) else w.faults > old(w.faults)
  {
    ok := w.Append(ino, bytes);
    ScratchAdds(base, w.disk, ino, Path("", ""), []);
  }

  /** `WriteNew`: all or nothing at `path`, at every instant, whatever fails. On success the file is durable. */
  method WriteNew(w: World, path: Path, data: Bytes) returns (r: WriteResult)
    requires w.disk.Valid()
    modifies w`disk, w`faults, w`trace
    ensures w.disk.Valid() && w.Now() == old(w.Now()).(disk := w.disk) && old(w.trace) <= w.trace
    ensures OnlyAdds(old(w.Now()), w.trace, |old(w.trace)|, path, data)
    ensures Adds(old(w.disk), w.disk, path, data)
    ensures r.Published() ==> path !in old(w.disk).names && !MeansDirectory(path)
                              && View(w.disk) == View(old(w.disk))[path := data]
    ensures !r.Published() ==> View(w.disk) == View(old(w.disk))
    ensures r.Written? ==> Pinned(w.disk, path, data)
    ensures r.Taken? ==> path in old(w.disk).names || MeansDirectory(path)
    ensures r.Written? || r.Taken? ==> w.faults == old(w.faults)
    ensures r.Abandoned? || r.Late? ==> w.faults > old(w.faults)
  {
    hide Adds, OnlyAdds, Scratch, Pinned, View;
    ghost var before, from := w.Now(), |w.trace|;
    NothingAdded(before, w.trace, path, data);
    var temp := Begin(w);
    if temp.None? {
      Recorded(before, old(w.trace), from, path, data, w.Now());
      return Abandoned;
    }
    ScratchAdds(before.disk, w.disk, temp.value, path, data);
    Recorded(before, old(w.trace), from, path, data, w.Now());
    ghost var trace := w.trace;
    var ok := Write(w, temp.value, data, before.disk);
    ScratchAdds(before.disk, w.disk, temp.value, path, data);
    Recorded(before, trace, from, path, data, w.Now());
    if !ok { return Abandoned; }
    trace := w.trace;
    assert [] + data == data;
    r := Publish(w, temp.value, path, before, data);
    Joined(before, trace, w.trace, from, path, data);
  }
}
