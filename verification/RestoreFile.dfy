/** `RestoreFile` as it runs: read the manifest, fetch shards, decode chunk by chunk into a temporary file, publish.
    `Restore` says what the bytes are; here is that nothing else ever appears at the output path, and that nothing the
    user puts there meanwhile is replaced. */
module RestoreFile {
  import opened Prelude
  import opened Erasure
  import opened Manifest
  import opened Sealing
  import opened FileSystem
  import opened AtomicFile
  import opened Restore
  import opened Pipeline

  /** `TooLate`: the complete output was published, but the caller sees an error. */
  datatype Ending = Done(path: Path) | Failed | TooLate

  method CollectShards(env: Env, refs: seq<ShardRef>, src: Sources, i: nat, limit: nat) returns (held: seq<Bytes>)
    ensures held == Held(env, refs, src, i, limit)
  {
    held := [];
    var all := Held(env, refs, src, i, limit);
    for j := 0 to |refs|
      invariant held == all[..j]
    {
      var ref := refs[j];
      var shard: Bytes := [];
      if ref.hash != "" {
        var fetched := Fetch(env, ref, src, i, j, limit);
        if fetched.Some? { shard := fetched.value; }
      }
      held := held + [shard];
    }
    assert all[..|refs|] == all;
  }

  /** One chunk of a version-2 manifest. */
  method DecodeChunk(env: Env, l: Layout, key: Bytes, c: Chunk, src: Sources, i: nat) returns (r: Option<Bytes>)
    requires l.Sound() && c.ciphertextSize >= 0
    ensures r == RestoreChunk(env, l, key, c, src, i)
  {
    var held := CollectShards(env, c.shards, src, i, Limit(c.ciphertextSize, l));
    var ciphertext := Decode(env.code, l, held, c.ciphertextSize);
    if ciphertext.None? { return None; }
    var plain := Decrypt(env, ciphertext.value, key, c.nonce);
    if plain.None? || |plain.value| != c.plaintextSize { return None; }
    r := plain;
  }

  /** What the user has at the output path: what was there before, or what they made of it since. */
  ghost function Theirs(before: Snapshot, s: Snapshot, output: Path): Option<Bytes>
    requires before.disk.Valid()
  {
    if s.edits != before.edits then s.latest
    else if output in View(before.disk) then Some(View(before.disk)[output]) else None
  }

  function With(files: Files, output: Path, content: Option<Bytes>): Files {
    if content.Some? then files[output := content.value] else files - {output}
  }

  /** The output path is as the user has it or, where they have nothing, holds the whole result; nothing else has
      changed. */
  ghost predicate Whole(before: Snapshot, s: Snapshot, output: Path, result: Option<Bytes>)
    requires before.disk.Valid()
  {
    && s.disk.Valid()
    && (View(s.disk) == With(View(before.disk), output, Theirs(before, s, output))
        || (result.Some? && Theirs(before, s, output) == None
            && View(s.disk) == With(View(before.disk), output, result)))
  }

  ghost predicate WholeOrNothing(before: Snapshot, trace: seq<Snapshot>, from: nat, output: Path,
                                 result: Option<Bytes>)
    requires before.disk.Valid()
  {
    forall i | from <= i < |trace| :: Whole(before, trace[i], output, result)
  }

  lemma Untouched(before: Snapshot, s: Snapshot, output: Path)
    requires before.disk.Valid() && s.disk.Valid() && View(s.disk) == View(before.disk) && s.edits == before.edits
    ensures View(s.disk) == With(View(before.disk), output, Theirs(before, s, output))
  {
  }

  /** Whatever the user does to the output path. */
  lemma EditingIsWhole(before: Snapshot, mid: Snapshot, t: Snapshot, output: Path)
    requires before.disk.Valid() && mid.disk.Valid() && View(mid.disk) == View(before.disk) && mid.edits == before.edits
    requires UserEdited(mid, t, output)
    ensures t.disk.Valid() && View(t.disk) == With(View(before.disk), output, Theirs(before, t, output))
  {
    EditView(mid.disk, t.disk, output, t.latest);
    hide Edited, View;
    Replacing(View(before.disk), View(t.disk), output, t.latest);
  }

  lemma Replacing(files: Files, after: Files, path: Path, content: Option<Bytes>)
    requires after - {path} == files - {path}
    requires if content.Some? then path in after && after[path] == content.value else path !in after
    ensures after == With(files, path, content)
  {
    forall p | p != path ensures p in after <==> p in files
      ensures p in after ==> after[p] == files[p]
    {
      assert p in after <==> p in after - {path};
      assert p in files <==> p in files - {path};
      assert p in after ==> (after - {path})[p] == (files - {path})[p];
    }
  }

  /** Publishing adds the whole result where the user has nothing, and nothing elsewhere. */
  lemma AddingIsWhole(before: Snapshot, mid: Snapshot, t: Snapshot, output: Path, data: Bytes)
    requires before.disk.Valid() && mid.disk.Valid()
    requires View(mid.disk) == With(View(before.disk), output, Theirs(before, mid, output))
    requires t == mid.(disk := t.disk) && Adds(mid.disk, t.disk, output, data)
    ensures Whole(before, t, output, Some(data))
  {
    AddsView(mid.disk, t.disk, output, data);
    ViewAt(mid.disk, output);
    hide Adds, View, With;
    if output !in mid.disk.names && output in t.disk.names {
      Filled(View(before.disk), View(mid.disk), output, Theirs(before, mid, output), data);
    }
  }

  lemma Filled(files: Files, mid: Files, path: Path, content: Option<Bytes>, data: Bytes)
    requires mid == With(files, path, content) && path !in mid
    ensures content == None && mid[path := data] == With(files, path, Some(data))
  {
    assert (files - {path})[path := data] == files[path := data];
  }

  lemma Longer(before: Snapshot, earlier: seq<Snapshot>, trace: seq<Snapshot>, from: nat, output: Path,
               none: Option<Bytes>, result: Option<Bytes>)
    requires before.disk.Valid() && WholeOrNothing(before, earlier, from, output, none)
    requires earlier <= trace && (none == None || none == result)
    requires WholeOrNothing(before, trace, |earlier|, output, result) || trace == earlier
    ensures WholeOrNothing(before, trace, from, output, result)
  {
    forall i | from <= i < |trace| ensures Whole(before, trace[i], output, result) {
      if i < |earlier| { assert trace[i] == earlier[i]; }
    }
  }

  lemma NothingYet(before: Snapshot, trace: seq<Snapshot>, output: Path)
    requires before.disk.Valid()
    ensures WholeOrNothing(before, trace, |trace|, output, None)
  {
  }

  lemma QuietMoment(before: Snapshot, trace: seq<Snapshot>, from: nat, output: Path, s: Snapshot)
    requires before.disk.Valid() && WholeOrNothing(before, trace, from, output, None)
    requires s.disk.Valid() && View(s.disk) == View(before.disk) && s.edits == before.edits
    ensures WholeOrNothing(before, trace + [s], from, output, None)
  {
    Untouched(before, s, output);
  }

  /** Until the output is published the user can do anything to its path. */
  method LetUserAct(w: World, output: Path, ghost before: Snapshot, ghost from: nat)
    requires before.disk.Valid() && w.disk.Valid() && View(w.disk) == View(before.disk)
    requires w.Now() == before.(disk := w.disk)
    requires from <= |w.trace| && WholeOrNothing(before, w.trace, from, output, None)
    modifies w
    ensures w.disk.Valid() && w.Now() == before.(disk := w.disk, latest := w.latest, edits := w.edits)
    ensures old(w.trace) <= w.trace && w.faults == old(w.faults)
    ensures w.Now() == old(w.Now()) || UserEdited(old(w.Now()), w.Now(), output)
    ensures View(w.disk) == With(View(before.disk), output, Theirs(before, w.Now(), output))
    ensures WholeOrNothing(before, w.trace, from, output, None)
  {
    hide Edited, With, View, Theirs;
    w.UserActs(output);
    ghost var mid := old(w.Now());
    Untouched(before, mid, output);
    if w.Now() != mid { EditingIsWhole(before, mid, w.Now(), output); }
    forall i | |old(w.trace)| <= i < |w.trace| ensures Whole(before, w.trace[i], output, None) {
      EditingIsWhole(before, mid, w.trace[i], output);
    }
    Longer(before, old(w.trace), w.trace, from, output, None, None);
  }

  /** The disk as it is without this temporary file. */
  function Without(d: Disk, ino: nat): Disk {
    d.(inodes := d.inodes - {ino})
  }

  /** The user's doings leave the temporary file alone: it is still nameless beside whatever there is now. */
  lemma StillScratch(base: Disk, s: Snapshot, t: Snapshot, ino: nat, output: Path)
    requires Scratch(base, s.disk, ino) && (t == s || UserEdited(s, t, output))
    ensures ino in t.disk.inodes && t.disk.inodes[ino] == s.disk.inodes[ino]
    ensures var now := Without(t.disk, ino);
            now.Valid() && Scratch(now, t.disk, ino) && View(now) == View(t.disk)
  {
    forall p | p in t.disk.names ensures t.disk.names[p] != ino {
      if p != output {
        assert p in t.disk.names - {output};
        assert p in s.disk.names - {output};
        assert (t.disk.names - {output})[p] == (s.disk.names - {output})[p];
      }
    }
    assert forall p | p in t.disk.stable :: t.disk.stable[p] != ino;
    assert ino in t.disk.inodes && t.disk.inodes[ino] == s.disk.inodes[ino];
    hide Edited;
    NamelessIsScratch(t.disk, ino);
  }

  lemma NamelessIsScratch(d: Disk, ino: nat)
    requires d.Valid() && ino in d.inodes
    requires (forall p | p in d.names :: d.names[p] != ino) && forall p | p in d.stable :: d.stable[p] != ino
    ensures Scratch(Without(d, ino), d, ino) && View(Without(d, ino)) == View(d)
  {
    var now := Without(d, ino);
    assert now.Valid();
  }

  lemma OneMoreChunk(results: seq<Option<Bytes>>, i: nat, before: Bytes)
    requires i < |results| && JoinAll(results[..i]) == Some(before)
    ensures JoinAll(results[..i + 1]) == if results[i].Some? then Some(before + results[i].value) else None
  {
    assert results[..i + 1][..i] == results[..i];
  }

  /** `restoreChunked`'s callback: chunk after chunk into the temporary file, until one fails. */
  method WriteChunks(w: World, env: Env, l: Layout, m: Manifest, src: Sources, ino: nat, output: Path,
                     ghost before: Snapshot, ghost from: nat)
    returns (ok: bool)
    requires l.Sound() && (forall i | 0 <= i < |m.chunks| :: m.chunks[i].ciphertextSize >= 0)
    requires w.Now() == before.(disk := w.disk) && Scratch(before.disk, w.disk, ino) && w.disk.inodes[ino].data == []
    requires from <= |w.trace| && WholeOrNothing(before, w.trace, from, output, None)
    modifies w
    ensures w.disk.Valid() && w.Now() == old(w.Now()).(disk := w.disk) && old(w.trace) <= w.trace
            && w.faults >= old(w.faults)
    ensures Scratch(before.disk, w.disk, ino) && View(w.disk) == View(before.disk)
    ensures WholeOrNothing(before, w.trace, from, output, None)
    ensures var result := JoinAll(ChunkResults(env, l, m, src));
            && (ok ==> result == Some(w.disk.inodes[ino].data) && w.faults == old(w.faults))
            && (!ok && w.faults == old(w.faults) ==> result == None)
  {
    hide Adds, RestoreChunk, WholeOrNothing, JoinAll, View;
    ghost var results := ChunkResults(env, l, m, src);
    ScratchAdds(before.disk, w.disk, ino, output, []);
    NoneJoined(results);
    for i := 0 to |m.chunks|
      invariant w.disk.Valid() && w.Now() == old(w.Now()).(disk := w.disk) && old(w.trace) <= w.trace
                && w.faults == old(w.faults)
      invariant Scratch(before.disk, w.disk, ino) && View(w.disk) == View(before.disk)
      invariant from <= |w.trace| && WholeOrNothing(before, w.trace, from, output, None)
      invariant ino in w.disk.inodes && JoinAll(results[..i]) == Some(w.disk.inodes[ino].data)
    {
      var go := w.Attempt();
      if !go { return false; }
      OneMoreChunk(results, i, w.disk.inodes[ino].data);
      var plain := DecodeChunk(env, l, m.key, m.chunks[i], src, i);
      if plain.None? {
        FailedStays(results, i + 1);
        return false;
      }
      ghost var trace := w.trace;
      var written := Write(w, ino, plain.value, before.disk);
      QuietMoment(before, trace, from, output, w.Now());
      if !written { return false; }
    }
    assert results[..|m.chunks|] == results;
    ok := true;
  }

  lemma NoneJoined(results: seq<Option<Bytes>>)
    ensures JoinAll(results[..0]) == Some([])
  {
  }

  lemma {:induction false} FailedStays(results: seq<Option<Bytes>>, n: nat)
    requires n <= |results| && JoinAll(results[..n]) == None
    ensures JoinAll(results) == None
    decreases |results| - n
  {
    if n < |results| {
      assert results[..n + 1][..n] == results[..n];
      FailedStays(results, n + 1);
    } else {
      assert results[..n] == results;
    }
  }

  /** How a restore leaves the disk: the whole result is at the output path, durably if reported done, where the user
      has nothing; or that path is as the user has it. Nothing else has changed, and so at every instant on the way. */
  ghost predicate Ended(before: Snapshot, after: Snapshot, earlier: seq<Snapshot>, trace: seq<Snapshot>, output: Path,
                        result: Option<Bytes>, r: Ending)
    requires before.disk.Valid() && after.disk.Valid()
  {
    && after == before.(disk := after.disk, latest := after.latest, edits := after.edits) && earlier <= trace
    && WholeOrNothing(before, trace, |earlier|, output, result)
    && (r.Done? ==> r.path == output && result.Some? && Pinned(after.disk, output, result.value))
    && (r.Done? || r.TooLate? ==>
          && result.Some? && Theirs(before, after, output) == None
          && View(after.disk) == With(View(before.disk), output, result))
    && (r.Failed? ==> View(after.disk) == With(View(before.disk), output, Theirs(before, after, output)))
  }

  lemma WholeMeans(before: Snapshot, s: Snapshot, output: Path, result: Option<Bytes>)
    requires before.disk.Valid() && Whole(before, s, output, result)
    ensures forall p | p != output :: (p in s.disk.names <==> p in before.disk.names)
                                      && (p in s.disk.names ==> View(s.disk)[p] == View(before.disk)[p])
    ensures s.edits == before.edits && output in before.disk.names ==>
              output in s.disk.names && View(s.disk)[output] == View(before.disk)[output]
    ensures s.edits == before.edits && output !in before.disk.names && output in s.disk.names ==>
              Some(View(s.disk)[output]) == result
  {
    var files, now := View(before.disk), View(s.disk);
    assert files.Keys == before.disk.names.Keys && now.Keys == s.disk.names.Keys;
    hide View;
    forall p | p != output ensures (p in now <==> p in files) && (p in now ==> now[p] == files[p]) {
      assert p in files - {output} <==> p in files;
    }
    assert forall p :: (p in s.disk.names <==> p in now) && (p in before.disk.names <==> p in files);
  }

  /** What that comes to while the user leaves the output path alone. At every instant all other files are as they were,
      a file that is there is never replaced, and one that was not is complete. A restore reported done has put the
      whole result there, and it survives a power failure; a failed one has changed nothing. */
  lemma NoPartialFile(before: Snapshot, after: Snapshot, earlier: seq<Snapshot>, trace: seq<Snapshot>, output: Path,
                      result: Option<Bytes>, r: Ending)
    requires before.disk.Valid() && after.disk.Valid() && Ended(before, after, earlier, trace, output, result, r)
    ensures forall i | |earlier| <= i < |trace| ::
              var s := trace[i];
              && s.disk.Valid()
              && (forall p | p != output :: (p in s.disk.names <==> p in before.disk.names)
                                            && (p in s.disk.names ==> View(s.disk)[p] == View(before.disk)[p]))
              && (s.edits == before.edits && output in before.disk.names ==>
                    output in s.disk.names && View(s.disk)[output] == View(before.disk)[output])
              && (s.edits == before.edits && output !in before.disk.names && output in s.disk.names ==>
                    Some(View(s.disk)[output]) == result)
    ensures r.Done? ==>
              && r.path == output && output in after.disk.names && Some(View(after.disk)[output]) == result
              && (after.edits == before.edits ==> output !in before.disk.names)
              && forall d: Disk | AfterCrash(after.disk, d) :: output in View(d) && Some(View(d)[output]) == result
    ensures r.Failed? && after.edits == before.edits ==> View(after.disk) == View(before.disk)
  {
    forall i | |earlier| <= i < |trace|
      ensures var s := trace[i];
              && s.disk.Valid()
              && (forall p | p != output :: (p in s.disk.names <==> p in before.disk.names)
                                            && (p in s.disk.names ==> View(s.disk)[p] == View(before.disk)[p]))
              && (s.edits == before.edits && output in before.disk.names ==>
                    output in s.disk.names && View(s.disk)[output] == View(before.disk)[output])
              && (s.edits == before.edits && output !in before.disk.names && output in s.disk.names ==>
                    Some(View(s.disk)[output]) == result)
    {
      assert Whole(before, trace[i], output, result);
      WholeMeans(before, trace[i], output, result);
    }
    forall d: Disk | r.Done? && AfterCrash(after.disk, d) ensures output in View(d) && Some(View(d)[output]) == result {
      PinnedSurvives(after.disk, d, output, result.value);
    }
  }

  lemma NothingEnds(before: Snapshot, trace: seq<Snapshot>, output: Path, result: Option<Bytes>)
    requires before.disk.Valid()
    ensures Ended(before, before, trace, trace, output, result, Failed)
  {
    Untouched(before, before, output);
  }

  /** The user has nothing at the output path, and it can be a file. */
  ghost predicate Free(before: Snapshot, after: Snapshot, output: Path)
    requires before.disk.Valid()
  {
    Theirs(before, after, output) == None && !MeansDirectory(output)
  }

  /** What publishing the complete temporary file, or writing it at once, comes to. */
  lemma PublishedEnds(before: Snapshot, mid: Snapshot, after: Snapshot, earlier: seq<Snapshot>, middle: seq<Snapshot>,
                      trace: seq<Snapshot>, output: Path, data: Bytes, written: WriteResult, r: Ending)
    requires before.disk.Valid() && mid.disk.Valid() && after.disk.Valid() && earlier <= middle <= trace
    requires mid == before.(disk := mid.disk, latest := mid.latest, edits := mid.edits)
    requires View(mid.disk) == With(View(before.disk), output, Theirs(before, mid, output))
    requires WholeOrNothing(before, middle, |earlier|, output, None)
    requires after == mid.(disk := after.disk) && OnlyAdds(mid, trace, |middle|, output, data)
    requires written.Published() ==> output !in mid.disk.names && View(after.disk) == View(mid.disk)[output := data]
    requires !written.Published() ==> View(after.disk) == View(mid.disk)
    requires written.Written? ==> Pinned(after.disk, output, data)
    requires r == match written case Written => Done(output) case Late => TooLate case _ => Failed
    ensures Ended(before, after, earlier, trace, output, Some(data), r)
  {
    hide Adds, Pinned, Whole;
    forall i | |middle| <= i < |trace| ensures Whole(before, trace[i], output, Some(data)) {
      AddingIsWhole(before, mid, trace[i], output, data);
    }
    Longer(before, middle, trace, |earlier|, output, None, Some(data));
    if written.Published() {
      ViewAt(mid.disk, output);
      assert Theirs(before, mid, output) == None;
      assert (View(before.disk) - {output})[output := data] == View(before.disk)[output := data];
    }
  }

  /** `restoreChunked`. */
  method RestoreChunked(w: World, env: Env, l: Layout, m: Manifest, src: Sources, output: Path) returns (r: Ending)
    requires w.disk.Valid() && l.Sound() && forall i | 0 <= i < |m.chunks| :: m.chunks[i].ciphertextSize >= 0
    modifies w
    ensures w.disk.Valid()
            && Ended(old(w.Now()), w.Now(), old(w.trace), w.trace, output, JoinAll(ChunkResults(env, l, m, src)), r)
    ensures w.faults == old(w.faults) ==>
              (r.Done? <==> JoinAll(ChunkResults(env, l, m, src)).Some? && Free(old(w.Now()), w.Now(), output))
  {
    hide Adds, OnlyAdds, View, RestoreChunk, JoinAll, WholeOrNothing, Theirs, With, UserEdited, Scratch, Without;
    ghost var before, from, result := w.Now(), |w.trace|, JoinAll(ChunkResults(env, l, m, src));
    NothingYet(before, w.trace, output);
    var temp := Begin(w);
    QuietMoment(before, old(w.trace), from, output, w.Now());
    if temp.None? {
      Longer(before, w.trace, w.trace, from, output, None, result);
      Untouched(before, w.Now(), output);
      return Failed;
    }
    var ok := WriteChunks(w, env, l, m, src, temp.value, output, before, from);
    if !ok {
      Longer(before, w.trace, w.trace, from, output, None, result);
      Untouched(before, w.Now(), output);
      return Failed;
    }
    ghost var s := w.Now();
    LetUserAct(w, output, before, from);
    StillScratch(before.disk, s, w.Now(), temp.value, output);
    ghost var mid := w.Now().(disk := Without(w.disk, temp.value));
    ghost var middle := w.trace;
    SameTheirs(before, w.Now(), mid, output);
    var written := Publish(w, temp.value, output, mid, result.value);
    r := match written case Written => Done(output) case Late => TooLate case _ => Failed;
    PublishedEnds(before, mid, w.Now(), old(w.trace), middle, w.trace, output, result.value, written, r);
    TakenIsTheirs(before, mid, w.Now(), output);
  }

  lemma SameTheirs(before: Snapshot, s: Snapshot, t: Snapshot, output: Path)
    requires before.disk.Valid() && t == s.(disk := t.disk)
    ensures Theirs(before, t, output) == Theirs(before, s, output)
  {
  }

  lemma TakenIsTheirs(before: Snapshot, mid: Snapshot, after: Snapshot, output: Path)
    requires before.disk.Valid() && mid.disk.Valid() && after == mid.(disk := after.disk)
    requires View(mid.disk) == With(View(before.disk), output, Theirs(before, mid, output))
    ensures output in mid.disk.names <==> Theirs(before, after, output).Some?
  {
    ViewAt(mid.disk, output);
  }

  /** Versions 0 and 1. */
  method RestoreOld(w: World, env: Env, l: Layout, m: Manifest, src: Sources, output: Path) returns (r: Ending)
    requires w.disk.Valid() && l.Sound() && m.ciphertextSize >= 0
    modifies w
    ensures w.disk.Valid()
            && Ended(old(w.Now()), w.Now(), old(w.trace), w.trace, output, RestoreWhole(env, l, m, src), r)
    ensures w.faults == old(w.faults) ==>
              (r.Done? <==> RestoreWhole(env, l, m, src).Some? && Free(old(w.Now()), w.Now(), output))
  {
    hide Adds, OnlyAdds, View, WholeOrNothing, Theirs, With, UserEdited;
    ghost var before := w.Now();
    NothingYet(before, w.trace, output);
    Untouched(before, before, output);
    Longer(before, w.trace, w.trace, |w.trace|, output, None, RestoreWhole(env, l, m, src));
    var held := CollectShards(env, m.shards, src, 0, Limit(m.ciphertextSize, l));
    var ciphertext := Decode(env.code, l, held, m.ciphertextSize);
    if ciphertext.None? { return Failed; }
    var plain := Decrypt(env, ciphertext.value, m.key, m.nonce);
    if plain.None? { return Failed; }
    LetUserAct(w, output, before, |w.trace|);
    ghost var mid, middle := w.Now(), w.trace;
    var written := WriteNew(w, output, plain.value);
    r := match written case Written => Done(output) case Late => TooLate case _ => Failed;
    PublishedEnds(before, mid, w.Now(), old(w.trace), middle, w.trace, output, plain.value, written, r);
    TakenIsTheirs(before, mid, w.Now(), output);
  }

  function StripStub(name: string): string {
    if IsStubName(name) then name[..|name| - |STUB_EXTENSION|] else name
  }

  /** Where the output goes: where asked, else the manifest's path without its extension, else its recorded name. */
  function OutputPath(stub: Path, m: Manifest, asked: Option<Path>): Path {
    if asked.Some? then asked.value
    else if IsStubName(stub.name) then Path(stub.dir, StripStub(stub.name))
    else Path(stub.dir, m.fileName)
  }

  /** `RestoreFile`: for any manifest file, any peers and any local directory, and whatever the user does to the output
      path until the link, that path is as the user has it or, if they have nothing there, holds exactly what `Restored`
      says. */
  method RestoreFile(w: World, env: Env, json: Json, stub: Path, asked: Option<Path>, src: Sources) returns (r: Ending)
    requires w.disk.Valid()
    modifies w
    ensures w.disk.Valid()
    ensures stub !in old(w.disk).names ==> r == Failed && w.disk == old(w.disk)
    ensures stub in old(w.disk).names ==>
              var decoded := json.decode(old(View(w.disk))[stub]);
              if decoded.None? || !Acceptable(decoded.value) then r == Failed && w.disk == old(w.disk)
              else
                var output, result := OutputPath(stub, Normalised(decoded.value), asked),
                                      Restored(env, decoded.value, src);
                && Ended(old(w.Now()), w.Now(), old(w.trace), w.trace, output, result, r)
                && (w.faults == old(w.faults) ==>
                      (r.Done? <==> result.Some? && Free(old(w.Now()), w.Now(), output)))
  {
    hide Ended, Free, RestoreWhole, JoinAll, ChunkResults, GoodChunks;
    var text := w.ReadFile(stub);
    if !text.Content? {
      forall output: Path, result: Option<Bytes> { NothingEnds(w.Now(), w.trace, output, result); }
      return Failed;
    }
    var decoded := json.decode(text.data);
    var checked := Unmarshal(decoded);
    if checked.None? { return Failed; }
    var m := checked.value;
    RestoreUsesCheckedLayout(decoded.value);
    var layout := NewLayout(m.dataShards, m.parityShards);
    var output := OutputPath(stub, m, asked);
    if m.version == 2 {
      ChunkSizesPositive(layout.value, m);
      r := RestoreChunked(w, env, layout.value, m, src, output);
    } else {
      r := RestoreOld(w, env, layout.value, m, src, output);
    }
  }

  lemma ChunkSizesPositive(l: Layout, m: Manifest)
    requires GoodChunks(l, m.chunkSize, m.chunks)
    ensures forall i | 0 <= i < |m.chunks| :: m.chunks[i].ciphertextSize >= 0
  {
    forall i | 0 <= i < |m.chunks| ensures m.chunks[i].ciphertextSize >= 0 { assert ValidChunk(l, m.chunks[i]); }
  }
}
