/** `ProcessDirectory` and `Watch`: repeated scans of the origin directory, each processing the files that look as they
    did in the scan before. Scans are numbered steps; what each finds on disk is given. */
module Watch {
  import opened Prelude
  import opened Manifest
  import opened Paths
  import Pl = Pipeline

  /** What identifies an unchanged file: identity, size and modification time. */
  datatype Info = Info(file: nat, size: nat, mtime: nat)

  datatype StubSeen = Absent | Present | Unknown

  /** One entry as a walk meets it: `broken` is an error of the walk itself, `cancelled` a cancellation noticed here,
      no `info` a failed stat. */
  datatype Entry = Entry(path: Comps, dir: bool, cancelled: bool, broken: bool, info: Option<Info>, regular: bool,
                         stub: StubSeen)

  predicate Hidden(name: string) {
    name != "" && name[0] == '.'
  }

  predicate HasHidden(p: Comps) {
    exists i | 0 <= i < |p| :: Hidden(p[i])
  }

  ghost predicate AfterParent(es: seq<Entry>, i: nat)
    requires i < |es|
  {
    es[i].path != [] ==> exists j | 0 <= j < i :: es[j].dir && es[j].path == Parent(es[i].path)
  }

  /** A walk lists a directory before its contents, and nothing twice. */
  ghost predicate Listing(es: seq<Entry>) {
    && (forall i, j | 0 <= i < j < |es| :: es[i].path != es[j].path)
    && (forall i | 0 <= i < |es| && es[i].path == [] :: es[i].dir)
    && (forall i {:trigger AfterParent(es, i)} | 0 <= i < |es| :: AfterParent(es, i))
  }

  // ---------------------------------------------------------------- what a scan does, entry by entry

  /** Entries below a hidden directory are never met. */
  predicate Met(e: Entry) {
    e.path == [] || !HasHidden(Parent(e.path))
  }

  predicate Candidate(e: Entry) {
    !HasHidden(e.path) && !e.dir && e.path != [] && !Pl.IsStubName(Last(e.path))
  }

  /** The errors that end a whole scan. */
  predicate Stops(e: Entry) {
    Met(e) && (e.cancelled || e.broken || (Candidate(e) && (e.info.None? || (e.regular && e.stub.Unknown?))))
  }

  /** The files a scan takes note of. */
  predicate Noted(e: Entry) {
    Candidate(e) && e.info.Some? && e.regular && e.stub.Absent?
  }

  /** A file taken note of, in plain terms: below the root, no component beginning with a dot, the last not ending in
      ".dstore", an ordinary file whose manifest was looked for and is not there. */
  lemma NotedExactly(e: Entry)
    ensures Noted(e) <==>
              && e.path != [] && !e.dir && e.info != None && e.regular && e.stub == Absent
              && (forall k | 0 <= k < |e.path| :: e.path[k] == "" || e.path[k][0] != '.')
              && (forall stem: string :: e.path[|e.path| - 1] != stem + ".dstore")
  {
    if e.path != [] { Pl.StubNames(Last(e.path)); }
  }

  /** An entry that ends the scan, in plain terms: one that is met, and at which a cancellation or an error of the walk
      is seen, or that could be a file and whose stat fails, or that is one and whose manifest cannot be looked for. */
  lemma StopsExactly(e: Entry)
    ensures Stops(e) <==>
              && (forall k | 0 <= k < |e.path| - 1 :: e.path[k] == "" || e.path[k][0] != '.')
              && (e.cancelled || e.broken
                  || (&& e.path != [] && !e.dir && (e.info == None || (e.regular && e.stub == Unknown))
                      && (e.path[|e.path| - 1] == "" || e.path[|e.path| - 1][0] != '.')
                      && (forall stem: string :: e.path[|e.path| - 1] != stem + ".dstore")))
  {
    if e.path != [] {
      Pl.StubNames(Last(e.path));
      assert forall k | 0 <= k < |Parent(e.path)| :: Parent(e.path)[k] == e.path[k];
      assert HasHidden(e.path) <==> HasHidden(Parent(e.path)) || Hidden(Last(e.path)) by {
        if HasHidden(e.path) && !Hidden(Last(e.path)) {
          var k :| 0 <= k < |e.path| && Hidden(e.path[k]);
          assert Hidden(Parent(e.path)[k]);
        }
      }
    }
  }

  /** The entries a scan handles: those before the first that ends it. */
  function Handled(es: seq<Entry>): (n: nat)
    ensures n <= |es| && (n < |es| ==> Stops(es[n])) && forall i | 0 <= i < n :: !Stops(es[i])
  {
    if es == [] || Stops(es[0]) then 0
    else
      var n := Handled(es[1..]);
      assert forall i | 0 < i <= n :: es[i] == es[1..][i - 1];
      1 + n
  }

  function NotesOf(es: seq<Entry>): map<Comps, Info> {
    if es == [] then map[]
    else
      var n := |es| - 1;
      if Noted(es[n]) then NotesOf(es[..n])[es[n].path := es[n].info.value] else NotesOf(es[..n])
  }

  predicate Ready(e: Entry, previous: map<Comps, Info>) {
    Noted(e) && e.path in previous && previous[e.path] == e.info.value
  }

  function ReadyOf(es: seq<Entry>, previous: map<Comps, Info>): seq<Comps> {
    if es == [] then []
    else
      var n := |es| - 1;
      ReadyOf(es[..n], previous) + if Ready(es[n], previous) then [es[n].path] else []
  }

  /** What a scan notes. */
  function Notes(es: seq<Entry>): map<Comps, Info> {
    NotesOf(es[..Handled(es)])
  }

  /** The files a scan processes, in order. */
  function Attempts(es: seq<Entry>, previous: map<Comps, Info>): seq<Comps> {
    ReadyOf(es[..Handled(es)], previous)
  }

  // ---------------------------------------------------------------- SkipDir

  /** The hidden directories met so far, whose contents the walk skips. */
  ghost predicate SkipsSoFar(es: seq<Entry>, skipped: set<Comps>) {
    forall q :: q in skipped <==> exists j | 0 <= j < |es| :: es[j].path == q && es[j].dir && Met(es[j]) && HasHidden(q)
  }

  predicate Below(p: Comps, dirs: set<Comps>) {
    exists k | 0 <= k < |p| :: p[..k] in dirs
  }

  lemma {:induction false} AncestorListed(es: seq<Entry>, i: nat, k: nat)
    requires Listing(es) && i < |es| && k < |es[i].path|
    ensures exists j | 0 <= j < i :: es[j].dir && es[j].path == es[i].path[..k]
    decreases i
  {
    var p := es[i].path;
    assert AfterParent(es, i);
    var j :| 0 <= j < i && es[j].dir && es[j].path == Parent(p);
    if k < |p| - 1 {
      AncestorListed(es, j, k);
      assert Parent(p)[..k] == p[..k];
    }
  }

  lemma {:induction false} FirstHidden(p: Comps) returns (k: nat)
    requires HasHidden(p)
    ensures k < |p| && Hidden(p[k]) && !HasHidden(p[..k]) && HasHidden(p[..k + 1])
  {
    var n := |p| - 1;
    if HasHidden(p[..n]) {
      k := FirstHidden(p[..n]);
      assert p[..n][..k] == p[..k] && p[..n][..k + 1] == p[..k + 1];
    } else {
      k := n;
      assert forall i | 0 <= i < n :: p[..n][i] == p[i];
      assert p[..n + 1][n] == p[n];
    }
  }

  lemma BelowIsHidden(es: seq<Entry>, p: Comps, skipped: set<Comps>)
    requires SkipsSoFar(es, skipped) && Below(p, skipped)
    ensures HasHidden(Parent(p))
  {
    var k :| 0 <= k < |p| && p[..k] in skipped;
    var h :| 0 <= h < k && Hidden(p[..k][h]);
    assert Parent(p)[h] == p[h];
  }

  lemma HiddenIsBelow(es: seq<Entry>, i: nat, skipped: set<Comps>)
    requires Listing(es) && i < |es| && SkipsSoFar(es[..i], skipped) && !Met(es[i])
    ensures Below(es[i].path, skipped)
  {
    var p := es[i].path;
    var k := FirstHidden(Parent(p));
    var q := p[..k + 1];
    assert Parent(p)[..k + 1] == q && Parent(p)[..k] == p[..k] == Parent(q);
    AncestorListed(es, i, k + 1);
    hide Listing, HasHidden;
    var j :| 0 <= j < i && es[j].dir && es[j].path == q;
    assert es[..i][j] == es[j] && Met(es[j]);
    assert q in skipped;
  }

  /** Skipping the contents of hidden directories leaves out exactly what has a hidden directory above it. */
  lemma SkipExactly(es: seq<Entry>, i: nat, skipped: set<Comps>)
    requires Listing(es) && i < |es| && SkipsSoFar(es[..i], skipped)
    ensures Below(es[i].path, skipped) <==> !Met(es[i])
  {
    hide Listing, SkipsSoFar, HasHidden;
    if Below(es[i].path, skipped) { BelowIsHidden(es[..i], es[i].path, skipped); }
    if !Met(es[i]) { HiddenIsBelow(es, i, skipped); }
  }

  lemma SkipsMore(es: seq<Entry>, e: Entry, skipped: set<Comps>)
    requires SkipsSoFar(es, skipped)
    ensures SkipsSoFar(es + [e], if e.dir && Met(e) && HasHidden(e.path) then skipped + {e.path} else skipped)
  {
    var more, after := es + [e], if e.dir && Met(e) && HasHidden(e.path) then skipped + {e.path} else skipped;
    assert more[|es|] == e && forall j | 0 <= j < |es| :: more[j] == es[j];
    forall q
      ensures q in after <==> exists j | 0 <= j < |more| ::
                more[j].path == q && more[j].dir && Met(more[j]) && HasHidden(q)
    {
      if q in after {
        if q in skipped {
          var j :| 0 <= j < |es| && es[j].path == q && es[j].dir && Met(es[j]) && HasHidden(q);
          assert more[j] == es[j];
        } else {
          assert more[|es|].path == q;
        }
      }
    }
  }

  // ---------------------------------------------------------------- the watcher

  datatype Verdict = Stop | SkipDir | Pass | Take(info: Info)

  /** The callback of `ProcessDirectory` up to the readiness check. */
  method Look(e: Entry) returns (v: Verdict)
    requires Met(e) && (e.path == [] ==> e.dir)
    ensures v.Stop? <==> Stops(e)
    ensures !Stops(e) ==> (v.SkipDir? <==> e.dir && HasHidden(e.path))
    ensures !Stops(e) ==> (v.Take? <==> Noted(e)) && (v.Take? ==> v.info == e.info.value)
    ensures v.Take? ==> && e.path != [] && !e.dir && e.regular && e.stub == Absent && e.info == Some(v.info)
                        && (forall k | 0 <= k < |e.path| :: e.path[k] == "" || e.path[k][0] != '.')
                        && (forall stem: string :: e.path[|e.path| - 1] != stem + ".dstore")
  {
    NotedExactly(e);
    if e.cancelled || e.broken { return Stop; }
    if e.path != [] && Hidden(Last(e.path)) {
      HiddenLast(e.path);
      return if e.dir then SkipDir else Pass;
    }
    if e.path != [] { ShownLast(e.path); }
    if e.dir || Pl.IsStubName(Last(e.path)) { return Pass; }
    if e.info.None? { return Stop; }
    if !e.regular { return Pass; }
    match e.stub {
      case Present => return Pass;
      case Unknown => return Stop;
      case Absent => return Take(e.info.value);
    }
  }

  lemma HiddenLast(p: Comps)
    requires p != [] && Hidden(Last(p))
    ensures HasHidden(p)
  {
  }

  lemma ShownLast(p: Comps)
    requires p != [] && !HasHidden(Parent(p)) && !Hidden(Last(p))
    ensures !HasHidden(p)
  {
    forall i | 0 <= i < |p| ensures !Hidden(p[i]) { if i < |p| - 1 { assert p[i] == Parent(p)[i]; } }
  }

  lemma OneEntryMore(es: seq<Entry>, i: nat, previous: map<Comps, Info>)
    requires i < |es|
    ensures NotesOf(es[..i + 1]) == if Noted(es[i]) then NotesOf(es[..i])[es[i].path := es[i].info.value]
                                    else NotesOf(es[..i])
    ensures ReadyOf(es[..i + 1], previous) == ReadyOf(es[..i], previous) + if Ready(es[i], previous) then [es[i].path]
                                                                           else []
  {
    assert es[..i + 1][..i] == es[..i];
  }

  class Watcher {
    var previous: map<Comps, Info>

    constructor ()
      ensures previous == map[]
    {
      previous := map[];
    }

    /** `ProcessDirectory` with `Watch`'s readiness check. Which files are processed does not depend on how processing
        others ended; an error of the walk or of a stat ends the scan. */
    method Scan(es: seq<Entry>, process: Comps -> bool)
      returns (processed: seq<Comps>, failed: seq<Comps>, stopped: bool)
      requires Listing(es)
      modifies this
      ensures previous == Notes(es)
      ensures stopped <==> exists i | 0 <= i < |es| :: Stops(es[i])
      ensures Splits(Attempts(es, old(previous)), process, processed, failed)
    {
      hide NotesOf, ReadyOf, Listing, SkipsSoFar, Met, Stops, Noted;
      processed, failed, stopped := [], [], false;
      var observed: map<Comps, Info>, skipped: set<Comps> := map[], {};
      ghost var attempts: seq<Comps> := [];
      NothingYet(es, previous);
      var i := 0;
      while i < |es|
        invariant i <= Handled(es) && previous == old(previous) && !stopped
        invariant observed == NotesOf(es[..i]) && attempts == ReadyOf(es[..i], previous) && SkipsSoFar(es[..i], skipped)
        invariant Splits(attempts, process, processed, failed)
      {
        var e := es[i];
        SkipExactly(es, i, skipped);
        OneEntryMore(es, i, previous);
        SkipsMore(es[..i], e, skipped);
        assert es[..i] + [e] == es[..i + 1];
        if !Below(e.path, skipped) {
          RootIsDir(es, i);
          var v := Look(e);
          match v {
            case Stop =>
              stopped := true;
              break;
            case SkipDir => skipped := skipped + {e.path};
            case Pass =>
            case Take(info) =>
              observed := observed[e.path := info];
              if e.path in previous && previous[e.path] == info {
                attempts := attempts + [e.path];
                if process(e.path) { processed := processed + [e.path]; } else { failed := failed + [e.path]; }
              }
          }
        } else {
          NotMet(e);
        }
        i := i + 1;
      }
      previous := observed;
      assert es[..|es|] == es;
    }
  }

  lemma RootIsDir(es: seq<Entry>, i: nat)
    requires Listing(es) && i < |es|
    ensures es[i].path == [] ==> es[i].dir
  {
  }

  lemma NotMet(e: Entry)
    requires !Met(e)
    ensures !Stops(e) && !Noted(e)
  {
    var i :| 0 <= i < |Parent(e.path)| && Hidden(Parent(e.path)[i]);
    assert e.path[i] == Parent(e.path)[i];
  }

  lemma NothingYet(es: seq<Entry>, previous: map<Comps, Info>)
    ensures NotesOf(es[..0]) == map[] && ReadyOf(es[..0], previous) == [] && SkipsSoFar(es[..0], {})
  {
  }

  /** Every attempt succeeds or fails on its own. */
  ghost predicate Splits(attempts: seq<Comps>, process: Comps -> bool, processed: seq<Comps>, failed: seq<Comps>) {
    && (forall p :: p in processed <==> p in attempts && process(p))
    && (forall p :: p in failed <==> p in attempts && !process(p))
    && |processed| + |failed| == |attempts|
  }

  // ---------------------------------------------------------------- whole runs

  /** One turn of `Watch`: the cancellation checks around a scan, what the scan meets, and how processing would end. */
  datatype Turn = Turn(endsBefore: bool, entries: seq<Entry>, process: Comps -> bool, endsAfter: bool)

  datatype Scanned = Scanned(processed: seq<Comps>, failed: seq<Comps>)

  ghost predicate Listings(turns: seq<Turn>) {
    forall t | 0 <= t < |turns| :: Listing(turns[t].entries)
  }

  /** The files turn `t` processes. */
  function AttemptsAt(turns: seq<Turn>, t: nat): seq<Comps>
    requires t < |turns|
  {
    Attempts(turns[t].entries, if t == 0 then map[] else Notes(turns[t - 1].entries))
  }

  ghost predicate Recorded(turns: seq<Turn>, log: seq<Scanned>) {
    |log| <= |turns| && forall t | 0 <= t < |log| ::
      Splits(AttemptsAt(turns, t), turns[t].process, log[t].processed, log[t].failed)
  }

  lemma NothingRecorded(turns: seq<Turn>)
    ensures Recorded(turns, [])
  {
  }

  lemma RecordedMore(turns: seq<Turn>, log: seq<Scanned>, s: Scanned)
    requires Recorded(turns, log) && |log| < |turns|
    requires Splits(AttemptsAt(turns, |log|), turns[|log|].process, s.processed, s.failed)
    ensures Recorded(turns, log + [s])
  {
    hide Notes, Attempts, Splits, Listing, AttemptsAt;
  }

  /** `Watch`, for as many turns as the environment offers: each scan works from the notes of the one before. */
  method Watch(turns: seq<Turn>) returns (log: seq<Scanned>)
    requires Listings(turns)
    ensures Recorded(turns, log)
    ensures forall t | 0 <= t < |log| :: !turns[t].endsBefore && (t < |log| - 1 ==> !turns[t].endsAfter)
    ensures |log| < |turns| ==> turns[|log|].endsBefore || (log != [] && turns[|log| - 1].endsAfter)
  {
    hide Notes, Attempts, Splits, Listing, Recorded;
    var watcher := new Watcher();
    log := [];
    NothingRecorded(turns);
    while |log| < |turns|
      invariant |log| <= |turns| && Recorded(turns, log)
      invariant log == [] ==> watcher.previous == map[]
      invariant log != [] ==> watcher.previous == Notes(turns[|log| - 1].entries)
      invariant forall t | 0 <= t < |log| :: !turns[t].endsBefore && !turns[t].endsAfter
      decreases |turns| - |log|
    {
      var turn := turns[|log|];
      if turn.endsBefore { return; }
      var processed, failed, stopped := watcher.Scan(turn.entries, turn.process);
      RecordedMore(turns, log, Scanned(processed, failed));
      log := log + [Scanned(processed, failed)];
      if turn.endsAfter { return; }
    }
  }

  /** The scan took note of the path in this state, its manifest being absent. */
  ghost predicate Saw(es: seq<Entry>, p: Comps, info: Info) {
    exists i | 0 <= i < Handled(es) :: NotedAs(es[i], p, info)
  }

  predicate NotedAs(e: Entry, p: Comps, info: Info) {
    e.path == p && Noted(e) && e.info.value == info
  }

  ghost predicate Has(notes: map<Comps, Info>, p: Comps, info: Info) {
    p in notes && notes[p] == info
  }

  lemma {:induction false} NotesExactly(es: seq<Entry>, n: nat, p: Comps, info: Info)
    requires Listing(es) && n <= |es|
    ensures Has(NotesOf(es[..n]), p, info) <==> exists i | 0 <= i < n :: NotedAs(es[i], p, info)
  {
    if n > 0 {
      NotesExactly(es, n - 1, p, info);
      NotesStep(es, n - 1, p, info);
      hide Has, NotedAs, NotesOf, Listing;
      if Has(NotesOf(es[..n]), p, info) && !NotedAs(es[n - 1], p, info) {
        var i :| 0 <= i < n - 1 && NotedAs(es[i], p, info);
      }
    }
  }

  lemma NotesStep(es: seq<Entry>, n: nat, p: Comps, info: Info)
    requires Listing(es) && n < |es|
    ensures NotedAs(es[n], p, info) ==> Has(NotesOf(es[..n + 1]), p, info)
    ensures !NotedAs(es[n], p, info) && Has(NotesOf(es[..n + 1]), p, info) ==> Has(NotesOf(es[..n]), p, info)
    ensures (exists i | 0 <= i < n :: NotedAs(es[i], p, info)) && Has(NotesOf(es[..n]), p, info) ==>
              Has(NotesOf(es[..n + 1]), p, info)
  {
    hide Noted;
    OneEntryMore(es, n, map[]);
    DistinctPaths(es, n);
  }

  lemma DistinctPaths(es: seq<Entry>, n: nat)
    requires Listing(es) && n < |es|
    ensures forall i | 0 <= i < n :: es[i].path != es[n].path
  {
  }

  lemma {:induction false} ReadyExactly(es: seq<Entry>, n: nat, previous: map<Comps, Info>, p: Comps)
    requires n <= |es|
    ensures p in ReadyOf(es[..n], previous) <==> exists i | 0 <= i < n :: es[i].path == p && Ready(es[i], previous)
  {
    hide Ready;
    if n > 0 {
      ReadyExactly(es, n - 1, previous, p);
      OneEntryMore(es, n - 1, previous);
      assert (exists i | 0 <= i < n :: es[i].path == p && Ready(es[i], previous))
          <==> (exists i | 0 <= i < n - 1 :: es[i].path == p && Ready(es[i], previous))
               || (es[n - 1].path == p && Ready(es[n - 1], previous));
    }
  }

  /** Stability: turn `t` processes a path exactly when the scan before and this one both took note of it, with the
      same identity, size and modification time; so its manifest was absent both times. */
  lemma AttemptedExactly(turns: seq<Turn>, t: nat, p: Comps)
    requires Listings(turns) && t < |turns|
    ensures p in AttemptsAt(turns, t) <==>
            t > 0 && exists info :: Saw(turns[t - 1].entries, p, info) && Saw(turns[t].entries, p, info)
  {
    hide Listing;
    var now := turns[t].entries;
    var previous := if t == 0 then map[] else Notes(turns[t - 1].entries);
    ReadyExactly(now, Handled(now), previous, p);
    if t > 0 {
      var before := turns[t - 1].entries;
      forall info ensures Has(previous, p, info) <==> Saw(before, p, info) {
        NotesExactly(before, Handled(before), p, info);
      }
      if p in AttemptsAt(turns, t) {
        var i :| 0 <= i < Handled(now) && now[i].path == p && Ready(now[i], previous);
        assert Has(previous, p, now[i].info.value) && NotedAs(now[i], p, now[i].info.value);
      }
      if info :| Saw(before, p, info) && Saw(now, p, info) {
        assert Has(previous, p, info);
        var i :| 0 <= i < Handled(now) && NotedAs(now[i], p, info);
        assert Ready(now[i], previous);
      }
    }
  }

  /** The walk met an ordinary file here, in this state, and found no manifest beside it. */
  predicate ListedFile(es: seq<Entry>, p: Comps, info: Info) {
    exists i | 0 <= i < |es| ::
      es[i].path == p && !es[i].dir && es[i].regular && es[i].stub == Absent && es[i].info == Some(info)
  }

  /** What is processed, in plain terms: nothing before the second turn; and then only a path below the root, without a
      component that begins with a dot, not named like a manifest, which this turn and the one before both listed as an
      ordinary file in one state and without a manifest. So no manifest is processed as a file, and nothing hidden. */
  lemma OnlyPlainFiles(turns: seq<Turn>, t: nat, p: Comps)
    requires Listings(turns) && t < |turns| && p in AttemptsAt(turns, t)
    ensures p != [] && (forall k | 0 <= k < |p| :: p[k] == "" || p[k][0] != '.')
            && (forall stem: string :: p[|p| - 1] != stem + ".dstore")
    ensures t > 0 && exists info :: ListedFile(turns[t - 1].entries, p, info) && ListedFile(turns[t].entries, p, info)
  {
    AttemptedExactly(turns, t, p);
    var info :| Saw(turns[t - 1].entries, p, info) && Saw(turns[t].entries, p, info);
    var i :| 0 <= i < Handled(turns[t - 1].entries) && NotedAs(turns[t - 1].entries[i], p, info);
    var j :| 0 <= j < Handled(turns[t].entries) && NotedAs(turns[t].entries[j], p, info);
    NotedExactly(turns[t - 1].entries[i]);
    NotedExactly(turns[t].entries[j]);
    assert ListedFile(turns[t - 1].entries, p, info) && ListedFile(turns[t].entries, p, info);
  }

  /** The log of a run shows nothing else. */
  lemma LogHoldsPlainFiles(turns: seq<Turn>, log: seq<Scanned>, t: nat, p: Comps)
    requires Listings(turns) && Recorded(turns, log) && t < |log| && (p in log[t].processed || p in log[t].failed)
    ensures t > 0 && p != [] && (forall k | 0 <= k < |p| :: p[k] == "" || p[k][0] != '.')
            && (forall stem: string :: p[|p| - 1] != stem + ".dstore")
  {
    hide AttemptsAt, Listing;
    assert Splits(AttemptsAt(turns, t), turns[t].process, log[t].processed, log[t].failed);
    OnlyPlainFiles(turns, t, p);
  }

  /** A turn of the log dealt with the path, one way or the other. */
  predicate Tried(done: Scanned, p: Comps) {
    p in done.processed || p in done.failed
  }

  lemma TriedExactly(turns: seq<Turn>, log: seq<Scanned>, t: nat, p: Comps)
    requires Recorded(turns, log) && t < |log|
    ensures Tried(log[t], p) <==> p in AttemptsAt(turns, t)
    ensures p in log[t].processed <==> Tried(log[t], p) && turns[t].process(p)
  {
  }

  /** Once a path's manifest is there for good, the log of a run never shows it again. */
  lemma NeverAgain(turns: seq<Turn>, log: seq<Scanned>, t: nat, p: Comps)
    requires Listings(turns) && Recorded(turns, log)
    requires forall u, i | t <= u < |turns| && 0 <= i < |turns[u].entries| && turns[u].entries[i].path == p ::
               !turns[u].entries[i].stub.Absent?
    ensures forall u | t <= u < |log| :: p !in log[u].processed && p !in log[u].failed
  {
    hide Recorded, Listings;
    forall u | t <= u < |log| ensures p !in log[u].processed && p !in log[u].failed {
      LogFits(turns, log);
      TriedExactly(turns, log, u, p);
      AttemptedExactly(turns, u, p);
    }
  }

  lemma LogFits(turns: seq<Turn>, log: seq<Scanned>)
    requires Recorded(turns, log)
    ensures |log| <= |turns|
  {
  }

  lemma SawOnce(es: seq<Entry>, p: Comps, info: Info, other: Info)
    requires Listing(es) && Saw(es, p, info) && Saw(es, p, other)
    ensures info == other
  {
    NotesExactly(es, Handled(es), p, info);
    NotesExactly(es, Handled(es), p, other);
  }

  /** A file that failed is tried again in the next turn exactly when that turn sees it as the failed one did: unchanged
      and still without a manifest. Nothing else counts, neither its failure nor that of others. */
  lemma FailureIsRetried(turns: seq<Turn>, log: seq<Scanned>, t: nat, p: Comps)
    requires Listings(turns) && Recorded(turns, log) && t + 1 < |log| && p in log[t].failed
    ensures Tried(log[t + 1], p) <==> forall info | Saw(turns[t].entries, p, info) :: Saw(turns[t + 1].entries, p, info)
    ensures p in log[t + 1].processed <==> Tried(log[t + 1], p) && turns[t + 1].process(p)
  {
    LogFits(turns, log);
    TriedExactly(turns, log, t, p);
    TriedExactly(turns, log, t + 1, p);
    AttemptedExactly(turns, t, p);
    AttemptedExactly(turns, t + 1, p);
    hide Recorded, Listings, Saw, Tried;
    var seen :| Saw(turns[t].entries, p, seen);
    if next :| Saw(turns[t].entries, p, next) && Saw(turns[t + 1].entries, p, next) {
      forall info | Saw(turns[t].entries, p, info) ensures Saw(turns[t + 1].entries, p, info) {
        ListingAt(turns, t);
        SawOnce(turns[t].entries, p, info, next);
      }
    }
  }

  lemma ListingAt(turns: seq<Turn>, t: nat)
    requires Listings(turns) && t < |turns|
    ensures Listing(turns[t].entries)
  {
  }

  /** An error of the walk or of a stat costs every entry listed from there on this turn and the next. */
  lemma StopCostsTwoTurns(turns: seq<Turn>, t: nat, k: nat)
    requires Listings(turns) && t < |turns| && Handled(turns[t].entries) <= k < |turns[t].entries|
    ensures turns[t].entries[k].path !in AttemptsAt(turns, t)
    ensures t + 1 < |turns| ==> turns[t].entries[k].path !in AttemptsAt(turns, t + 1)
  {
    var p := turns[t].entries[k].path;
    DistinctPaths(turns[t].entries, k);
    assert forall info :: !Saw(turns[t].entries, p, info);
    AttemptedExactly(turns, t, p);
    if t + 1 < |turns| { AttemptedExactly(turns, t + 1, p); }
  }
}
