/** internal/shardserver: the request handler over one shard directory, and what holds over every sequence
    of requests. Identities are byte strings, as in the source. */
module ShardServer {
  import opened Prelude
  import opened FileSystem
  import opened StoreSpec
  import opened LocalStore

  const DEFAULT_MAX_SHARD_BYTES := 0x400_0000   // 64 << 20

  datatype Verb = GET | PUT | DELETE | Other

  datatype Body = Complete(bytes: Bytes) | Broken

  /** `caller` is what the identity resolver answers for the connection: `None` is its error. */
  datatype Request = Request(caller: Option<Bytes>, share: string, verb: Verb, path: string, body: Body)

  datatype Options = Options(identify: bool, members: set<Bytes>, restrictMembers: bool, shareID: string,
                             readOnly: bool, maxShardBytes: int, lower: Bytes -> Bytes) {
    function Limit(): int {
      if maxShardBytes <= 0 then DEFAULT_MAX_SHARD_BYTES else maxShardBytes
    }

    function Caller(req: Request): Bytes {
      if identify && req.caller.Some? then req.caller.value else []
    }

    /** Identity, membership and share group, in that order. */
    predicate Admits(req: Request) {
      && (identify ==> req.caller.Some? && req.caller.value != [])
      && (restrictMembers ==> lower(Caller(req)) in members)
      && (shareID != "" ==> req.share == shareID)
    }
  }

  /** The status, and the bytes or the reported usage when there are any. */
  datatype Response = Response(status: int, body: Option<Bytes>, used: Option<nat>)

  function Plain(status: int): Response {
    Response(status, None, None)
  }

  /** `storeError`'s statuses. */
  function GetResponse(r: GetResult): Response {
    match r
    case Found(data) => Response(200, Some(data), None)
    case BadName => Plain(400)
    case Absent => Plain(404)
    case Unreadable => Plain(500)
  }

  function PutResponse(r: PutResult): Response {
    match r
    case Stored => Plain(201)
    case Duplicate => Plain(201)
    case Refused(why) => Plain(if why == InvalidHash then 400 else if why == QuotaExceeded then 507 else 500)
    case _ => Plain(500)
  }

  function DeleteResponse(r: DeleteResult): Response {
    match r
    case Deleted => Plain(204)
    case NotFound => Plain(404)
    case NotOwner => Plain(403)
    case DeleteRefused(why) => Plain(if why == InvalidHash then 400 else 500)
    case _ => Plain(500)
  }

  const PREFIX := "/shards/"

  /** The digest a path names, if it names one. */
  function NamedHash(path: string): Option<string> {
    if !(PREFIX <= path) then None
    else
      var h := path[|PREFIX|..];
      if |h| != 64 || '/' in h || '\\' in h then None else Some(h)
  }

  predicate IsInfo(req: Request) {
    req.path == "/v1/info" && req.verb == GET
  }

  /** The shard an admitted, well-formed upload carries. */
  predicate IsUpload(opts: Options, digest: Bytes -> string, req: Request) {
    && opts.Admits(req) && !IsInfo(req) && req.verb == PUT && !opts.readOnly && NamedHash(req.path).Some?
    && req.body.Complete? && |req.body.bytes| <= opts.Limit() && digest(req.body.bytes) == NamedHash(req.path).value
  }

  predicate IsRemoval(opts: Options, req: Request) {
    opts.Admits(req) && req.verb == DELETE && NamedHash(req.path).Some? && opts.identify
  }

  /** The response of a request that reaches no put and no delete. */
  ghost function Answer(opts: Options, digest: Bytes -> string, files: Files, dir: string, req: Request): Response {
    if opts.identify && (req.caller.None? || req.caller.value == []) then Plain(403)
    else if !opts.Admits(req) then Plain(403)
    else if IsInfo(req) then Response(200, None, Some(Usage(files, dir)))
    else if !(PREFIX <= req.path) then Plain(404)
    else if NamedHash(req.path).None? then Plain(400)
    else match req.verb
      case GET => GetResponse(GetOutcome(digest, files, dir, NamedHash(req.path).value))
      case PUT =>
        if opts.readOnly then Plain(403)
        else if req.body.Broken? then Plain(400)
        else if |req.body.bytes| > opts.Limit() then Plain(413)
        else Plain(400)
      case DELETE => Plain(403)
      case Other => Plain(405)
  }

  /** One request, when no I/O operation fails. */
  ghost function Handle(opts: Options, digest: Bytes -> string, files: Files, dir: string, quota: int,
                        req: Request): (Files, Response)
  {
    var caller := opts.Caller(req);
    if IsUpload(opts, digest, req) then
      var r := PutOutcome(digest, files, dir, quota, req.body.bytes, caller);
      (AfterPut(files, dir, digest(req.body.bytes), req.body.bytes, caller, r), PutResponse(r))
    else if IsRemoval(opts, req) then
      var r := DeleteOutcome(files, dir, NamedHash(req.path).value, caller);
      (AfterDelete(files, dir, NamedHash(req.path).value, r), DeleteResponse(r))
    else
      (files, Answer(opts, digest, files, dir, req))
  }

  /** Somebody the server owes nothing: without an identity where one is asked for, outside the members where only they
      are served, or of another share group. */
  predicate Outsider(opts: Options, req: Request) {
    || (opts.identify && (req.caller == None || req.caller == Some([])))
    || (opts.restrictMembers
        && opts.lower(if opts.identify && req.caller.Some? then req.caller.value else []) !in opts.members)
    || (opts.shareID != "" && req.share != opts.shareID)
  }

  lemma OutsidersAreTurnedAway(opts: Options, req: Request)
    ensures Outsider(opts, req) <==> !opts.Admits(req)
  {
  }

  lemma FoundIs(digest: Bytes -> string, files: Files, dir: string, hash: string)
    requires GetOutcome(digest, files, dir, hash).Found?
    ensures var p := Path(dir, hash);
            p in files && GetOutcome(digest, files, dir, hash).data == files[p] && digest(files[p]) == hash
  {
  }

  lemma DeletedIsGone(files: Files, dir: string, hash: string, r: DeleteResult)
    requires r.Deleted?
    ensures var after := AfterDelete(files, dir, hash, r);
            Path(dir, hash) !in after && Path(dir, hash + ".writer") !in after
  {
  }

  class Server {
    const opts: Options
    const store: Store

    constructor (store: Store, opts: Options)
      ensures this.store == store && this.opts == opts
    {
      this.store, this.opts := store, opts;
    }

    /** The handler. A request that is not a well-formed upload or removal changes no file, whatever fails;
        and when nothing fails files and response are exactly what `Handle` says. */
    method Serve(w: World, digest: Bytes -> string, req: Request) returns (resp: Response)
      requires w.disk.Valid()
      modifies w
      ensures w.disk.Valid() && w.faults >= old(w.faults)
      ensures w.faults == old(w.faults) ==>
                (View(w.disk), resp) == Handle(opts, digest, View(old(w.disk)), store.dir, store.quota, req)
      ensures !IsUpload(opts, digest, req) && !IsRemoval(opts, req) ==> View(w.disk) == View(old(w.disk))
      ensures resp.status in {201, 204} ==> IsUpload(opts, digest, req) || IsRemoval(opts, req)
      ensures Outsider(opts, req) ==> resp == Response(403, None, None) && w.disk == old(w.disk)
      ensures w.disk != old(w.disk) || resp.used.Some? ==> w.sections > old(w.sections)
      ensures resp.status in {201, 204} || resp.body.Some? ==> "/shards/" <= req.path
      ensures resp.status == 201 ==> var p := Path(store.dir, req.path[8..]);
                                     p in View(w.disk) && digest(View(w.disk)[p]) == p.name
      ensures resp.status == 204 ==> Path(store.dir, req.path[8..]) !in View(w.disk)
                                     && Path(store.dir, req.path[8..] + ".writer") !in View(w.disk)
      ensures resp.body.Some? ==> var p := Path(store.dir, req.path[8..]);
                                  p in View(old(w.disk)) && resp.body.value == View(old(w.disk))[p]
                                  && digest(resp.body.value) == p.name
      ensures req.verb == PUT && opts.readOnly ==> resp.status in {400, 403, 404} && w.disk == old(w.disk)
    {
      OutsidersAreTurnedAway(opts, req);
      hide Usage, ValidHash, PutOutcome, DeleteOutcome, GetOutcome, AfterPut, AfterDelete, PutPossible, DeletePossible,
        View, HexDigit, Outsider;
      var caller: Bytes := [];
      if opts.identify {
        if req.caller.None? || req.caller.value == [] { return Plain(403); }
        caller := req.caller.value;
      }
      if opts.restrictMembers && opts.lower(caller) !in opts.members { return Plain(403); }
      if opts.shareID != "" && req.share != opts.shareID { return Plain(403); }
      if req.path == "/v1/info" && req.verb == GET {
        var used := store.ReportUsage(w);
        return if used.None? then Plain(503) else Response(200, None, used);
      }
      if !(PREFIX <= req.path) { return Plain(404); }
      var named := NamedHash(req.path);
      if named.None? { return Plain(400); }
      match req.verb {
        case GET =>
          var r := store.Get(w, digest, named.value);
          if r.Found? { FoundIs(digest, View(w.disk), store.dir, named.value); }
          return GetResponse(r);
        case PUT =>
          if opts.readOnly { return Plain(403); }
          if req.body.Complete? && |req.body.bytes| > opts.Limit() { return Plain(413); }
          if req.body.Broken? { return Plain(400); }
          if digest(req.body.bytes) != named.value { return Plain(400); }
          var r := store.PutOwned(w, digest, req.body.bytes, caller);
          return PutResponse(r);
        case DELETE =>
          if !opts.identify { return Plain(403); }
          var r := store.DeleteOwned(w, named.value, caller);
          if r.Deleted? { DeletedIsGone(View(old(w.disk)), store.dir, named.value, r); }
          return DeleteResponse(r);
        case Other =>
          return Plain(405);
      }
    }
  }

  // ---------------------------------------------------------------- who gets what

  /** Outsiders are told the same whatever they ask for, and change nothing. */
  lemma OutsidersGetNothing(opts: Options, digest: Bytes -> string, files: Files, dir: string, quota: int, req: Request)
    requires Outsider(opts, req)
    ensures Handle(opts, digest, files, dir, quota, req) == (files, Response(403, None, None))
  {
  }

  /** Where an upload fits: there is no quota, or room beside what is stored. */
  ghost predicate HasRoom(files: Files, dir: string, quota: int, bytes: Bytes) {
    quota <= 0 || Usage(files, dir) + |bytes| <= quota
  }

  /** The answer to an insider's request outside the shards. */
  lemma OtherPathsAnswer(opts: Options, digest: Bytes -> string, files: Files, dir: string, quota: int, req: Request)
    requires !Outsider(opts, req)
    ensures var r := Handle(opts, digest, files, dir, quota, req);
            && (req.path == "/v1/info" && req.verb == GET ==>
                  r == (files, Response(200, None, Some(Usage(files, dir)))))
            && (!("/shards/" <= req.path) && !(req.path == "/v1/info" && req.verb == GET) ==>
                  r == (files, Response(404, None, None)))
            && ("/shards/" <= req.path && (|req.path| != 72 || '/' in req.path[8..] || '\\' in req.path[8..]) ==>
                  r == (files, Response(400, None, None)))
  {
    if "/shards/" <= req.path && req.verb == GET { assert req.path[1] == 's' && "/v1/info"[1] == 'v'; }
    assert |PREFIX| == 8;
  }

  /** The path names a shard this way. */
  lemma ShardPathNames(req: Request)
    requires "/shards/" <= req.path && |req.path| == 72 && '/' !in req.path[8..] && '\\' !in req.path[8..]
    ensures NamedHash(req.path) == Some(req.path[8..]) && !IsInfo(req)
  {
    assert |PREFIX| == 8;
    assert req.path[1] == 's' && "/v1/info"[1] == 'v';
  }

  /** The answer to an insider's GET of a shard: its bytes, 404 if it is not there, 500 if what is there has another
      digest, 400 if the name is none. And to any other verb. */
  lemma ReadsAnswer(opts: Options, digest: Bytes -> string, files: Files, dir: string, quota: int, req: Request)
    requires !Outsider(opts, req) && req.verb in {GET, Other}
    requires "/shards/" <= req.path && |req.path| == 72 && '/' !in req.path[8..] && '\\' !in req.path[8..]
    ensures var p := Path(dir, req.path[8..]);
            Handle(opts, digest, files, dir, quota, req) ==
            (files, if req.verb == Other then Response(405, None, None)
                    else if exists i | 0 <= i < 64 :: !HexDigit(req.path[8..][i]) then Response(400, None, None)
                    else if p !in files then Response(404, None, None)
                    else if digest(files[p]) != p.name then Response(500, None, None)
                    else Response(200, Some(files[p]), None))
  {
    ShardPathNames(req);
  }

  /** The answer to an insider's PUT of a shard, in the order of the checks; the files change only with a 201, and then
      at most by the shard sent and its owner record. */
  lemma UploadsAnswer(opts: Options, digest: Bytes -> string, files: Files, dir: string, quota: int, req: Request)
    requires !Outsider(opts, req) && req.verb == PUT
    requires "/shards/" <= req.path && |req.path| == 72 && '/' !in req.path[8..] && '\\' !in req.path[8..]
    ensures var (after, resp) := Handle(opts, digest, files, dir, quota, req);
            var p, record := Path(dir, req.path[8..]), Path(dir, req.path[8..] + ".writer");
            var limit := if opts.maxShardBytes <= 0 then 0x400_0000 else opts.maxShardBytes;
            var caller := if opts.identify then req.caller.value else [];
            && resp == Response(resp.status, None, None)
            && (resp.status != 201 ==> after == files)
            && (opts.readOnly ==> resp.status == 403)
            && (!opts.readOnly && req.body.Broken? ==> resp.status == 400)
            && (!opts.readOnly && req.body.Complete? ==>
                  var body := req.body.bytes;
                  if |body| > limit then resp.status == 413
                  else if digest(body) != p.name || exists i | 0 <= i < 64 :: !HexDigit(req.path[8..][i])
                  then resp.status == 400
                  else if p in files then resp.status == (if digest(files[p]) == p.name then 201 else 500)
                                          && after == files
                  else if !HasRoom(files, dir, quota, body) then resp.status == 507
                  else if caller != [] && record in files then resp.status == 500
                  else resp.status == 201 && after == if caller == [] then files[p := body]
                                                      else files[p := body][record := caller])
  {
    ShardPathNames(req);
    var h := req.path[8..];
    assert ValidHash(h) <==> forall i | 0 <= i < 64 :: HexDigit(h[i]);
  }

  /** The answer to an insider's DELETE of a shard: only the caller on record gets anywhere. */
  lemma RemovalsAnswer(opts: Options, digest: Bytes -> string, files: Files, dir: string, quota: int, req: Request)
    requires !Outsider(opts, req) && req.verb == DELETE
    requires "/shards/" <= req.path && |req.path| == 72 && '/' !in req.path[8..] && '\\' !in req.path[8..]
    ensures var (after, resp) := Handle(opts, digest, files, dir, quota, req);
            var p, record := Path(dir, req.path[8..]), Path(dir, req.path[8..] + ".writer");
            && resp == Response(resp.status, None, None)
            && (resp.status != 204 ==> after == files)
            && if !opts.identify then resp.status == 403
               else if exists i | 0 <= i < 64 :: !HexDigit(req.path[8..][i]) then resp.status == 400
               else if record !in files then resp.status == 404
               else if files[record] != req.caller.value then resp.status == 403
               else resp.status == 204 && after == files - {p, record}
  {
    ShardPathNames(req);
    var h := req.path[8..];
    assert ValidHash(h) <==> forall i | 0 <= i < 64 :: HexDigit(h[i]);
  }

  // ---------------------------------------------------------------- runs

  /** What can happen to a shard directory: requests to a server, under whatever options that server has, and
      the pipeline's own puts, which name no writer. */
  datatype Event = Served(opts: Options, req: Request) | LocalPut(shard: Bytes)

  datatype Site = Site(digest: Bytes -> string, dir: string, quota: int)

  ghost function After(site: Site, files: Files, e: Event): Files {
    match e
    case Served(opts, req) => Handle(opts, site.digest, files, site.dir, site.quota, req).0
    case LocalPut(shard) =>
      AfterPut(files, site.dir, site.digest(shard), shard, [],
               PutOutcome(site.digest, files, site.dir, site.quota, shard, []))
  }

  ghost function Run(site: Site, files: Files, events: seq<Event>): Files
    decreases |events|
  {
    if events == [] then files else Run(site, After(site, files, events[0]), events[1..])
  }

  /** Requests of outsiders, whatever they are and however many, leave the directory as it was. */
  lemma {:induction false} OutsidersChangeNothing(site: Site, files: Files, events: seq<Event>)
    requires forall i | 0 <= i < |events| :: events[i].Served? && Outsider(events[i].opts, events[i].req)
    ensures Run(site, files, events) == files
    decreases |events|
  {
    if events != [] {
      OutsidersGetNothing(events[0].opts, site.digest, files, site.dir, site.quota, events[0].req);
      OutsidersChangeNothing(site, files, events[1..]);
    }
  }

  /** The site's directory holds this shard for this writer, or for nobody. */
  ghost predicate Holds(site: Site, files: Files, hash: string, bytes: Bytes, writer: Bytes) {
    OnRecord(site.digest, files, site.dir, hash, bytes, writer)
  }

  /** An admitted DELETE of this hash by this caller. */
  predicate DeletesAs(e: Event, hash: string, writer: Bytes) {
    e.Served? && IsRemoval(e.opts, e.req) && NamedHash(e.req.path) == Some(hash) && e.opts.Caller(e.req) == writer
  }

  lemma HoldsAfterPut(site: Site, files: Files, shard: Bytes, caller: Bytes, hash: string, bytes: Bytes, writer: Bytes)
    requires Holds(site, files, hash, bytes, writer)
    ensures var r := PutOutcome(site.digest, files, site.dir, site.quota, shard, caller);
            Holds(site, AfterPut(files, site.dir, site.digest(shard), shard, caller, r), hash, bytes, writer)
  {
    var h := site.digest(shard);
    if ValidHash(h) {
      OwnerPathDistinct(site.dir, h, hash);
      OwnerPathDistinct(site.dir, hash, h);
    }
  }

  lemma HoldsAfterDelete(site: Site, files: Files, h: string, caller: Bytes, hash: string, bytes: Bytes, writer: Bytes)
    requires Holds(site, files, hash, bytes, writer)
    ensures var r := DeleteOutcome(files, site.dir, h, caller);
            Holds(site, AfterDelete(files, site.dir, h, r), hash, bytes, writer)
            <==> !(h == hash && caller == writer && writer != [])
  {
    if ValidHash(h) {
      OwnerPathDistinct(site.dir, h, hash);
      OwnerPathDistinct(site.dir, hash, h);
    }
  }

  /** One event leaves a held shard, its bytes and its recorded writer alone, except that writer's DELETE. */
  lemma HoldsStep(site: Site, files: Files, e: Event, hash: string, bytes: Bytes, writer: Bytes)
    requires Holds(site, files, hash, bytes, writer)
    ensures Holds(site, After(site, files, e), hash, bytes, writer) <==> !(writer != [] && DeletesAs(e, hash, writer))
  {
    match e {
      case LocalPut(shard) => HoldsAfterPut(site, files, shard, [], hash, bytes, writer);
      case Served(opts, req) =>
        if IsUpload(opts, site.digest, req) {
          HoldsAfterPut(site, files, req.body.bytes, opts.Caller(req), hash, bytes, writer);
        } else if IsRemoval(opts, req) {
          HoldsAfterDelete(site, files, NamedHash(req.path).value, opts.Caller(req), hash, bytes, writer);
        }
    }
  }

  /** Ownership over whole runs: whatever requests follow, duplicates by others included, the bytes and the first
      writer stay until that writer deletes; a shard held for nobody stays for good. */
  lemma {:induction false} HeldThroughout(site: Site, files: Files, events: seq<Event>, hash: string, bytes: Bytes,
                                          writer: Bytes)
    requires Holds(site, files, hash, bytes, writer)
    requires writer == [] || forall i | 0 <= i < |events| :: !DeletesAs(events[i], hash, writer)
    ensures Holds(site, Run(site, files, events), hash, bytes, writer)
    decreases |events|
  {
    if events != [] {
      HoldsStep(site, files, events[0], hash, bytes, writer);
      HeldThroughout(site, After(site, files, events[0]), events[1..], hash, bytes, writer);
    }
  }

  /** Every owner record belongs to a shard: fault-free operation leaves no leftovers. */
  ghost predicate NoLeftovers(site: Site, files: Files) {
    forall h | ValidHash(h) && OwnerPath(site.dir, h) in files :: ShardPath(site.dir, h) in files
  }

  lemma NoLeftoversStep(site: Site, files: Files, e: Event)
    requires NoLeftovers(site, files)
    ensures NoLeftovers(site, After(site, files, e))
  {
    var after := After(site, files, e);
    forall h | ValidHash(h) && OwnerPath(site.dir, h) in after ensures ShardPath(site.dir, h) in after {
      var g := match e
        case LocalPut(shard) => site.digest(shard)
        case Served(opts, req) => if IsUpload(opts, site.digest, req) then site.digest(req.body.bytes)
                                  else if NamedHash(req.path).Some? then NamedHash(req.path).value else "";
      OwnerPathDistinct(site.dir, h, g);
      if ValidHash(g) { OwnerPathDistinct(site.dir, g, h); }
    }
  }

  lemma {:induction false} NoLeftoversThroughout(site: Site, files: Files, events: seq<Event>)
    requires NoLeftovers(site, files)
    ensures NoLeftovers(site, Run(site, files, events))
    decreases |events|
  {
    if events != [] {
      NoLeftoversStep(site, files, events[0]);
      NoLeftoversThroughout(site, After(site, files, events[0]), events[1..]);
    }
  }

  /** The first accepted upload of a hash makes its caller the recorded writer of exactly the bytes sent; for an upload
      that names nobody, provided no record was left for that hash. */
  lemma FirstUploaderHolds(site: Site, files: Files, opts: Options, req: Request)
    requires IsUpload(opts, site.digest, req)
    requires opts.Caller(req) != [] || OwnerPath(site.dir, site.digest(req.body.bytes)) !in files
    requires ShardPath(site.dir, site.digest(req.body.bytes)) !in files
    ensures var (after, resp) := Handle(opts, site.digest, files, site.dir, site.quota, req);
            if resp.status == 201
            then Holds(site, after, site.digest(req.body.bytes), req.body.bytes, opts.Caller(req))
            else after == files
  {
    var h := site.digest(req.body.bytes);
    if ValidHash(h) { OwnerPathDistinct(site.dir, h, h); }
  }

  /** What requests for a held shard get: the bytes, and deletion for its writer only. */
  lemma RequestsForHeld(site: Site, files: Files, hash: string, bytes: Bytes, writer: Bytes, opts: Options,
                        req: Request)
    requires Holds(site, files, hash, bytes, writer) && opts.Admits(req) && NamedHash(req.path) == Some(hash)
    ensures var (after, resp) := Handle(opts, site.digest, files, site.dir, site.quota, req);
            && (req.verb == GET ==> after == files && resp == Response(200, Some(bytes), None))
            && (req.verb == DELETE ==>
                  if opts.identify && opts.Caller(req) == writer
                  then resp.status == 204 && after == files - {ShardPath(site.dir, hash), OwnerPath(site.dir, hash)}
                  else after == files && resp.status in {403, 404})
  {
    PrefixOfInfo(req);
  }

  /** The whole story of one shard: uploaded first by `req`, then any events without that writer's DELETE. Then
      every admitted GET answers with the uploaded bytes, the writer's DELETE succeeds and removes shard and
      record, and anyone else's is refused. */
  lemma OwnershipStory(site: Site, start: Files, before: seq<Event>, opts: Options, req: Request, after: seq<Event>,
                       later: Options, probe: Request)
    requires var files := Run(site, start, before);
             && IsUpload(opts, site.digest, req)
             && (opts.Caller(req) != [] || OwnerPath(site.dir, site.digest(req.body.bytes)) !in files)
             && ShardPath(site.dir, site.digest(req.body.bytes)) !in files
             && Handle(opts, site.digest, files, site.dir, site.quota, req).1.status == 201
    requires opts.Caller(req) == [] || forall i | 0 <= i < |after| ::
               !DeletesAs(after[i], site.digest(req.body.bytes), opts.Caller(req))
    requires later.Admits(probe) && NamedHash(probe.path) == Some(site.digest(req.body.bytes))
    ensures var h, writer := site.digest(req.body.bytes), opts.Caller(req);
            var files := Run(site, After(site, Run(site, start, before), Served(opts, req)), after);
            var (then_, resp) := Handle(later, site.digest, files, site.dir, site.quota, probe);
            && (probe.verb == GET ==> then_ == files && resp == Response(200, Some(req.body.bytes), None))
            && (probe.verb == DELETE ==>
                  if later.identify && later.Caller(probe) == writer
                  then resp.status == 204 && then_ == files - {ShardPath(site.dir, h), OwnerPath(site.dir, h)}
                  else then_ == files && resp.status in {403, 404})
  {
    var files := Run(site, start, before);
    FirstUploaderHolds(site, files, opts, req);
    var h, bytes, writer := site.digest(req.body.bytes), req.body.bytes, opts.Caller(req);
    HeldThroughout(site, After(site, files, Served(opts, req)), after, h, bytes, writer);
    RequestsForHeld(site, Run(site, After(site, files, Served(opts, req)), after), h, bytes, writer, later, probe);
  }

  lemma PrefixOfInfo(req: Request)
    requires NamedHash(req.path).Some?
    ensures req.path != "/v1/info"
  {
    assert |PREFIX| == 8;
  }

  // ---------------------------------------------------------------- content, size and quota over runs

  /** The largest upload any event of the run lets through. */
  predicate WithinLimit(events: seq<Event>, limit: int) {
    forall i | 0 <= i < |events| ::
      match events[i]
      case Served(opts, _) => opts.Limit() <= limit
      case LocalPut(shard) => |shard| <= limit
  }

  /** Every hash-named file is an unchanged one from the start, or hashes to its name and is within the limit. */
  ghost predicate Sane(site: Site, start: Files, files: Files, limit: int) {
    forall p | p in files && IsShard(site.dir, p) ::
      (p in start && start[p] == files[p]) || (site.digest(files[p]) == p.name && |files[p]| <= limit)
  }

  lemma SaneAfterPut(site: Site, start: Files, files: Files, shard: Bytes, caller: Bytes, limit: int)
    requires Sane(site, start, files, limit) && |shard| <= limit
    ensures var r := PutOutcome(site.digest, files, site.dir, site.quota, shard, caller);
            Sane(site, start, AfterPut(files, site.dir, site.digest(shard), shard, caller, r), limit)
  {
    var h := site.digest(shard);
    if ValidHash(h) { OwnerPathDistinct(site.dir, h, h); }
  }

  lemma SaneStep(site: Site, start: Files, files: Files, e: Event, limit: int)
    requires Sane(site, start, files, limit) && WithinLimit([e], limit)
    ensures Sane(site, start, After(site, files, e), limit)
    ensures site.quota > 0 ==> Usage(After(site, files, e), site.dir) <= Max(site.quota, Usage(files, site.dir))
  {
    assert [e][0] == e;
    match e {
      case LocalPut(shard) =>
        SaneAfterPut(site, start, files, shard, [], limit);
        PutWithinQuota(site, files, shard, []);
      case Served(opts, req) =>
        if IsUpload(opts, site.digest, req) {
          SaneAfterPut(site, start, files, req.body.bytes, opts.Caller(req), limit);
          PutWithinQuota(site, files, req.body.bytes, opts.Caller(req));
        } else if IsRemoval(opts, req) {
          var h := NamedHash(req.path).value;
          DeleteKeepsUsage(files, site.dir, h, opts.Caller(req), DeleteOutcome(files, site.dir, h, opts.Caller(req)));
        }
    }
  }

  lemma PutWithinQuota(site: Site, files: Files, shard: Bytes, caller: Bytes)
    ensures var r := PutOutcome(site.digest, files, site.dir, site.quota, shard, caller);
            site.quota > 0 ==>
              Usage(AfterPut(files, site.dir, site.digest(shard), shard, caller, r), site.dir)
              <= Max(site.quota, Usage(files, site.dir))
  {
    var r := PutOutcome(site.digest, files, site.dir, site.quota, shard, caller);
    if site.quota > 0 { PutKeepsQuota(files, site.dir, site.quota, site.digest(shard), shard, caller, r); }
  }

  lemma {:induction false} SaneOnwards(site: Site, start: Files, files: Files, events: seq<Event>, limit: int)
    requires Sane(site, start, files, limit) && WithinLimit(events, limit)
    requires site.quota > 0 ==> Usage(files, site.dir) <= Max(site.quota, Usage(start, site.dir))
    ensures var end := Run(site, files, events);
            && Sane(site, start, end, limit)
            && (site.quota > 0 ==> Usage(end, site.dir) <= Max(site.quota, Usage(start, site.dir)))
    decreases |events|
  {
    if events != [] {
      assert WithinLimit([events[0]], limit);
      assert forall i | 0 <= i < |events| - 1 :: events[1..][i] == events[i + 1];
      SaneStep(site, start, files, events[0], limit);
      SaneOnwards(site, start, After(site, files, events[0]), events[1..], limit);
    }
  }

  /** Over every run, from any directory: a hash-named file that was not there at the start hashes to its name and is
      within the size limit, the others are unchanged, and a positive quota is never passed unless it was at the
      start. */
  lemma SaneThroughout(site: Site, start: Files, events: seq<Event>, limit: int)
    requires WithinLimit(events, limit)
    ensures var end := Run(site, start, events);
            && Sane(site, start, end, limit)
            && (site.quota > 0 ==> Usage(end, site.dir) <= Max(site.quota, Usage(start, site.dir)))
  {
    SaneOnwards(site, start, start, events, limit);
  }
}
