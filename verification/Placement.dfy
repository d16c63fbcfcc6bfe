/** `shardPeers`: which peers get which shards, and how many device failures that survives. */
module Placement {
  import opened Prelude
  import opened Discovery

  datatype Config = Config(
    peers: seq<Peer>, excludePeers: seq<string>, members: seq<string>, minPeers: int, requireCapabilities: bool,
    listenPort: string, peerPorts: map<string, string>, fold: string -> string)

  /** `containsName` compares names ignoring case. */
  predicate ContainsName(cfg: Config, names: seq<string>, name: string) {
    exists i | 0 <= i < |names| :: cfg.fold(names[i]) == cfg.fold(name)
  }

  predicate Passes(cfg: Config, p: Peer) {
    p.online && !ContainsName(cfg, cfg.excludePeers, p.hostName)
    && (cfg.members == [] || ContainsName(cfg, cfg.members, p.hostName))
  }

  /** What counts as one failure domain: a host, or with an explicit peer list and no minimum, an endpoint. */
  datatype Domain = Host(ip: string) | Endpoint(ip: string, port: string)

  predicate ByEndpoint(cfg: Config) {
    cfg.minPeers == 0 && cfg.peers != []
  }

  function DomainOf(cfg: Config, p: Peer): Domain {
    if ByEndpoint(cfg) then Endpoint(p.tailIP, Port(p, cfg.listenPort, cfg.peerPorts)) else Host(p.tailIP)
  }

  /** No earlier candidate that passes shares the domain of candidate `i`. */
  predicate First(cfg: Config, cs: seq<Peer>, i: nat)
    requires i < |cs|
  {
    Passes(cfg, cs[i]) && forall j | 0 <= j < i :: Passes(cfg, cs[j]) ==> DomainOf(cfg, cs[j]) != DomainOf(cfg, cs[i])
  }

  /** The candidates that pass and come first in their domain, in order. */
  function Eligible(cfg: Config, cs: seq<Peer>): seq<Peer> {
    if cs == [] then []
    else
      var n := |cs| - 1;
      Eligible(cfg, cs[..n]) + if First(cfg, cs, n) then [cs[n]] else []
  }

  predicate CanHold(s: Status, shardBytes: int) {
    && s.ready && s.info.Some? && s.info.value.maxShardBytes >= shardBytes
    && (s.info.value.quotaBytes == 0 || s.info.value.quotaBytes - s.info.value.usedBytes >= shardBytes)
  }

  function WithRoom(statuses: seq<Status>, shardBytes: int): seq<Peer> {
    if statuses == [] then []
    else
      var n := |statuses| - 1;
      WithRoom(statuses[..n], shardBytes) + if CanHold(statuses[n], shardBytes) then [statuses[n].peer] else []
  }

  /** The peers that may be used, before shuffling. */
  function Usable(cfg: Config, cs: seq<Peer>, probe: Probe, shardBytes: int): seq<Peer> {
    var eligible := Eligible(cfg, cs);
    if cfg.requireCapabilities || cfg.peers == [] then WithRoom(Inspect(probe, eligible), shardBytes) else eligible
  }

  function Required(cfg: Config, count: int): int {
    if cfg.minPeers != 0 then cfg.minPeers else if cfg.peers == [] then count else 1
  }

  /** There are peers to choose from and they are not too few. */
  predicate Enough(cfg: Config, discovered: Option<seq<Peer>>, probe: Probe, count: int, shardBytes: int) {
    && (cfg.peers != [] || discovered.Some?)
    && |Usable(cfg, if cfg.peers != [] then cfg.peers else discovered.value, probe, shardBytes)| >= Required(cfg, count)
  }

  /** Enough usable peers for a placement. */
  predicate CanPlace(cfg: Config, discovered: Option<seq<Peer>>, probe: Probe, count: int, shardBytes: int) {
    && Enough(cfg, discovered, probe, count, shardBytes) && count >= 0
    && (count > 0 ==> Usable(cfg, if cfg.peers != [] then cfg.peers else discovered.value, probe, shardBytes) != [])
  }

  /** The last two are panics: a list of negative length, and an index modulo zero. */
  datatype Result = Placed(peers: seq<Peer>) | DiscoveryFailed | TooFew | NegativeLength | DividesByZero {
    predicate Panics() { NegativeLength? || DividesByZero? }
  }

  /** Peers in turn. */
  function RoundRobin(es: seq<Peer>, count: nat): seq<Peer>
    requires es != [] || count == 0
  {
    seq(count, i requires 0 <= i < count => es[i % |es|])
  }

  predicate Permutes(shuffle: seq<Peer> -> seq<Peer>, es: seq<Peer>) {
    multiset(shuffle(es)) == multiset(es)
  }

  /** What the probe of this peer answers: it contributes storage, takes shards of this size and has room for one. */
  predicate Fits(probe: Probe, p: Peer, shardBytes: int) {
    && p.online && probe(p).Ok?
    && var info := probe(p).value;
       && info.storage && info.maxShardBytes >= shardBytes
       && (info.quotaBytes == 0 || info.quotaBytes - info.usedBytes >= shardBytes)
       && (info.quotaBytes > 0 ==> info.usedBytes < info.quotaBytes)
  }

  /** The machines among these peers. */
  function Hosts(ps: seq<Peer>): set<string> {
    set i | 0 <= i < |ps| :: ps[i].tailIP
  }

  /** The filtering loop: `seen` holds the domains already taken. */
  method FilterCandidates(cfg: Config, cs: seq<Peer>) returns (eligible: seq<Peer>)
    ensures eligible == Eligible(cfg, cs)
  {
    eligible := [];
    var seen: set<Domain> := {};
    for i := 0 to |cs|
      invariant eligible == Eligible(cfg, cs[..i])
      invariant forall d :: d in seen <==> exists j | 0 <= j < i :: Passes(cfg, cs[j]) && DomainOf(cfg, cs[j]) == d
    {
      var p := cs[i];
      assert cs[..i + 1][..i] == cs[..i];
      assert First(cfg, cs[..i + 1], i) <==> Passes(cfg, p) && DomainOf(cfg, p) !in seen;
      if Passes(cfg, p) {
        var id := DomainOf(cfg, p);
        if id !in seen {
          seen := seen + {id};
          eligible := eligible + [p];
        }
      }
    }
    assert cs[..|cs|] == cs;
  }

  method FilterRoom(statuses: seq<Status>, shardBytes: int) returns (eligible: seq<Peer>)
    ensures eligible == WithRoom(statuses, shardBytes)
  {
    eligible := [];
    for i := 0 to |statuses|
      invariant eligible == WithRoom(statuses[..i], shardBytes)
    {
      assert statuses[..i + 1][..i] == statuses[..i];
      if CanHold(statuses[i], shardBytes) { eligible := eligible + [statuses[i].peer]; }
    }
    assert statuses[..|statuses|] == statuses;
  }

  /** `shardPeers`, for whatever number of shards the layout reports. A negative minimum lets an empty list through to a
      division by its length; a negative number of shards, every list that is not too short. */
  method ShardPeers(cfg: Config, discovered: Option<seq<Peer>>, probe: Probe, shuffle: seq<Peer> -> seq<Peer>,
                    count: int, shardBytes: int) returns (r: Result)
    requires forall es :: Permutes(shuffle, es)
    ensures r.DiscoveryFailed? <==> cfg.peers == [] && discovered == None
    ensures r.TooFew? || r.DiscoveryFailed? ==> !Enough(cfg, discovered, probe, count, shardBytes)
    ensures Enough(cfg, discovered, probe, count, shardBytes) ==>
              var usable := Usable(cfg, if cfg.peers != [] then cfg.peers else discovered.value, probe, shardBytes);
              && (r.NegativeLength? <==> count < 0)
              && (r.DividesByZero? <==> count > 0 && usable == [])
              && (r.Placed? ==> count >= 0 && var es := if cfg.peers != [] then usable else shuffle(usable);
                                  multiset(es) == multiset(usable) && (es != [] || count == 0)
                                  && r.peers == RoundRobin(es, count))
    ensures r.Placed? <==> CanPlace(cfg, discovered, probe, count, shardBytes)
    ensures r.Placed? || r.Panics() ==> Enough(cfg, discovered, probe, count, shardBytes)
    ensures r.Placed? ==> |r.peers| == count && forall p | p in r.peers ::
                            && p in (if cfg.peers != [] then cfg.peers else discovered.value)
                            && p.online && (forall i | 0 <= i < |cfg.excludePeers| ::
                                              cfg.fold(cfg.excludePeers[i]) != cfg.fold(p.hostName))
                            && (cfg.members != [] ==> exists i | 0 <= i < |cfg.members| ::
                                  cfg.fold(cfg.members[i]) == cfg.fold(p.hostName))
                            && (cfg.peers == [] || cfg.requireCapabilities ==> Fits(probe, p, shardBytes))
    ensures r.Placed? && cfg.peers == [] && cfg.minPeers == 0 ==>
              forall i, j | 0 <= i < j < |r.peers| :: r.peers[i].tailIP != r.peers[j].tailIP
    ensures r.Placed? && cfg.minPeers > 0 ==> |Hosts(r.peers)| >= Min(cfg.minPeers, count)
    ensures r.Placed? && count > 0 ==> |Hosts(r.peers)| >= 1
  {
    var candidates;
    if |cfg.peers| > 0 {
      candidates := cfg.peers;
    } else {
      if discovered == None { return DiscoveryFailed; }
      candidates := discovered.value;
    }
    var eligible := FilterCandidates(cfg, candidates);
    if cfg.requireCapabilities || |cfg.peers| == 0 {
      eligible := FilterRoom(Inspect(probe, eligible), shardBytes);
    }
    ghost var usable := eligible;
    var required := cfg.minPeers;
    if required == 0 {
      required := 1;
      if |cfg.peers| == 0 { required := count; }
    }
    if |eligible| < required { return TooFew; }
    if |cfg.peers| == 0 {
      assert Permutes(shuffle, eligible);
      eligible := shuffle(eligible);
      assert |eligible| == |multiset(eligible)| == |multiset(usable)| == |usable|;
    }
    if count < 0 { return NegativeLength; }
    if count > 0 && |eligible| == 0 { return DividesByZero; }
    r := Placed(RoundRobin(eligible, count));
    PlacedFitly(cfg, candidates, probe, shardBytes, usable, eligible, count);
  }

  // ---------------------------------------------------------------- who is chosen

  predicate DistinctDomains(cfg: Config, es: seq<Peer>) {
    forall i, j | 0 <= i < j < |es| :: DomainOf(cfg, es[i]) != DomainOf(cfg, es[j])
  }

  lemma {:induction false} EligibleSound(cfg: Config, cs: seq<Peer>)
    ensures DistinctDomains(cfg, Eligible(cfg, cs))
    ensures forall p | p in Eligible(cfg, cs) :: p in cs && Passes(cfg, p)
  {
    if cs != [] {
      hide Passes, DomainOf;
      var n := |cs| - 1;
      var before := Eligible(cfg, cs[..n]);
      EligibleSound(cfg, cs[..n]);
      forall p | p in before ensures p in cs && Passes(cfg, p) { assert p in cs[..n]; }
      if First(cfg, cs, n) {
        forall i | 0 <= i < |before| ensures DomainOf(cfg, before[i]) != DomainOf(cfg, cs[n]) {
          assert before[i] in cs[..n];
          var j :| 0 <= j < n && cs[..n][j] == before[i];
          assert Passes(cfg, cs[j]);
        }
      }
    }
  }

  /** The first passing candidate of a domain is kept. */
  lemma {:induction false} FirstIsEligible(cfg: Config, cs: seq<Peer>, i: nat)
    requires i < |cs| && First(cfg, cs, i)
    ensures cs[i] in Eligible(cfg, cs)
  {
    hide Passes, DomainOf;
    var n := |cs| - 1;
    if i < n {
      assert First(cfg, cs[..n], i);
      FirstIsEligible(cfg, cs[..n], i);
    }
  }

  /** Every passing candidate has one before it, or is one, that comes first in its domain. */
  lemma {:induction false} SomeFirst(cfg: Config, cs: seq<Peer>, i: nat) returns (f: nat)
    requires i < |cs| && Passes(cfg, cs[i])
    ensures f <= i && First(cfg, cs, f) && DomainOf(cfg, cs[f]) == DomainOf(cfg, cs[i])
  {
    hide Passes, DomainOf;
    f := i;
    if !First(cfg, cs, i) {
      var j :| 0 <= j < i && Passes(cfg, cs[j]) && DomainOf(cfg, cs[j]) == DomainOf(cfg, cs[i]);
      f := SomeFirst(cfg, cs, j);
    }
  }

  /** Filtering keeps only passing candidates, one for each domain that has any. */
  lemma EligibleExactly(cfg: Config, cs: seq<Peer>)
    ensures DistinctDomains(cfg, Eligible(cfg, cs))
    ensures forall p | p in Eligible(cfg, cs) :: p in cs && Passes(cfg, p)
    ensures forall p | p in cs && Passes(cfg, p) ::
              exists q | q in Eligible(cfg, cs) :: DomainOf(cfg, q) == DomainOf(cfg, p)
  {
    hide Passes, DomainOf, Eligible, First;
    EligibleSound(cfg, cs);
    forall p | p in cs && Passes(cfg, p)
      ensures exists q | q in Eligible(cfg, cs) :: DomainOf(cfg, q) == DomainOf(cfg, p)
    {
      var i :| 0 <= i < |cs| && cs[i] == p;
      var f := SomeFirst(cfg, cs, i);
      FirstIsEligible(cfg, cs, f);
    }
  }

  lemma {:induction false} RoomKeepsOrder(probe: Probe, es: seq<Peer>, shardBytes: int, cfg: Config)
    requires DistinctDomains(cfg, es)
    ensures var room := WithRoom(Inspect(probe, es), shardBytes);
            && DistinctDomains(cfg, room)
            && forall p :: p in room <==> p in es && CanHold(Sequential(probe, p), shardBytes)
  {
    if es != [] {
      var n := |es| - 1;
      RoomKeepsOrder(probe, es[..n], shardBytes, cfg);
      assert Inspect(probe, es)[..n] == Inspect(probe, es[..n]);
      assert es == es[..n] + [es[n]];
      var room := WithRoom(Inspect(probe, es[..n]), shardBytes);
      forall i | 0 <= i < |room| ensures DomainOf(cfg, room[i]) != DomainOf(cfg, es[n]) {
        assert room[i] in es[..n];
      }
    }
  }

  lemma UsableExactly(cfg: Config, cs: seq<Peer>, probe: Probe, shardBytes: int)
    ensures DistinctDomains(cfg, Usable(cfg, cs, probe, shardBytes))
    ensures forall p | p in Usable(cfg, cs, probe, shardBytes) :: p in cs && Passes(cfg, p)
    ensures forall p :: p in Usable(cfg, cs, probe, shardBytes) <==>
              p in Eligible(cfg, cs) && (cfg.requireCapabilities || cfg.peers == [] ==>
                                           CanHold(Sequential(probe, p), shardBytes))
  {
    EligibleExactly(cfg, cs);
    RoomKeepsOrder(probe, Eligible(cfg, cs), shardBytes, cfg);
  }

  lemma {:induction false} TwiceInMultiset(es: seq<Peer>, i: nat, j: nat)
    requires i < j < |es| && es[i] == es[j]
    ensures multiset(es)[es[i]] >= 2
  {
    assert es == es[..j] + [es[j]] + es[j + 1..];
    assert es[i] in multiset(es[..j]) by { assert es[..j][i] == es[i]; }
  }

  lemma {:induction false} OnceIfDistinct(cfg: Config, es: seq<Peer>, p: Peer)
    requires DistinctDomains(cfg, es)
    ensures multiset(es)[p] <= 1
  {
    if es != [] {
      var n := |es| - 1;
      OnceIfDistinct(cfg, es[..n], p);
      assert es == es[..n] + [es[n]];
      if es[n] == p {
        assert p !in es[..n];
        assert p !in multiset(es[..n]);
      }
    }
  }

  /** Shuffling keeps the domains distinct. */
  lemma ShuffledDistinct(cfg: Config, es: seq<Peer>, shuffled: seq<Peer>)
    requires DistinctDomains(cfg, es) && multiset(shuffled) == multiset(es)
    ensures DistinctDomains(cfg, shuffled)
  {
    forall i, j | 0 <= i < j < |shuffled| ensures DomainOf(cfg, shuffled[i]) != DomainOf(cfg, shuffled[j]) {
      assert shuffled[i] in multiset(es) && shuffled[j] in multiset(es);
      if shuffled[i] == shuffled[j] {
        TwiceInMultiset(shuffled, i, j);
        OnceIfDistinct(cfg, es, shuffled[i]);
      }
    }
  }

  lemma CanHoldFits(probe: Probe, p: Peer, shardBytes: int)
    ensures CanHold(Sequential(probe, p), shardBytes) <==> Fits(probe, p, shardBytes)
  {
  }

  /** Which peers can be used at all: online, not excluded, a member where members are listed, and, where capabilities
      count, with room for the shard. */
  lemma UsableFit(cfg: Config, cs: seq<Peer>, probe: Probe, shardBytes: int, p: Peer)
    requires p in Usable(cfg, cs, probe, shardBytes)
    ensures p in cs && p.online
    ensures forall i | 0 <= i < |cfg.excludePeers| :: cfg.fold(cfg.excludePeers[i]) != cfg.fold(p.hostName)
    ensures cfg.members != [] ==> exists i | 0 <= i < |cfg.members| :: cfg.fold(cfg.members[i]) == cfg.fold(p.hostName)
    ensures cfg.peers == [] || cfg.requireCapabilities ==> Fits(probe, p, shardBytes)
  {
    hide Usable, Eligible, CanHold, Sequential, Fits;
    UsableExactly(cfg, cs, probe, shardBytes);
    CanHoldFits(probe, p, shardBytes);
  }

  /** And which stay out: of the candidates that are online, not excluded and members, only those whose failure domain
      an earlier one has, or that have no room. */
  lemma LeftOutExactly(cfg: Config, cs: seq<Peer>, probe: Probe, shardBytes: int, i: nat)
    requires i < |cs| && cs[i].online && cs[i] !in Usable(cfg, cs, probe, shardBytes)
    requires forall j | 0 <= j < |cfg.excludePeers| :: cfg.fold(cfg.excludePeers[j]) != cfg.fold(cs[i].hostName)
    requires cfg.members == [] || exists j | 0 <= j < |cfg.members| ::
               cfg.fold(cfg.members[j]) == cfg.fold(cs[i].hostName)
    ensures ((cfg.peers == [] || cfg.requireCapabilities) && !Fits(probe, cs[i], shardBytes))
            || exists j | 0 <= j < i :: cs[j].tailIP == cs[i].tailIP
  {
    UsableExactly(cfg, cs, probe, shardBytes);
    CanHoldFits(probe, cs[i], shardBytes);
    if First(cfg, cs, i) {
      FirstIsEligible(cfg, cs, i);
    } else {
      assert Passes(cfg, cs[i]);
      var j :| 0 <= j < i && Passes(cfg, cs[j]) && DomainOf(cfg, cs[j]) == DomainOf(cfg, cs[i]);
    }
  }

  lemma {:induction false} DistinctHosts(ps: seq<Peer>)
    requires Machines(ps)
    ensures |Hosts(ps)| == |ps|
  {
    if ps != [] {
      var n := |ps| - 1;
      var rest := ps[..n];
      assert forall i | 0 <= i < n :: rest[i] == ps[i];
      DistinctHosts(rest);
      assert Hosts(ps) == Hosts(rest) + {ps[n].tailIP};
      assert ps[n].tailIP !in Hosts(rest);
    }
  }

  lemma MachinesOfDomains(cfg: Config, es: seq<Peer>)
    requires !ByEndpoint(cfg) && DistinctDomains(cfg, es)
    ensures Machines(es)
  {
    forall i, j | 0 <= i < j < |es| ensures es[i].tailIP != es[j].tailIP {
      assert DomainOf(cfg, es[i]) != DomainOf(cfg, es[j]);
    }
  }

  lemma FirstTurn(es: seq<Peer>, count: nat, k: nat)
    requires es != [] && k <= count && k <= |es|
    ensures Hosts(es[..k]) <= Hosts(RoundRobin(es, count))
  {
    forall i | 0 <= i < k ensures RoundRobin(es, count)[i] == es[i] { SmallModulo(i, |es|); }
    forall ip | ip in Hosts(es[..k]) ensures ip in Hosts(RoundRobin(es, count)) {
      var i :| 0 <= i < k && es[..k][i].tailIP == ip;
      assert RoundRobin(es, count)[i].tailIP == ip;
    }
  }

  lemma SmallModulo(i: nat, e: nat)
    requires i < e
    ensures i % e == i
  {
  }

  lemma ManyHosts(cfg: Config, es: seq<Peer>, count: nat, k: nat)
    requires !ByEndpoint(cfg) && DistinctDomains(cfg, es) && es != [] && k <= count && k <= |es|
    ensures |Hosts(RoundRobin(es, count))| >= k
  {
    MachinesOfDomains(cfg, es);
    assert forall i | 0 <= i < k :: es[..k][i] == es[i];
    DistinctHosts(es[..k]);
    FirstTurn(es, count, k);
    SubsetSize(Hosts(es[..k]), Hosts(RoundRobin(es, count)));
  }

  /** What a placement comes to, whatever the order of the usable peers. */
  lemma PlacedFitly(cfg: Config, cs: seq<Peer>, probe: Probe, shardBytes: int, usable: seq<Peer>, es: seq<Peer>,
                    count: nat)
    requires usable == Usable(cfg, cs, probe, shardBytes) && multiset(es) == multiset(usable)
    requires |es| >= Required(cfg, count) && (count > 0 ==> es != [])
    ensures forall p | p in RoundRobin(es, count) ::
              && p in cs && p.online
              && (forall i | 0 <= i < |cfg.excludePeers| :: cfg.fold(cfg.excludePeers[i]) != cfg.fold(p.hostName))
              && (cfg.members != [] ==>
                    exists i | 0 <= i < |cfg.members| :: cfg.fold(cfg.members[i]) == cfg.fold(p.hostName))
              && (cfg.peers == [] || cfg.requireCapabilities ==> Fits(probe, p, shardBytes))
    ensures cfg.peers == [] && cfg.minPeers == 0 ==>
              forall i, j | 0 <= i < j < count :: RoundRobin(es, count)[i].tailIP != RoundRobin(es, count)[j].tailIP
    ensures cfg.minPeers > 0 ==> |Hosts(RoundRobin(es, count))| >= Min(cfg.minPeers, count)
    ensures count > 0 ==> |Hosts(RoundRobin(es, count))| >= 1
  {
    hide Usable, Fits, DomainOf, Permutes;
    var ps := RoundRobin(es, count);
    forall p | p in ps
      ensures p in cs && p.online
      ensures forall i | 0 <= i < |cfg.excludePeers| :: cfg.fold(cfg.excludePeers[i]) != cfg.fold(p.hostName)
      ensures cfg.members != [] ==> exists i | 0 <= i < |cfg.members| ::
                cfg.fold(cfg.members[i]) == cfg.fold(p.hostName)
      ensures cfg.peers == [] || cfg.requireCapabilities ==> Fits(probe, p, shardBytes)
    {
      var i :| 0 <= i < |ps| && ps[i] == p;
      assert p == es[i % |es|];
      assert p in multiset(es);
      UsableFit(cfg, cs, probe, shardBytes, p);
    }
    UsableExactly(cfg, cs, probe, shardBytes);
    ShuffledDistinct(cfg, usable, es);
    if cfg.peers == [] && cfg.minPeers == 0 {
      MachinesOfDomains(cfg, es);
      forall i, j | 0 <= i < j < count ensures ps[i].tailIP != ps[j].tailIP {
        SmallModulo(i, |es|);
        SmallModulo(j, |es|);
      }
    }
    if cfg.minPeers > 0 && count > 0 { ManyHosts(cfg, es, count, Min(cfg.minPeers, count)); }
    if count > 0 {
      assert ps[0].tailIP in Hosts(ps);
      SubsetSize({ps[0].tailIP}, Hosts(ps));
    }
  }

  /** When there are enough peers: with discovery and no minimum, one for every shard; with a minimum, that many; with
      an explicit list and no minimum, one. */
  lemma EnoughExactly(cfg: Config, cs: seq<Peer>, probe: Probe, count: int, shardBytes: int)
    ensures var discovered := Some(cs);
            var usable := Usable(cfg, if cfg.peers != [] then cfg.peers else cs, probe, shardBytes);
            && (cfg.peers == [] && cfg.minPeers == 0 ==>
                  (Enough(cfg, discovered, probe, count, shardBytes) <==> |usable| >= count))
            && (cfg.minPeers != 0 ==> (Enough(cfg, discovered, probe, count, shardBytes) <==> |usable| >= cfg.minPeers))
            && (cfg.peers != [] && cfg.minPeers == 0 ==>
                  (Enough(cfg, discovered, probe, count, shardBytes) <==> usable != []))
            && !Enough(cfg.(peers := []), None, probe, count, shardBytes)
            && (cfg.peers != [] ==> Enough(cfg, None, probe, count, shardBytes)
                                    == Enough(cfg, discovered, probe, count, shardBytes))
            && (count > 0 ==> (CanPlace(cfg, discovered, probe, count, shardBytes)
                               <==> Enough(cfg, discovered, probe, count, shardBytes) && usable != []))
            && (count == 0 ==> CanPlace(cfg, discovered, probe, 0, shardBytes)
                               == Enough(cfg, discovered, probe, 0, shardBytes))
            && (count < 0 ==> !CanPlace(cfg, discovered, probe, count, shardBytes))
  {
  }

  lemma CanPlaceIsEnough(cfg: Config, discovered: Option<seq<Peer>>, probe: Probe, count: int, shardBytes: int)
    requires CanPlace(cfg, discovered, probe, count, shardBytes)
    ensures Enough(cfg, discovered, probe, count, shardBytes)
  {
  }

  /** No machine is there twice. */
  predicate Machines(es: seq<Peer>) {
    forall i, j | 0 <= i < j < |es| :: es[i].tailIP != es[j].tailIP
  }

  /** Two passing candidates are one machine under two ports. */
  predicate TwoPorts(cfg: Config, cs: seq<Peer>) {
    exists i, j | 0 <= i < |cs| && 0 <= j < |cs| :: SamePlace(cfg, cs[i], cs[j])
  }

  predicate SamePlace(cfg: Config, p: Peer, q: Peer) {
    && Passes(cfg, p) && Passes(cfg, q) && p.tailIP == q.tailIP
    && Port(p, cfg.listenPort, cfg.peerPorts) != Port(q, cfg.listenPort, cfg.peerPorts)
  }

  lemma SharedMachine(cfg: Config, cs: seq<Peer>, i: nat, j: nat)
    requires ByEndpoint(cfg) && i < |cs| && j < |cs| && SamePlace(cfg, cs[i], cs[j])
    ensures !Machines(Eligible(cfg, cs))
  {
    var f := SomeFirst(cfg, cs, i);
    var g := SomeFirst(cfg, cs, j);
    FirstIsEligible(cfg, cs, f);
    FirstIsEligible(cfg, cs, g);
    hide Eligible, First, Passes, Port;
    var es := Eligible(cfg, cs);
    var a :| 0 <= a < |es| && es[a] == cs[f];
    var b :| 0 <= b < |es| && es[b] == cs[g];
    assert a != b;
    assert es[Min(a, b)].tailIP == es[Max(a, b)].tailIP;
  }

  /** The candidates kept by the filter, before anybody asks what they can hold, are pairwise different machines if and
      only if the configuration asks for a minimum or discovers its peers, or no two that pass are one machine under two
      ports. */
  lemma CandidatesDistinct(cfg: Config, cs: seq<Peer>)
    ensures Machines(Eligible(cfg, cs)) <==> !ByEndpoint(cfg) || !TwoPorts(cfg, cs)
  {
    EligibleSound(cfg, cs);
    var es := Eligible(cfg, cs);
    if ByEndpoint(cfg) && TwoPorts(cfg, cs) {
      var i, j :| 0 <= i < |cs| && 0 <= j < |cs| && SamePlace(cfg, cs[i], cs[j]);
      SharedMachine(cfg, cs, i, j);
    } else {
      hide Eligible, Passes, Port;
      forall i, j | 0 <= i < j < |es| ensures es[i].tailIP != es[j].tailIP {
        assert DomainOf(cfg, es[i]) != DomainOf(cfg, es[j]);
        assert es[i] in cs && es[j] in cs;
        var a :| 0 <= a < |cs| && cs[a] == es[i];
        var b :| 0 <= b < |cs| && cs[b] == es[j];
        assert ByEndpoint(cfg) ==> !SamePlace(cfg, cs[a], cs[b]);
      }
    }
  }

  lemma {:induction false} EligibleIsFirst(cfg: Config, cs: seq<Peer>, p: Peer) returns (f: nat)
    requires p in Eligible(cfg, cs)
    ensures f < |cs| && cs[f] == p && First(cfg, cs, f)
  {
    hide Passes, DomainOf;
    var n := |cs| - 1;
    if First(cfg, cs, n) && cs[n] == p {
      f := n;
    } else {
      f := EligibleIsFirst(cfg, cs[..n], p);
      assert forall j | 0 <= j <= f :: cs[..n][j] == cs[j];
    }
  }

  /** The candidate is kept by the filter and, where capabilities count, can hold the shard. */
  predicate Used(cfg: Config, cs: seq<Peer>, probe: Probe, shardBytes: int, i: nat)
    requires i < |cs|
  {
    First(cfg, cs, i) && (cfg.requireCapabilities || cfg.peers == [] ==> CanHold(Sequential(probe, cs[i]), shardBytes))
  }

  /** Two used candidates are one machine under two ports. */
  predicate UsedTwice(cfg: Config, cs: seq<Peer>, probe: Probe, shardBytes: int) {
    exists i, j | 0 <= i < |cs| && 0 <= j < |cs| ::
      Used(cfg, cs, probe, shardBytes, i) && Used(cfg, cs, probe, shardBytes, j) && SamePlace(cfg, cs[i], cs[j])
  }

  lemma TwiceIsNotMachines(cfg: Config, es: seq<Peer>, p: Peer, q: Peer)
    requires p in es && q in es && p != q && p.tailIP == q.tailIP
    ensures !Machines(es)
  {
    var a :| 0 <= a < |es| && es[a] == p;
    var b :| 0 <= b < |es| && es[b] == q;
    assert es[Min(a, b)].tailIP == es[Max(a, b)].tailIP;
  }

  lemma SharedPlace(cfg: Config, cs: seq<Peer>, probe: Probe, shardBytes: int, p: Peer, q: Peer)
    requires p in Usable(cfg, cs, probe, shardBytes) && q in Usable(cfg, cs, probe, shardBytes)
    requires p.tailIP == q.tailIP && DomainOf(cfg, p) != DomainOf(cfg, q)
    ensures UsedTwice(cfg, cs, probe, shardBytes)
  {
    UsableExactly(cfg, cs, probe, shardBytes);
    var i := EligibleIsFirst(cfg, cs, p);
    var j := EligibleIsFirst(cfg, cs, q);
    hide Usable, Eligible, First, Passes, Port, CanHold;
    assert Used(cfg, cs, probe, shardBytes, i) && Used(cfg, cs, probe, shardBytes, j) && SamePlace(cfg, cs[i], cs[j]);
  }

  /** The peers chosen are pairwise different machines if and only if no two candidates that pass, that come first in
      their domains and that, where capabilities count, can hold the shard are one machine under two ports. */
  lemma MachinesDistinct(cfg: Config, cs: seq<Peer>, probe: Probe, shardBytes: int)
    ensures Machines(Usable(cfg, cs, probe, shardBytes)) <==> !UsedTwice(cfg, cs, probe, shardBytes)
  {
    UsableExactly(cfg, cs, probe, shardBytes);
    var es := Usable(cfg, cs, probe, shardBytes);
    hide Usable, Eligible, CanHold, Passes, Port;
    if UsedTwice(cfg, cs, probe, shardBytes) {
      var i, j :| 0 <= i < |cs| && 0 <= j < |cs|
                  && Used(cfg, cs, probe, shardBytes, i) && Used(cfg, cs, probe, shardBytes, j)
                     && SamePlace(cfg, cs[i], cs[j]);
      FirstIsEligible(cfg, cs, i);
      FirstIsEligible(cfg, cs, j);
      TwiceIsNotMachines(cfg, es, cs[i], cs[j]);
    }
    if !Machines(es) {
      var a, b :| 0 <= a < b < |es| && es[a].tailIP == es[b].tailIP;
      assert DomainOf(cfg, es[a]) != DomainOf(cfg, es[b]);
      SharedPlace(cfg, cs, probe, shardBytes, es[a], es[b]);
    }
  }

  /** With a minimum, or with discovered peers, no machine is used twice. */
  lemma MinimumMeansMachines(cfg: Config, cs: seq<Peer>, probe: Probe, shardBytes: int)
    requires !ByEndpoint(cfg)
    ensures Machines(Usable(cfg, cs, probe, shardBytes))
  {
    UsableExactly(cfg, cs, probe, shardBytes);
    var es := Usable(cfg, cs, probe, shardBytes);
    hide Usable, Eligible, CanHold, Passes, Port;
    forall i, j | 0 <= i < j < |es|
      ensures es[i].tailIP != es[j].tailIP
    {
      assert DomainOf(cfg, es[i]) != DomainOf(cfg, es[j]);
    }
  }

  /** A negative minimum and a single peer that is offline: nothing is too few, and the next step divides by zero. */
  lemma NegativeMinimum(cfg: Config, p: Peer, probe: Probe, count: nat, shardBytes: int)
    requires cfg.peers == [p] && !p.online && cfg.minPeers < 0
    ensures Usable(cfg, cfg.peers, probe, shardBytes) == [] && Enough(cfg, None, probe, count, shardBytes)
  {
    assert [p][..0] == [];
    assert Eligible(cfg, [p]) == [];
  }

  /** The smallest instance: two entries for one machine. */
  lemma OneMachineTwoEndpoints(cfg: Config, a: Peer, b: Peer)
    requires cfg.peers == [a, b] && Passes(cfg, a) && Passes(cfg, b) && a.tailIP == b.tailIP
    requires Port(a, cfg.listenPort, cfg.peerPorts) != Port(b, cfg.listenPort, cfg.peerPorts)
    ensures Eligible(cfg, cfg.peers) == if cfg.minPeers == 0 then [a, b] else [a]
  {
    assert [a, b][..1] == [a] && [a][..0] == [];
    assert First(cfg, [a], 0);
    assert Eligible(cfg, [a]) == Eligible(cfg, [a][..0]) + [a];
    assert First(cfg, [a, b], 1) <==> DomainOf(cfg, [a, b][0]) != DomainOf(cfg, b);
  }

  // ---------------------------------------------------------------- how many failures are survived

  /** Shards whose peer (by its index in the list) is among the lost ones. */
  function Lost(n: nat, e: nat, lost: set<nat>): nat
    requires e > 0
  {
    if n == 0 then 0 else Lost(n - 1, e, lost) + if (n - 1) % e in lost then 1 else 0
  }

  function Below(lost: set<nat>, r: nat): set<nat> {
    set j | j in lost && j < r
  }

  lemma NextQuotient(n: nat, e: nat)
    requires e > 0
    ensures n % e + 1 < e ==> (n + 1) / e == n / e && (n + 1) % e == n % e + 1
    ensures n % e + 1 == e ==> (n + 1) / e == n / e + 1 && (n + 1) % e == 0
  {
    var q, r := n / e, n % e;
    assert n == q * e + r;
    if r + 1 < e {
      QuotientUnique(n + 1, e, q, r + 1);
    } else {
      assert (q + 1) * e == q * e + e;
      QuotientUnique(n + 1, e, q + 1, 0);
    }
  }

  lemma QuotientUnique(n: nat, e: nat, q: nat, r: nat)
    requires e > 0 && n == q * e + r && r < e
    ensures n / e == q && n % e == r
  {
    var p := n / e;
    assert n == p * e + n % e;
    if p < q { Scaled(p + 1, q, e); }
    if q < p { Scaled(q + 1, p, e); }
  }

  lemma BelowNext(lost: set<nat>, r: nat)
    ensures |Below(lost, r + 1)| == |Below(lost, r)| + if r in lost then 1 else 0
  {
    assert Below(lost, r + 1) == if r in lost then Below(lost, r) + {r} else Below(lost, r);
  }

  /** What a set of lost peers takes in `q` whole rounds and a last one of `r` shards. */
  function Share(lost: set<nat>, q: nat, r: nat): nat {
    |lost| * q + |Below(lost, r)|
  }

  /** Each peer holds the floor of n/e shards, and the first n mod e of them one more. */
  lemma {:induction false} LostExactly(n: nat, e: nat, lost: set<nat>)
    requires e > 0 && forall j | j in lost :: j < e
    ensures Lost(n, e, lost) == Share(lost, n / e, n % e)
  {
    if n == 0 {
      QuotientUnique(0, e, 0, 0);
      assert Below(lost, 0) == {};
    } else {
      LostExactly(n - 1, e, lost);
      NextQuotient(n - 1, e);
      hide Below, Lost, Share;
      LostOne(n, e, lost);
      LostStep((n - 1) / e, (n - 1) % e, n / e, n % e, e, lost);
    }
  }

  lemma LostOne(n: nat, e: nat, lost: set<nat>)
    requires e > 0 && n > 0
    ensures Lost(n, e, lost) == Lost(n - 1, e, lost) + if (n - 1) % e in lost then 1 else 0
  {
  }

  lemma LostStep(q: nat, r: nat, q': nat, r': nat, e: nat, lost: set<nat>)
    requires r < e && forall j | j in lost :: j < e
    requires if r + 1 < e then q' == q && r' == r + 1 else q' == q + 1 && r' == 0
    ensures Share(lost, q', r') == Share(lost, q, r) + if r in lost then 1 else 0
  {
    BelowNext(lost, r);
    if r + 1 == e {
      assert Below(lost, e) == lost && Below(lost, 0) == {};
      assert |lost| * (q + 1) == |lost| * q + |lost|;
    }
  }

  /** The most shards any `f` of `e` peers can hold together. */
  function WorstLoss(n: nat, e: nat, f: nat): nat
    requires e > 0
  {
    f * (n / e) + Min(f, n % e)
  }

  function FirstPeers(f: nat): (ps: set<nat>)
    ensures |ps| == f && forall j: nat :: j in ps <==> j < f
  {
    if f == 0 then {} else FirstPeers(f - 1) + {f - 1}
  }

  lemma LossBound(n: nat, e: nat, lost: set<nat>)
    requires e > 0 && forall j | j in lost :: j < e
    ensures Lost(n, e, lost) <= WorstLoss(n, e, |lost|)
  {
    LostExactly(n, e, lost);
    SubsetSize(Below(lost, n % e), lost);
    SubsetSize(Below(lost, n % e), FirstPeers(n % e));
  }

  lemma LossReached(n: nat, e: nat, f: nat)
    requires e > 0 && f <= e
    ensures Lost(n, e, FirstPeers(f)) == WorstLoss(n, e, f)
  {
    LostExactly(n, e, FirstPeers(f));
    assert Below(FirstPeers(f), n % e) == FirstPeers(Min(f, n % e));
  }

  predicate LosesPeers(lost: set<nat>, e: nat, f: nat) {
    |lost| == f && forall j | j in lost :: j < e
  }

  /** Of `k` data and `m` parity shards at least `k` remain. */
  predicate Tolerates(k: nat, m: nat, e: nat, lost: set<nat>)
    requires e > 0
  {
    k + m - Lost(k + m, e, lost) >= k
  }

  /** The exact condition for surviving the loss of any `f` of `e` peers. */
  lemma SurvivesExactly(k: nat, m: nat, e: nat, f: nat)
    requires e > 0 && f <= e
    ensures (forall lost: set<nat> | LosesPeers(lost, e, f) :: Tolerates(k, m, e, lost))
            <==> WorstLoss(k + m, e, f) <= m
  {
    if WorstLoss(k + m, e, f) <= m {
      forall lost: set<nat> | LosesPeers(lost, e, f) ensures Tolerates(k, m, e, lost) {
        LossBound(k + m, e, lost);
      }
    } else {
      LossReached(k + m, e, f);
      assert LosesPeers(FirstPeers(f), e, f) && !Tolerates(k, m, e, FirstPeers(f));
    }
  }

  /** With at least as many peers as shards, any `m` of them may fail. */
  lemma EnoughPeers(k: nat, m: nat, e: nat)
    requires k > 0 && e >= k + m
    ensures WorstLoss(k + m, e, m) <= m
  {
    if e == k + m { QuotientUnique(k + m, e, 1, 0); } else { QuotientUnique(k + m, e, 0, k + m); }
  }

  /** The ceiling bound: losing any `f` peers loses at most `f` times the ceiling of n/e. */
  lemma CeilingBound(n: nat, e: nat, f: nat)
    requires e > 0
    ensures WorstLoss(n, e, f) <= f * CeilDiv(n, e)
  {
    assert n == (n / e) * e + n % e;
    if n % e == 0 {
      assert Min(f, 0) == 0;
      if n > 0 { assert (n / e - 1) * e == (n / e) * e - e; }
      CeilUnique(n, e, n / e);
    } else {
      assert (n / e + 1) * e == (n / e) * e + e;
      CeilUnique(n, e, n / e + 1);
      assert f * (n / e + 1) == f * (n / e) + f;
    }
  }

  /** The shards still there, as flags by shard index. */
  function Remaining(n: nat, e: nat, lost: set<nat>): seq<bool>
    requires e > 0
  {
    seq(n, i requires 0 <= i => i % e !in lost)
  }

  lemma {:induction false} CountAppend(a: seq<bool>, b: bool)
    ensures CountTrue(a + [b]) == CountTrue(a) + if b then 1 else 0
  {
    if a == [] {
      assert a + [b] == [b] && CountTrue([b][1..]) == 0;
    } else {
      assert (a + [b])[1..] == a[1..] + [b];
      CountAppend(a[1..], b);
    }
  }

  lemma {:induction false} RemainingCount(n: nat, e: nat, lost: set<nat>)
    requires e > 0
    ensures CountTrue(Remaining(n, e, lost)) == n - Lost(n, e, lost)
  {
    if n > 0 {
      RemainingCount(n - 1, e, lost);
      assert Remaining(n, e, lost) == Remaining(n - 1, e, lost) + [(n - 1) % e !in lost];
      CountAppend(Remaining(n - 1, e, lost), (n - 1) % e !in lost);
    }
  }
}
