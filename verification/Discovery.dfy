/** internal/peer/discovery: probing every peer at once, eight at a time. The goroutines of `Inspect` are a
    state machine; every schedule is covered. */
module Discovery {
  import opened Prelude

  datatype Peer = Peer(hostName: string, tailIP: string, online: bool)

  datatype Info = Info(storage: bool, usedBytes: int, quotaBytes: int, maxShardBytes: int)

  datatype Status = Status(peer: Peer, info: Option<Info>, ready: bool, reason: string)

  function Port(p: Peer, defaultPort: string, ports: map<string, string>): string {
    if p.hostName in ports && ports[p.hostName] != "" then ports[p.hostName]
    else if defaultPort == "" then "8080"
    else defaultPort
  }

  const LIMIT := 8

  type Probe = Peer -> Result<Info, string>

  predicate Full(i: Info) {
    i.quotaBytes > 0 && i.usedBytes >= i.quotaBytes
  }

  function Offline(p: Peer): Status {
    Status(p, None, false, "VPN offline")
  }

  /** What a goroutine writes once its probe has answered. */
  function Probed(p: Peer, r: Result<Info, string>): Status {
    match r
    case Err(e) => Status(p, None, false, e)
    case Ok(info) =>
      if !info.storage then Status(p, Some(info), false, "client only")
      else if Full(info) then Status(p, Some(info), false, "storage full")
      else Status(p, Some(info), true, "ready")
  }

  /** The status a one-at-a-time pass would compute. */
  function Sequential(probe: Probe, p: Peer): Status {
    if p.online then Probed(p, probe(p)) else Offline(p)
  }

  /** `Inspect` with nothing cancelled, as a function of the probes. */
  function Inspect(probe: Probe, peers: seq<Peer>): seq<Status> {
    seq(|peers|, i requires 0 <= i < |peers| => Sequential(probe, peers[i]))
  }

  // ---------------------------------------------------------------- the goroutines

  /** Where a goroutine stands; from `Probing` to `Releasing` it holds a slot of the channel. */
  datatype Pc = Started | Waiting | Probing | Releasing | Finished {
    predicate HoldsSlot() { Probing? || Releasing? }
    function Rank(): nat {
      match this case Started => 4 case Waiting => 3 case Probing => 2 case Releasing => 1 case Finished => 0
    }
  }

  datatype State = State(pcs: seq<Pc>, statuses: seq<Status>, slots: int, cancelled: bool)

  /** A step of goroutine `index`, or a cancellation; `giveUp` is the choice of a select with both cases ready. */
  datatype Move = Step(index: nat, giveUp: bool) | Cancel

  function Initial(peers: seq<Peer>): State {
    State(seq(|peers|, _ => Started), seq(|peers|, i requires 0 <= i < |peers| => Status(peers[i], None, false, "")), 0,
          false)
  }

  predicate Enabled(s: State, i: nat) {
    && i < |s.pcs| && !s.pcs[i].Finished?
    && (s.pcs[i].Waiting? ==> s.slots < LIMIT || s.cancelled)
  }

  function Next(probe: Probe, peers: seq<Peer>, s: State, m: Move): State
    requires |s.pcs| == |s.statuses| == |peers|
  {
    if m.Cancel? then s.(cancelled := true)
    else if !Enabled(s, m.index) then s
    else
      var i, p := m.index, peers[m.index];
      match s.pcs[i]
      case Started => s.(pcs := s.pcs[i := if p.online then Waiting else Finished],
                         statuses := s.statuses[i := Offline(p)])
      case Waiting =>
        if s.cancelled && (m.giveUp || s.slots >= LIMIT)
        then s.(pcs := s.pcs[i := Finished], statuses := s.statuses[i := s.statuses[i].(reason := "context canceled")])
        else s.(pcs := s.pcs[i := Probing], slots := s.slots + 1)
      case Probing => s.(pcs := s.pcs[i := Releasing], statuses := s.statuses[i := Probed(p, probe(p))])
      case Releasing => s.(pcs := s.pcs[i := Finished], slots := s.slots - 1)
      case Finished => s
  }

  function Run(probe: Probe, peers: seq<Peer>, s: State, moves: seq<Move>): (end: State)
    requires |s.pcs| == |s.statuses| == |peers|
    ensures |end.pcs| == |end.statuses| == |peers|
    decreases |moves|
  {
    if moves == [] then s else Run(probe, peers, Next(probe, peers, s, moves[0]), moves[1..])
  }

  function Holders(pcs: seq<Pc>): nat {
    if pcs == [] then 0 else (if pcs[0].HoldsSlot() then 1 else 0) + Holders(pcs[1..])
  }

  function Work(pcs: seq<Pc>): nat {
    if pcs == [] then 0 else pcs[0].Rank() + Work(pcs[1..])
  }

  lemma {:induction false} Replace(pcs: seq<Pc>, i: nat, pc: Pc)
    requires i < |pcs|
    ensures Holders(pcs[i := pc]) == Holders(pcs) - (if pcs[i].HoldsSlot() then 1 else 0)
            + (if pc.HoldsSlot() then 1 else 0)
    ensures Work(pcs[i := pc]) == Work(pcs) - pcs[i].Rank() + pc.Rank()
  {
    if i > 0 {
      assert pcs[i := pc][1..] == pcs[1..][i - 1 := pc];
      Replace(pcs[1..], i - 1, pc);
    } else {
      assert pcs[0 := pc][1..] == pcs[1..];
    }
  }

  predicate AllFinished(s: State) {
    forall i | 0 <= i < |s.pcs| :: s.pcs[i].Finished?
  }

  /** What goroutine `i` has written so far. */
  predicate WrittenSoFar(probe: Probe, p: Peer, pc: Pc, status: Status, cancelled: bool) {
    && (pc.Waiting? || pc.Probing? ==> p.online && status == Offline(p))
    && (pc.Releasing? ==> p.online && status == Sequential(probe, p))
    && (pc.Finished? ==> status == Sequential(probe, p)
                         || (cancelled && p.online && status == Offline(p).(reason := "context canceled")))
  }

  ghost predicate Invariant(probe: Probe, peers: seq<Peer>, s: State) {
    && |s.pcs| == |s.statuses| == |peers|
    && s.slots == Holders(s.pcs) && s.slots <= LIMIT
    && forall i | 0 <= i < |peers| :: WrittenSoFar(probe, peers[i], s.pcs[i], s.statuses[i], s.cancelled)
  }

  lemma {:induction false} AllStarted(n: nat)
    ensures Holders(seq(n, _ => Started)) == 0 && Work(seq(n, _ => Started)) == 4 * n
  {
    var pcs := seq(n, _ => Started);
    if n > 0 {
      assert pcs[1..] == seq(n - 1, _ => Started);
      AllStarted(n - 1);
    }
  }

  /** One move keeps the invariant, and an enabled one leaves less work. */
  lemma MoveKeepsInvariant(probe: Probe, peers: seq<Peer>, s: State, m: Move)
    requires Invariant(probe, peers, s)
    ensures Invariant(probe, peers, Next(probe, peers, s, m))
    ensures m.Step? && Enabled(s, m.index) ==> Work(Next(probe, peers, s, m).pcs) < Work(s.pcs)
    ensures !(m.Step? && Enabled(s, m.index)) ==> Next(probe, peers, s, m).pcs == s.pcs
  {
    if m.Step? && Enabled(s, m.index) {
      var next := Next(probe, peers, s, m);
      assert next.pcs == s.pcs[m.index := next.pcs[m.index]];
      Replace(s.pcs, m.index, next.pcs[m.index]);
    }
  }

  lemma {:induction false} RunKeepsInvariant(probe: Probe, peers: seq<Peer>, s: State, moves: seq<Move>)
    requires Invariant(probe, peers, s)
    ensures Invariant(probe, peers, Run(probe, peers, s, moves))
    ensures !s.cancelled && Cancel !in moves ==> !Run(probe, peers, s, moves).cancelled
    decreases |moves|
  {
    if moves != [] {
      MoveKeepsInvariant(probe, peers, s, moves[0]);
      RunKeepsInvariant(probe, peers, Next(probe, peers, s, moves[0]), moves[1..]);
    }
  }

  /** In every interleaving at most eight probes run at once, and the channel holds one token for each goroutine
      between acquire and release; when all have finished it is empty, and without a cancellation the statuses are, in
      input order, those of a sequential pass. */
  lemma InspectIsSequential(probe: Probe, peers: seq<Peer>, moves: seq<Move>)
    ensures var end := Run(probe, peers, Initial(peers), moves);
            && Holders(end.pcs) == end.slots <= 8
            && (AllFinished(end) ==> end.slots == 0)
            && (AllFinished(end) && Cancel !in moves ==> end.statuses == Inspect(probe, peers))
  {
    AllStarted(|peers|);
    RunKeepsInvariant(probe, peers, Initial(peers), moves);
    var end := Run(probe, peers, Initial(peers), moves);
    if AllFinished(end) { NoneHolding(end.pcs); }
  }

  lemma {:induction false} NoneHolding(pcs: seq<Pc>)
    requires forall i | 0 <= i < |pcs| :: !pcs[i].HoldsSlot()
    ensures Holders(pcs) == 0
  {
    if pcs != [] {
      assert !pcs[0].HoldsSlot();
      NoneHolding(pcs[1..]);
    }
  }

  lemma {:induction false} SomeHolder(pcs: seq<Pc>) returns (i: nat)
    requires Holders(pcs) > 0
    ensures i < |pcs| && pcs[i].HoldsSlot()
  {
    if pcs[0].HoldsSlot() {
      i := 0;
    } else {
      i := SomeHolder(pcs[1..]);
      i := i + 1;
    }
  }

  /** `Inspect` never hangs: until all have finished some goroutine can move, after a cancellation each of them, and
      each such move is one of at most four per peer. */
  lemma InspectNeverHangs(probe: Probe, peers: seq<Peer>, moves: seq<Move>)
    ensures var end := Run(probe, peers, Initial(peers), moves);
            && (AllFinished(end) || exists i: nat :: Enabled(end, i))
            && (end.cancelled ==> forall i: nat | i < |end.pcs| && !end.pcs[i].Finished? :: Enabled(end, i))
            && Work(end.pcs) <= 4 * |peers|
  {
    AllStarted(|peers|);
    RunKeepsInvariant(probe, peers, Initial(peers), moves);
    WorkShrinks(probe, peers, Initial(peers), moves);
    var end := Run(probe, peers, Initial(peers), moves);
    if !AllFinished(end) {
      var i: nat :| i < |end.pcs| && !end.pcs[i].Finished?;
      if end.slots > 0 {
        i := SomeHolder(end.pcs);
      }
      assert Enabled(end, i);
    }
  }

  lemma {:induction false} WorkShrinks(probe: Probe, peers: seq<Peer>, s: State, moves: seq<Move>)
    requires Invariant(probe, peers, s)
    ensures Work(Run(probe, peers, s, moves).pcs) <= Work(s.pcs)
    decreases |moves|
  {
    if moves != [] {
      MoveKeepsInvariant(probe, peers, s, moves[0]);
      WorkShrinks(probe, peers, Next(probe, peers, s, moves[0]), moves[1..]);
    }
  }

  /** Ready means exactly: online, answering, contributing storage, and not full. */
  lemma ReadyExactly(probe: Probe, p: Peer)
    ensures Sequential(probe, p).ready <==>
            p.online && probe(p).Ok? && probe(p).value.storage
            && (probe(p).value.quotaBytes > 0 ==> probe(p).value.usedBytes < probe(p).value.quotaBytes)
  {
  }
}
