/**
 LAN adoption over whole runs (crates/engine/src/beacon.rs): exactly how long a trial, a route and a cooldown
 last, and which addresses a run can route.
 */
module BeaconRuns {
  import opened Prelude
  import opened Beacon

  // ---- How long a state lasts ----

  /** Just before event `i`, the peer is in this state. */
  predicate Has(l: Lan, es: seq<Event>, i: nat, pk: PubKey, s: LanState) {
    i <= |es| && Get(After(l, es[..i]).states, pk) == Some(s)
  }

  /** Event `k` is no select, or one that finds the peer in the mesh with a live candidate. */
  predicate Met(l: Lan, es: seq<Event>, k: nat, pk: PubKey) {
    k < |es| && (es[k].Select? ==> pk in es[k].reachable && HasLive(After(l, es[..k]), pk, es[k].now))
  }

  lemma HasNext(l: Lan, es: seq<Event>, k: nat, pk: PubKey)
    requires k < |es|
    ensures After(l, es[..k + 1]) == Do(After(l, es[..k]), es[k])
    ensures !es[k].Select? ==> Do(After(l, es[..k]), es[k]).states == After(l, es[..k]).states
    ensures es[k].Select? && Met(l, es, k, pk) ==>
      Get(Do(After(l, es[..k]), es[k]).states, pk) == TurnOf(After(l, es[..k]), pk, es[k].reachable[pk], es[k].now).next
    ensures !Met(l, es, k, pk) ==> pk !in Do(After(l, es[..k]), es[k]).states
  {
    assert es[..k + 1] == es[..k] + [es[k]];
    AfterOn(l, es[..k], es[k]);
  }

  /** What holds at first and passes each event exactly if `kept`, holds throughout exactly if all are. */
  lemma Throughout(holds: nat -> bool, kept: nat -> bool, n: nat)
    requires holds(0)
    requires forall k: nat :: k < n && holds(k) ==> (holds(k + 1) <==> kept(k))
    ensures (forall i: nat :: i <= n ==> holds(i)) <==> (forall k: nat :: k < n ==> kept(k))
  {
    if forall i: nat :: i <= n ==> holds(i) {
      forall k: nat | k < n ensures kept(k) {
        assert holds(k) && holds(k + 1);
      }
    }
    if forall k: nat :: k < n ==> kept(k) {
      for i := 0 to n
        invariant forall j: nat :: j <= i ==> holds(j)
      {
        assert kept(i);
      }
    }
  }

  predicate Cooling(l: Lan, es: seq<Event>, k: nat, pk: PubKey, until: Time) {
    Met(l, es, k, pk) && (es[k].Select? ==> es[k].now < until)
  }

  lemma CoolingNext(l: Lan, es: seq<Event>, k: nat, pk: PubKey, addr: Addr, until: Time)
    requires k < |es| && Has(l, es, k, pk, Failed(addr, until))
    ensures Has(l, es, k + 1, pk, Failed(addr, until)) <==> Cooling(l, es, k, pk, until)
  {
    HasNext(l, es, k, pk);
    if es[k].Select? {
      CooldownKeptExactly(After(l, es[..k]), es[k].now, es[k].reachable, pk, addr, until);
    }
  }

  /** A cooldown is kept through a run exactly while every select meets the peer and comes before its end. */
  lemma CooldownLastsExactly(l: Lan, es: seq<Event>, pk: PubKey, addr: Addr, until: Time)
    requires Get(l.states, pk) == Some(Failed(addr, until))
    ensures (forall i: nat :: i <= |es| ==> Has(l, es, i, pk, Failed(addr, until))) <==>
            (forall k: nat :: k < |es| ==> Cooling(l, es, k, pk, until))
  {
    var holds := (i: nat) => Has(l, es, i, pk, Failed(addr, until));
    var kept := (k: nat) => Cooling(l, es, k, pk, until);
    forall k: nat | k < |es| && holds(k) ensures holds(k + 1) <==> kept(k) {
      CoolingNext(l, es, k, pk, addr, until);
    }
    assert es[..0] == [];
    Throughout(holds, kept, |es|);
    assert forall i: nat :: holds(i) <==> Has(l, es, i, pk, Failed(addr, until));
    assert forall k: nat :: kept(k) <==> Cooling(l, es, k, pk, until);
  }

  /** When the peer was last seen healthy by a select, having been so at `from`. */
  function LastOk(es: seq<Event>, pk: PubKey, from: Time): Time {
    if |es| == 0 then from
    else
      var last := es[|es| - 1];
      if last.Select? && pk in last.reachable && last.reachable[pk] then last.now
      else LastOk(es[..|es| - 1], pk, from)
  }

  predicate ActiveAt(l: Lan, es: seq<Event>, i: nat, pk: PubKey, addr: Addr, from: Time) {
    i <= |es| && Has(l, es, i, pk, Active(addr, LastOk(es[..i], pk, from)))
  }

  predicate Sustained(l: Lan, es: seq<Event>, k: nat, pk: PubKey, from: Time) {
    && Met(l, es, k, pk)
    && (es[k].Select? ==> es[k].reachable[pk] || Since(es[k].now, LastOk(es[..k], pk, from)) < STALE_GRACE)
  }

  lemma ActiveNext(l: Lan, es: seq<Event>, k: nat, pk: PubKey, addr: Addr, from: Time)
    requires k < |es| && ActiveAt(l, es, k, pk, addr, from)
    ensures ActiveAt(l, es, k + 1, pk, addr, from) <==> Sustained(l, es, k, pk, from)
  {
    HasNext(l, es, k, pk);
    assert es[..k + 1][..k] == es[..k];
  }

  /** An adopted route lasts through a run exactly while every select meets the peer and finds it healthy, or
      healthy less than sixty seconds ago. */
  lemma RouteLastsExactly(l: Lan, es: seq<Event>, pk: PubKey, addr: Addr, from: Time)
    requires Get(l.states, pk) == Some(Active(addr, from))
    ensures (forall i: nat :: i <= |es| ==> ActiveAt(l, es, i, pk, addr, from)) <==>
            (forall k: nat :: k < |es| ==> Sustained(l, es, k, pk, from))
  {
    var holds := (i: nat) => ActiveAt(l, es, i, pk, addr, from);
    var kept := (k: nat) => Sustained(l, es, k, pk, from);
    forall k: nat | k < |es| && holds(k) ensures holds(k + 1) <==> kept(k) {
      ActiveNext(l, es, k, pk, addr, from);
    }
    assert es[..0] == [];
    Throughout(holds, kept, |es|);
    assert forall i: nat :: holds(i) <==> ActiveAt(l, es, i, pk, addr, from);
    assert forall k: nat :: kept(k) <==> Sustained(l, es, k, pk, from);
  }

  /** Any select of a run routes the peer where it is Active, and does exactly if it sustains the route. */
  lemma RoutedExactly(l: Lan, es: seq<Event>, k: nat, pk: PubKey, addr: Addr, from: Time)
    requires k < |es| && es[k].Select? && ActiveAt(l, es, k, pk, addr, from)
    ensures Get(Routes(After(l, es[..k]), es[k].now, es[k].reachable), pk) ==
      if Sustained(l, es, k, pk, from) then Some(addr) else None
  {
    ActiveKeptExactly(After(l, es[..k]), es[k].now, es[k].reachable, pk, addr, LastOk(es[..k], pk, from));
  }

  predicate Undecided(l: Lan, es: seq<Event>, k: nat, pk: PubKey, since: Time) {
    && Met(l, es, k, pk)
    && (es[k].Select? ==>
          var waited := Since(es[k].now, since);
          waited < SETTLE || (!es[k].reachable[pk] && waited < VERIFY_GRACE))
  }

  lemma TrialNext(l: Lan, es: seq<Event>, k: nat, pk: PubKey, addr: Addr, since: Time)
    requires k < |es| && Has(l, es, k, pk, Trying(addr, since))
    ensures Has(l, es, k + 1, pk, Trying(addr, since)) <==> Undecided(l, es, k, pk, since)
  {
    HasNext(l, es, k, pk);
  }

  /** A trial goes on through a run exactly while every select meets the peer and comes before it has settled,
      or finds it unhealthy within the grace. */
  lemma TrialLastsExactly(l: Lan, es: seq<Event>, pk: PubKey, addr: Addr, since: Time)
    requires Get(l.states, pk) == Some(Trying(addr, since))
    ensures (forall i: nat :: i <= |es| ==> Has(l, es, i, pk, Trying(addr, since))) <==>
            (forall k: nat :: k < |es| ==> Undecided(l, es, k, pk, since))
  {
    var holds := (i: nat) => Has(l, es, i, pk, Trying(addr, since));
    var kept := (k: nat) => Undecided(l, es, k, pk, since);
    forall k: nat | k < |es| && holds(k) ensures holds(k + 1) <==> kept(k) {
      TrialNext(l, es, k, pk, addr, since);
    }
    assert es[..0] == [];
    Throughout(holds, kept, |es|);
    assert forall i: nat :: holds(i) <==> Has(l, es, i, pk, Trying(addr, since));
    assert forall k: nat :: kept(k) <==> Undecided(l, es, k, pk, since);
  }

  /** The select of a run that decides a trial adopts the route exactly if it has settled and the peer is healthy, and
      reverts it for thirty seconds exactly if the grace is over and it is not. */
  lemma TrialVerdict(l: Lan, es: seq<Event>, k: nat, pk: PubKey, addr: Addr, since: Time)
    requires k < |es| && es[k].Select? && Met(l, es, k, pk) && Has(l, es, k, pk, Trying(addr, since))
    ensures
      var now, ok := es[k].now, es[k].reachable[pk];
      && (Has(l, es, k + 1, pk, Active(addr, now)) <==> Since(now, since) >= SETTLE && ok)
      && (Has(l, es, k + 1, pk, Failed(addr, now + RETRY_COOLDOWN)) <==> Since(now, since) >= VERIFY_GRACE && !ok)
  {
    HasNext(l, es, k, pk);
    TrialExactly(After(l, es[..k]), es[k].now, es[k].reachable, pk, addr, since);
  }

  // ---- A lapsed peer starts over ----

  /** The clock does not run backwards, and has reached no more than `now`. */
  predicate Monotone(es: seq<Event>, now: Time) {
    |es| == 0 || (es[|es| - 1].now <= now && Monotone(es[..|es| - 1], es[|es| - 1].now))
  }

  /** Along a run an ack is never newer than its sender's candidate. */
  lemma {:induction false} AckIsNeverNewer(es: seq<Event>, now: Time, pk: PubKey)
    requires Monotone(es, now) && pk in After(INIT, es).acks
    ensures pk in After(INIT, es).candidates
    ensures After(INIT, es).acks[pk].at <= After(INIT, es).candidates[pk].seen <= now
  {
    var n := |es| - 1;
    var l, e := After(INIT, es[..n]), es[n];
    if pk in l.acks {
      AckIsNeverNewer(es[..n], e.now, pk);
    }
  }

  /** So a peer whose candidate lapsed has no fresh ack left: its next route needs a new probe answered. */
  lemma {:induction false} LapsedHasNoFreshAck(es: seq<Event>, now: Time, pk: PubKey)
    requires Monotone(es, now) && !HasLive(After(INIT, es), pk, now)
    ensures FreshAck(After(INIT, es), pk, now).None?
  {
    if pk in After(INIT, es).acks {
      AckIsNeverNewer(es, now, pk);
    }
  }

  // ---- Runs of one peer ----

  datatype Peer = Peer(
    cand: Option<Candidate>, member: bool, ack: Option<Ack>, pending: Option<Probe>, backoff: Option<Time>,
    state: Option<LanState>)

  function One<V>(pk: PubKey, v: Option<V>): map<PubKey, V> {
    if v.Some? then map[pk := v.value] else map[]
  }

  /** The state in which only this peer is known. */
  function Solo(pk: PubKey, p: Peer): Lan {
    Lan(One(pk, p.cand), if p.member then {pk} else {}, One(pk, p.ack), One(pk, p.pending), One(pk, p.backoff),
      One(pk, p.state))
  }

  function KeptCand(c: Option<Candidate>, now: Time): Option<Candidate> {
    if c.Some? && Live(c.value, now) then c else None
  }

  function Kept(a: Option<Ack>, now: Time): Option<Ack> {
    if a.Some? && Since(now, a.value.at) < PROBE_ACK_TTL then a else None
  }

  function KeptProbe(p: Option<Probe>, now: Time): Option<Probe> {
    if p.Some? && Since(now, p.value.sent) < CAND_TTL then p else None
  }

  function SoloTurn(p: Peer, ok: bool, now: Time): Turn {
    if KeptCand(p.cand, now).Some? then Advance(p.state, p.cand.value, Kept(p.ack, now), p.backoff, ok, now)
    else Turn(None, p.backoff, None)
  }

  /** A select that finds the peer in the mesh. */
  function Round(p: Peer, ok: bool, now: Time): Peer {
    var t := SoloTurn(p, ok, now);
    Peer(KeptCand(p.cand, now), true, Kept(p.ack, now), KeptProbe(p.pending, now), t.backoff, t.next)
  }

  lemma SoloCand(pk: PubKey, p: Peer, ok: bool, now: Time)
    ensures Swept(Solo(pk, p), now, map[pk := ok]).candidates == One(pk, KeptCand(p.cand, now))
  {
    var m := One(pk, p.cand);
    assert m - (set k | k in m && !Live(m[k], now)) == One(pk, KeptCand(p.cand, now));
  }

  lemma SoloAck(pk: PubKey, p: Peer, ok: bool, now: Time)
    ensures Swept(Solo(pk, p), now, map[pk := ok]).acks == One(pk, Kept(p.ack, now))
  {
    var m := One(pk, p.ack);
    assert m - (set k | k in m && Since(now, m[k].at) >= PROBE_ACK_TTL) == One(pk, Kept(p.ack, now));
  }

  lemma SoloPending(pk: PubKey, p: Peer, ok: bool, now: Time)
    ensures Swept(Solo(pk, p), now, map[pk := ok]).pending == One(pk, KeptProbe(p.pending, now))
  {
    var m, r := One(pk, p.pending), map[pk := ok];
    assert m - (set k | k in m && (k !in r || Since(now, m[k].sent) >= CAND_TTL)) == One(pk, KeptProbe(p.pending, now));
  }

  lemma SoloTurns(pk: PubKey, p: Peer, ok: bool, now: Time)
    ensures Turns(Solo(pk, p), now, map[pk := ok]) == map[pk := SoloTurn(p, ok, now)]
  {
    assert FreshAck(Solo(pk, p), pk, now) == Kept(p.ack, now);
    assert Get(One(pk, p.state), pk) == p.state && Get(One(pk, p.backoff), pk) == p.backoff;
    assert TurnOf(Solo(pk, p), pk, ok, now) == SoloTurn(p, ok, now);
  }

  lemma OneTurn(pk: PubKey, t: Turn)
    ensures Nexts(map[pk := t]) == One(pk, t.next) && Backoffs(map[pk := t]) == One(pk, t.backoff)
  {
  }

  lemma SoloRoutes(pk: PubKey, p: Peer, ok: bool, now: Time)
    ensures Get(Routes(Solo(pk, p), now, map[pk := ok]), pk) ==
      var s := Round(p, ok, now).state;
      if Routed(s) then Some(s.value.addr) else None
  {
    SoloTurns(pk, p, ok, now);
  }

  lemma SoloRound(pk: PubKey, p: Peer, ok: bool, now: Time)
    ensures Selected(Solo(pk, p), now, map[pk := ok]) == Solo(pk, Round(p, ok, now))
  {
    SoloTurns(pk, p, ok, now);
    OneTurn(pk, SoloTurn(p, ok, now));
    SoloCand(pk, p, ok, now);
    SoloAck(pk, p, ok, now);
    SoloPending(pk, p, ok, now);
    assert (map[pk := ok]).Keys == {pk};
  }

  lemma SoloProbes(pk: PubKey, p: Peer, ok: bool, now: Time)
    ensures Get(Probes(Solo(pk, p), now, map[pk := ok]), pk) == SoloTurn(p, ok, now).probe
  {
    SoloTurns(pk, p, ok, now);
  }

  /** What can happen to the one peer. */
  datatype Move =
    | Selects(ok: bool, at: Time)
    | Hears(addr: Addr, body: Body, at: Time)
    | Sends(addr: Addr, nonce: Nonce, at: Time)

  function EventOf(pk: PubKey, m: Move): Event {
    match m
    case Selects(ok, at) => Select(at, map[pk := ok])
    case Hears(addr, body, at) => Received(pk, addr, body, at)
    case Sends(addr, nonce, at) => ProbeSent(pk, addr, nonce, at)
  }

  predicate Answers(p: Peer, body: Body, now: Time) {
    && body.AckBody? && body.genuine && p.pending.Some? && p.pending.value.nonce == body.nonce
    && Since(now, p.pending.value.sent) < PROBE_ACK_TTL
  }

  function Moved(p: Peer, m: Move): Peer {
    match m
    case Selects(ok, at) => Round(p, ok, at)
    case Hears(addr, body, at) =>
      if !p.member then p
      else p.(cand := Some(Candidate(addr, at)), ack := if Answers(p, body, at) then Some(Ack(addr, at)) else p.ack)
    case Sends(addr, nonce, at) => p.(pending := Some(Probe(nonce, addr, at)))
  }

  const UNKNOWN := Peer(None, false, None, None, None, None)

  function PeerAfter(ms: seq<Move>): Peer {
    if |ms| == 0 then UNKNOWN else Moved(PeerAfter(ms[..|ms| - 1]), ms[|ms| - 1])
  }

  function Events(pk: PubKey, ms: seq<Move>): seq<Event> {
    seq(|ms|, i requires 0 <= i < |ms| => EventOf(pk, ms[i]))
  }

  predicate InOrder(ms: seq<Move>, now: Time) {
    |ms| == 0 || (ms[|ms| - 1].at <= now && InOrder(ms[..|ms| - 1], ms[|ms| - 1].at))
  }

  lemma SoloMoved(pk: PubKey, p: Peer, m: Move)
    ensures Do(Solo(pk, p), EventOf(pk, m)) == Solo(pk, Moved(p, m))
  {
    match m
    case Selects(ok, at) => SoloRound(pk, p, ok, at);
    case Hears(addr, body, at) =>
      if p.member {
        assert AcceptsAck(Solo(pk, p), EventOf(pk, m)) <==> Answers(p, body, at);
        assert One(pk, p.cand)[pk := Candidate(addr, at)] == One(pk, Some(Candidate(addr, at)));
        assert One(pk, p.ack)[pk := Ack(addr, at)] == One(pk, Some(Ack(addr, at)));
      }
    case Sends(addr, nonce, at) =>
      assert One(pk, p.pending)[pk := Probe(nonce, addr, at)] == One(pk, Some(Probe(nonce, addr, at)));
  }

  /** Following the one peer is following the whole state. */
  lemma {:induction false} SoloRun(pk: PubKey, ms: seq<Move>, now: Time)
    requires InOrder(ms, now)
    ensures After(INIT, Events(pk, ms)) == Solo(pk, PeerAfter(ms)) && Monotone(Events(pk, ms), now)
  {
    if |ms| > 0 {
      var n := |ms| - 1;
      SoloRun(pk, ms[..n], ms[n].at);
      assert Events(pk, ms)[..n] == Events(pk, ms[..n]);
      SoloMoved(pk, PeerAfter(ms[..n]), ms[n]);
    } else {
      assert INIT == Solo(pk, UNKNOWN);
    }
  }

  lemma EventsPrefix(pk: PubKey, ms: seq<Move>, n: nat)
    requires n <= |ms|
    ensures Events(pk, ms)[..n] == Events(pk, ms[..n])
  {
  }

  /** Event `j` is a select that asks for a probe of the peer at this address. */
  predicate AsksAt(es: seq<Event>, j: nat, pk: PubKey, addr: Addr) {
    && j < |es| && es[j].Select?
    && Get(Probes(After(INIT, es[..j]), es[j].now, es[j].reachable), pk) == Some(addr)
  }

  /** Some select of the run, before event `i`, asked for a probe of the peer there. */
  ghost predicate AskedBefore(es: seq<Event>, i: nat, pk: PubKey, addr: Addr) {
    exists j: nat :: j < i && AsksAt(es, j, pk, addr)
  }

  lemma AskedLater(es: seq<Event>, n: nat, i: nat, pk: PubKey, addr: Addr)
    requires n <= |es| && AskedBefore(es[..n], i, pk, addr)
    ensures AskedBefore(es, i, pk, addr)
  {
    var j: nat :| j < i && AsksAt(es[..n], j, pk, addr);
    assert es[..n][..j] == es[..j];
    assert AsksAt(es, j, pk, addr);
  }

  /** Every probe the run sends is one an earlier select asked for. */
  ghost predicate Requested(es: seq<Event>) {
    forall i :: 0 <= i < |es| && es[i].ProbeSent? ==> AskedBefore(es, i, es[i].pk, es[i].addr)
  }

  /** The addresses the selects so far asked to probe. */
  function Asked(ms: seq<Move>): set<Addr> {
    if |ms| == 0 then {} else Asked(ms[..|ms| - 1]) + AskedBy(PeerAfter(ms[..|ms| - 1]), ms[|ms| - 1])
  }

  function AskedBy(p: Peer, m: Move): set<Addr> {
    if m.Selects? && SoloTurn(p, m.ok, m.at).probe.Some? then {SoloTurn(p, m.ok, m.at).probe.value} else {}
  }

  predicate SendsAsked(ms: seq<Move>) {
    |ms| == 0 || (SendsAsked(ms[..|ms| - 1]) && (ms[|ms| - 1].Sends? ==> ms[|ms| - 1].addr in Asked(ms[..|ms| - 1])))
  }

  lemma LastAsks(pk: PubKey, ms: seq<Move>, now: Time, n: nat, addr: Addr)
    requires InOrder(ms, now) && n + 1 == |ms| && addr in AskedBy(PeerAfter(ms[..n]), ms[n])
    ensures AsksAt(Events(pk, ms), n, pk, addr)
  {
    EventsPrefix(pk, ms, n);
    SoloRun(pk, ms[..n], ms[n].at);
    SoloProbes(pk, PeerAfter(ms[..n]), ms[n].ok, ms[n].at);
  }

  lemma {:induction false} AskedIsRequested(pk: PubKey, ms: seq<Move>, now: Time, addr: Addr)
    requires InOrder(ms, now) && addr in Asked(ms)
    ensures AskedBefore(Events(pk, ms), |ms|, pk, addr)
  {
    var n := |ms| - 1;
    if addr in Asked(ms[..n]) {
      EventsPrefix(pk, ms, n);
      AskedIsRequested(pk, ms[..n], ms[n].at, addr);
      AskedLater(Events(pk, ms), n, n, pk, addr);
    } else {
      LastAsks(pk, ms, now, n, addr);
    }
  }

  lemma {:induction false} SendsAreRequested(pk: PubKey, ms: seq<Move>, now: Time)
    requires InOrder(ms, now) && SendsAsked(ms)
    ensures Requested(Events(pk, ms))
  {
    if |ms| > 0 {
      var n, es := |ms| - 1, Events(pk, ms);
      EventsPrefix(pk, ms, n);
      SendsAreRequested(pk, ms[..n], ms[n].at);
      forall i | 0 <= i < |es| && es[i].ProbeSent? ensures AskedBefore(es, i, es[i].pk, es[i].addr) {
        if i < n {
          assert es[..n][i] == es[i];
        } else {
          AskedIsRequested(pk, ms[..n], ms[n].at, es[n].addr);
        }
        AskedLater(es, n, i, es[i].pk, es[i].addr);
      }
    }
  }

  /** The moves so far, each probe among them asked for by a select, and the peer they leave. */
  ghost predicate Led(ms: seq<Move>, now: Time, p: Peer) {
    InOrder(ms, now) && SendsAsked(ms) && PeerAfter(ms) == p
  }

  lemma Go(ms: seq<Move>, before: Time, p: Peer, m: Move) returns (more: seq<Move>, q: Peer)
    requires Led(ms, before, p) && before <= m.at && (m.Sends? ==> m.addr in Asked(ms))
    ensures more == ms + [m] && q == Moved(p, m) && Led(more, m.at, q)
    ensures Asked(more) == Asked(ms) + AskedBy(p, m)
  {
    more, q := ms + [m], Moved(p, m);
    assert more[..|ms|] == ms;
  }

  /** Probed at 1, adopted at 7, unhealthy at 90. */
  lemma CoolingMoves(addr: Addr) returns (ms: seq<Move>, p: Peer)
    ensures Led(ms, 90, p)
    ensures p == Peer(Some(Candidate(addr, 2)), true, None, Some(Probe(7, addr, 1)), None, Some(Failed(addr, 120)))
  {
    ms, p := Go([], 0, UNKNOWN, Selects(true, 0));
    ms, p := Go(ms, 0, p, Hears(addr, Announcement, 1));
    ms, p := Go(ms, 1, p, Selects(true, 1));
    ms, p := Go(ms, 1, p, Sends(addr, 7, 1));
    ms, p := Go(ms, 1, p, Hears(addr, AckBody(7, true), 2));
    ms, p := Go(ms, 2, p, Selects(true, 3));
    ms, p := Go(ms, 3, p, Selects(true, 7));
    assert p.state == Some(Active(addr, 7));
    ms, p := Go(ms, 7, p, Selects(false, 90));
  }

  /** A run that reverts a peer until 120 is routed again at 95, though every select finds the peer in the mesh. */
  ghost predicate RoutedEarly(es: seq<Event>, n: nat, pk: PubKey, addr: Addr) {
    && Monotone(es, 95) && Requested(es) && n <= |es| && Has(INIT, es, n, pk, Failed(addr, 120))
    && (forall i :: n <= i < |es| && es[i].Select? ==> pk in es[i].reachable)
    && Get(Routes(After(INIT, es), 95, map[pk := true]), pk) == Some(addr)
  }

  lemma {:induction false} MovesRouteEarly(pk: PubKey, addr: Addr, ms: seq<Move>, n: nat)
    requires InOrder(ms, 95) && SendsAsked(ms) && n <= |ms| && PeerAfter(ms[..n]).state == Some(Failed(addr, 120))
    requires InOrder(ms[..n], 90) && Round(PeerAfter(ms), true, 95).state == Some(Trying(addr, 95))
    ensures RoutedEarly(Events(pk, ms), n, pk, addr)
  {
    FailedAfter(pk, ms, n, addr);
    SendsAreRequested(pk, ms, 95);
    SoloRun(pk, ms, 95);
    SoloRoutes(pk, PeerAfter(ms), true, 95);
  }

  lemma {:induction false} FailedAfter(pk: PubKey, ms: seq<Move>, n: nat, addr: Addr)
    requires n <= |ms| && PeerAfter(ms[..n]).state == Some(Failed(addr, 120)) && InOrder(ms[..n], 90)
    ensures Has(INIT, Events(pk, ms), n, pk, Failed(addr, 120))
  {
    SoloRun(pk, ms[..n], 90);
    EventsPrefix(pk, ms, n);
  }

  /** A cooldown that lasts until 120 does not: the candidate lapses at 92, and the peer, heard from and probed
      anew, is routed at 95. */
  lemma LapsedCandidateForgetsCooldown(pk: PubKey, addr: Addr)
    ensures exists es: seq<Event>, n: nat :: RoutedEarly(es, n, pk, addr)
  {
    var cooling, p := CoolingMoves(addr);
    var ms := cooling;
    ms, p := Go(ms, 90, p, Selects(true, 92));
    assert p == UNKNOWN.(member := true);
    ms, p := Go(ms, 92, p, Hears(addr, Announcement, 93));
    ms, p := Go(ms, 93, p, Selects(true, 93));
    ms, p := Go(ms, 93, p, Sends(addr, 8, 93));
    ms, p := Go(ms, 93, p, Hears(addr, AckBody(8, true), 94));
    assert ms[..|cooling|] == cooling;
    MovesRouteEarly(pk, addr, ms, |cooling|);
  }

  // ---- A peer comes to be routed ----

  /** A run that routes a peer from 3 on and has confirmed it by 7. */
  ghost predicate Adopts(es: seq<Event>, pk: PubKey, addr: Addr) {
    && Monotone(es, 3) && Requested(es)
    && var at3, at7 := Select(3, map[pk := true]), Select(7, map[pk := true]);
       && Get(Routes(After(INIT, es), at3.now, at3.reachable), pk) == Some(addr)
       && Get(Do(Do(After(INIT, es), at3), at7).states, pk) == Some(Active(addr, 7))
  }

  lemma {:induction false} MovesAdopt(pk: PubKey, addr: Addr, ms: seq<Move>, p: Peer)
    requires Led(ms, 2, p) && Round(p, true, 3).state == Some(Trying(addr, 3))
    requires Round(Round(p, true, 3), true, 7).state == Some(Active(addr, 7))
    ensures Adopts(Events(pk, ms), pk, addr)
  {
    assert InOrder(ms, 3);
    SendsAreRequested(pk, ms, 3);
    SoloRun(pk, ms, 3);
    SoloRoutes(pk, p, true, 3);
    SoloRound(pk, p, true, 3);
    SoloRound(pk, Round(p, true, 3), true, 7);
  }

  /** From the initial state an announced peer is probed because a select asks for it, answers, and is adopted. */
  lemma AnnouncedPeerIsAdopted(pk: PubKey, addr: Addr)
    ensures exists es: seq<Event> :: Adopts(es, pk, addr)
  {
    var ms, p := Go([], 0, UNKNOWN, Selects(true, 0));
    ms, p := Go(ms, 0, p, Hears(addr, Announcement, 1));
    ms, p := Go(ms, 1, p, Selects(true, 1));
    ms, p := Go(ms, 1, p, Sends(addr, 7, 1));
    ms, p := Go(ms, 1, p, Hears(addr, AckBody(7, true), 2));
    MovesAdopt(pk, addr, ms, p);
  }

  // ---- Which addresses are routed ----

  predicate ProbedIn(es: seq<Event>, pk: PubKey, addr: Addr) {
    exists i :: 0 <= i < |es| && es[i].ProbeSent? && es[i].pk == pk && es[i].addr == addr
  }

  /** Every address an ack was recorded from, and every address routed, is one the run probed. */
  ghost predicate AllProbed(es: seq<Event>, l: Lan) {
    && (forall pk :: pk in l.acks ==> ProbedIn(es, pk, l.acks[pk].addr))
    && (forall pk :: pk in l.states && Routed(Some(l.states[pk])) ==> ProbedIn(es, pk, l.states[pk].addr))
  }

  /** Every ack the run accepts comes from the address its probe was sent to. */
  ghost predicate Direct(es: seq<Event>) {
    forall i :: 0 <= i < |es| ==> DirectAt(es, i)
  }

  predicate DirectAt(es: seq<Event>, i: nat)
    requires i < |es|
  {
    var l := After(INIT, es[..i]);
    AcceptsAck(l, es[i]) ==> es[i].addr == l.pending[es[i].pk].addr
  }

  lemma ProbedLater(es: seq<Event>, e: Event, pk: PubKey, addr: Addr)
    ensures ProbedIn(es + [e], pk, addr) <==>
      ProbedIn(es, pk, addr) || (e.ProbeSent? && e.pk == pk && e.addr == addr)
  {
    if e.ProbeSent? && e.pk == pk && e.addr == addr {
      assert (es + [e])[|es|] == e;
    }
    if i :| 0 <= i < |es| && es[i].ProbeSent? && es[i].pk == pk && es[i].addr == addr {
      assert (es + [e])[i] == es[i];
    }
  }

  lemma {:induction false} PendingIsProbed(es: seq<Event>, pk: PubKey)
    requires pk in After(INIT, es).pending
    ensures ProbedIn(es, pk, After(INIT, es).pending[pk].addr)
  {
    var n := |es| - 1;
    var l := After(INIT, es[..n]);
    assert es == es[..n] + [es[n]];
    ProbedLater(es[..n], es[n], pk, After(INIT, es).pending[pk].addr);
    if !(es[n].ProbeSent? && es[n].pk == pk) {
      PendingIsProbed(es[..n], pk);
    }
  }

  /** A step keeps that exactly as far as the ack it may accept does. */
  lemma {:induction false} AllProbedOnce(es: seq<Event>, l: Lan, e: Event)
    requires AllProbed(es, l)
    requires AcceptsAck(l, e) ==> ProbedIn(es, e.pk, e.addr)
    ensures AllProbed(es, Do(l, e))
  {
    var u := Do(l, e);
    forall pk | pk in u.states && Routed(Some(u.states[pk])) ensures ProbedIn(es, pk, u.states[pk].addr) {
      if pk in l.states && Routed(Some(l.states[pk])) && u.states[pk].addr == l.states[pk].addr {
      } else {
        RoutedStep(l, e, pk);
      }
    }
  }

  /** While acks come from the addresses probed, only probed addresses are ever routed. */
  lemma {:induction false} DirectAcksRouteProbed(es: seq<Event>)
    requires Direct(es)
    ensures AllProbed(es, After(INIT, es))
  {
    if |es| > 0 {
      var n := |es| - 1;
      var l, e := After(INIT, es[..n]), es[n];
      forall i | 0 <= i < n ensures DirectAt(es[..n], i) {
        assert DirectAt(es, i) && es[..n][..i] == es[..i];
      }
      DirectAcksRouteProbed(es[..n]);
      if AcceptsAck(l, e) {
        assert DirectAt(es, n);
        PendingIsProbed(es[..n], e.pk);
      }
      AllProbedOnce(es[..n], l, e);
      assert es == es[..n] + [e];
      forall pk, addr | ProbedIn(es[..n], pk, addr) ensures ProbedIn(es, pk, addr) {
        ProbedLater(es[..n], e, pk, addr);
      }
    }
  }

  /** Selects only, none before `from`. */
  predicate OnlySelects(es: seq<Event>, from: Time) {
    forall e :: e in es ==> e.Select? && from <= e.now
  }

  lemma {:induction false} SelectsKeepProbed(es: seq<Event>, l: Lan, more: seq<Event>, from: Time)
    requires AllProbed(es, l) && OnlySelects(more, from)
    ensures AllProbed(es, After(l, more))
  {
    if |more| > 0 {
      var n := |more| - 1;
      assert more[n] in more && forall e :: e in more[..n] ==> e in more;
      SelectsKeepProbed(es, l, more[..n], from);
      AllProbedOnce(es, After(l, more[..n]), more[n]);
    }
  }

  lemma UnprobedAckRoutes(es: seq<Event>, l: Lan, pk: PubKey, addr: Addr, now: Time) returns (more: seq<Event>)
    requires Get(l.candidates, pk) == Some(Candidate(addr, now)) && Get(l.acks, pk) == Some(Ack(addr, now))
    requires !ProbedIn(es, pk, addr)
    ensures OnlySelects(more, now) && !AllProbed(es, After(l, more))
  {
    more := [Select(now, map[pk + 1 := true]), Select(now, map[pk := true])];
    RoutedOnceRejoined(l, pk, pk + 1, addr, now);
    assert After(l, more).states[pk] == Trying(addr, now);
  }

  /** An ack is accepted by its nonce, whatever address it comes from. Selects alone can then route an address
      never probed, exactly if the ack came from one. */
  lemma {:induction false} UnprobedAckRoutesExactly(es: seq<Event>, e: Event)
    requires AllProbed(es, After(INIT, es)) && AcceptsAck(After(INIT, es), e)
    ensures ProbedIn(es, e.pk, e.addr) <==>
      forall more :: OnlySelects(more, e.now) ==> AllProbed(es, After(Do(After(INIT, es), e), more))
  {
    var l := Do(After(INIT, es), e);
    if ProbedIn(es, e.pk, e.addr) {
      AllProbedOnce(es, After(INIT, es), e);
      forall more | OnlySelects(more, e.now) ensures AllProbed(es, After(l, more)) {
        SelectsKeepProbed(es, l, more, e.now);
      }
    } else {
      var more := UnprobedAckRoutes(es, l, e.pk, e.addr, e.now);
    }
  }

  lemma Left(l: Lan, pk: PubKey, other: PubKey, addr: Addr, now: Time)
    requires Get(l.candidates, pk) == Some(Candidate(addr, now)) && Get(l.acks, pk) == Some(Ack(addr, now))
    requires pk != other
    ensures
      var m := Selected(l, now, map[other := true]);
      pk !in m.states && Get(m.candidates, pk) == Some(Candidate(addr, now)) && Get(m.acks, pk) == Some(Ack(addr, now))
  {
  }

  lemma Rejoined(m: Lan, pk: PubKey, addr: Addr, now: Time)
    requires Get(m.candidates, pk) == Some(Candidate(addr, now)) && Get(m.acks, pk) == Some(Ack(addr, now))
    requires pk !in m.states
    ensures Get(Selected(m, now, map[pk := true]).states, pk) == Some(Trying(addr, now))
  {
    assert TurnOf(m, pk, true, now).next == Some(Trying(addr, now));
    assert Turns(m, now, map[pk := true])[pk] == TurnOf(m, pk, true, now);
  }

  /** A peer that left the mesh and is back is routed at once where it was just acked from. */
  lemma {:induction false} RoutedOnceRejoined(l: Lan, pk: PubKey, other: PubKey, addr: Addr, now: Time)
    requires Get(l.candidates, pk) == Some(Candidate(addr, now)) && Get(l.acks, pk) == Some(Ack(addr, now))
    requires pk != other
    ensures Get(After(l, [Select(now, map[other := true]), Select(now, map[pk := true])]).states, pk) ==
      Some(Trying(addr, now))
  {
    var away, back := Select(now, map[other := true]), Select(now, map[pk := true]);
    var m := Selected(l, now, map[other := true]);
    AfterOn(l, [], away);
    AfterOn(l, [away], back);
    assert [] + [away] == [away] && [away] + [back] == [away, back];
    Left(l, pk, other, addr, now);
    Rejoined(m, pk, addr, now);
  }

  /** A run that routes a peer at an address it never probed. */
  ghost predicate RoutesUnprobed(es: seq<Event>, now: Time, pk: PubKey, addr: Addr) {
    && Monotone(es, now) && Requested(es) && !ProbedIn(es, pk, addr)
    && Get(Routes(After(INIT, es), now, map[pk := true]), pk) == Some(addr)
  }

  lemma {:induction false} MovesRouteUnprobed(pk: PubKey, addr: Addr, ms: seq<Move>, now: Time)
    requires InOrder(ms, now) && SendsAsked(ms) && Round(PeerAfter(ms), true, now).state == Some(Trying(addr, now))
    requires forall m :: m in ms && m.Sends? ==> m.addr != addr
    ensures RoutesUnprobed(Events(pk, ms), now, pk, addr)
  {
    SendsAreRequested(pk, ms, now);
    SoloRun(pk, ms, now);
    SoloRoutes(pk, PeerAfter(ms), true, now);
    forall i | 0 <= i < |ms| && Events(pk, ms)[i].ProbeSent? ensures Events(pk, ms)[i].addr != addr {
      assert ms[i] in ms && ms[i].Sends?;
    }
  }

  /** Such a run: probed at one address, acked from another, and routed there once the probe was given up. */
  lemma UnprobedAddressRouted(pk: PubKey, probed: Addr, other: Addr)
    requires probed != other
    ensures exists es: seq<Event> :: RoutesUnprobed(es, 8, pk, other)
  {
    var ms, p := Go([], 0, UNKNOWN, Selects(true, 0));
    ms, p := Go(ms, 0, p, Hears(probed, Announcement, 1));
    ms, p := Go(ms, 1, p, Selects(true, 1));
    ms, p := Go(ms, 1, p, Sends(probed, 7, 1));
    ms, p := Go(ms, 1, p, Hears(other, AckBody(7, true), 6));
    ms, p := Go(ms, 6, p, Selects(true, 7));
    assert p == Peer(Some(Candidate(other, 6)), true, Some(Ack(other, 6)), Some(Probe(7, probed, 1)), Some(67), None);
    MovesRouteUnprobed(pk, other, ms, 8);
  }
}
