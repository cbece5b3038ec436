/**
 LAN adoption (crates/engine/src/beacon.rs): a per-peer timed state machine, driven by `select` once per
 mesh-loop iteration and fed by datagrams anyone on the segment may send.

 `Advance` is the transition of one peer; `Selected` the whole effect of `select`. A run is any series of
 events: received datagrams (with any content), probes sent, and selects.
 */
module Beacon {
  import opened Prelude

  type Nonce = nat

  datatype Addr = Addr(ip: nat, port: nat)

  datatype Candidate = Candidate(addr: Addr, seen: Time)

  datatype LanState =
    | Probing(addr: Addr, since: Time)
    | Trying(addr: Addr, since: Time)
    | Active(addr: Addr, lastOk: Time)
    | Failed(addr: Addr, until: Time)

  datatype Ack = Ack(addr: Addr, at: Time)

  datatype Probe = Probe(nonce: Nonce, addr: Addr, sent: Time)

  const CAND_TTL: Time := 90
  const PROBE_GRACE: Time := 6
  const PROBE_ACK_TTL: Time := 10
  const PROBE_BACKOFF: Time := 60
  const SETTLE: Time := 3
  const VERIFY_GRACE: Time := 8
  const STALE_GRACE: Time := 60
  const RETRY_COOLDOWN: Time := 30

  datatype Lan = Lan(
    candidates: map<PubKey, Candidate>,
    members: set<PubKey>,
    acks: map<PubKey, Ack>,
    pending: map<PubKey, Probe>,
    backoff: map<PubKey, Time>,
    states: map<PubKey, LanState>)

  const INIT := Lan(map[], {}, map[], map[], map[], map[])

  // ---- One peer ----

  function Get<V>(m: map<PubKey, V>, pk: PubKey): Option<V> {
    if pk in m then Some(m[pk]) else None
  }

  predicate AckFresh(ack: Option<Ack>, addr: Addr, now: Time) {
    ack.Some? && ack.value.addr == addr && Since(now, ack.value.at) < PROBE_ACK_TTL
  }

  /** What one iteration does to one peer: its next state, its probe backoff, and the address probed. */
  datatype Turn = Turn(next: Option<LanState>, backoff: Option<Time>, probe: Option<Addr>)

  function Begin(cand: Candidate, ack: Option<Ack>, backoff: Option<Time>, now: Time): Turn {
    if AckFresh(ack, cand.addr, now) then Turn(Some(Trying(cand.addr, now)), backoff, None)
    else if backoff.Some? && now < backoff.value then Turn(None, backoff, None)
    else Turn(Some(Probing(cand.addr, now)), backoff, Some(cand.addr))
  }

  function Advance(state: Option<LanState>, cand: Candidate, ack: Option<Ack>, backoff: Option<Time>, ok: bool,
                   now: Time): Turn {
    match state
    case None => Begin(cand, ack, backoff, now)
    case Some(Probing(addr, since)) =>
      if AckFresh(ack, addr, now) then Turn(Some(Trying(addr, now)), backoff, None)
      else if Since(now, since) >= PROBE_GRACE then Turn(None, Some(now + PROBE_BACKOFF), None)
      else Turn(state, backoff, Some(addr))
    case Some(Trying(addr, since)) =>
      var waited := Since(now, since);
      var next :=
        if waited < SETTLE then Trying(addr, since)
        else if ok then Active(addr, now)
        else if waited >= VERIFY_GRACE then Failed(addr, now + RETRY_COOLDOWN)
        else Trying(addr, since);
      Turn(Some(next), backoff, None)
    case Some(Active(addr, lastOk)) =>
      var next :=
        if ok then Active(addr, now)
        else if Since(now, lastOk) >= STALE_GRACE then Failed(addr, now + RETRY_COOLDOWN)
        else Active(addr, lastOk);
      Turn(Some(next), backoff, None)
    case Some(Failed(addr, until)) =>
      if now < until then Turn(state, backoff, None) else Begin(cand, ack, backoff, now)
  }

  // ---- One iteration ----

  predicate Live(c: Candidate, now: Time) {
    Since(now, c.seen) < CAND_TTL
  }

  predicate HasLive(l: Lan, pk: PubKey, now: Time) {
    pk in l.candidates && Live(l.candidates[pk], now)
  }

  /** The recorded ack of a peer, unless it has aged out. */
  function FreshAck(l: Lan, pk: PubKey, now: Time): Option<Ack> {
    if pk in l.acks && Since(now, l.acks[pk].at) < PROBE_ACK_TTL then Some(l.acks[pk]) else None
  }

  /** The turn of a peer of the mesh: without a live candidate any adoption is dropped. */
  function TurnOf(l: Lan, pk: PubKey, ok: bool, now: Time): Turn {
    if HasLive(l, pk, now)
    then Advance(Get(l.states, pk), l.candidates[pk], FreshAck(l, pk, now), Get(l.backoff, pk), ok, now)
    else Turn(None, Get(l.backoff, pk), None)
  }

  predicate Routed(s: Option<LanState>) {
    s.Some? && (s.value.Trying? || s.value.Active?)
  }

  function Turns(l: Lan, now: Time, reachable: map<PubKey, bool>): map<PubKey, Turn> {
    map pk | pk in reachable :: TurnOf(l, pk, reachable[pk], now)
  }

  function Nexts(turns: map<PubKey, Turn>): map<PubKey, LanState> {
    map pk | pk in turns && turns[pk].next.Some? :: turns[pk].next.value
  }

  function Backoffs(turns: map<PubKey, Turn>): map<PubKey, Time> {
    map pk | pk in turns && turns[pk].backoff.Some? :: turns[pk].backoff.value
  }

  function RoutesOf(turns: map<PubKey, Turn>): map<PubKey, Addr> {
    map pk | pk in turns && Routed(turns[pk].next) :: turns[pk].next.value.addr
  }

  function ProbesOf(turns: map<PubKey, Turn>): map<PubKey, Addr> {
    map pk | pk in turns && turns[pk].probe.Some? :: turns[pk].probe.value
  }

  /** The state once everything too old, or of nobody in the mesh, is dropped. */
  function Swept(l: Lan, now: Time, reachable: map<PubKey, bool>): Lan {
    Lan(
      l.candidates - (set pk | pk in l.candidates && !Live(l.candidates[pk], now)),
      reachable.Keys,
      l.acks - (set pk | pk in l.acks && Since(now, l.acks[pk].at) >= PROBE_ACK_TTL),
      l.pending - (set pk | pk in l.pending && (pk !in reachable || Since(now, l.pending[pk].sent) >= CAND_TTL)),
      l.backoff - (l.backoff.Keys - reachable.Keys),
      l.states - (l.states.Keys - reachable.Keys))
  }

  function Selected(l: Lan, now: Time, reachable: map<PubKey, bool>): Lan {
    var turns := Turns(l, now, reachable);
    Swept(l, now, reachable).(states := Nexts(turns), backoff := Backoffs(turns))
  }

  /** The peers `select` routes over the LAN, and where to. */
  function Routes(l: Lan, now: Time, reachable: map<PubKey, bool>): map<PubKey, Addr> {
    RoutesOf(Turns(l, now, reachable))
  }

  function Probes(l: Lan, now: Time, reachable: map<PubKey, bool>): map<PubKey, Addr> {
    ProbesOf(Turns(l, now, reachable))
  }

  // ---- Events ----

  /** What a datagram says beyond announcing its sender; `genuine` is whether its MAC verifies. */
  datatype Body = Announcement | ProbeBody(nonce: Nonce, genuine: bool) | AckBody(nonce: Nonce, genuine: bool)

  datatype Event =
    | Received(pk: PubKey, addr: Addr, body: Body, now: Time)
    | ProbeSent(pk: PubKey, addr: Addr, nonce: Nonce, now: Time)
    | Select(now: Time, reachable: map<PubKey, bool>)

  predicate AcceptsAck(l: Lan, e: Event) {
    && e.Received? && e.pk in l.members && e.body.AckBody? && e.body.genuine
    && e.pk in l.pending && l.pending[e.pk].nonce == e.body.nonce
    && Since(e.now, l.pending[e.pk].sent) < PROBE_ACK_TTL
  }

  function Do(l: Lan, e: Event): Lan {
    match e
    case Received(pk, addr, body, now) =>
      if pk !in l.members then l
      else
        l.(candidates := l.candidates[pk := Candidate(addr, now)],
           acks := if AcceptsAck(l, e) then l.acks[pk := Ack(addr, now)] else l.acks)
    case ProbeSent(pk, addr, nonce, now) =>
      l.(pending := l.pending[pk := Probe(nonce, addr, now)])
    case Select(now, reachable) =>
      Selected(l, now, reachable)
  }

  function After(l: Lan, es: seq<Event>): Lan {
    if |es| == 0 then l else Do(After(l, es[..|es| - 1]), es[|es| - 1])
  }

  lemma AfterOn(l: Lan, es: seq<Event>, e: Event)
    ensures After(l, es + [e]) == Do(After(l, es), e)
  {
    assert (es + [e])[..|es|] == es;
  }

  // ---- Nothing is routed without an authenticated ack ----

  /** Event `m` sent the probe with this nonce. */
  predicate SentAt(es: seq<Event>, m: nat, pk: PubKey, nonce: Nonce, sent: Time) {
    m < |es| && es[m].ProbeSent? && es[m].pk == pk && es[m].nonce == nonce && es[m].now == sent
  }

  /** Event `j` is a genuine ack from `addr`, answering within its time a probe sent before. */
  ghost predicate AckedAt(es: seq<Event>, j: nat, pk: PubKey, addr: Addr, at: Time) {
    && j < |es| && es[j].Received? && es[j].pk == pk && es[j].addr == addr && es[j].now == at
    && es[j].body.AckBody? && es[j].body.genuine
    && exists m: nat, sent: Time ::
         m < j && SentAt(es, m, pk, es[j].body.nonce, sent) && Since(at, sent) < PROBE_ACK_TTL
  }

  /** The peer entered `Trying` at `addr` at a select that came within ten seconds of such an ack. */
  ghost predicate Earned(es: seq<Event>, pk: PubKey, addr: Addr) {
    exists j: nat, k: nat, at: Time ::
      && j < k < |es| && AckedAt(es, j, pk, addr, at)
      && es[k].Select? && Since(es[k].now, at) < PROBE_ACK_TTL
      && Get(After(INIT, es[..k + 1]).states, pk) == Some(Trying(addr, es[k].now))
  }

  ghost predicate Recorded(es: seq<Event>) {
    var l := After(INIT, es);
    && (forall pk :: pk in l.pending ==>
          exists m :: SentAt(es, m, pk, l.pending[pk].nonce, l.pending[pk].sent))
    && (forall pk :: pk in l.acks ==> exists j :: AckedAt(es, j, pk, l.acks[pk].addr, l.acks[pk].at))
    && (forall pk :: pk in l.states && Routed(Some(l.states[pk])) ==> Earned(es, pk, l.states[pk].addr))
  }

  lemma AckedLater(es: seq<Event>, e: Event, j: nat, pk: PubKey, addr: Addr, at: Time)
    requires AckedAt(es, j, pk, addr, at)
    ensures AckedAt(es + [e], j, pk, addr, at)
  {
    var m: nat, sent: Time :| m < j && SentAt(es, m, pk, es[j].body.nonce, sent) && Since(at, sent) < PROBE_ACK_TTL;
    assert SentAt(es + [e], m, pk, (es + [e])[j].body.nonce, sent);
  }

  lemma EarnedLater(es: seq<Event>, e: Event, pk: PubKey, addr: Addr)
    requires Earned(es, pk, addr)
    ensures Earned(es + [e], pk, addr)
  {
    var j: nat, k: nat, at: Time :|
      && j < k < |es| && AckedAt(es, j, pk, addr, at)
      && es[k].Select? && Since(es[k].now, at) < PROBE_ACK_TTL
      && Get(After(INIT, es[..k + 1]).states, pk) == Some(Trying(addr, es[k].now));
    AckedLater(es, e, j, pk, addr, at);
    assert (es + [e])[..k + 1] == es[..k + 1] && (es + [e])[k] == es[k];
  }

  lemma RecordedPending(es: seq<Event>, e: Event, pk: PubKey)
    requires Recorded(es) && pk in After(INIT, es + [e]).pending
    ensures exists m ::
      SentAt(es + [e], m, pk, After(INIT, es + [e]).pending[pk].nonce, After(INIT, es + [e]).pending[pk].sent)
  {
    assert (es + [e])[..|es|] == es;
    var l, u := After(INIT, es), After(INIT, es + [e]);
    if e.ProbeSent? && e.pk == pk {
      assert SentAt(es + [e], |es|, pk, u.pending[pk].nonce, u.pending[pk].sent);
    } else {
      var m :| SentAt(es, m, pk, l.pending[pk].nonce, l.pending[pk].sent);
      assert SentAt(es + [e], m, pk, u.pending[pk].nonce, u.pending[pk].sent);
    }
  }

  lemma RecordedAck(es: seq<Event>, e: Event, pk: PubKey)
    requires Recorded(es) && pk in After(INIT, es + [e]).acks
    ensures exists j :: AckedAt(es + [e], j, pk, After(INIT, es + [e]).acks[pk].addr, After(INIT, es + [e]).acks[pk].at)
  {
    assert (es + [e])[..|es|] == es;
    var l, u := After(INIT, es), After(INIT, es + [e]);
    if AcceptsAck(l, e) && e.pk == pk {
      var m :| SentAt(es, m, pk, l.pending[pk].nonce, l.pending[pk].sent);
      assert SentAt(es + [e], m, pk, (es + [e])[|es|].body.nonce, l.pending[pk].sent);
      assert AckedAt(es + [e], |es|, pk, u.acks[pk].addr, u.acks[pk].at);
    } else {
      var j :| AckedAt(es, j, pk, l.acks[pk].addr, l.acks[pk].at);
      AckedLater(es, e, j, pk, l.acks[pk].addr, l.acks[pk].at);
    }
  }

  /** A peer comes to be routed at an address only by a select that found a fresh ack from there. */
  lemma RoutedStep(l: Lan, e: Event, pk: PubKey)
    requires pk in Do(l, e).states && Routed(Some(Do(l, e).states[pk]))
    requires !(pk in l.states && Routed(Some(l.states[pk])) && Do(l, e).states[pk].addr == l.states[pk].addr)
    ensures e.Select? && Do(l, e).states[pk] == Trying(Do(l, e).states[pk].addr, e.now)
    ensures AckFresh(FreshAck(l, pk, e.now), Do(l, e).states[pk].addr, e.now)
  {
    assert e.Select?;
    assert Some(Do(l, e).states[pk]) == TurnOf(l, pk, e.reachable[pk], e.now).next;
  }

  lemma FreshAckEarns(es: seq<Event>, e: Event, pk: PubKey, ack: Ack, j: nat)
    requires AckedAt(es, j, pk, ack.addr, ack.at) && e.Select? && Since(e.now, ack.at) < PROBE_ACK_TTL
    requires Get(After(INIT, es + [e]).states, pk) == Some(Trying(ack.addr, e.now))
    ensures Earned(es + [e], pk, ack.addr)
  {
    AckedLater(es, e, j, pk, ack.addr, ack.at);
    assert (es + [e])[..|es| + 1] == es + [e];
    assert (es + [e])[|es|] == e;
  }

  lemma RecordedRoute(es: seq<Event>, e: Event, pk: PubKey)
    requires Recorded(es)
    requires pk in After(INIT, es + [e]).states && Routed(Some(After(INIT, es + [e]).states[pk]))
    ensures Earned(es + [e], pk, After(INIT, es + [e]).states[pk].addr)
  {
    assert (es + [e])[..|es|] == es;
    var l, u := After(INIT, es), After(INIT, es + [e]);
    if pk in l.states && Routed(Some(l.states[pk])) && u.states[pk].addr == l.states[pk].addr {
      EarnedLater(es, e, pk, l.states[pk].addr);
    } else {
      RoutedStep(l, e, pk);
      var j :| AckedAt(es, j, pk, l.acks[pk].addr, l.acks[pk].at);
      FreshAckEarns(es, e, pk, l.acks[pk], j);
    }
  }

  lemma {:induction false} RunIsRecorded(es: seq<Event>)
    ensures Recorded(es)
  {
    if |es| > 0 {
      var before, e := es[..|es| - 1], es[|es| - 1];
      RunIsRecorded(before);
      assert es == before + [e];
      var l := After(INIT, es);
      forall pk | pk in l.pending
        ensures exists m :: SentAt(es, m, pk, l.pending[pk].nonce, l.pending[pk].sent)
      {
        RecordedPending(before, e, pk);
      }
      forall pk | pk in l.acks ensures exists j :: AckedAt(es, j, pk, l.acks[pk].addr, l.acks[pk].at) {
        RecordedAck(before, e, pk);
      }
      forall pk | pk in l.states && Routed(Some(l.states[pk])) ensures Earned(es, pk, l.states[pk].addr) {
        RecordedRoute(before, e, pk);
      }
    }
  }

  /** Whatever datagrams arrive, an address is routed only after a genuine ack from it answered one of our
      probes, fresh when the peer entered Trying. */
  lemma RoutesAreEarned(es: seq<Event>, now: Time, reachable: map<PubKey, bool>, pk: PubKey)
    requires pk in Routes(After(INIT, es), now, reachable)
    ensures Earned(es + [Select(now, reachable)], pk, Routes(After(INIT, es), now, reachable)[pk])
  {
    var all := es + [Select(now, reachable)];
    RunIsRecorded(all);
    assert all[..|es|] == es;
    assert After(INIT, all).states[pk].addr == Routes(After(INIT, es), now, reachable)[pk];
  }

  // ---- Routes do not jump ----

  lemma {:induction false} NoSelectKeepsStates(l: Lan, es: seq<Event>)
    requires forall e :: e in es ==> !e.Select?
    ensures After(l, es).states == l.states && After(l, es).backoff == l.backoff
  {
    if |es| > 0 {
      assert es == es[..|es| - 1] + [es[|es| - 1]];
      NoSelectKeepsStates(l, es[..|es| - 1]);
    }
  }

  /** Two consecutive selects that both route a peer route it to the same address, whatever was received
      in between. */
  lemma ConsecutiveRoutesAgree(l: Lan, now: Time, reachable: map<PubKey, bool>, between: seq<Event>,
      later: Time, reachable': map<PubKey, bool>, pk: PubKey)
    requires forall e :: e in between ==> !e.Select?
    requires pk in Routes(l, now, reachable)
    requires pk in Routes(After(Selected(l, now, reachable), between), later, reachable')
    ensures Routes(l, now, reachable)[pk] == Routes(After(Selected(l, now, reachable), between), later, reachable')[pk]
  {
    NoSelectKeepsStates(Selected(l, now, reachable), between);
    assert pk in Selected(l, now, reachable).states;
  }

  // ---- Timing ----

  /** A route in use is kept by a select exactly while the peer stays in the mesh with a live candidate
      and is either healthy now or was within the last sixty seconds; otherwise it is dropped at once. */
  lemma ActiveKeptExactly(l: Lan, now: Time, reachable: map<PubKey, bool>, pk: PubKey, addr: Addr, lastOk: Time)
    requires Get(l.states, pk) == Some(Active(addr, lastOk))
    ensures pk in Routes(l, now, reachable) <==>
      pk in reachable && HasLive(l, pk, now) && (reachable[pk] || Since(now, lastOk) < STALE_GRACE)
    ensures pk in Routes(l, now, reachable) ==> Routes(l, now, reachable)[pk] == addr
  {
  }

  /** Every select of the run finds the peer in the mesh, with a live candidate, in the time span. */
  predicate Attended(l: Lan, es: seq<Event>, pk: PubKey, from: Time, until: Time)
    decreases |es|
  {
    |es| == 0 ||
    (&& (es[0].Select? ==> pk in es[0].reachable && HasLive(l, pk, es[0].now) && from <= es[0].now < until)
     && Attended(Do(l, es[0]), es[1..], pk, if es[0].Select? then es[0].now else from, until))
  }

  lemma {:induction false} AfterFront(l: Lan, es: seq<Event>)
    requires |es| > 0
    ensures After(l, es) == After(Do(l, es[0]), es[1..])
  {
    if |es| > 1 {
      AfterFront(l, es[..|es| - 1]);
      assert es[..|es| - 1][1..] == es[1..][..|es| - 2];
    } else {
      assert es[..0] == es[1..] == [];
    }
  }

  lemma ActiveOnce(l: Lan, e: Event, pk: PubKey, addr: Addr, healthy: Time)
    requires Get(l.states, pk) == Some(Active(addr, healthy))
    requires e.Select? ==> pk in e.reachable && HasLive(l, pk, e.now) && Since(e.now, healthy) < STALE_GRACE
    ensures Get(Do(l, e).states, pk) == Some(Active(addr, if e.Select? && e.reachable[pk] then e.now else healthy))
  {
    if e.Select? {
      assert Get(Do(l, e).states, pk) == TurnOf(l, pk, e.reachable[pk], e.now).next;
    }
  }

  /** An active route last healthy at `lastOk` survives every select before lastOk + 60, however the
      peer's health and the candidates change meanwhile. */
  lemma {:induction false} ActiveSurvives(l: Lan, es: seq<Event>, pk: PubKey, addr: Addr, lastOk: Time, from: Time,
                                          healthy: Time)
    requires Get(l.states, pk) == Some(Active(addr, healthy)) && lastOk <= healthy <= from
    requires Attended(l, es, pk, from, lastOk + STALE_GRACE)
    ensures exists t :: lastOk <= t && Get(After(l, es).states, pk) == Some(Active(addr, t))
    decreases |es|
  {
    if |es| > 0 {
      AfterFront(l, es);
      ActiveOnce(l, es[0], pk, addr, healthy);
      var healthy' := if es[0].Select? && es[0].reachable[pk] then es[0].now else healthy;
      ActiveSurvives(Do(l, es[0]), es[1..], pk, addr, lastOk, if es[0].Select? then es[0].now else from, healthy');
    } else {
      assert Get(After(l, es).states, pk) == Some(Active(addr, healthy));
    }
  }

  lemma FailedOnce(l: Lan, e: Event, pk: PubKey, addr: Addr, until: Time)
    requires Get(l.states, pk) == Some(Failed(addr, until))
    requires e.Select? ==> pk in e.reachable && HasLive(l, pk, e.now) && e.now < until
    ensures Get(Do(l, e).states, pk) == Some(Failed(addr, until))
  {
    if e.Select? {
      assert Get(Do(l, e).states, pk) == TurnOf(l, pk, e.reachable[pk], e.now).next;
    }
  }

  /** A peer that reverted stays reverted, and so unrouted, at every select before its cooldown ends. */
  lemma {:induction false} FailedHolds(l: Lan, es: seq<Event>, pk: PubKey, addr: Addr, until: Time, from: Time)
    requires Get(l.states, pk) == Some(Failed(addr, until)) && Attended(l, es, pk, from, until)
    ensures Get(After(l, es).states, pk) == Some(Failed(addr, until))
    decreases |es|
  {
    if |es| > 0 {
      AfterFront(l, es);
      FailedOnce(l, es[0], pk, addr, until);
      FailedHolds(Do(l, es[0]), es[1..], pk, addr, until, if es[0].Select? then es[0].now else from);
    }
  }

  lemma {:induction false} AttendedPrefix(l: Lan, es: seq<Event>, pk: PubKey, from: Time, until: Time, i: nat)
    requires Attended(l, es, pk, from, until) && i < |es|
    ensures Attended(l, es[..i], pk, from, until)
    ensures es[i].Select? ==> es[i].now < until
    decreases i
  {
    if i > 0 {
      AttendedPrefix(Do(l, es[0]), es[1..], pk, if es[0].Select? then es[0].now else from, until, i - 1);
      assert es[..i][1..] == es[1..][..i - 1] && es[..i][0] == es[0];
    }
  }

  /** A peer whose route a select reverts, though it is in the mesh with a live candidate, is routed by no
      select of the following thirty seconds. */
  lemma RevertedStaysUnrouted(l: Lan, now: Time, reachable: map<PubKey, bool>, pk: PubKey, es: seq<Event>, i: nat)
    requires Routed(Get(l.states, pk)) && pk in reachable && HasLive(l, pk, now)
    requires pk !in Routes(l, now, reachable)
    requires Attended(Selected(l, now, reachable), es, pk, now, now + RETRY_COOLDOWN)
    requires i < |es| && es[i].Select?
    ensures pk !in Routes(After(Selected(l, now, reachable), es[..i]), es[i].now, es[i].reachable)
  {
    var m, until := Selected(l, now, reachable), now + RETRY_COOLDOWN;
    var addr := l.states[pk].addr;
    RevertTurn(l, pk, reachable[pk], now);
    assert Turns(l, now, reachable)[pk] == TurnOf(l, pk, reachable[pk], now);
    assert Get(m.states, pk) == Some(Failed(addr, until));
    AttendedPrefix(m, es, pk, now, until, i);
    FailedHolds(m, es[..i], pk, addr, until, now);
    var u := After(m, es[..i]);
    if pk in es[i].reachable {
      UnroutedTurn(u, pk, es[i].reachable[pk], es[i].now, addr, until);
    }
  }

  lemma RevertTurn(l: Lan, pk: PubKey, ok: bool, now: Time)
    requires Routed(Get(l.states, pk)) && HasLive(l, pk, now) && !Routed(TurnOf(l, pk, ok, now).next)
    ensures TurnOf(l, pk, ok, now).next == Some(Failed(l.states[pk].addr, now + RETRY_COOLDOWN))
  {
  }

  lemma UnroutedTurn(l: Lan, pk: PubKey, ok: bool, now: Time, addr: Addr, until: Time)
    requires Get(l.states, pk) == Some(Failed(addr, until)) && now < until
    ensures !Routed(TurnOf(l, pk, ok, now).next)
  {
  }

  /** A route on trial is judged only once it has settled: a healthy peer then becomes Active, an unhealthy
      one reverts when the verification grace is over, and until then the trial goes on at its address. */
  lemma TrialExactly(l: Lan, now: Time, reachable: map<PubKey, bool>, pk: PubKey, addr: Addr, since: Time)
    requires Get(l.states, pk) == Some(Trying(addr, since)) && pk in reachable && HasLive(l, pk, now)
    ensures
      var next := Get(Selected(l, now, reachable).states, pk);
      && (next == Some(Active(addr, now)) <==> Since(now, since) >= SETTLE && reachable[pk])
      && (next == Some(Failed(addr, now + RETRY_COOLDOWN)) <==> Since(now, since) >= VERIFY_GRACE && !reachable[pk])
      && (pk in Routes(l, now, reachable) <==> Since(now, since) < VERIFY_GRACE || reachable[pk])
      && (pk in Routes(l, now, reachable) ==> Routes(l, now, reachable)[pk] == addr)
  {
    assert Turns(l, now, reachable)[pk] == TurnOf(l, pk, reachable[pk], now);
  }

  /** One select respects the cooldown for good reason only while the candidate lives: it remembers the
      reverted peer exactly if the peer is in the mesh, its candidate is live, and the cooldown runs. */
  lemma CooldownKeptExactly(l: Lan, now: Time, reachable: map<PubKey, bool>, pk: PubKey, addr: Addr, until: Time)
    requires Get(l.states, pk) == Some(Failed(addr, until))
    ensures Get(Selected(l, now, reachable).states, pk) == Some(Failed(addr, until)) <==>
      pk in reachable && HasLive(l, pk, now) && now < until
  {
  }

  // ---- When a peer is probed, tried and given up ----

  /** The mesh has the peer, and heard from it less than ninety seconds ago. */
  predicate Meets(l: Lan, now: Time, reachable: map<PubKey, bool>, pk: PubKey) {
    pk in reachable && pk in l.candidates && Since(now, l.candidates[pk].seen) < 90
  }

  /** The address answered one of our probes to the peer less than ten seconds ago. */
  predicate Proven(l: Lan, pk: PubKey, addr: Addr, now: Time) {
    pk in l.acks && l.acks[pk].addr == addr && Since(now, l.acks[pk].at) < 10
  }

  /** No adoption is under way and no cooldown runs. */
  predicate Unadopted(l: Lan, pk: PubKey, now: Time) {
    pk in l.states ==> l.states[pk].Failed? && l.states[pk].until <= now
  }

  predicate Backoff(l: Lan, pk: PubKey, now: Time) {
    pk in l.backoff && now < l.backoff[pk]
  }

  /** The address a select has to do with, of a peer unadopted or being probed. */
  function Sought(l: Lan, pk: PubKey): Addr
    requires pk in l.candidates
  {
    if pk in l.states && l.states[pk].Probing? then l.states[pk].addr else l.candidates[pk].addr
  }

  /** A select asks for a probe exactly to a peer it meets whose address is not proven, and that is either
      unadopted with no backoff running, or has been probed for less than six seconds. The probe goes to the address
      under way, if there is one, and to the candidate otherwise; and the peer is being probed there from then on. */
  lemma ProbedExactly(l: Lan, now: Time, reachable: map<PubKey, bool>, pk: PubKey)
    ensures pk in Probes(l, now, reachable) <==>
      && Meets(l, now, reachable, pk) && !Proven(l, pk, Sought(l, pk), now)
      && ((Unadopted(l, pk, now) && !Backoff(l, pk, now))
          || (pk in l.states && l.states[pk].Probing? && Since(now, l.states[pk].since) < 6))
    ensures pk in Probes(l, now, reachable) ==>
      && Probes(l, now, reachable)[pk] == Sought(l, pk)
      && Get(Selected(l, now, reachable).states, pk) ==
           Some(Probing(Sought(l, pk), if Unadopted(l, pk, now) then now else l.states[pk].since))
  {
    if pk in reachable {
      assert Turns(l, now, reachable)[pk] == TurnOf(l, pk, reachable[pk], now);
    }
  }

  /** A select starts a trial exactly of a peer it meets whose address is proven, and that is unadopted or being
      probed, whatever backoff it has; and routes it there at once. */
  lemma TriedExactly(l: Lan, now: Time, reachable: map<PubKey, bool>, pk: PubKey)
    requires !(pk in l.states && Routed(Some(l.states[pk])))
    ensures pk in Routes(l, now, reachable) <==>
      && Meets(l, now, reachable, pk) && Proven(l, pk, Sought(l, pk), now)
      && (Unadopted(l, pk, now) || (pk in l.states && l.states[pk].Probing?))
    ensures pk in Routes(l, now, reachable) ==>
      && Routes(l, now, reachable)[pk] == Sought(l, pk)
      && Get(Selected(l, now, reachable).states, pk) == Some(Trying(Sought(l, pk), now))
  {
    if pk in reachable {
      assert Turns(l, now, reachable)[pk] == TurnOf(l, pk, reachable[pk], now);
    }
  }

  /** A select backs off from a peer in the mesh for sixty seconds exactly if it meets it after probing it for six
      seconds or more at an address still not proven; otherwise its backoff stands. */
  lemma BacksOffExactly(l: Lan, now: Time, reachable: map<PubKey, bool>, pk: PubKey)
    requires pk in reachable
    ensures Get(Selected(l, now, reachable).backoff, pk) ==
      if Meets(l, now, reachable, pk) && pk in l.states && l.states[pk].Probing?
         && !Proven(l, pk, l.states[pk].addr, now) && Since(now, l.states[pk].since) >= 6
      then Some(now + 60) else Get(l.backoff, pk)
  {
    assert Turns(l, now, reachable)[pk] == TurnOf(l, pk, reachable[pk], now);
  }

  /** A probe that a select asked for, sent and genuinely answered in time from where it went, routes the peer there
      at the next select within ten seconds, whatever else is known or going on. */
  lemma AnsweredProbeIsRouted(l: Lan, asked: Time, reachable: map<PubKey, bool>, pk: PubKey, nonce: Nonce, sent: Time,
      acked: Time, now: Time, reachable': map<PubKey, bool>)
    requires pk in Probes(l, asked, reachable) && pk in reachable'
    requires sent <= acked < sent + 10 && acked <= now < acked + 10
    ensures
      var addr := Probes(l, asked, reachable)[pk];
      var es := [Select(asked, reachable), ProbeSent(pk, addr, nonce, sent),
                 Received(pk, addr, AckBody(nonce, true), acked)];
      Get(Routes(After(l, es), now, reachable'), pk) == Some(addr)
  {
    var addr := Probes(l, asked, reachable)[pk];
    var e0, e1 := Select(asked, reachable), ProbeSent(pk, addr, nonce, sent);
    var e2 := Received(pk, addr, AckBody(nonce, true), acked);
    ProbedExactly(l, asked, reachable, pk);
    AfterOn(l, [], e0);
    AfterOn(l, [e0], e1);
    AfterOn(l, [e0, e1], e2);
    assert [] + [e0] == [e0] && [e0] + [e1] == [e0, e1] && [e0, e1] + [e2] == [e0, e1, e2];
    var m, u := Do(Selected(l, asked, reachable), e1), After(l, [e0, e1, e2]);
    assert AcceptsAck(m, e2);
    assert Get(u.states, pk) == Get(Selected(l, asked, reachable).states, pk);
    assert u.candidates[pk] == Candidate(addr, acked) && u.acks[pk] == Ack(addr, acked);
    TriedExactly(u, now, reachable', pk);
  }

  /** Every select of the run keeps the peer in the mesh and comes before `until`. */
  predicate Present(es: seq<Event>, pk: PubKey, until: Time) {
    forall e :: e in es && e.Select? ==> pk in e.reachable && e.now < until
  }

  /** The peer is held back: no probe to it is outstanding in its state, and none may start before `until`. */
  predicate HeldBack(l: Lan, pk: PubKey, until: Time) {
    Get(l.backoff, pk) == Some(until) && !(pk in l.states && l.states[pk].Probing?)
  }

  /** Giving up on an unanswered probe holds the peer back for sixty seconds. */
  lemma GivingUpHoldsBack(l: Lan, now: Time, reachable: map<PubKey, bool>, pk: PubKey, addr: Addr, since: Time)
    requires Get(l.states, pk) == Some(Probing(addr, since)) && pk in reachable && HasLive(l, pk, now)
    requires Since(now, since) >= PROBE_GRACE && !AckFresh(FreshAck(l, pk, now), addr, now)
    ensures HeldBack(Selected(l, now, reachable), pk, now + PROBE_BACKOFF)
  {
  }

  lemma HeldBackTurn(l: Lan, pk: PubKey, ok: bool, now: Time, until: Time)
    requires HeldBack(l, pk, until) && now < until
    ensures
      var t := TurnOf(l, pk, ok, now);
      t.backoff == Some(until) && t.probe.None? && !(t.next.Some? && t.next.value.Probing?)
  {
  }

  lemma HeldBackOnce(l: Lan, e: Event, pk: PubKey, until: Time)
    requires HeldBack(l, pk, until) && (e.Select? ==> pk in e.reachable && e.now < until)
    ensures HeldBack(Do(l, e), pk, until)
    ensures e.Select? ==> pk !in Probes(l, e.now, e.reachable)
  {
    if e.Select? {
      var t := TurnOf(l, pk, e.reachable[pk], e.now);
      HeldBackTurn(l, pk, e.reachable[pk], e.now, until);
      assert Turns(l, e.now, e.reachable)[pk] == t;
      assert Get(Do(l, e).backoff, pk) == t.backoff && Get(Do(l, e).states, pk) == t.next;
    }
  }

  /** While it is held back no select probes it, however its candidates come, go or change. */
  lemma {:induction false} NoProbeWhileHeldBack(l: Lan, es: seq<Event>, pk: PubKey, until: Time)
    requires HeldBack(l, pk, until) && Present(es, pk, until)
    ensures HeldBack(After(l, es), pk, until)
    ensures forall i :: 0 <= i < |es| && es[i].Select? ==>
      pk !in Probes(After(l, es[..i]), es[i].now, es[i].reachable)
  {
    if |es| > 0 {
      var n := |es| - 1;
      assert es == es[..n] + [es[n]];
      NoProbeWhileHeldBack(l, es[..n], pk, until);
      assert es[n] in es;
      HeldBackOnce(After(l, es[..n]), es[n], pk, until);
      forall i | 0 <= i < n && es[i].Select?
        ensures pk !in Probes(After(l, es[..i]), es[i].now, es[i].reachable)
      {
        assert es[..n][..i] == es[..i] && es[..n][i] == es[i];
      }
    }
  }

  /** After a probe is given up, no select of any run probes the peer for sixty seconds. */
  lemma AbandonedProbeStaysQuiet(l: Lan, now: Time, reachable: map<PubKey, bool>, pk: PubKey, addr: Addr, since: Time,
      es: seq<Event>, i: nat)
    requires Get(l.states, pk) == Some(Probing(addr, since)) && pk in reachable && HasLive(l, pk, now)
    requires Since(now, since) >= PROBE_GRACE && !AckFresh(FreshAck(l, pk, now), addr, now)
    requires Present(es, pk, now + PROBE_BACKOFF) && i < |es| && es[i].Select?
    ensures pk !in Probes(l, now, reachable)
    ensures pk !in Probes(After(Selected(l, now, reachable), es[..i]), es[i].now, es[i].reachable)
  {
    GivingUpHoldsBack(l, now, reachable, pk, addr, since);
    assert TurnOf(l, pk, reachable[pk], now).probe == None;
    NoProbeWhileHeldBack(Selected(l, now, reachable), es, pk, now + PROBE_BACKOFF);
  }

  // ---- The loop of `select` ----

  function RouteOf(t: Turn): Option<Addr> {
    if Routed(t.next) then Some(t.next.value.addr) else None
  }

  function Put<V>(m: map<PubKey, V>, pk: PubKey, v: Option<V>): map<PubKey, V> {
    if v.Some? then m[pk := v.value] else m - {pk}
  }

  /** Only this peer's state and backoff changed, as its turn says. */
  ghost predicate Took(l: Lan, pk: PubKey, t: Turn, m: Lan) {
    && m == l.(states := m.states, backoff := m.backoff)
    && m.states == Put(l.states, pk, t.next)
    && Get(m.backoff, pk) == t.backoff && forall q :: q != pk ==> Get(m.backoff, q) == Get(l.backoff, q)
  }

  ghost predicate HadTurn(t: Turn, pk: PubKey, m: Lan, out: map<PubKey, Addr>, probes: map<PubKey, Addr>) {
    && Get(m.states, pk) == t.next && Get(m.backoff, pk) == t.backoff
    && Get(out, pk) == RouteOf(t) && Get(probes, pk) == t.probe
  }

  ghost predicate NotYet(swept: Lan, pk: PubKey, m: Lan, out: map<PubKey, Addr>, probes: map<PubKey, Addr>) {
    && Get(m.states, pk) == Get(swept.states, pk) && Get(m.backoff, pk) == Get(swept.backoff, pk)
    && pk !in out && pk !in probes
  }

  /** The peers in `done` have had their turn, the others not yet. */
  ghost predicate Settled(swept: Lan, turns: map<PubKey, Turn>, done: set<PubKey>, m: Lan,
      out: map<PubKey, Addr>, probes: map<PubKey, Addr>)
  {
    && done <= turns.Keys
    && m == swept.(states := m.states, backoff := m.backoff)
    && (forall pk :: pk in done ==> HadTurn(turns[pk], pk, m, out, probes))
    && (forall pk :: pk !in done ==> NotYet(swept, pk, m, out, probes))
  }

  lemma OneMoreSettled(swept: Lan, turns: map<PubKey, Turn>, done: set<PubKey>, before: Lan,
      out: map<PubKey, Addr>, probes: map<PubKey, Addr>, pk: PubKey, m: Lan)
    requires Settled(swept, turns, done, before, out, probes) && pk in turns && pk !in done
    requires Took(before, pk, turns[pk], m)
    ensures Settled(swept, turns, done + {pk}, m, Put(out, pk, RouteOf(turns[pk])), Put(probes, pk, turns[pk].probe))
  {
    var out', probes' := Put(out, pk, RouteOf(turns[pk])), Put(probes, pk, turns[pk].probe);
    assert NotYet(swept, pk, before, out, probes);
    forall q | q in done ensures HadTurn(turns[q], q, m, out', probes') {
      assert HadTurn(turns[q], q, before, out, probes);
    }
    forall q | q !in done + {pk} ensures NotYet(swept, q, m, out', probes') {
      assert NotYet(swept, q, before, out, probes);
    }
  }

  /** A peer's turn does not depend on what the others' turns did. */
  lemma TurnUnaffected(swept: Lan, before: Lan, pk: PubKey, ok: bool, now: Time)
    requires before == swept.(states := before.states, backoff := before.backoff)
    requires Get(before.states, pk) == Get(swept.states, pk) && Get(before.backoff, pk) == Get(swept.backoff, pk)
    ensures TurnOf(before, pk, ok, now) == TurnOf(swept, pk, ok, now)
  {
  }

  lemma SweptTurns(l: Lan, now: Time, reachable: map<PubKey, bool>)
    ensures Turns(Swept(l, now, reachable), now, reachable) == Turns(l, now, reachable)
  {
    var s := Swept(l, now, reachable);
    forall pk | pk in reachable ensures TurnOf(s, pk, reachable[pk], now) == TurnOf(l, pk, reachable[pk], now) {
      assert FreshAck(s, pk, now) == FreshAck(l, pk, now);
      assert HasLive(s, pk, now) <==> HasLive(l, pk, now);
    }
  }

  lemma AllSettled(swept: Lan, turns: map<PubKey, Turn>, m: Lan, out: map<PubKey, Addr>, probes: map<PubKey, Addr>)
    requires Settled(swept, turns, turns.Keys, m, out, probes)
    requires swept.states.Keys <= turns.Keys && swept.backoff.Keys <= turns.Keys
    ensures m.states == Nexts(turns) && m.backoff == Backoffs(turns)
    ensures out == RoutesOf(turns) && probes == ProbesOf(turns)
  {
    forall pk ensures
      && Get(m.states, pk) == Get(Nexts(turns), pk) && Get(m.backoff, pk) == Get(Backoffs(turns), pk)
      && Get(out, pk) == Get(RoutesOf(turns), pk) && Get(probes, pk) == Get(ProbesOf(turns), pk)
    {
      if pk in turns {
        assert HadTurn(turns[pk], pk, m, out, probes);
      } else {
        assert NotYet(swept, pk, m, out, probes);
      }
    }
    SameMap(m.states, Nexts(turns));
    SameMap(m.backoff, Backoffs(turns));
    SameMap(out, RoutesOf(turns));
    SameMap(probes, ProbesOf(turns));
  }

  lemma SameMap<V>(a: map<PubKey, V>, b: map<PubKey, V>)
    requires forall pk :: Get(a, pk) == Get(b, pk)
    ensures a == b
  {
    forall pk ensures pk in a <==> pk in b {
      assert Get(a, pk) == Get(b, pk);
    }
    forall pk | pk in a ensures a[pk] == b[pk] {
      assert Get(a, pk) == Get(b, pk);
    }
  }

  // ---- What is remembered, and for how long ----

  /** Who was in the mesh at the last select. */
  function Mesh(es: seq<Event>): set<PubKey> {
    if |es| == 0 then {}
    else if es[|es| - 1].Select? then es[|es| - 1].reachable.Keys
    else Mesh(es[..|es| - 1])
  }

  lemma {:induction false} MembersAreMesh(es: seq<Event>)
    ensures After(INIT, es).members == Mesh(es)
  {
    if |es| > 0 {
      MembersAreMesh(es[..|es| - 1]);
    }
  }

  /** A datagram makes its sender's address the candidate exactly if the sender was in the mesh at the last select;
      from anybody else it changes nothing. */
  lemma HeardExactly(es: seq<Event>, pk: PubKey, addr: Addr, body: Body, now: Time)
    ensures
      var l, u := After(INIT, es), After(INIT, es + [Received(pk, addr, body, now)]);
      if pk in Mesh(es) then Get(u.candidates, pk) == Some(Candidate(addr, now)) else u == l
  {
    MembersAreMesh(es);
    AfterOn(INIT, es, Received(pk, addr, body, now));
  }

  /** Every select of the run comes before `end`. */
  ghost predicate SelectsBefore(es: seq<Event>, end: Time) {
    forall e :: e in es && e.Select? ==> e.now < end
  }

  /** Every select of the run meets the peer in the mesh. */
  ghost predicate KeepsInMesh(es: seq<Event>, pk: PubKey) {
    forall e :: e in es && e.Select? ==> pk in e.reachable
  }

  /** Until the next probe is sent, this one stays outstanding through a run exactly while the peer stays in the mesh
      and no select comes ninety seconds after it. */
  lemma {:induction false} ProbeOutstandingExactly(l: Lan, sent: Event, es: seq<Event>)
    requires sent.ProbeSent? && forall e :: e in es ==> !(e.ProbeSent? && e.pk == sent.pk)
    ensures Get(After(Do(l, sent), es).pending, sent.pk) ==
      if KeepsInMesh(es, sent.pk) && SelectsBefore(es, sent.now + 90) then Some(Probe(sent.nonce, sent.addr, sent.now))
      else None
  {
    if |es| > 0 {
      var before, e := es[..|es| - 1], es[|es| - 1];
      assert es == before + [e] && e in es;
      ProbeOutstandingExactly(l, sent, before);
    }
  }

  lemma AckStep(l: Lan, e: Event, pk: PubKey)
    requires !(e.Received? && e.pk == pk && e.body.AckBody?)
    ensures Get(Do(l, e).acks, pk) ==
      if e.Select? && pk in l.acks && e.now >= l.acks[pk].at + 10 then None else Get(l.acks, pk)
  {
  }

  /** Until the peer answers again, an ack is remembered through a run exactly while no select comes ten seconds after
      it. */
  lemma {:induction false} AckRememberedExactly(l: Lan, acked: Event, es: seq<Event>)
    requires AcceptsAck(l, acked)
    requires forall e :: e in es ==> !(e.Received? && e.pk == acked.pk && e.body.AckBody?)
    ensures Get(After(Do(l, acked), es).acks, acked.pk) ==
      if SelectsBefore(es, acked.now + 10) then Some(Ack(acked.addr, acked.now)) else None
  {
    if |es| > 0 {
      var before, e := es[..|es| - 1], es[|es| - 1];
      assert es == before + [e] && e in es;
      AckRememberedExactly(l, acked, before);
      AckStep(After(Do(l, acked), before), e, acked.pk);
    }
  }

  /** Until the peer is heard from again, its candidate is remembered through a run exactly while no select comes
      ninety seconds after it. */
  lemma {:induction false} CandidateRememberedExactly(l: Lan, heard: Event, es: seq<Event>)
    requires heard.Received? && heard.pk in l.members
    requires forall e :: e in es ==> !(e.Received? && e.pk == heard.pk)
    ensures Get(After(Do(l, heard), es).candidates, heard.pk) ==
      if SelectsBefore(es, heard.now + 90) then Some(Candidate(heard.addr, heard.now)) else None
  {
    if |es| > 0 {
      var before, e := es[..|es| - 1], es[|es| - 1];
      assert es == before + [e] && e in es;
      CandidateRememberedExactly(l, heard, before);
    }
  }

  // ---- The beacon as the source keeps it ----

  class BeaconState {
    var candidates: map<PubKey, Candidate>
    var members: set<PubKey>
    var acks: map<PubKey, Ack>
    var pending: map<PubKey, Probe>
    var backoff: map<PubKey, Time>
    var states: map<PubKey, LanState>

    ghost function View(): Lan
      reads this
    {
      Lan(candidates, members, acks, pending, backoff, states)
    }

    constructor ()
      ensures View() == INIT
    {
      candidates, members, acks, pending, backoff, states := map[], {}, map[], map[], map[], map[];
    }

    /** One datagram, as the receive task handles it. A probe is answered, echoing its nonce, exactly when
        its sender is in the mesh and its MAC verifies. */
    method Receive(pk: PubKey, addr: Addr, body: Body, now: Time) returns (reply: Option<Nonce>)
      modifies this
      ensures View() == Do(old(View()), Received(pk, addr, body, now))
      ensures reply == if pk in old(members) && body.ProbeBody? && body.genuine then Some(body.nonce) else None
    {
      reply := None;
      if pk !in members {
        return;
      }
      candidates := candidates[pk := Candidate(addr, now)];
      if body.ProbeBody? && body.genuine {
        reply := Some(body.nonce);
      }
      if body.AckBody? {
        var matches := pk in pending && pending[pk].nonce == body.nonce && Since(now, pending[pk].sent) < PROBE_ACK_TTL;
        if matches && body.genuine {
          acks := acks[pk := Ack(addr, now)];
        }
      }
    }

    method SendProbe(pk: PubKey, addr: Addr, nonce: Nonce, now: Time)
      modifies this
      ensures View() == Do(old(View()), ProbeSent(pk, addr, nonce, now))
    {
      pending := pending[pk := Probe(nonce, addr, now)];
    }

    method BeginPeer(pk: PubKey, cand: Candidate, now: Time) returns (next: Option<LanState>, probe: Option<Addr>)
      ensures Turn(next, Get(backoff, pk), probe) == Begin(cand, FreshAck(View(), pk, now), Get(backoff, pk), now)
    {
      if pk in acks && acks[pk].addr == cand.addr && Since(now, acks[pk].at) < PROBE_ACK_TTL {
        return Some(Trying(cand.addr, now)), None;
      }
      if pk in backoff && now < backoff[pk] {
        return None, None;
      }
      return Some(Probing(cand.addr, now)), Some(cand.addr);
    }

    method StepPeer(pk: PubKey, cand: Candidate, ok: bool, now: Time)
      returns (next: Option<LanState>, probe: Option<Addr>)
      modifies this`backoff
      ensures forall q :: q != pk ==> Get(backoff, q) == Get(old(backoff), q)
      ensures Turn(next, Get(backoff, pk), probe) ==
        Advance(Get(states, pk), cand, FreshAck(old(View()), pk, now), Get(old(backoff), pk), ok, now)
    {
      if pk !in states {
        next, probe := BeginPeer(pk, cand, now);
        return;
      }
      match states[pk] {
        case Probing(addr, since) =>
          if pk in acks && acks[pk].addr == addr && Since(now, acks[pk].at) < PROBE_ACK_TTL {
            return Some(Trying(addr, now)), None;
          }
          if Since(now, since) >= PROBE_GRACE {
            backoff := backoff[pk := now + PROBE_BACKOFF];
            return None, None;
          }
          return Some(Probing(addr, since)), Some(addr);
        case Trying(addr, since) =>
          var waited := Since(now, since);
          if waited < SETTLE {
            return Some(Trying(addr, since)), None;
          } else if ok {
            return Some(Active(addr, now)), None;
          } else if waited >= VERIFY_GRACE {
            return Some(Failed(addr, now + RETRY_COOLDOWN)), None;
          }
          return Some(Trying(addr, since)), None;
        case Active(addr, lastOk) =>
          if ok {
            return Some(Active(addr, now)), None;
          } else if Since(now, lastOk) >= STALE_GRACE {
            return Some(Failed(addr, now + RETRY_COOLDOWN)), None;
          }
          return Some(Active(addr, lastOk)), None;
        case Failed(addr, until) =>
          if now < until {
            return Some(Failed(addr, until)), None;
          }
          next, probe := BeginPeer(pk, cand, now);
      }
    }

    /** Publishes the members and drops whatever is too old or belongs to nobody in the mesh. */
    method Sweep(now: Time, reachable: map<PubKey, bool>)
      modifies this
      ensures View() == Swept(old(View()), now, reachable)
    {
      members := reachable.Keys;
      candidates := candidates - set pk | pk in candidates && !Live(candidates[pk], now);
      acks := acks - set pk | pk in acks && Since(now, acks[pk].at) >= PROBE_ACK_TTL;
      pending := pending - set pk | pk in pending && (pk !in reachable || Since(now, pending[pk].sent) >= CAND_TTL);
      states := states - (states.Keys - reachable.Keys);
      backoff := backoff - (backoff.Keys - reachable.Keys);
    }

    /** One peer's part of the loop: its new state, where to route it, and what to probe. */
    method TakeTurn(pk: PubKey, ok: bool, now: Time) returns (route: Option<Addr>, probe: Option<Addr>)
      requires forall q :: q in candidates ==> Live(candidates[q], now)
      modifies this`states, this`backoff
      ensures Took(old(View()), pk, TurnOf(old(View()), pk, ok, now), View())
      ensures route == RouteOf(TurnOf(old(View()), pk, ok, now)) && probe == TurnOf(old(View()), pk, ok, now).probe
    {
      if pk !in candidates {
        states := states - {pk};
        return None, None;
      }
      var next;
      next, probe := StepPeer(pk, candidates[pk], ok, now);
      route := None;
      match next {
        case Some(state) =>
          if state.Trying? || state.Active? {
            route := Some(state.addr);
          }
          states := states[pk := state];
        case None =>
          states := states - {pk};
      }
    }

    /** One iteration. `probes` are the probes it asks for; whether they are sent is up to the queue. */
    method Select(now: Time, reachable: map<PubKey, bool>) returns (out: map<PubKey, Addr>, probes: map<PubKey, Addr>)
      modifies this
      ensures View() == Selected(old(View()), now, reachable)
      ensures out == Routes(old(View()), now, reachable) && probes == Probes(old(View()), now, reachable)
    {
      ghost var l, turns, done := View(), Turns(View(), now, reachable), {};
      Sweep(now, reachable);
      ghost var swept := View();
      SweptTurns(l, now, reachable);
      out, probes := map[], map[];
      var rest := reachable.Keys;
      while rest != {}
        invariant done !! rest && done + rest == reachable.Keys
        invariant Settled(swept, turns, done, View(), out, probes)
        decreases rest
        modifies this`states, this`backoff
      {
        var pk :| pk in rest;
        ghost var before := View();
        assert NotYet(swept, pk, before, out, probes);
        TurnUnaffected(swept, before, pk, reachable[pk], now);
        assert turns[pk] == TurnOf(swept, pk, reachable[pk], now);
        var route, probe := TakeTurn(pk, reachable[pk], now);
        OneMoreSettled(swept, turns, done, before, out, probes, pk, View());
        out, probes := Put(out, pk, route), Put(probes, pk, probe);
        rest, done := rest - {pk}, done + {pk};
      }
      assert done == turns.Keys;
      AllSettled(swept, turns, View(), out, probes);
    }
  }
}
