/**
 The single-flight gate of the Discord caches (`Flight::dedup` in crates/coordinator/src/discord.rs).

 Callers interleave freely, so the gate is a transition system: one task per caller, one step for each
 stretch of `dedup` that runs without being interrupted (a map-lock critical section, acquiring the
 gate, the re-check, the end of the fetch, each release), a cancellation step at each await, and an
 invalidation step, possible at any time, for an entry that expires or is forgotten. A run is a sequence
 of such steps.
 */
module Flight {
  import opened Prelude

  type Key = nat
  type Caller = nat
  type Gate = nat
  type Value = nat

  datatype Source = Hit | Fetched | Failed

  datatype Answer = Answer(value: Value, source: Source)

  /** Where a caller stands in `dedup`. From `Queued` to `Dropping` it owns a clone of the gate. */
  datatype Stage =
    | Missed                                // first look at the cache missed
    | Queued(gate: Gate)                    // awaiting the gate
    | Entered(gate: Gate)                   // holds the gate, about to re-check
    | Fetching(gate: Gate)                  // holds the gate, awaiting its fetch
    | Ready(gate: Gate, answer: Answer)     // holds the gate, answer known
    | Leaving(gate: Gate, answer: Answer)   // gate released, clean-up check ahead
    | Dropping(gate: Gate, answer: Answer)  // check done, clone not dropped yet
    | Done(answer: Answer)
    | Cancelled

  datatype Task = Task(key: Key, stage: Stage)

  datatype State = State(
    gates: map<Key, Gate>,
    locks: map<Gate, Caller>,
    tasks: map<Caller, Task>,
    cache: map<Key, Value>,
    nextGate: Gate)

  datatype Step =
    | Call(c: Caller, k: Key)
    | Clone(c: Caller)
    | Acquire(c: Caller)
    | Recheck(c: Caller)
    | Succeed(c: Caller, v: Value)
    | Fail(c: Caller, v: Value)
    | Release(c: Caller)
    | Cleanup(c: Caller)
    | Drop(c: Caller)
    | Cancel(c: Caller)
    | Invalidate(k: Key)

  const INIT := State(map[], map[], map[], map[], 0)

  // ---- Reading a state ----

  /** The caller owns a clone of gate `g`. */
  predicate Owns(s: State, c: Caller, g: Gate) {
    c in s.tasks &&
    match s.tasks[c].stage
    case Queued(h) => h == g
    case Entered(h) => h == g
    case Fetching(h) => h == g
    case Ready(h, _) => h == g
    case Leaving(h, _) => h == g
    case Dropping(h, _) => h == g
    case _ => false
  }

  /** The caller is inside the gate `g`. */
  predicate Inside(s: State, c: Caller, g: Gate) {
    c in s.tasks &&
    match s.tasks[c].stage
    case Entered(h) => h == g
    case Fetching(h) => h == g
    case Ready(h, _) => h == g
    case _ => false
  }

  predicate IsFetching(s: State, c: Caller, k: Key) {
    c in s.tasks && s.tasks[c].key == k && s.tasks[c].stage.Fetching?
  }

  function Owners(s: State, g: Gate): set<Caller> {
    set c | c in s.tasks && Owns(s, c, g)
  }

  /** `Arc::strong_count`: the clones held by callers and the ones in the map. */
  function StrongCount(s: State, g: Gate): nat {
    |Owners(s, g)| + |set k | k in s.gates && s.gates[k] == g|
  }

  // ---- Steps ----

  predicate At(s: State, c: Caller) {
    c in s.tasks
  }

  predicate Enabled(s: State, t: Step) {
    match t
    case Call(c, _) => c !in s.tasks
    case Clone(c) => At(s, c) && s.tasks[c].stage.Missed?
    case Acquire(c) => At(s, c) && s.tasks[c].stage.Queued? && s.tasks[c].stage.gate !in s.locks
    case Recheck(c) => At(s, c) && s.tasks[c].stage.Entered?
    case Succeed(c, _) => At(s, c) && s.tasks[c].stage.Fetching?
    case Fail(c, _) => At(s, c) && s.tasks[c].stage.Fetching?
    case Release(c) => At(s, c) && s.tasks[c].stage.Ready?
    case Cleanup(c) => At(s, c) && s.tasks[c].stage.Leaving?
    case Drop(c) => At(s, c) && s.tasks[c].stage.Dropping?
    case Cancel(c) => At(s, c) && (s.tasks[c].stage.Queued? || s.tasks[c].stage.Fetching?)
    case Invalidate(_) => true
  }

  function Move(s: State, c: Caller, stage: Stage): State
    requires c in s.tasks
  {
    s.(tasks := s.tasks[c := Task(s.tasks[c].key, stage)])
  }

  function Next(s: State, t: Step): State
    requires Enabled(s, t)
  {
    match t
    case Call(c, k) =>
      var stage := if k in s.cache then Done(Answer(s.cache[k], Hit)) else Missed;
      s.(tasks := s.tasks[c := Task(k, stage)])
    case Clone(c) =>
      var k := s.tasks[c].key;
      if k in s.gates then Move(s, c, Queued(s.gates[k]))
      else Move(s, c, Queued(s.nextGate)).(gates := s.gates[k := s.nextGate], nextGate := s.nextGate + 1)
    case Acquire(c) =>
      var g := s.tasks[c].stage.gate;
      Move(s, c, Entered(g)).(locks := s.locks[g := c])
    case Recheck(c) =>
      var k, g := s.tasks[c].key, s.tasks[c].stage.gate;
      Move(s, c, if k in s.cache then Ready(g, Answer(s.cache[k], Hit)) else Fetching(g))
    case Succeed(c, v) =>
      Move(s, c, Ready(s.tasks[c].stage.gate, Answer(v, Fetched))).(cache := s.cache[s.tasks[c].key := v])
    case Fail(c, v) =>
      Move(s, c, Ready(s.tasks[c].stage.gate, Answer(v, Failed)))
    case Release(c) =>
      var g := s.tasks[c].stage.gate;
      Move(s, c, Leaving(g, s.tasks[c].stage.answer)).(locks := s.locks - {g})
    case Cleanup(c) =>
      var k, g := s.tasks[c].key, s.tasks[c].stage.gate;
      Move(s, c, Dropping(g, s.tasks[c].stage.answer))
        .(gates := if StrongCount(s, g) == 2 then s.gates - {k} else s.gates)
    case Drop(c) =>
      Move(s, c, Done(s.tasks[c].stage.answer))
    case Cancel(c) =>
      var g := s.tasks[c].stage.gate;
      Move(s, c, Cancelled).(locks := if s.tasks[c].stage.Fetching? then s.locks - {g} else s.locks)
    case Invalidate(k) =>
      s.(cache := s.cache - {k})
  }

  /** Every step of the sequence is enabled when its turn comes. */
  predicate Runs(s: State, ts: seq<Step>)
    decreases |ts|
  {
    |ts| == 0 || (Enabled(s, ts[0]) && Runs(Next(s, ts[0]), ts[1..]))
  }

  function After(s: State, ts: seq<Step>): State
    requires Runs(s, ts)
    decreases |ts|
  {
    if |ts| == 0 then s else After(Next(s, ts[0]), ts[1..])
  }

  // ---- The invariant ----

  /** A caller that has not yet made its clean-up check owns the gate the map holds for its key. */
  ghost predicate Registered(s: State) {
    forall c, g :: Owns(s, c, g) && !s.tasks[c].stage.Dropping? ==>
      s.tasks[c].key in s.gates && s.gates[s.tasks[c].key] == g
  }

  /** A gate admits one caller, and is locked exactly while that caller is inside. */
  ghost predicate Exclusive(s: State) {
    && (forall c, g :: Inside(s, c, g) ==> g in s.locks && s.locks[g] == c)
    && (forall g :: g in s.locks ==> Inside(s, s.locks[g], g))
  }

  ghost predicate Numbered(s: State) {
    && (forall c, g: Gate :: Owns(s, c, g) ==> g < s.nextGate)
    && (forall k :: k in s.gates ==> s.gates[k] < s.nextGate)
    && (forall k, l :: k in s.gates && l in s.gates && s.gates[k] == s.gates[l] ==> k == l)
  }

  ghost predicate FetchesOnlyMisses(s: State) {
    forall c, k :: IsFetching(s, c, k) ==> k !in s.cache
  }

  ghost predicate Inv(s: State) {
    Registered(s) && Exclusive(s) && Numbered(s) && FetchesOnlyMisses(s)
  }

  /** At the clean-up check the count is two exactly when nobody else owns a clone. */
  lemma CountIsTwoWhenAlone(s: State, c: Caller, g: Gate)
    requires Inv(s) && Owns(s, c, g) && !s.tasks[c].stage.Dropping?
    ensures StrongCount(s, g) == 2 <==> forall d :: Owns(s, d, g) ==> d == c
  {
    var k := s.tasks[c].key;
    assert (set l | l in s.gates && s.gates[l] == g) == {k};
    assert c in Owners(s, g);
    assert Owners(s, g) == {c} + (Owners(s, g) - {c});
    if |Owners(s, g)| == 1 {
      assert Owners(s, g) - {c} == {};
      forall d | Owns(s, d, g) ensures d == c {
        assert d in Owners(s, g);
      }
    } else {
      var d :| d in Owners(s, g) - {c};
      assert Owns(s, d, g);
    }
  }

  /** A step changes no task but the one that takes it. */
  lemma OthersStand(s: State, t: Step, d: Caller)
    requires Enabled(s, t) && d in Next(s, t).tasks && (t.Invalidate? || t.c != d)
    ensures d in s.tasks && Next(s, t).tasks[d] == s.tasks[d]
  {
  }

  lemma NextKeepsNumbered(s: State, t: Step)
    requires Inv(s) && Enabled(s, t)
    ensures Numbered(Next(s, t))
  {
    var u := Next(s, t);
    forall c, g: Gate | Owns(u, c, g) ensures g < u.nextGate {
      if t.Invalidate? || t.c != c {
        OthersStand(s, t, c);
        assert Owns(s, c, g);
      } else if !t.Clone? {
        assert Owns(s, c, g);
      }
    }
  }

  lemma NextKeepsRegistered(s: State, t: Step)
    requires Inv(s) && Enabled(s, t)
    ensures Registered(Next(s, t))
  {
    var u := Next(s, t);
    forall c, g | Owns(u, c, g) && !u.tasks[c].stage.Dropping?
      ensures u.tasks[c].key in u.gates && u.gates[u.tasks[c].key] == g
    {
      if t.Invalidate? || t.c != c {
        OthersStand(s, t, c);
        assert Owns(s, c, g);
        if t.Cleanup? {
          CountIsTwoWhenAlone(s, t.c, s.tasks[t.c].stage.gate);
          assert Owns(s, t.c, s.tasks[t.c].stage.gate);
        }
      } else if !t.Clone? {
        assert Owns(s, c, g);
      }
    }
  }

  lemma NextKeepsExclusive(s: State, t: Step)
    requires Inv(s) && Enabled(s, t)
    ensures Exclusive(Next(s, t))
  {
    var u := Next(s, t);
    if !t.Invalidate? && t.c in s.tasks && s.tasks[t.c].stage.Fetching? {
      assert Inside(s, t.c, s.tasks[t.c].stage.gate);
    }
    if t.Release? || t.Recheck? {
      assert Inside(s, t.c, s.tasks[t.c].stage.gate);
    }
    forall c, g | Inside(u, c, g) ensures g in u.locks && u.locks[g] == c {
      if t.Invalidate? || t.c != c {
        OthersStand(s, t, c);
        assert Inside(s, c, g);
      }
    }
    forall g | g in u.locks ensures Inside(u, u.locks[g], g) {
      if g in s.locks && (t.Invalidate? || t.c != s.locks[g]) {
        assert Inside(s, s.locks[g], g);
        assert u.tasks[s.locks[g]] == s.tasks[s.locks[g]];
      }
    }
  }

  lemma NextKeepsFetchesOnlyMisses(s: State, t: Step)
    requires Inv(s) && Enabled(s, t)
    ensures FetchesOnlyMisses(Next(s, t))
  {
    var u := Next(s, t);
    forall c, k | IsFetching(u, c, k) ensures k !in u.cache {
      if t.Invalidate? || t.c != c {
        OthersStand(s, t, c);
        assert IsFetching(s, c, k);
        if t.Succeed? && s.tasks[t.c].key == k {
          OneFetchPerKey(s, k, c, t.c);
        }
      }
    }
  }

  lemma NextKeepsInv(s: State, t: Step)
    requires Inv(s) && Enabled(s, t)
    ensures Inv(Next(s, t))
  {
    NextKeepsNumbered(s, t);
    NextKeepsRegistered(s, t);
    NextKeepsExclusive(s, t);
    NextKeepsFetchesOnlyMisses(s, t);
  }

  /** Two callers fetching one key are one caller. */
  lemma OneFetchPerKey(s: State, k: Key, c: Caller, d: Caller)
    requires Inv(s) && IsFetching(s, c, k) && IsFetching(s, d, k)
    ensures c == d
  {
    assert Owns(s, c, s.tasks[c].stage.gate) && Owns(s, d, s.tasks[d].stage.gate);
    assert Inside(s, c, s.tasks[c].stage.gate) && Inside(s, d, s.tasks[d].stage.gate);
  }

  lemma {:induction false} RunKeepsInv(s: State, ts: seq<Step>)
    requires Inv(s) && Runs(s, ts)
    ensures Inv(After(s, ts))
    decreases |ts|
  {
    if |ts| > 0 {
      NextKeepsInv(s, ts[0]);
      RunKeepsInv(Next(s, ts[0]), ts[1..]);
    }
  }

  lemma InitInv()
    ensures Inv(INIT)
  {
  }

  // ---- What holds in every interleaving ----

  /** At any point of any run, at most one fetch per key is in flight. */
  lemma AtMostOneFetch(ts: seq<Step>, k: Key, c: Caller, d: Caller)
    requires Runs(INIT, ts)
    requires IsFetching(After(INIT, ts), c, k) && IsFetching(After(INIT, ts), d, k)
    ensures c == d
  {
    InitInv();
    RunKeepsInv(INIT, ts);
    OneFetchPerKey(After(INIT, ts), k, c, d);
  }

  /** In every reachable state a gate leaves the map exactly by the clean-up of its one and only owner; until then
      its key keeps it. */
  lemma RemovalOnlyWhenAlone(ts: seq<Step>, t: Step, k: Key)
    requires Runs(INIT, ts) && Enabled(After(INIT, ts), t) && k in After(INIT, ts).gates
    ensures
      var s, u := After(INIT, ts), Next(After(INIT, ts), t);
      && (k !in u.gates <==> t.Cleanup? && forall d :: Owns(s, d, s.gates[k]) <==> d == t.c)
      && (k in u.gates ==> u.gates[k] == s.gates[k])
  {
    var s := After(INIT, ts);
    InitInv();
    RunKeepsInv(INIT, ts);
    if t.Cleanup? {
      var g := s.tasks[t.c].stage.gate;
      assert Owns(s, t.c, g);
      CountIsTwoWhenAlone(s, t.c, g);
      if forall d :: Owns(s, d, s.gates[k]) <==> d == t.c {
        assert Owns(s, t.c, s.gates[k]);
      }
    }
  }

  /** A caller can be dropped at either await, for the gate or for its fetch, and then keeps nothing: the gate and the
      cache are as they were, and whoever waits for a gate can enter it exactly if nobody is inside. */
  lemma CancelledKeepsNothing(ts: seq<Step>, c: Caller)
    requires Runs(INIT, ts) && c in After(INIT, ts).tasks
    requires After(INIT, ts).tasks[c].stage.Queued? || After(INIT, ts).tasks[c].stage.Fetching?
    ensures Enabled(After(INIT, ts), Cancel(c))
    ensures
      var s, u := After(INIT, ts), Next(After(INIT, ts), Cancel(c));
      && u.gates == s.gates && u.cache == s.cache && u.tasks.Keys == s.tasks.Keys
      && (forall g :: !Owns(u, c, g)) && (forall d :: d in s.tasks && d != c ==> u.tasks[d] == s.tasks[d])
      && forall d :: d in u.tasks && u.tasks[d].stage.Queued? ==>
           (Enabled(u, Acquire(d)) <==> forall e :: !Inside(u, e, u.tasks[d].stage.gate))
  {
    var s, u := After(INIT, ts), Next(After(INIT, ts), Cancel(c));
    InitInv();
    RunKeepsInv(INIT, ts);
    NextKeepsInv(s, Cancel(c));
    forall d | d in u.tasks && u.tasks[d].stage.Queued?
      ensures Enabled(u, Acquire(d)) <==> forall e :: !Inside(u, e, u.tasks[d].stage.gate)
    {
      var g := u.tasks[d].stage.gate;
      if g in u.locks {
        assert Inside(u, u.locks[g], g);
      }
    }
  }

  /** No caller is stuck: whoever waits finds the gate free, or its holder able to move on by itself. */
  lemma WaitersCanBeServed(ts: seq<Step>, c: Caller)
    requires Runs(INIT, ts) && c in After(INIT, ts).tasks && After(INIT, ts).tasks[c].stage.Queued?
    ensures
      var s := After(INIT, ts);
      var g := s.tasks[c].stage.gate;
      || Enabled(s, Acquire(c))
      || (g in s.locks && exists t ::
            Enabled(s, t) && !t.Cancel? && !t.Invalidate? && t.c == s.locks[g])
  {
    var s := After(INIT, ts);
    InitInv();
    RunKeepsInv(INIT, ts);
    var g := s.tasks[c].stage.gate;
    if g in s.locks {
      var h := s.locks[g];
      assert Inside(s, h, g);
      var t := match s.tasks[h].stage
        case Entered(_) => Recheck(h)
        case Fetching(_) => Fail(h, 0)
        case _ => Release(h);
      assert Enabled(s, t) && t.c == h;
    }
  }

  // ---- Counting fetches ----

  /** How many fetches for `k` succeed along the run. */
  function Successes(s: State, ts: seq<Step>, k: Key): nat
    requires Runs(s, ts)
    decreases |ts|
  {
    if |ts| == 0 then 0
    else
      (if ts[0].Succeed? && s.tasks[ts[0].c].key == k then 1 else 0) + Successes(Next(s, ts[0]), ts[1..], k)
  }

  /** How many times the run loses a cached entry of `k`, expired or forgotten. */
  function Losses(s: State, ts: seq<Step>, k: Key): nat
    requires Runs(s, ts)
    decreases |ts|
  {
    if |ts| == 0 then 0
    else (if ts[0] == Invalidate(k) && k in s.cache then 1 else 0) + Losses(Next(s, ts[0]), ts[1..], k)
  }

  function Present(s: State, k: Key): nat {
    if k in s.cache then 1 else 0
  }

  /** Successful fetches and losses alternate: the cache entry is the balance between them. */
  lemma {:induction false} FetchesBalance(s: State, ts: seq<Step>, k: Key)
    requires Inv(s) && Runs(s, ts)
    ensures Present(s, k) + Successes(s, ts, k) == Losses(s, ts, k) + Present(After(s, ts), k)
    decreases |ts|
  {
    if |ts| > 0 {
      NextKeepsInv(s, ts[0]);
      if ts[0].Succeed? {
        assert IsFetching(s, ts[0].c, s.tasks[ts[0].c].key);
      }
      FetchesBalance(Next(s, ts[0]), ts[1..], k);
    }
  }

  /** From a cold start, a key is fetched successfully at most once more than its entry was lost. */
  lemma SuccessesBound(ts: seq<Step>, k: Key)
    requires Runs(INIT, ts)
    ensures Successes(INIT, ts, k) <= Losses(INIT, ts, k) + 1
  {
    InitInv();
    FetchesBalance(INIT, ts, k);
  }

  // ---- What queued callers are told ----

  function AnswerOf(s: State, c: Caller): Option<Answer> {
    if c !in s.tasks then None
    else match s.tasks[c].stage
      case Ready(_, a) => Some(a)
      case Leaving(_, a) => Some(a)
      case Dropping(_, a) => Some(a)
      case Done(a) => Some(a)
      case _ => None
  }

  /** The caller asked for `k` and has an answer that is not a failed fetch's. */
  predicate Informed(s: State, c: Caller, k: Key) {
    c in s.tasks && s.tasks[c].key == k && AnswerOf(s, c).Some? && !AnswerOf(s, c).value.source.Failed?
  }

  /** Every answer for `k` that does not come from a failed fetch is the cached one. */
  ghost predicate Agree(s: State, k: Key) {
    forall c :: Informed(s, c, k) ==> k in s.cache && AnswerOf(s, c).value.value == s.cache[k]
  }

  lemma {:induction false} RunKeepsAgree(s: State, ts: seq<Step>, k: Key)
    requires Inv(s) && Agree(s, k) && Runs(s, ts) && Losses(s, ts, k) == 0
    ensures Agree(After(s, ts), k)
    ensures k in s.cache ==> k in After(s, ts).cache && After(s, ts).cache[k] == s.cache[k]
    decreases |ts|
  {
    if |ts| > 0 {
      var u := Next(s, ts[0]);
      if ts[0].Succeed? {
        assert IsFetching(s, ts[0].c, s.tasks[ts[0].c].key);
      }
      forall c | Informed(u, c, k)
        ensures k in u.cache && AnswerOf(u, c).value.value == u.cache[k]
      {
        if ts[0].Invalidate? || ts[0].c != c {
          OthersStand(s, ts[0], c);
          assert Informed(s, c, k);
        } else if ts[0].Release? || ts[0].Cleanup? || ts[0].Drop? {
          assert Informed(s, c, k);
        }
      }
      NextKeepsInv(s, ts[0]);
      RunKeepsAgree(u, ts[1..], k);
    }
  }

  /** The caller has not come yet, waits for the gate, was cancelled, or has the cached answer as a hit. */
  predicate HitAhead(s: State, c: Caller, k: Key, v: Value) {
    c in s.tasks && s.tasks[c].key == k ==>
      match s.tasks[c].stage
      case Missed => true
      case Queued(_) => true
      case Entered(_) => true
      case Cancelled => true
      case _ => AnswerOf(s, c) == Some(Answer(v, Hit))
  }

  lemma HitAheadNext(s: State, t: Step, c: Caller, k: Key)
    requires Enabled(s, t) && k in s.cache && t != Invalidate(k)
    requires !(t.Succeed? && s.tasks[t.c].key == k)
    requires HitAhead(s, c, k, s.cache[k])
    ensures k in Next(s, t).cache && Next(s, t).cache[k] == s.cache[k]
    ensures HitAhead(Next(s, t), c, k, s.cache[k])
  {
    if !t.Invalidate? && t.c != c && c in Next(s, t).tasks {
      OthersStand(s, t, c);
    }
  }

  lemma {:induction false} RunKeepsHitAhead(s: State, ts: seq<Step>, c: Caller, k: Key)
    requires Inv(s) && Runs(s, ts) && Losses(s, ts, k) == 0
    requires k in s.cache && HitAhead(s, c, k, s.cache[k])
    ensures HitAhead(After(s, ts), c, k, s.cache[k])
    decreases |ts|
  {
    if |ts| > 0 {
      if ts[0].Succeed? {
        assert IsFetching(s, ts[0].c, s.tasks[ts[0].c].key);
      }
      HitAheadNext(s, ts[0], c, k);
      NextKeepsInv(s, ts[0]);
      RunKeepsHitAhead(Next(s, ts[0]), ts[1..], c, k);
    }
  }

  /** Every caller still waiting for the gate when the key is cached, and every caller that comes later, is
      answered from the cache: it cannot end with a fetch of its own, let alone a failed one. */
  lemma WaitersGetTheCachedAnswer(before: seq<Step>, after: seq<Step>, k: Key, c: Caller)
    requires Runs(INIT, before) && Runs(After(INIT, before), after) && Losses(After(INIT, before), after, k) == 0
    requires k in After(INIT, before).cache
    requires
      var s := After(INIT, before);
      c in s.tasks ==>
        s.tasks[c].key == k && (s.tasks[c].stage.Missed? || s.tasks[c].stage.Queued? || s.tasks[c].stage.Entered?)
    ensures
      var (s, u) := (After(INIT, before), After(After(INIT, before), after));
      c in u.tasks && u.tasks[c].key == k && AnswerOf(u, c).Some? ==> AnswerOf(u, c) == Some(Answer(s.cache[k], Hit))
  {
    InitInv();
    RunKeepsInv(INIT, before);
    RunKeepsHitAhead(After(INIT, before), after, c, k);
  }

  /** With no loss of the entry in between, everyone who asked for `k` and was not handed a failure gets one
      and the same answer, and once it is cached no further fetch for `k` is in flight. */
  lemma QueuedCallersShareTheFetch(before: seq<Step>, after: seq<Step>, k: Key, c: Caller)
    requires Runs(INIT, before) && Runs(After(INIT, before), after)
    requires Losses(INIT, before, k) == 0 && Losses(After(INIT, before), after, k) == 0
    requires k in After(INIT, before).cache
    ensures
      var (s, u) := (After(INIT, before), After(After(INIT, before), after));
      && !IsFetching(u, c, k)
      && (Informed(u, c, k) ==> AnswerOf(u, c).value.value == s.cache[k])
      && Successes(s, after, k) == 0
  {
    var s := After(INIT, before);
    InitInv();
    RunKeepsInv(INIT, before);
    RunKeepsAgree(INIT, before, k);
    RunKeepsInv(s, after);
    RunKeepsAgree(s, after, k);
    FetchesBalance(s, after, k);
  }

  // ---- What forgetting an entry achieves ----

  /** The answers for `k` fetched along the run by callers whose fetch was not in flight at its start, in `base`. */
  function FetchedSince(base: State, s: State, ts: seq<Step>, k: Key): set<Value>
    requires Runs(s, ts)
    decreases |ts|
  {
    if |ts| == 0 then {}
    else
      (if ts[0].Succeed? && s.tasks[ts[0].c].key == k && !IsFetching(base, ts[0].c, k) then {ts[0].v} else {})
      + FetchedSince(base, Next(s, ts[0]), ts[1..], k)
  }

  /** The run gives caller `d`, who had no answer for `k` yet, one that no fetch begun in the run brought. */
  ghost predicate ToldStale(s: State, ts: seq<Step>, d: Caller, k: Key) {
    && Runs(s, ts) && !Informed(s, d, k) && Informed(After(s, ts), d, k)
    && AnswerOf(After(s, ts), d).value.value !in FetchedSince(s, s, ts, k)
  }

  /** What is cached for `k`, and what was answered since `base`, is one of `vs`. */
  ghost predicate Only(base: State, s: State, k: Key, vs: set<Value>) {
    && (k in s.cache ==> s.cache[k] in vs)
    && forall d :: Informed(s, d, k) && !Informed(base, d, k) ==> AnswerOf(s, d).value.value in vs
  }

  lemma NextKeepsOnly(base: State, s: State, t: Step, k: Key, vs: set<Value>)
    requires Only(base, s, k, vs) && Enabled(s, t)
    requires t.Succeed? && s.tasks[t.c].key == k ==> t.v in vs
    ensures Only(base, Next(s, t), k, vs)
  {
    var u := Next(s, t);
    forall d | Informed(u, d, k) && !Informed(base, d, k) ensures AnswerOf(u, d).value.value in vs {
      if t.Invalidate? || t.c != d {
        OthersStand(s, t, d);
        assert Informed(s, d, k);
      } else if t.Release? || t.Cleanup? || t.Drop? {
        assert Informed(s, d, k);
      }
    }
  }

  lemma {:induction false} RunKeepsOnly(base: State, s: State, ts: seq<Step>, k: Key, vs: set<Value>)
    requires Only(base, s, k, vs) && Runs(s, ts) && forall c :: !IsFetching(base, c, k)
    ensures Only(base, After(s, ts), k, vs + FetchedSince(base, s, ts, k))
    decreases |ts|
  {
    if |ts| > 0 {
      var t := ts[0];
      var more := if t.Succeed? && s.tasks[t.c].key == k then vs + {t.v} else vs;
      NextKeepsOnly(base, s, t, k, more);
      RunKeepsOnly(base, Next(s, t), ts[1..], k, more);
      assert more + FetchedSince(base, Next(s, t), ts[1..], k) == vs + FetchedSince(base, s, ts, k);
    } else {
      assert vs + {} == vs;
    }
  }

  lemma {:induction false} NewCaller(s: set<Caller>) returns (d: Caller)
    ensures forall c :: c in s ==> c < d
  {
    if s == {} {
      return 0;
    }
    var c :| c in s;
    var e := NewCaller(s - {c});
    d := Max(e, c + 1);
    assert s == (s - {c}) + {c};
  }

  /** A fetch that is in flight stores its answer later, and hands it to whoever comes after. */
  lemma FetchInFlightReturns(s: State, c: Caller, k: Key, d: Caller, v: Value)
    requires IsFetching(s, c, k) && d !in s.tasks
    ensures ToldStale(s, [Succeed(c, v), Call(d, k)], d, k)
  {
    var ts := [Succeed(c, v), Call(d, k)];
    var u := Next(s, ts[0]);
    assert ts[1..] == [Call(d, k)] && [Call(d, k)][1..] == [];
    assert Enabled(u, Call(d, k)) && Runs(u, ts[1..]);
    assert After(u, ts[1..]) == After(Next(u, Call(d, k)), []);
    assert FetchedSince(s, u, ts[1..], k) == {};
  }

  /** Forgetting an entry sends everybody after it to a fetch begun after it exactly if no fetch of that key was in
      flight when it was forgotten; and if one was, even callers that come later can be told its answer. */
  lemma ForgetExactly(before: seq<Step>, k: Key)
    requires Runs(INIT, before)
    ensures
      var s := Next(After(INIT, before), Invalidate(k));
      && ((exists ts, d :: ToldStale(s, ts, d, k)) <==> exists c :: IsFetching(s, c, k))
      && ((exists ts, d :: d !in s.tasks && ToldStale(s, ts, d, k)) <==> exists c :: IsFetching(s, c, k))
  {
    var s := Next(After(INIT, before), Invalidate(k));
    if c :| IsFetching(s, c, k) {
      var d := NewCaller(s.tasks.Keys);
      FetchInFlightReturns(s, c, k, d, 0);
    } else {
      forall ts, d ensures !ToldStale(s, ts, d, k) {
        if ToldStale(s, ts, d, k) {
          RunKeepsOnly(s, s, ts, k, {});
        }
      }
    }
  }

  /** Caller 1 is about to be answered 9 by its fetch of key 7. */
  const FETCHING := State(map[7 := 0], map[0 := 1], map[1 := Task(7, Fetching(0))], map[], 1)

  lemma FetchingIsReached()
    ensures Runs(INIT, [Call(1, 7), Clone(1), Acquire(1), Recheck(1)])
    ensures After(INIT, [Call(1, 7), Clone(1), Acquire(1), Recheck(1)]) == FETCHING
  {
    var ts := [Call(1, 7), Clone(1), Acquire(1), Recheck(1)];
    assert ts[1..] == [Clone(1), Acquire(1), Recheck(1)] && ts[1..][1..] == [Acquire(1), Recheck(1)];
    assert ts[1..][1..][1..] == [Recheck(1)] && ts[1..][1..][1..][1..] == [];
    var missed := State(map[], map[], map[1 := Task(7, Missed)], map[], 0);
    var queued := State(map[7 := 0], map[], map[1 := Task(7, Queued(0))], map[], 1);
    var entered := State(map[7 := 0], map[0 := 1], map[1 := Task(7, Entered(0))], map[], 1);
    assert Next(INIT, Call(1, 7)) == missed;
    assert Next(missed, Clone(1)) == queued;
    assert Next(queued, Acquire(1)) == entered;
    assert Next(entered, Recheck(1)) == FETCHING;
  }

  /** So a run: a fetch begins, the entry is forgotten, the fetch ends, and a caller that came after all that is
      told its answer as a hit. */
  lemma ForgottenAnswerComesBack()
    ensures
      var before, after := [Call(1, 7), Clone(1), Acquire(1), Recheck(1)], [Succeed(1, 9), Call(2, 7)];
      && Runs(INIT, before)
      && var s := Next(After(INIT, before), Invalidate(7));
         && Runs(s, after) && ToldStale(s, after, 2, 7)
         && AnswerOf(After(s, after), 2) == Some(Answer(9, Hit))
  {
    FetchingIsReached();
    assert Next(FETCHING, Invalidate(7)) == FETCHING;
    FetchInFlightReturns(FETCHING, 1, 7, 2, 9);
    assert [Succeed(1, 9), Call(2, 7)][1..] == [Call(2, 7)] && [Call(2, 7)][1..] == [];
  }

  // ---- How long the map keeps a gate ----

  /** Every gate in the map is owned by some caller: the bound the clean-up is there for. */
  ghost predicate OnlyLiveGates(s: State) {
    forall k :: k in s.gates ==> exists c :: Owns(s, c, s.gates[k])
  }

  /** The step takes the last caller away from a gate that is still in the map. */
  ghost predicate Orphans(s: State, t: Step)
    requires Enabled(s, t)
  {
    && (t.Drop? || t.Cancel?)
    && s.tasks[t.c].stage.gate in s.gates.Values
    && forall d :: Owns(s, d, s.tasks[t.c].stage.gate) ==> d == t.c
  }

  /** A step preserves that bound exactly when it is not the last departure from a mapped gate: the
      count is read before the caller's own clone is dropped, and a cancelled caller never reads it. */
  lemma OnlyLiveGatesExactly(s: State, t: Step)
    requires Inv(s) && OnlyLiveGates(s) && Enabled(s, t)
    ensures OnlyLiveGates(Next(s, t)) <==> !Orphans(s, t)
  {
    var u := Next(s, t);
    if Orphans(s, t) {
      var g := s.tasks[t.c].stage.gate;
      var k :| k in s.gates && s.gates[k] == g;
      forall d ensures !Owns(u, d, g) {
        if Owns(u, d, g) && d != t.c {
          assert Owns(s, d, g);
        }
      }
      assert k in u.gates;
    } else {
      forall k | k in u.gates ensures exists c :: Owns(u, c, u.gates[k]) {
        if k !in s.gates {
          assert Owns(u, t.c, u.gates[k]);
        } else {
          var g := s.gates[k];
          var c :| Owns(s, c, g);
          if t.Invalidate? || t.c != c {
            assert Owns(u, c, g);
          } else if t.Drop? || t.Cancel? {
            var d :| Owns(s, d, g) && d != c;
            assert Owns(u, d, g);
          } else {
            assert Owns(u, c, g);
          }
        }
      }
    }
  }

  /** The step takes the last caller away from the gate of `k`. */
  ghost predicate OrphansGateOf(s: State, t: Step, k: Key)
    requires Enabled(s, t)
  {
    Orphans(s, t) && k in s.gates && s.gates[k] == s.tasks[t.c].stage.gate
  }

  /** Some caller asks for the gate of `k` along the run. */
  predicate AskedFor(s: State, ts: seq<Step>, k: Key)
    requires Runs(s, ts)
    decreases |ts|
  {
    |ts| > 0 && ((ts[0].Clone? && s.tasks[ts[0].c].key == k) || AskedFor(Next(s, ts[0]), ts[1..], k))
  }

  /** Some step of the run takes the last caller away from the gate of `k`, and nobody asks for it afterwards. */
  ghost predicate LeftForGood(s: State, ts: seq<Step>, k: Key)
    requires Runs(s, ts)
    decreases |ts|
  {
    && |ts| > 0
    && var u := Next(s, ts[0]);
       (OrphansGateOf(s, ts[0], k) && !AskedFor(u, ts[1..], k)) || LeftForGood(u, ts[1..], k)
  }

  /** The key has a gate that nobody owns. */
  ghost predicate Unowned(s: State, k: Key) {
    k in s.gates && forall d :: !Owns(s, d, s.gates[k])
  }

  lemma UnownedNext(s: State, t: Step, k: Key)
    requires Inv(s) && Enabled(s, t)
    ensures Unowned(Next(s, t), k) <==>
      (Unowned(s, k) && !(t.Clone? && s.tasks[t.c].key == k)) || OrphansGateOf(s, t, k)
  {
    var u := Next(s, t);
    forall d, g | (t.Invalidate? || t.c != d) ensures Owns(u, d, g) <==> Owns(s, d, g) {
      if d in u.tasks {
        OthersStand(s, t, d);
      }
    }
    if t.Cleanup? {
      var g := s.tasks[t.c].stage.gate;
      assert Owns(s, t.c, g) && Owns(u, t.c, g);
      CountIsTwoWhenAlone(s, t.c, g);
    } else if t.Drop? || t.Cancel? {
      assert Owns(s, t.c, s.tasks[t.c].stage.gate);
    } else if t.Clone? {
      assert Owns(u, t.c, u.tasks[t.c].stage.gate);
    } else if !t.Invalidate? && k in s.gates {
      assert Owns(u, t.c, s.gates[k]) <==> Owns(s, t.c, s.gates[k]);
    }
  }

  lemma {:induction false} RunUnowned(s: State, ts: seq<Step>, k: Key)
    requires Inv(s) && Runs(s, ts)
    ensures Unowned(After(s, ts), k) <==> (Unowned(s, k) && !AskedFor(s, ts, k)) || LeftForGood(s, ts, k)
    decreases |ts|
  {
    if |ts| > 0 {
      UnownedNext(s, ts[0], k);
      NextKeepsInv(s, ts[0]);
      RunUnowned(Next(s, ts[0]), ts[1..], k);
    }
  }

  /** So over any run a key ends with a gate nobody owns exactly if some step took the last caller away from it
      while it was mapped, and nobody asked for it again. */
  lemma DrainedGateStaysExactly(ts: seq<Step>, k: Key)
    requires Runs(INIT, ts)
    ensures Unowned(After(INIT, ts), k) <==> LeftForGood(INIT, ts, k)
  {
    InitInv();
    RunUnowned(INIT, ts, k);
  }

  /** The caller asked for `k` and has not been answered or cancelled yet. */
  predicate Busy(s: State, c: Caller, k: Key) {
    c in s.tasks && s.tasks[c].key == k && !s.tasks[c].stage.Done? && !s.tasks[c].stage.Cancelled?
  }

  /** Callers of `k` come one at a time, and none of them is cancelled. */
  ghost predicate OneAtATime(s: State, ts: seq<Step>, k: Key)
    requires Runs(s, ts)
    decreases |ts|
  {
    && (forall c, d :: Busy(s, c, k) && Busy(s, d, k) ==> c == d)
    && (|ts| == 0 ||
        (!(ts[0].Cancel? && s.tasks[ts[0].c].key == k) && OneAtATime(Next(s, ts[0]), ts[1..], k)))
  }

  /** A mapped gate belongs to a caller that has its clean-up check still ahead. */
  ghost predicate Attended(s: State, k: Key) {
    k in s.gates ==> exists c :: Owns(s, c, s.gates[k]) && !s.tasks[c].stage.Dropping?
  }

  /** Whoever owns a mapped gate asked for the key it is mapped for. */
  ghost predicate KeysMatch(s: State) {
    forall c, k :: k in s.gates && Owns(s, c, s.gates[k]) ==> s.tasks[c].key == k
  }

  lemma KeysMatchNext(s: State, t: Step)
    requires Inv(s) && KeysMatch(s) && Enabled(s, t)
    ensures KeysMatch(Next(s, t))
  {
    var u := Next(s, t);
    forall c, k | k in u.gates && Owns(u, c, u.gates[k]) ensures u.tasks[c].key == k {
      if t.Invalidate? || t.c != c {
        OthersStand(s, t, c);
        assert Owns(s, c, u.gates[k]);
      } else if !t.Clone? {
        assert Owns(s, c, u.gates[k]);
      }
    }
  }

  lemma AttendedNext(s: State, t: Step, k: Key)
    requires Inv(s) && KeysMatch(s) && Enabled(s, t) && Attended(s, k)
    requires forall c, d :: Busy(s, c, k) && Busy(s, d, k) ==> c == d
    requires !(t.Cancel? && s.tasks[t.c].key == k)
    ensures Attended(Next(s, t), k)
  {
    var u := Next(s, t);
    if k in s.gates && k in u.gates {
      var g := s.gates[k];
      var c :| Owns(s, c, g) && !s.tasks[c].stage.Dropping?;
      assert Busy(s, c, k);
      if t.Cleanup? && t.c == c {
        CountIsTwoWhenAlone(s, c, g);
        var d :| Owns(s, d, g) && d != c;
        assert Busy(s, d, k);
      }
      assert Owns(u, c, g);
    } else if k in u.gates {
      assert Owns(u, t.c, u.gates[k]);
    }
  }

  lemma {:induction false} RunStaysAttended(s: State, ts: seq<Step>, k: Key)
    requires Inv(s) && KeysMatch(s) && Attended(s, k) && Runs(s, ts) && OneAtATime(s, ts, k)
    ensures Attended(After(s, ts), k) && KeysMatch(After(s, ts))
    decreases |ts|
  {
    if |ts| > 0 {
      AttendedNext(s, ts[0], k);
      KeysMatchNext(s, ts[0]);
      NextKeepsInv(s, ts[0]);
      RunStaysAttended(Next(s, ts[0]), ts[1..], k);
    }
  }

  /** A key whose callers come one at a time and are not cancelled has no gate once they are done. */
  lemma SerialCallersLeaveNoGate(ts: seq<Step>, k: Key)
    requires Runs(INIT, ts) && OneAtATime(INIT, ts, k)
    requires forall c :: !Busy(After(INIT, ts), c, k)
    ensures k !in After(INIT, ts).gates
  {
    var s := After(INIT, ts);
    InitInv();
    RunKeepsInv(INIT, ts);
    RunStaysAttended(INIT, ts, k);
    if k in s.gates {
      var c :| Owns(s, c, s.gates[k]) && !s.tasks[c].stage.Dropping?;
      assert Busy(s, c, k);
    }
  }

  ghost predicate Reachable(s: State) {
    exists ts :: Runs(INIT, ts) && After(INIT, ts) == s
  }

  lemma {:induction false} RunsOn(s: State, ts: seq<Step>, t: Step)
    requires Runs(s, ts) && Enabled(After(s, ts), t)
    ensures Runs(s, ts + [t]) && After(s, ts + [t]) == Next(After(s, ts), t)
    decreases |ts|
  {
    if |ts| == 0 {
      assert ts + [t] == [t] && Runs(Next(s, t), [t][1..]);
    } else {
      assert (ts + [t])[1..] == ts[1..] + [t];
      RunsOn(Next(s, ts[0]), ts[1..], t);
    }
  }

  lemma Reach(s: State, t: Step) returns (u: State)
    requires Reachable(s) && Enabled(s, t)
    ensures u == Next(s, t) && Reachable(u)
  {
    var ts :| Runs(INIT, ts) && After(INIT, ts) == s;
    RunsOn(INIT, ts, t);
    u := Next(s, t);
  }

  /** So the map is not bounded by the keys in flight: two callers that both make the clean-up check
      before either drops its clone leave their gate behind with nobody left to remove it. */
  lemma DrainedGateCanStay()
    ensures exists s ::
      && Reachable(s) && 7 in s.gates
      && forall c :: c in s.tasks ==> s.tasks[c].stage.Done?
  {
    assert Runs(INIT, []) && After(INIT, []) == INIT;
    var s := Reach(INIT, Call(1, 7));
    s := Reach(s, Call(2, 7));
    s := Reach(s, Clone(1));
    s := Reach(s, Clone(2));
    assert s == State(map[7 := 0], map[], map[1 := Task(7, Queued(0)), 2 := Task(7, Queued(0))], map[], 1);
    s := OneLeaving(s);
    s := BothLeaving(s);
    s := BothGone(s);
  }

  lemma OneLeaving(s: State) returns (u: State)
    requires Reachable(s)
    requires s == State(map[7 := 0], map[], map[1 := Task(7, Queued(0)), 2 := Task(7, Queued(0))], map[], 1)
    ensures Reachable(u)
    ensures u == State(map[7 := 0], map[],
      map[1 := Task(7, Leaving(0, Answer(9, Fetched))), 2 := Task(7, Queued(0))], map[7 := 9], 1)
  {
    u := Reach(s, Acquire(1));
    u := Reach(u, Recheck(1));
    assert u == State(map[7 := 0], map[0 := 1], map[1 := Task(7, Fetching(0)), 2 := Task(7, Queued(0))], map[], 1);
    u := Reach(u, Succeed(1, 9));
    u := Reach(u, Release(1));
  }

  lemma BothLeaving(s: State) returns (u: State)
    requires Reachable(s)
    requires s == State(map[7 := 0], map[],
      map[1 := Task(7, Leaving(0, Answer(9, Fetched))), 2 := Task(7, Queued(0))], map[7 := 9], 1)
    ensures Reachable(u) && u.gates == map[7 := 0]
    ensures u.tasks == map[1 := Task(7, Leaving(0, Answer(9, Fetched))), 2 := Task(7, Leaving(0, Answer(9, Hit)))]
  {
    u := Reach(s, Acquire(2));
    u := Reach(u, Recheck(2));
    u := Reach(u, Release(2));
  }

  lemma BothGone(s: State) returns (u: State)
    requires Reachable(s) && s.gates == map[7 := 0]
    requires s.tasks == map[1 := Task(7, Leaving(0, Answer(9, Fetched))), 2 := Task(7, Leaving(0, Answer(9, Hit)))]
    ensures Reachable(u) && 7 in u.gates
    ensures forall c :: c in u.tasks ==> u.tasks[c].stage.Done?
  {
    assert Owners(s, 0) == {1, 2} && (set k | k in s.gates && s.gates[k] == 0) == {7};
    u := Reach(s, Cleanup(1));
    assert u.gates == s.gates;
    assert Owners(u, 0) == {1, 2} && (set k | k in u.gates && u.gates[k] == 0) == {7};
    u := Reach(u, Cleanup(2));
    u := Reach(u, Drop(1));
    u := Reach(u, Drop(2));
  }
}
