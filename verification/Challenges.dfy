/**
 Published ACME challenges and the weekly issuance budget (crates/coordinator/src/zone.rs).

 One published order costs one unit of the deployment's budget and one of the device's. The budgets are
 sliding windows: the theorem bounds every span of one window's length, over any run.
 */
module Challenges {
  import opened Prelude

  const CHALLENGE_TTL: Time := 300
  const MAX_LIVE_CHALLENGES: nat := 4096
  const MAX_VALUES_PER_NAME: nat := 8
  const ISSUANCE_WINDOW: Time := 604800
  const MAX_CERTS_PER_DEVICE_PER_WEEK: nat := 5

  datatype Live = Live(values: seq<string>, expiresAt: Time)

  datatype Zone = Zone(live: map<string, Live>, issuances: seq<Time>, perDevice: map<PubKey, seq<Time>>)

  datatype Record = Record(name: string, value: string)

  datatype PublishError = DeviceBudgetExhausted | BudgetExhausted | TooManyLive

  // ---- Pruning ----

  function InWindow(ats: seq<Time>, now: Time): seq<Time> {
    if |ats| == 0 then []
    else (if Since(now, ats[0]) < ISSUANCE_WINDOW then [ats[0]] else []) + InWindow(ats[1..], now)
  }

  function Pruned(z: Zone, now: Time): Zone {
    Zone(
      map n | n in z.live && z.live[n].expiresAt > now :: z.live[n],
      InWindow(z.issuances, now),
      map d | d in z.perDevice && InWindow(z.perDevice[d], now) != [] :: InWindow(z.perDevice[d], now))
  }

  // ---- Publishing ----

  predicate IsLive(live: map<string, Live>, r: Record) {
    r.name in live && r.value in live[r.name].values
  }

  /** Adding a value to a name: a new one goes last, and past the cap the first one is evicted. */
  function Pushed(values: seq<string>, value: string): seq<string> {
    if value in values then values
    else (if |values| >= MAX_VALUES_PER_NAME then values[1..] else values) + [value]
  }

  function Added(live: map<string, Live>, rs: seq<Record>, expiresAt: Time): map<string, Live> {
    if |rs| == 0 then live
    else
      var before, r := Added(live, rs[..|rs| - 1], expiresAt), rs[|rs| - 1];
      before[r.name := Live(Pushed(if r.name in before then before[r.name].values else [], r.value), expiresAt)]
  }

  function Refreshed(live: map<string, Live>, rs: seq<Record>, expiresAt: Time): map<string, Live> {
    map n | n in live :: if exists r :: r in rs && r.name == n then Live(live[n].values, expiresAt) else live[n]
  }

  function NewNames(live: map<string, Live>, rs: seq<Record>): nat {
    if |rs| == 0 then 0
    else NewNames(live, rs[..|rs| - 1]) + if rs[|rs| - 1].name in live then 0 else 1
  }

  function Spent(z: Zone, who: Option<PubKey>): seq<Time> {
    match who
    case None => z.issuances
    case Some(d) => if d in z.perDevice then z.perDevice[d] else []
  }

  /** What the deployment, or one device, may spend within a window. */
  function Cap(max: nat, who: Option<PubKey>): nat {
    if who.None? then max else Min(MAX_CERTS_PER_DEVICE_PER_WEEK, max)
  }

  function Refusal(max: nat, p: Zone, device: PubKey, rs: seq<Record>): Option<PublishError> {
    if |Spent(p, Some(device))| >= Cap(max, Some(device)) then Some(DeviceBudgetExhausted)
    else if |p.issuances| >= max then Some(BudgetExhausted)
    else if |p.live| + NewNames(p.live, rs) > MAX_LIVE_CHALLENGES then Some(TooManyLive)
    else None
  }

  /** An order is novel if some record of it is not live. */
  predicate Novel(p: Zone, rs: seq<Record>) {
    exists r :: r in rs && !IsLive(p.live, r)
  }

  predicate Charges(max: nat, z: Zone, device: PubKey, rs: seq<Record>, now: Time) {
    Novel(Pruned(z, now), rs) && Refusal(max, Pruned(z, now), device, rs).None?
  }

  function Published(max: nat, z: Zone, device: PubKey, rs: seq<Record>, now: Time): (Zone, Result<(), PublishError>) {
    var p := Pruned(z, now);
    if !Novel(p, rs) then (p.(live := Refreshed(p.live, rs, now + CHALLENGE_TTL)), Ok(()))
    else
      match Refusal(max, p, device, rs)
      case Some(e) => (p, Err(e))
      case None =>
        (Zone(Added(p.live, rs, now + CHALLENGE_TTL),
              p.issuances + [now],
              p.perDevice[device := Spent(p, Some(device)) + [now]]), Ok(()))
  }

  // ---- The state invariant ----

  datatype Order = Order(device: PubKey, at: Time)

  /** The times of the orders of one device, or of all. */
  function TimesOf(os: seq<Order>, who: Option<PubKey>): seq<Time> {
    if |os| == 0 then []
    else (if who.None? || who.value == os[0].device then [os[0].at] else []) + TimesOf(os[1..], who)
  }

  /** The log and the per-device lists record the same orders: each issuance is exactly one device's. */
  ghost predicate Records(z: Zone, os: seq<Order>) {
    && (forall who :: Spent(z, who) == TimesOf(os, who))
    && (forall d :: d in z.perDevice ==> z.perDevice[d] != [])
  }

  ghost predicate SoundNames(live: map<string, Live>) {
    forall n :: n in live ==> |live[n].values| <= MAX_VALUES_PER_NAME && Distinct(live[n].values)
  }

  ghost predicate SoundBudgets(max: nat, z: Zone) {
    && (exists os :: Records(z, os))
    && (forall who :: |Spent(z, who)| <= Cap(max, who))
  }

  ghost predicate Sound(max: nat, z: Zone) {
    SoundBudgets(max, z) && |z.live| <= MAX_LIVE_CHALLENGES && SoundNames(z.live)
  }

  function Recent(os: seq<Order>, now: Time): seq<Order> {
    if |os| == 0 then []
    else (if Since(now, os[0].at) < ISSUANCE_WINDOW then [os[0]] else []) + Recent(os[1..], now)
  }

  lemma {:induction false} TimesConcat(a: seq<Order>, b: seq<Order>, who: Option<PubKey>)
    ensures TimesOf(a + b, who) == TimesOf(a, who) + TimesOf(b, who)
  {
    if |a| == 0 {
      assert a + b == b;
    } else {
      assert (a + b)[1..] == a[1..] + b && (a + b)[0] == a[0];
      TimesConcat(a[1..], b, who);
      var head := if who.None? || who.value == a[0].device then [a[0].at] else [];
      assert TimesOf(a + b, who) == head + (TimesOf(a[1..], who) + TimesOf(b, who));
    }
  }

  lemma {:induction false} RecentTimes(os: seq<Order>, now: Time, who: Option<PubKey>)
    ensures TimesOf(Recent(os, now), who) == InWindow(TimesOf(os, who), now)
  {
    if |os| > 0 {
      RecentTimes(os[1..], now, who);
      var head := if Since(now, os[0].at) < ISSUANCE_WINDOW then [os[0]] else [];
      TimesConcat(head, Recent(os[1..], now), who);
      assert TimesOf([os[0]], who) == if who.None? || who.value == os[0].device then [os[0].at] else [];
      var rest := TimesOf(os[1..], who);
      assert [] + rest == rest && ([os[0].at] + rest)[1..] == rest;
    }
  }

  lemma {:induction false} InWindowShrinks(ats: seq<Time>, now: Time)
    ensures |InWindow(ats, now)| <= |ats|
  {
    if |ats| > 0 {
      InWindowShrinks(ats[1..], now);
    }
  }

  lemma PrunedSpent(z: Zone, now: Time, who: Option<PubKey>)
    ensures Spent(Pruned(z, now), who) == InWindow(Spent(z, who), now)
  {
  }

  lemma PrunedIsSound(max: nat, z: Zone, now: Time)
    requires Sound(max, z)
    ensures Sound(max, Pruned(z, now))
  {
    var p := Pruned(z, now);
    var os :| Records(z, os);
    forall who ensures Spent(p, who) == TimesOf(Recent(os, now), who) && |Spent(p, who)| <= Cap(max, who) {
      PrunedSpent(z, now, who);
      RecentTimes(os, now, who);
      InWindowShrinks(Spent(z, who), now);
    }
    assert Records(p, Recent(os, now));
    assert p.live.Keys <= z.live.Keys;
    SubsetSize(p.live.Keys, z.live.Keys);
  }

  lemma PushedIsSound(values: seq<string>, value: string)
    requires |values| <= MAX_VALUES_PER_NAME && Distinct(values)
    ensures |Pushed(values, value)| <= MAX_VALUES_PER_NAME && Distinct(Pushed(values, value))
    ensures value in Pushed(values, value)
  {
  }

  lemma {:induction false} AddedIsSound(live: map<string, Live>, rs: seq<Record>, expiresAt: Time)
    requires SoundNames(live)
    ensures SoundNames(Added(live, rs, expiresAt))
    ensures |Added(live, rs, expiresAt)| <= |live| + NewNames(live, rs)
    ensures live.Keys <= Added(live, rs, expiresAt).Keys
  {
    if |rs| > 0 {
      var before, r := Added(live, rs[..|rs| - 1], expiresAt), rs[|rs| - 1];
      AddedIsSound(live, rs[..|rs| - 1], expiresAt);
      PushedIsSound(if r.name in before then before[r.name].values else [], r.value);
      assert Added(live, rs, expiresAt).Keys == before.Keys + {r.name};
      if r.name in before {
        assert before.Keys + {r.name} == before.Keys;
      }
    }
  }

  /** What an order adds to the records of `who`. */
  function Charge(max: nat, z: Zone, device: PubKey, rs: seq<Record>, now: Time, who: Option<PubKey>): seq<Time> {
    if Charges(max, z, device, rs, now) && (who.None? || who.value == device) then [now] else []
  }

  lemma PublishedSpent(max: nat, z: Zone, device: PubKey, rs: seq<Record>, now: Time, who: Option<PubKey>)
    ensures Spent(Published(max, z, device, rs, now).0, who) ==
      InWindow(Spent(z, who), now) + Charge(max, z, device, rs, now, who)
  {
    PrunedSpent(z, now, who);
  }

  lemma ChargeFits(max: nat, z: Zone, device: PubKey, rs: seq<Record>, now: Time, who: Option<PubKey>)
    requires |Spent(z, who)| <= Cap(max, who)
    ensures |InWindow(Spent(z, who), now)| + |Charge(max, z, device, rs, now, who)| <= Cap(max, who)
  {
    InWindowShrinks(Spent(z, who), now);
    PrunedSpent(z, now, who);
  }

  lemma ChargeRecorded(os: seq<Order>, max: nat, z: Zone, device: PubKey, rs: seq<Record>, now: Time,
                       who: Option<PubKey>)
    requires Spent(z, who) == TimesOf(os, who)
    ensures
      var added := if Charges(max, z, device, rs, now) then [Order(device, now)] else [];
      Spent(Published(max, z, device, rs, now).0, who) == TimesOf(Recent(os, now) + added, who)
  {
    var added := if Charges(max, z, device, rs, now) then [Order(device, now)] else [];
    PublishedSpent(max, z, device, rs, now, who);
    RecentTimes(os, now, who);
    TimesConcat(Recent(os, now), added, who);
    assert TimesOf(added, who) == Charge(max, z, device, rs, now, who);
  }

  lemma PublishedKeepsBudgets(max: nat, z: Zone, device: PubKey, rs: seq<Record>, now: Time)
    requires SoundBudgets(max, z)
    ensures SoundBudgets(max, Published(max, z, device, rs, now).0)
  {
    var q := Published(max, z, device, rs, now).0;
    var os :| Records(z, os);
    var added := if Charges(max, z, device, rs, now) then [Order(device, now)] else [];
    forall who ensures |Spent(q, who)| <= Cap(max, who) {
      ChargeFits(max, z, device, rs, now, who);
      PublishedSpent(max, z, device, rs, now, who);
    }
    forall who ensures Spent(q, who) == TimesOf(Recent(os, now) + added, who) {
      ChargeRecorded(os, max, z, device, rs, now, who);
    }
    PublishedLists(max, z, device, rs, now);
    assert Records(q, Recent(os, now) + added);
  }

  lemma PublishedLists(max: nat, z: Zone, device: PubKey, rs: seq<Record>, now: Time)
    ensures
      var q := Published(max, z, device, rs, now).0;
      forall d :: d in q.perDevice ==> q.perDevice[d] != []
  {
  }

  lemma PublishedKeepsNames(max: nat, z: Zone, device: PubKey, rs: seq<Record>, now: Time)
    requires |z.live| <= MAX_LIVE_CHALLENGES && SoundNames(z.live)
    ensures
      var q := Published(max, z, device, rs, now).0;
      |q.live| <= MAX_LIVE_CHALLENGES && SoundNames(q.live)
  {
    var p, q := Pruned(z, now), Published(max, z, device, rs, now).0;
    assert p.live.Keys <= z.live.Keys;
    SubsetSize(p.live.Keys, z.live.Keys);
    AddedIsSound(p.live, rs, now + CHALLENGE_TTL);
    var r := Refreshed(p.live, rs, now + CHALLENGE_TTL);
    assert r.Keys == p.live.Keys && |r| == |r.Keys|;
  }

  lemma PublishedIsSound(max: nat, z: Zone, device: PubKey, rs: seq<Record>, now: Time)
    requires Sound(max, z)
    ensures Sound(max, Published(max, z, device, rs, now).0)
  {
    PublishedKeepsBudgets(max, z, device, rs, now);
    PublishedKeepsNames(max, z, device, rs, now);
  }

  lemma EmptyIsSound(max: nat)
    ensures Sound(max, Zone(map[], [], map[]))
  {
    assert Records(Zone(map[], [], map[]), []);
  }

  // ---- Runs ----

  /** A published order, or a lookup (or count), which only prunes. */
  datatype Event = Publish(device: PubKey, rs: seq<Record>, now: Time) | Consult(now: Time)

  function Do(max: nat, z: Zone, e: Event): Zone {
    match e
    case Publish(d, rs, now) => Published(max, z, d, rs, now).0
    case Consult(now) => Pruned(z, now)
  }

  predicate Chronological(es: seq<Event>, from: Time)
    decreases |es|
  {
    |es| == 0 || (from <= es[0].now && Chronological(es[1..], es[0].now))
  }

  predicate Counts(max: nat, z: Zone, e: Event, who: Option<PubKey>, lo: Time, hi: Time) {
    && lo <= e.now < hi && e.Publish? && (who.None? || who.value == e.device)
    && Charges(max, z, e.device, e.rs, e.now)
  }

  /** How many orders of `who` the run admits and charges in [lo, hi). */
  function Charged(max: nat, z: Zone, es: seq<Event>, who: Option<PubKey>, lo: Time, hi: Time): nat
    decreases |es|
  {
    if |es| == 0 then 0
    else (if Counts(max, z, es[0], who, lo, hi) then 1 else 0) + Charged(max, Do(max, z, es[0]), es[1..], who, lo, hi)
  }

  function CountFrom(ats: seq<Time>, lo: Time): nat {
    if |ats| == 0 then 0 else (if ats[0] >= lo then 1 else 0) + CountFrom(ats[1..], lo)
  }

  lemma {:induction false} CountFromConcat(a: seq<Time>, b: seq<Time>, lo: Time)
    ensures CountFrom(a + b, lo) == CountFrom(a, lo) + CountFrom(b, lo)
    ensures CountFrom(a, lo) <= |a|
  {
    if |a| == 0 {
      assert a + b == b;
    } else {
      assert (a + b)[1..] == a[1..] + b;
      CountFromConcat(a[1..], b, lo);
    }
  }

  /** Pruning before the span ends forgets nothing that lies in it. */
  lemma {:induction false} PruningKeepsSpan(ats: seq<Time>, now: Time, lo: Time)
    requires now < lo + ISSUANCE_WINDOW
    ensures CountFrom(InWindow(ats, now), lo) == CountFrom(ats, lo)
  {
    if |ats| > 0 {
      PruningKeepsSpan(ats[1..], now, lo);
      CountFromConcat(if Since(now, ats[0]) < ISSUANCE_WINDOW then [ats[0]] else [], InWindow(ats[1..], now), lo);
    }
  }

  lemma {:induction false} NothingAfter(max: nat, z: Zone, es: seq<Event>, from: Time, who: Option<PubKey>, lo: Time,
                                        hi: Time)
    requires Chronological(es, from) && hi <= from
    ensures Charged(max, z, es, who, lo, hi) == 0
    decreases |es|
  {
    if |es| > 0 {
      NothingAfter(max, Do(max, z, es[0]), es[1..], es[0].now, who, lo, hi);
    }
  }

  lemma DoIsSound(max: nat, z: Zone, e: Event)
    requires Sound(max, z)
    ensures Sound(max, Do(max, z, e))
  {
    match e
    case Publish(d, rs, now) => PublishedIsSound(max, z, d, rs, now);
    case Consult(now) => PrunedIsSound(max, z, now);
  }

  lemma SpentAfter(max: nat, z: Zone, e: Event, who: Option<PubKey>, lo: Time, hi: Time)
    requires Sound(max, z) && e.now < hi <= lo + ISSUANCE_WINDOW
    ensures CountFrom(Spent(Do(max, z, e), who), lo) ==
      CountFrom(Spent(z, who), lo) + if Counts(max, z, e, who, lo, hi) then 1 else 0
  {
    PruningKeepsSpan(Spent(z, who), e.now, lo);
    match e
    case Publish(d, rs, now) =>
      PublishedSpent(max, z, d, rs, now, who);
      CountFromConcat(InWindow(Spent(z, who), now), Charge(max, z, d, rs, now, who), lo);
      assert CountFrom([now], lo) == if now >= lo then 1 else 0;
    case Consult(now) =>
      PrunedSpent(z, now, who);
  }

  /** Over any run with a monotone clock, every span of one week admits at most the weekly budget, and at
      most the device's slice of it from each device. */
  lemma {:induction false} WeeklyBound(max: nat, z: Zone, es: seq<Event>, from: Time, who: Option<PubKey>, lo: Time,
                                       hi: Time)
    requires Sound(max, z) && Chronological(es, from) && hi <= lo + ISSUANCE_WINDOW
    ensures CountFrom(Spent(z, who), lo) + Charged(max, z, es, who, lo, hi) <= Cap(max, who)
    decreases |es|
  {
    CountFromConcat(Spent(z, who), [], lo);
    if |es| > 0 {
      if es[0].now < hi {
        DoIsSound(max, z, es[0]);
        SpentAfter(max, z, es[0], who, lo, hi);
        WeeklyBound(max, Do(max, z, es[0]), es[1..], es[0].now, who, lo, hi);
      } else {
        NothingAfter(max, Do(max, z, es[0]), es[1..], es[0].now, who, lo, hi);
      }
    }
  }

  // ---- What stays live ----

  /** The values an order gives one name, in its order; its other records are for other names. */
  function ValuesFor(rs: seq<Record>, name: string): seq<string> {
    if |rs| == 0 then []
    else ValuesFor(rs[..|rs| - 1], name) + if rs[|rs| - 1].name == name then [rs[|rs| - 1].value] else []
  }

  function PushedAll(values: seq<string>, vs: seq<string>): seq<string>
    decreases |vs|
  {
    if |vs| == 0 then values else PushedAll(Pushed(values, vs[0]), vs[1..])
  }

  function ValuesAt(live: map<string, Live>, name: string): seq<string> {
    if name in live then live[name].values else []
  }

  lemma {:induction false} PushedAllConcat(values: seq<string>, a: seq<string>, b: seq<string>)
    ensures PushedAll(values, a + b) == PushedAll(PushedAll(values, a), b)
    decreases |a|
  {
    if |a| == 0 {
      assert a + b == b;
    } else {
      assert (a + b)[1..] == a[1..] + b;
      PushedAllConcat(Pushed(values, a[0]), a[1..], b);
    }
  }

  /** What an order leaves at a name depends on the values it gives that name, in their order, and on nothing
      else in it. */
  lemma {:induction false} AddedAt(live: map<string, Live>, rs: seq<Record>, expiresAt: Time, name: string)
    ensures
      var vs, after := ValuesFor(rs, name), Added(live, rs, expiresAt);
      && (name in after <==> name in live || vs != [])
      && (vs != [] ==> after[name] == Live(PushedAll(ValuesAt(live, name), vs), expiresAt))
      && (vs == [] && name in live ==> after[name] == live[name])
      && ValuesAt(after, name) == PushedAll(ValuesAt(live, name), vs)
  {
    if |rs| > 0 {
      var before, r := rs[..|rs| - 1], rs[|rs| - 1];
      AddedAt(live, before, expiresAt, name);
      if r.name == name {
        PushedAllConcat(ValuesAt(live, name), ValuesFor(before, name), [r.value]);
        OnePushed(PushedAll(ValuesAt(live, name), ValuesFor(before, name)), r.value);
      } else {
        assert ValuesFor(before, name) + [] == ValuesFor(before, name);
      }
    }
  }

  lemma OnePushed(values: seq<string>, v: string)
    ensures PushedAll(values, [v]) == Pushed(values, v)
  {
    assert [v][1..] == [];
  }

  lemma {:induction false} PushedAllIsSound(values: seq<string>, vs: seq<string>)
    requires |values| <= MAX_VALUES_PER_NAME && Distinct(values)
    ensures |PushedAll(values, vs)| <= MAX_VALUES_PER_NAME && Distinct(PushedAll(values, vs))
    decreases |vs|
  {
    if |vs| > 0 {
      PushedIsSound(values, vs[0]);
      PushedAllIsSound(Pushed(values, vs[0]), vs[1..]);
    }
  }

  function Index(values: seq<string>, v: string): (i: nat)
    requires v in values
    ensures i < |values| && values[i] == v
  {
    if values[0] == v then 0 else 1 + Index(values[1..], v)
  }

  lemma IndexIs(values: seq<string>, v: string, i: nat)
    requires Distinct(values) && i < |values| && values[i] == v
    ensures Index(values, v) == i
  {
    assert values[Index(values, v)] == values[i];
  }

  /** How many of the values are not live when their turn comes. */
  function NewPushes(values: seq<string>, vs: seq<string>): nat
    decreases |vs|
  {
    if |vs| == 0 then 0 else (if vs[0] in values then 0 else 1) + NewPushes(Pushed(values, vs[0]), vs[1..])
  }

  lemma {:induction false} NeverPushed(values: seq<string>, vs: seq<string>, v: string)
    requires v !in values && v !in vs
    ensures v !in PushedAll(values, vs)
    decreases |vs|
  {
    if |vs| > 0 {
      assert vs[0] in vs && forall x :: x in vs[1..] ==> x in vs;
      NeverPushed(Pushed(values, vs[0]), vs[1..], v);
    }
  }

  lemma PushedIndex(values: seq<string>, w: string, v: string)
    requires |values| <= MAX_VALUES_PER_NAME && Distinct(values) && v in values && w !in values
    ensures
      var after := Pushed(values, w);
      if |values| < MAX_VALUES_PER_NAME then v in after && Index(after, v) == Index(values, v)
      else if Index(values, v) > 0 then v in after && Index(after, v) == Index(values, v) - 1
      else v !in after
  {
    var after, i := Pushed(values, w), Index(values, v);
    PushedIsSound(values, w);
    if |values| < MAX_VALUES_PER_NAME {
      assert after[i] == v;
      IndexIs(after, v, i);
    } else if i > 0 {
      assert after[i - 1] == v;
      IndexIs(after, v, i - 1);
    }
  }

  /** A live value not posted again outlasts a series of values exactly if the new ones among them do not use up
      the room left and the values in front of it. */
  lemma {:induction false} OutlastsExactly(values: seq<string>, vs: seq<string>, v: string)
    requires |values| <= MAX_VALUES_PER_NAME && Distinct(values) && v in values && v !in vs
    ensures v in PushedAll(values, vs) <==> NewPushes(values, vs) <= Index(values, v) + (MAX_VALUES_PER_NAME - |values|)
    decreases |vs|
  {
    if |vs| > 0 {
      var w, rest := vs[0], vs[1..];
      assert w in vs && forall x :: x in rest ==> x in vs;
      PushedIsSound(values, w);
      if w in values {
        OutlastsExactly(values, rest, v);
      } else {
        PushedIndex(values, w, v);
        if v in Pushed(values, w) {
          OutlastsExactly(Pushed(values, w), rest, v);
        } else {
          NeverPushed(Pushed(values, w), rest, v);
        }
      }
    }
  }

  /** For any order: a value live once the order's first `i` values for its name are in, and not posted after
      them, is live afterwards exactly if the rest leaves it room. With `i` behind its last mention this decides
      every value of the order; with 0, every value live before that the order does not mention. */
  lemma RecordLiveExactly(live: map<string, Live>, rs: seq<Record>, expiresAt: Time, name: string, v: string, i: nat)
    requires SoundNames(live) && i <= |ValuesFor(rs, name)|
    requires
      var vs := ValuesFor(rs, name);
      v in PushedAll(ValuesAt(live, name), vs[..i]) && v !in vs[i..]
    ensures
      var vs := ValuesFor(rs, name);
      var there := PushedAll(ValuesAt(live, name), vs[..i]);
      IsLive(Added(live, rs, expiresAt), Record(name, v)) <==>
        NewPushes(there, vs[i..]) <= Index(there, v) + (MAX_VALUES_PER_NAME - |there|)
  {
    var vs, before := ValuesFor(rs, name), ValuesAt(live, name);
    AddedAt(live, rs, expiresAt, name);
    assert vs == vs[..i] + vs[i..];
    PushedAllConcat(before, vs[..i], vs[i..]);
    PushedAllIsSound(before, vs[..i]);
    OutlastsExactly(PushedAll(before, vs[..i]), vs[i..], v);
  }

  lemma {:induction false} NewPushesFew(values: seq<string>, vs: seq<string>)
    ensures NewPushes(values, vs) <= |vs|
    decreases |vs|
  {
    if |vs| > 0 {
      NewPushesFew(Pushed(values, vs[0]), vs[1..]);
    }
  }

  lemma NewGoesLast(values: seq<string>, vs: seq<string>, v: string)
    requires |values| <= MAX_VALUES_PER_NAME && Distinct(values) && v !in PushedAll(values, vs)
    ensures
      var after := PushedAll(values, vs + [v]);
      v in after && Index(after, v) == |after| - 1
  {
    PushedAllConcat(values, vs, [v]);
    OnePushed(PushedAll(values, vs), v);
    PushedAllIsSound(values, vs + [v]);
    var after := PushedAll(values, vs + [v]);
    IndexIs(after, v, |after| - 1);
  }

  /** So an order can lose only values that were live already when it posted them: a new value with at most seven
      values for its name behind it stays. */
  lemma NewValuesStay(live: map<string, Live>, rs: seq<Record>, expiresAt: Time, name: string, i: nat)
    requires SoundNames(live) && i < |ValuesFor(rs, name)| <= i + MAX_VALUES_PER_NAME
    requires
      var vs := ValuesFor(rs, name);
      vs[i] !in PushedAll(ValuesAt(live, name), vs[..i]) && vs[i] !in vs[i + 1..]
    ensures IsLive(Added(live, rs, expiresAt), Record(name, ValuesFor(rs, name)[i]))
  {
    var vs, before := ValuesFor(rs, name), ValuesAt(live, name);
    var v, here := vs[i], PushedAll(before, vs[..i + 1]);
    assert vs[..i + 1] == vs[..i] + [v] && |vs[i + 1..]| < MAX_VALUES_PER_NAME;
    NewGoesLast(before, vs[..i], v);
    PushedAllIsSound(before, vs[..i + 1]);
    NewPushesFew(here, vs[i + 1..]);
    RecordLiveExactly(live, rs, expiresAt, name, v, i + 1);
  }

  /** A device's own name gets one value or two, whatever else the order posts: of two, the second is always live
      afterwards, the first exactly unless it was already the oldest of eight and the second is new. */
  lemma PairLiveExactly(live: map<string, Live>, rs: seq<Record>, name: string, v: string, w: string, expiresAt: Time)
    requires SoundNames(live) && v != w && ValuesFor(rs, name) == [v, w]
    ensures
      var before, after := ValuesAt(live, name), Added(live, rs, expiresAt);
      && IsLive(after, Record(name, w))
      && (IsLive(after, Record(name, v)) <==>
            !(|before| == MAX_VALUES_PER_NAME && before[0] == v && w !in before))
  {
    var before := ValuesAt(live, name);
    AddedAt(live, rs, expiresAt, name);
    PushedAllConcat(before, [v], [w]);
    assert [v] + [w] == [v, w];
    OnePushed(before, v);
    OnePushed(Pushed(before, v), w);
    PushedIsSound(before, v);
    PushedIsSound(Pushed(before, v), w);
  }

  lemma ThirdEvicts(before: seq<string>, v: string, w: string, u: string)
    requires |before| == MAX_VALUES_PER_NAME && Distinct(before) && before[1] == v
    requires w !in before && u !in before && w != u
    ensures v in PushedAll(before, [v, w]) && v !in PushedAll(before, [v, w, u])
  {
    assert [v] + [w] == [v, w] && [v, w] + [u] == [v, w, u];
    PushedAllConcat(before, [v], [w]);
    PushedAllConcat(before, [v, w], [u]);
    OnePushed(before, v);
    OnePushed(before, w);
    var two := before[1..] + [w];
    OnePushed(two, u);
    assert two[0] == v;
    assert PushedAll(before, [v, w, u]) == two[1..] + [u];
  }

  lemma ValuesOfOneName(name: string, v: string, w: string, u: string)
    ensures ValuesFor([Record(name, v), Record(name, w)], name) == [v, w]
    ensures ValuesFor([Record(name, v), Record(name, w), Record(name, u)], name) == [v, w, u]
  {
    var a, b := [Record(name, v)], [Record(name, v), Record(name, w)];
    assert a[..0] == [] && b[..1] == a && [Record(name, v), Record(name, w), Record(name, u)][..2] == b;
    assert ValuesFor(a, name) == [] + [v];
    assert ValuesFor(b, name) == [v] + [w];
  }

  /** A third value is possible: a service of the device may carry the device's own name. It can evict a value the
      pair left live. */
  lemma ThirdValueEvicts(live: map<string, Live>, name: string, v: string, w: string, u: string, expiresAt: Time)
    requires SoundNames(live) && v != w && w != u && v != u
    requires |ValuesAt(live, name)| == MAX_VALUES_PER_NAME && ValuesAt(live, name)[1] == v
    requires w !in ValuesAt(live, name) && u !in ValuesAt(live, name)
    ensures IsLive(Added(live, [Record(name, v), Record(name, w)], expiresAt), Record(name, v))
    ensures !IsLive(Added(live, [Record(name, v), Record(name, w), Record(name, u)], expiresAt), Record(name, v))
  {
    ValuesOfOneName(name, v, w, u);
    ThirdEvicts(ValuesAt(live, name), v, w, u);
    AddedAt(live, [Record(name, v), Record(name, w)], expiresAt, name);
    AddedAt(live, [Record(name, v), Record(name, w), Record(name, u)], expiresAt, name);
  }

  // ---- The store told from its history ----

  const NO_CHALLENGES := Zone(map[], [], map[])

  /** The store after a series of events, from the empty one. */
  function After(max: nat, es: seq<Event>): Zone {
    if |es| == 0 then NO_CHALLENGES
    else Do(max, After(max, es[..|es| - 1]), es[|es| - 1])
  }

  /** Events in the order of the clock, none after `t`. */
  predicate Timely(es: seq<Event>, t: Time) {
    |es| == 0 || (es[|es| - 1].now <= t && Timely(es[..|es| - 1], es[|es| - 1].now))
  }

  predicate Accepts(max: nat, es: seq<Event>, e: Event) {
    e.Publish? && Published(max, After(max, es), e.device, e.rs, e.now).1.Ok?
  }

  /** An accepted order that names a challenge name, with the values it gives that name. */
  datatype Mention = Mention(at: Time, values: seq<string>)

  function Mentions(max: nat, es: seq<Event>, name: string): seq<Mention> {
    if |es| == 0 then []
    else
      var before, e := es[..|es| - 1], es[|es| - 1];
      Mentions(max, before, name) +
        if Accepts(max, before, e) && ValuesFor(e.rs, name) != [] then [Mention(e.now, ValuesFor(e.rs, name))] else []
  }

  /** A name stands for five minutes after its last mention. */
  predicate Stands(log: seq<Mention>, t: Time) {
    |log| > 0 && t < log[|log| - 1].at + 300
  }

  /** Each mention adds to the values that stood when it was made. */
  function Standing(log: seq<Mention>, t: Time): seq<string> {
    if !Stands(log, t) then []
    else PushedAll(Standing(log[..|log| - 1], log[|log| - 1].at), log[|log| - 1].values)
  }

  lemma {:induction false} ValuesForNamed(rs: seq<Record>, r: Record)
    ensures r in rs <==> r.value in ValuesFor(rs, r.name)
  {
    if |rs| > 0 {
      ValuesForNamed(rs[..|rs| - 1], r);
      assert rs == rs[..|rs| - 1] + [rs[|rs| - 1]];
    }
  }

  lemma {:induction false} ValuesForNone(rs: seq<Record>, name: string)
    ensures ValuesFor(rs, name) == [] <==> forall r :: r in rs ==> r.name != name
  {
    if |rs| > 0 {
      ValuesForNone(rs[..|rs| - 1], name);
      assert rs == rs[..|rs| - 1] + [rs[|rs| - 1]];
    }
  }

  lemma {:induction false} NothingNewPushed(values: seq<string>, vs: seq<string>)
    requires forall v :: v in vs ==> v in values
    ensures PushedAll(values, vs) == values
    decreases |vs|
  {
    if |vs| > 0 {
      assert vs[0] in vs && forall v :: v in vs[1..] ==> v in vs;
      NothingNewPushed(values, vs[1..]);
    }
  }

  /** An accepted order, free or charged, leaves each name it mentions with its values pushed and five more minutes,
      and every other name as it was. */
  lemma AcceptedAt(max: nat, z: Zone, device: PubKey, rs: seq<Record>, now: Time, name: string)
    requires Published(max, z, device, rs, now).1.Ok?
    ensures
      var before, after := Pruned(z, now).live, Published(max, z, device, rs, now).0.live;
      var vs := ValuesFor(rs, name);
      if vs == [] then (name in after <==> name in before) && (name in after ==> after[name] == before[name])
      else name in after && after[name] == Live(PushedAll(ValuesAt(before, name), vs), now + 300)
  {
    var p, vs := Pruned(z, now), ValuesFor(rs, name);
    if Novel(p, rs) {
      AddedAt(p.live, rs, now + CHALLENGE_TTL, name);
    } else {
      ValuesForNone(rs, name);
      if vs != [] {
        forall v | v in vs ensures v in ValuesAt(p.live, name) {
          ValuesForNamed(rs, Record(name, v));
          assert IsLive(p.live, Record(name, v));
        }
        assert vs[0] in vs;
        NothingNewPushed(ValuesAt(p.live, name), vs);
      }
    }
  }

  lemma TimelyBefore(es: seq<Event>, t: Time)
    requires Timely(es, t) && |es| > 0
    ensures Timely(es[..|es| - 1], es[|es| - 1].now) && Timely(es[..|es| - 1], t)
  {
  }

  /** A lookup at `t` finds a name exactly if it stands by its mentions, with the values that stand. */
  ghost predicate Tells(live: map<string, Live>, log: seq<Mention>, name: string, t: Time) {
    && (name in live && live[name].expiresAt > t <==> Stands(log, t))
    && (Stands(log, t) ==> live[name] == Live(Standing(log, t), log[|log| - 1].at + 300))
  }

  lemma PrunedTells(z: Zone, log: seq<Mention>, name: string, now: Time, t: Time)
    requires now <= t
    ensures Tells(z.live, log, name, t) ==> Tells(Pruned(z, now).live, log, name, t)
    ensures Tells(z.live, log, name, t) ==> ValuesAt(Pruned(z, t).live, name) == Standing(log, t)
  {
  }

  lemma PublishedTells(max: nat, es: seq<Event>, e: Event, name: string, t: Time)
    requires Accepts(max, es, e) && e.now <= t
    requires Tells(After(max, es).live, Mentions(max, es, name), name, t)
    requires Tells(After(max, es).live, Mentions(max, es, name), name, e.now)
    ensures
      var vs := ValuesFor(e.rs, name);
      var log := Mentions(max, es, name) + if vs != [] then [Mention(e.now, vs)] else [];
      Tells(Do(max, After(max, es), e).live, log, name, t)
  {
    var z, log, vs := After(max, es), Mentions(max, es, name), ValuesFor(e.rs, name);
    AcceptedAt(max, z, e.device, e.rs, e.now, name);
    PrunedTells(z, log, name, e.now, t);
    PrunedTells(z, log, name, e.now, e.now);
    if vs == [] {
      assert log + [] == log;
    } else {
      var after := log + [Mention(e.now, vs)];
      assert after[..|after| - 1] == log && after[|after| - 1] == Mention(e.now, vs);
    }
  }

  lemma {:induction false} RunTells(max: nat, es: seq<Event>, name: string, t: Time)
    requires Timely(es, t)
    ensures Tells(After(max, es).live, Mentions(max, es, name), name, t)
    decreases |es|
  {
    if |es| > 0 {
      var before, e := es[..|es| - 1], es[|es| - 1];
      TimelyBefore(es, t);
      RunTells(max, before, name, t);
      RunTells(max, before, name, e.now);
      if Accepts(max, before, e) {
        PublishedTells(max, before, e, name, t);
      } else {
        PrunedTells(After(max, before), Mentions(max, before, name), name, e.now, t);
        assert Mentions(max, before, name) + [] == Mentions(max, before, name);
      }
    }
  }

  /** Whatever was posted when: a lookup finds a name exactly if an accepted order mentioned it in the last five
      minutes, and answers with the values of its mentions, each added to those that stood before. */
  lemma LookupTellsMentions(max: nat, es: seq<Event>, name: string, t: Time)
    requires Timely(es, t)
    ensures
      var found, log := Pruned(After(max, es), t).live, Mentions(max, es, name);
      && (name in found <==> Stands(log, t))
      && (name in found ==> found[name].expiresAt == log[|log| - 1].at + 300)
      && ValuesAt(found, name) == Standing(log, t)
  {
    RunTells(max, es, name, t);
    PrunedTells(After(max, es), Mentions(max, es, name), name, t, t);
  }

  /** An order is news if some value of it does not stand. */
  ghost predicate News(max: nat, es: seq<Event>, rs: seq<Record>, now: Time) {
    exists r :: r in rs && r.value !in Standing(Mentions(max, es, r.name), now)
  }

  lemma NewsIsNovel(max: nat, es: seq<Event>, rs: seq<Record>, now: Time)
    requires Timely(es, now)
    ensures News(max, es, rs, now) <==> Novel(Pruned(After(max, es), now), rs)
  {
    var p := Pruned(After(max, es), now);
    forall r | r in rs ensures IsLive(p.live, r) <==> r.value in Standing(Mentions(max, es, r.name), now) {
      LookupTellsMentions(max, es, r.name, now);
    }
  }

  /** How many accepted orders of `who` were news within the week before `t`. */
  ghost function NewsThisWeek(max: nat, es: seq<Event>, who: Option<PubKey>, t: Time): nat {
    if |es| == 0 then 0
    else
      var before, e := es[..|es| - 1], es[|es| - 1];
      NewsThisWeek(max, before, who, t) +
        if && Accepts(max, before, e) && News(max, before, e.rs, e.now) && t < e.now + 604800
           && (who.None? || who.value == e.device) then 1 else 0
  }

  lemma {:induction false} InWindowTwice(ats: seq<Time>, now: Time, t: Time)
    requires now <= t
    ensures InWindow(InWindow(ats, now), t) == InWindow(ats, t)
  {
    if |ats| > 0 {
      InWindowTwice(ats[1..], now, t);
      InWindowConcat(if Since(now, ats[0]) < ISSUANCE_WINDOW then [ats[0]] else [], InWindow(ats[1..], now), t);
    }
  }

  lemma {:induction false} InWindowConcat(a: seq<Time>, b: seq<Time>, t: Time)
    ensures InWindow(a + b, t) == InWindow(a, t) + InWindow(b, t)
  {
    if |a| == 0 {
      assert a + b == b;
    } else {
      assert (a + b)[1..] == a[1..] + b;
      InWindowConcat(a[1..], b, t);
    }
  }

  lemma {:induction false} SpentTellsNews(max: nat, es: seq<Event>, who: Option<PubKey>, t: Time)
    requires Timely(es, t)
    ensures |InWindow(Spent(After(max, es), who), t)| == NewsThisWeek(max, es, who, t)
    decreases |es|
  {
    if |es| > 0 {
      var before, e := es[..|es| - 1], es[|es| - 1];
      var z := After(max, before);
      TimelyBefore(es, t);
      SpentTellsNews(max, before, who, t);
      NewsGoesIn(max, before, e, who, t);
    }
  }

  lemma NewsGoesIn(max: nat, es: seq<Event>, e: Event, who: Option<PubKey>, t: Time)
    requires Timely(es, e.now) && e.now <= t
    ensures
      var z := After(max, es);
      |InWindow(Spent(Do(max, z, e), who), t)| == |InWindow(Spent(z, who), t)| +
        if && Accepts(max, es, e) && News(max, es, e.rs, e.now) && t < e.now + 604800
           && (who.None? || who.value == e.device) then 1 else 0
  {
    var z := After(max, es);
    InWindowTwice(Spent(z, who), e.now, t);
    match e
    case Consult(now) => PrunedSpent(z, now, who);
    case Publish(d, rs, now) =>
      PublishedSpent(max, z, d, rs, now, who);
      InWindowConcat(InWindow(Spent(z, who), now), Charge(max, z, d, rs, now, who), t);
      NewsIsNovel(max, es, rs, now);
  }

  /** The records, by their place in the order, whose name does not stand. */
  ghost function Unseen(max: nat, es: seq<Event>, rs: seq<Record>, now: Time): set<nat> {
    set i: nat | i < |rs| && !Stands(Mentions(max, es, rs[i].name), now)
  }

  lemma {:induction false} NewNamesAreUnseen(max: nat, es: seq<Event>, rs: seq<Record>, now: Time)
    requires Timely(es, now)
    ensures NewNames(Pruned(After(max, es), now).live, rs) == |Unseen(max, es, rs, now)|
    decreases |rs|
  {
    if |rs| > 0 {
      var n := |rs| - 1;
      NewNamesAreUnseen(max, es, rs[..n], now);
      LookupTellsMentions(max, es, rs[n].name, now);
      var last: set<nat> := if Stands(Mentions(max, es, rs[n].name), now) then {} else {n};
      assert Unseen(max, es, rs, now) == Unseen(max, es, rs[..n], now) + last;
    }
  }

  /** The verdict on any order after any history: accepted free of charge if it is no news; else refused for the
      device's week, then for everybody's, then for the number of names, and accepted otherwise. */
  lemma VerdictExactly(max: nat, es: seq<Event>, device: PubKey, rs: seq<Record>, now: Time)
    requires Timely(es, now)
    ensures
      var verdict := Published(max, After(max, es), device, rs, now).1;
      if !News(max, es, rs, now) then verdict == Ok(())
      else if NewsThisWeek(max, es, Some(device), now) >= Min(5, max) then verdict == Err(DeviceBudgetExhausted)
      else if NewsThisWeek(max, es, None, now) >= max then verdict == Err(BudgetExhausted)
      else if |Pruned(After(max, es), now).live| + |Unseen(max, es, rs, now)| > 4096 then verdict == Err(TooManyLive)
      else verdict == Ok(())
  {
    NewsIsNovel(max, es, rs, now);
    SpentTellsNews(max, es, Some(device), now);
    SpentTellsNews(max, es, None, now);
    PrunedSpent(After(max, es), now, Some(device));
    NewNamesAreUnseen(max, es, rs, now);
  }

  // ---- A run that loses a value it posts again ----

  /** The store after a series of orders of one device, the i-th at time i. */
  function Served(max: nat, d: PubKey, orders: seq<seq<Record>>): Zone {
    if |orders| == 0 then NO_CHALLENGES
    else
      var last := |orders| - 1;
      Published(max, Served(max, d, orders[..last]), d, orders[last], last).0
  }

  /** Times 0 to n-1. */
  function Clock(n: nat): (ts: seq<Time>)
    ensures |ts| == n && forall i :: 0 <= i < n ==> ts[i] == i
  {
    if n == 0 then [] else Clock(n - 1) + [n - 1]
  }

  /** Nothing is live but `values` at one name, and the log is one device's orders at 0 .. n-1. */
  ghost predicate Holds(z: Zone, name: string, d: PubKey, values: seq<string>, n: nat) {
    && z.live.Keys <= {name} && ValuesAt(z.live, name) == values
    && (name in z.live ==> z.live[name].expiresAt + 1 >= n + CHALLENGE_TTL)
    && z.issuances == Clock(n) && Spent(z, Some(d)) == Clock(n)
  }

  lemma {:induction false} RecentStay(ats: seq<Time>, now: Time)
    requires forall i :: 0 <= i < |ats| ==> now < ats[i] + ISSUANCE_WINDOW
    ensures InWindow(ats, now) == ats
  {
    if |ats| > 0 {
      RecentStay(ats[1..], now);
    }
  }

  lemma NothingLapses(z: Zone, name: string, d: PubKey, values: seq<string>, n: nat)
    requires Holds(z, name, d, values, n) && n < MAX_CERTS_PER_DEVICE_PER_WEEK
    ensures Holds(Pruned(z, n), name, d, values, n)
  {
    RecentStay(Clock(n), n);
    PrunedSpent(z, n, Some(d));
  }

  lemma {:induction false} NewNamesFew(live: map<string, Live>, rs: seq<Record>)
    ensures NewNames(live, rs) <= |rs|
  {
    if |rs| > 0 {
      NewNamesFew(live, rs[..|rs| - 1]);
    }
  }

  lemma {:induction false} OnlyThatName(live: map<string, Live>, rs: seq<Record>, name: string, expiresAt: Time)
    requires live.Keys <= {name} && forall r :: r in rs ==> r.name == name
    ensures Added(live, rs, expiresAt).Keys <= {name}
  {
    if |rs| > 0 {
      assert forall r :: r in rs[..|rs| - 1] ==> r in rs;
      OnlyThatName(live, rs[..|rs| - 1], name, expiresAt);
    }
  }

  lemma OrderAccepted(max: nat, z: Zone, name: string, d: PubKey, values: seq<string>, rs: seq<Record>, n: nat)
    requires Holds(z, name, d, values, n) && n < MAX_CERTS_PER_DEVICE_PER_WEEK <= max && 0 < |rs| <= 3
    requires rs[|rs| - 1].name == name && rs[|rs| - 1].value !in values
    ensures Charges(max, z, d, rs, n)
  {
    var p := Pruned(z, n);
    NothingLapses(z, name, d, values, n);
    assert rs[|rs| - 1] in rs && !IsLive(p.live, rs[|rs| - 1]);
    NewNamesFew(p.live, rs);
    SubsetSize(p.live.Keys, {name});
    assert |p.live| == |p.live.Keys|;
  }

  lemma AddedHolds(z: Zone, name: string, d: PubKey, values: seq<string>, rs: seq<Record>, n: nat)
    requires Holds(z, name, d, values, n) && ValuesFor(rs, name) != [] && forall r :: r in rs ==> r.name == name
    ensures
      var q := Zone(Added(z.live, rs, n + CHALLENGE_TTL), z.issuances + [n], z.perDevice[d := Spent(z, Some(d)) + [n]]);
      Holds(q, name, d, PushedAll(values, ValuesFor(rs, name)), n + 1)
  {
    AddedAt(z.live, rs, n + CHALLENGE_TTL, name);
    OnlyThatName(z.live, rs, name, n + CHALLENGE_TTL);
  }

  lemma PublishedCharged(max: nat, z: Zone, d: PubKey, rs: seq<Record>, now: Time)
    requires Charges(max, z, d, rs, now)
    ensures
      var p := Pruned(z, now);
      Published(max, z, d, rs, now) == (Zone(Added(p.live, rs, now + CHALLENGE_TTL), p.issuances + [now],
        p.perDevice[d := Spent(p, Some(d)) + [now]]), Ok(()))
  {
  }

  /** One more order with something new in it, within the budgets. */
  lemma OrderServed(max: nat, z: Zone, name: string, d: PubKey, values: seq<string>, rs: seq<Record>, n: nat)
    requires Holds(z, name, d, values, n) && n < MAX_CERTS_PER_DEVICE_PER_WEEK <= max && 0 < |rs| <= 3
    requires (forall r :: r in rs ==> r.name == name) && rs[|rs| - 1].value !in values
    ensures Published(max, z, d, rs, n).1.Ok?
    ensures Holds(Published(max, z, d, rs, n).0, name, d, PushedAll(values, ValuesFor(rs, name)), n + 1)
  {
    OrderAccepted(max, z, name, d, values, rs, n);
    PublishedCharged(max, z, d, rs, n);
    ServedHolds(z, name, d, values, rs, n);
  }

  lemma ServedHolds(z: Zone, name: string, d: PubKey, values: seq<string>, rs: seq<Record>, n: nat)
    requires Holds(z, name, d, values, n) && n < MAX_CERTS_PER_DEVICE_PER_WEEK
    requires |rs| > 0 && forall r :: r in rs ==> r.name == name
    ensures
      var p := Pruned(z, n);
      Holds(Zone(Added(p.live, rs, n + CHALLENGE_TTL), p.issuances + [n], p.perDevice[d := Spent(p, Some(d)) + [n]]),
        name, d, PushedAll(values, ValuesFor(rs, name)), n + 1)
  {
    NothingLapses(z, name, d, values, n);
    assert rs[|rs| - 1].name == name;
    AddedHolds(Pruned(z, n), name, d, values, rs, n);
  }

  lemma HoldsExactly(z: Zone, name: string, d: PubKey, values: seq<string>, n: nat, v: string)
    requires Holds(z, name, d, values, n)
    ensures IsLive(z.live, Record(name, v)) <==> v in values
    ensures Spent(z, Some(d)) == Clock(n)
  {
  }

  function Pair(name: string, v: string, w: string): seq<Record> {
    [Record(name, v), Record(name, w)]
  }

  lemma PairAppends(values: seq<string>, v: string, w: string)
    requires |values| + 2 <= MAX_VALUES_PER_NAME && v !in values && w !in values && v != w
    ensures PushedAll(values, [v, w]) == values + [v, w]
  {
    assert [v] + [w] == [v, w];
    PushedAllConcat(values, [v], [w]);
    OnePushed(values, v);
    OnePushed(values + [v], w);
  }

  /** The values a[0], a[1], ... posted two an order. */
  function Pairs(name: string, a: seq<string>, n: nat): (orders: seq<seq<Record>>)
    requires 2 * n <= |a|
    ensures |orders| == n
  {
    if n == 0 then [] else Pairs(name, a, n - 1) + [Pair(name, a[2 * n - 2], a[2 * n - 1])]
  }

  lemma NothingHeld(name: string, d: PubKey)
    ensures Holds(NO_CHALLENGES, name, d, [], 0)
  {
  }

  lemma {:induction false} PairsFill(max: nat, d: PubKey, name: string, a: seq<string>, n: nat)
    requires MAX_CERTS_PER_DEVICE_PER_WEEK <= max && Distinct(a) && |a| == MAX_VALUES_PER_NAME && n <= 4
    ensures Holds(Served(max, d, Pairs(name, a, n)), name, d, a[..2 * n], n)
  {
    if n == 0 {
      NothingHeld(name, d);
    } else {
      PairsFill(max, d, name, a, n - 1);
      assert a[..2 * n - 2] + [a[2 * n - 2], a[2 * n - 1]] == a[..2 * n];
      PairAdded(max, d, name, a[..2 * n - 2], Pairs(name, a, n - 1), a[2 * n - 2], a[2 * n - 1]);
    }
  }

  lemma PairAdded(max: nat, d: PubKey, name: string, values: seq<string>, orders: seq<seq<Record>>, v: string,
                  w: string)
    requires |orders| < MAX_CERTS_PER_DEVICE_PER_WEEK <= max && Holds(Served(max, d, orders), name, d, values, |orders|)
    requires |values| + 2 <= MAX_VALUES_PER_NAME && v !in values && w !in values && v != w
    ensures Holds(Served(max, d, orders + [Pair(name, v, w)]), name, d, values + [v, w], |orders| + 1)
  {
    PairServed(max, d, name, values, orders, v, w);
    PairAppends(values, v, w);
  }

  lemma NextServed(max: nat, d: PubKey, name: string, values: seq<string>, orders: seq<seq<Record>>,
                   rs: seq<Record>, vs: seq<string>)
    requires Holds(Served(max, d, orders), name, d, values, |orders|)
    requires |orders| < MAX_CERTS_PER_DEVICE_PER_WEEK <= max && 0 < |rs| <= 3 && ValuesFor(rs, name) == vs
    requires (forall r :: r in rs ==> r.name == name) && rs[|rs| - 1].value !in values
    ensures Published(max, Served(max, d, orders), d, rs, |orders|).1.Ok?
    ensures Holds(Served(max, d, orders + [rs]), name, d, PushedAll(values, vs), |orders| + 1)
  {
    OneMore(max, d, orders, rs);
    OrderServed(max, Served(max, d, orders), name, d, values, rs, |orders|);
  }

  lemma PairServed(max: nat, d: PubKey, name: string, values: seq<string>, orders: seq<seq<Record>>, v: string,
                   w: string)
    requires Holds(Served(max, d, orders), name, d, values, |orders|) && w !in values
    requires |orders| < MAX_CERTS_PER_DEVICE_PER_WEEK <= max
    ensures Published(max, Served(max, d, orders), d, Pair(name, v, w), |orders|).1.Ok?
    ensures Holds(Served(max, d, orders + [Pair(name, v, w)]), name, d, PushedAll(values, [v, w]), |orders| + 1)
  {
    ValuesOfOneName(name, v, w, w);
    NextServed(max, d, name, values, orders, Pair(name, v, w), [v, w]);
  }

  lemma OneMore(max: nat, d: PubKey, orders: seq<seq<Record>>, rs: seq<Record>)
    ensures Served(max, d, orders + [rs]) == Published(max, Served(max, d, orders), d, rs, |orders|).0
  {
    assert (orders + [rs])[..|orders|] == orders;
  }

  /** From the empty store, within a device's five orders a week: four orders of two values, then a fifth that posts
      the oldest of them again, with a new one. All five are accepted and charged, and the value posted again is
      gone. */
  lemma RepostedValueLost(max: nat, d: PubKey, name: string, a: seq<string>, n: string)
    requires MAX_CERTS_PER_DEVICE_PER_WEEK <= max && |a| == MAX_VALUES_PER_NAME && Distinct(a) && n !in a
    ensures
      var (orders, fifth) := (Pairs(name, a, 4), Pair(name, a[0], n));
      var (before, after) := (Served(max, d, orders), Served(max, d, orders + [fifth]));
      && Published(max, before, d, fifth, 4).1.Ok? && Spent(after, Some(d)) == Clock(5)
      && IsLive(before.live, Record(name, a[0])) && !IsLive(after.live, Record(name, a[0]))
  {
    var orders := Pairs(name, a, 4);
    PairsFill(max, d, name, a, 4);
    assert a[..8] == a;
    HoldsExactly(Served(max, d, orders), name, d, a, 4, a[0]);
    PairServed(max, d, name, a, orders, a[0], n);
    OldestLost(a, n);
    HoldsExactly(Served(max, d, orders + [Pair(name, a[0], n)]), name, d, PushedAll(a, [a[0], n]), 5, a[0]);
  }

  lemma OldestLost(a: seq<string>, n: string)
    requires |a| == MAX_VALUES_PER_NAME && Distinct(a) && n !in a
    ensures a[0] !in PushedAll(a, [a[0], n])
  {
    assert [a[0]] + [n] == [a[0], n];
    PushedAllConcat(a, [a[0]], [n]);
    OnePushed(a, a[0]);
    OnePushed(a, n);
  }

  /** In the same run, a fifth order of three values: a service of the device may carry the device's own name, which
      gives that name a third value. It evicts a value the first two alone would have left live. */
  lemma ThirdValueLost(max: nat, d: PubKey, name: string, a: seq<string>, n: string, u: string)
    requires MAX_CERTS_PER_DEVICE_PER_WEEK <= max && |a| == MAX_VALUES_PER_NAME && Distinct(a)
    requires n !in a && u !in a && n != u
    ensures
      var (orders, two) := (Pairs(name, a, 4), Pair(name, a[1], n));
      var (before, three) := (Served(max, d, orders), two + [Record(name, u)]);
      && Published(max, before, d, three, 4).1.Ok?
      && IsLive(Served(max, d, orders + [two]).live, Record(name, a[1]))
      && !IsLive(Served(max, d, orders + [three]).live, Record(name, a[1]))
  {
    var orders, two := Pairs(name, a, 4), Pair(name, a[1], n);
    PairsFill(max, d, name, a, 4);
    assert a[..8] == a;
    ThirdEvicts(a, a[1], n, u);
    PairServed(max, d, name, a, orders, a[1], n);
    HoldsExactly(Served(max, d, orders + [two]), name, d, PushedAll(a, [a[1], n]), 5, a[1]);
    TripleServed(max, d, name, a, orders, a[1], n, u);
    HoldsExactly(Served(max, d, orders + [two + [Record(name, u)]]), name, d, PushedAll(a, [a[1], n, u]), 5, a[1]);
  }

  lemma TripleServed(max: nat, d: PubKey, name: string, values: seq<string>, orders: seq<seq<Record>>,
                     v: string, w: string, u: string)
    requires Holds(Served(max, d, orders), name, d, values, |orders|) && u !in values
    requires |orders| < MAX_CERTS_PER_DEVICE_PER_WEEK <= max
    ensures
      var three := Pair(name, v, w) + [Record(name, u)];
      && Published(max, Served(max, d, orders), d, three, |orders|).1.Ok?
      && Holds(Served(max, d, orders + [three]), name, d, PushedAll(values, [v, w, u]), |orders| + 1)
  {
    var three := Pair(name, v, w) + [Record(name, u)];
    assert three == [Record(name, v), Record(name, w), Record(name, u)];
    ValuesOfOneName(name, v, w, u);
    NextServed(max, d, name, values, orders, three, [v, w, u]);
  }

  // ---- The store as the source keeps it ----

  class ChallengeStore {
    const maxCertsPerWeek: nat
    var live: map<string, Live>
    var issuances: seq<Time>
    var perDevice: map<PubKey, seq<Time>>

    ghost function View(): Zone
      reads this
    {
      Zone(live, issuances, perDevice)
    }

    constructor (maxCertsPerWeek: nat)
      ensures this.maxCertsPerWeek == maxCertsPerWeek
      ensures View() == Zone(map[], [], map[]) && Sound(maxCertsPerWeek, View())
    {
      this.maxCertsPerWeek := maxCertsPerWeek;
      live, issuances, perDevice := map[], [], map[];
      new;
      EmptyIsSound(maxCertsPerWeek);
    }

    method Prune(now: Time)
      modifies this
      ensures View() == Pruned(old(View()), now)
    {
      live := map n | n in live && live[n].expiresAt > now :: live[n];
      issuances := InWindow(issuances, now);
      perDevice := map d | d in perDevice && InWindow(perDevice[d], now) != [] :: InWindow(perDevice[d], now);
    }

    method Lookup(name: string, now: Time) returns (values: Option<seq<string>>)
      requires Sound(maxCertsPerWeek, View())
      modifies this
      ensures View() == Pruned(old(View()), now) && Sound(maxCertsPerWeek, View())
      ensures values.Some? <==> name in live
      ensures values.Some? ==> values.value == live[name].values && |values.value| <= MAX_VALUES_PER_NAME
    {
      PrunedIsSound(maxCertsPerWeek, View(), now);
      Prune(now);
      values := if name in live then Some(live[name].values) else None;
    }

    method Refresh(rs: seq<Record>, expiresAt: Time)
      modifies this`live
      ensures live == Refreshed(old(live), rs, expiresAt)
    {
      ghost var before := live;
      for i := 0 to |rs|
        invariant live == Refreshed(before, rs[..i], expiresAt)
      {
        assert rs[..i + 1] == rs[..i] + [rs[i]];
        if rs[i].name in live {
          live := live[rs[i].name := Live(live[rs[i].name].values, expiresAt)];
        }
      }
      assert rs[..|rs|] == rs;
    }

    method Add(rs: seq<Record>, expiresAt: Time)
      modifies this`live
      ensures live == Added(old(live), rs, expiresAt)
    {
      ghost var before := live;
      for i := 0 to |rs|
        invariant live == Added(before, rs[..i], expiresAt)
      {
        assert rs[..i + 1][..i] == rs[..i];
        var values := if rs[i].name in live then live[rs[i].name].values else [];
        live := live[rs[i].name := Live(Pushed(values, rs[i].value), expiresAt)];
      }
      assert rs[..|rs|] == rs;
    }

    method Refuse(device: PubKey, rs: seq<Record>) returns (e: Option<PublishError>)
      ensures e == Refusal(maxCertsPerWeek, View(), device, rs)
    {
      var spent := if device in perDevice then |perDevice[device]| else 0;
      if spent >= Min(MAX_CERTS_PER_DEVICE_PER_WEEK, maxCertsPerWeek) {
        return Some(DeviceBudgetExhausted);
      }
      if |issuances| >= maxCertsPerWeek {
        return Some(BudgetExhausted);
      }
      var newNames := 0;
      for i := 0 to |rs|
        invariant newNames == NewNames(live, rs[..i])
      {
        assert rs[..i + 1][..i] == rs[..i];
        if rs[i].name !in live {
          newNames := newNames + 1;
        }
      }
      assert rs[..|rs|] == rs;
      if |live| + newNames > MAX_LIVE_CHALLENGES {
        return Some(TooManyLive);
      }
      e := None;
    }

    /** A refusal leaves everything as pruning found it. */
    method Publish(device: PubKey, rs: seq<Record>, now: Time) returns (r: Result<(), PublishError>)
      modifies this
      ensures (View(), r) == Published(maxCertsPerWeek, old(View()), device, rs, now)
      ensures r.Err? ==> View() == Pruned(old(View()), now)
    {
      Prune(now);
      if forall r :: r in rs ==> IsLive(live, r) {
        Refresh(rs, now + CHALLENGE_TTL);
        return Ok(());
      }
      var refusal := Refuse(device, rs);
      if refusal.Some? {
        return Err(refusal.value);
      }
      Add(rs, now + CHALLENGE_TTL);
      issuances := issuances + [now];
      var spent := if device in perDevice then perDevice[device] else [];
      perDevice := perDevice[device := spent + [now]];
      r := Ok(());
    }
  }
}
