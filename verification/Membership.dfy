/**
 Presence and the scoped version counters that serve as the long-poll ETag
 (crates/coordinator/src/presence.rs, crates/coordinator/src/versions.rs).

 A mutator reports the scopes it changed; somebody bumps their counters, now or later. A client compares
 a tag over its scopes with the one it was last given, and stays parked while they are equal. The
 theorems say what equal tags are worth, over whole runs of changes and bumps in any order.
 */
module Membership {
  import opened Prelude
  import M = MemberCache

  datatype Scope = Guild(id: nat) | User(id: nat)

  datatype Member = Member(
    pubkey: PubKey, ip: nat, user: nat, username: string, deviceName: string,
    isPrimary: bool, endpoint: Option<nat>)

  datatype Entry = Entry(p: Member, lastSeen: Time, clientVersion: string)

  datatype NetKey = NetKey(guild: nat, role: nat, pubkey: PubKey)

  datatype OwnKey = OwnKey(user: nat, pubkey: PubKey)

  datatype Tables = Tables(net: map<NetKey, Entry>, own: map<OwnKey, Entry>)

  // ---- What a scope shows ----

  datatype View = Networks(members: map<NetKey, Member>) | Devices(devices: map<OwnKey, Member>)

  function Visible(t: Tables, sc: Scope): View {
    match sc
    case Guild(g) => Networks(map k | k in t.net && k.guild == g :: t.net[k].p)
    case User(u) => Devices(map k | k in t.own && k.user == u :: t.own[k].p)
  }

  /** The other devices present in a network, as the snapshot lists them. */
  function OthersIn(t: Tables, guild: nat, role: nat, exclude: PubKey): set<Member> {
    set k | k in t.net && k.guild == guild && k.role == role && k.pubkey != exclude :: t.net[k].p
  }

  function OthersOfUser(t: Tables, user: nat, exclude: PubKey): set<Member> {
    set k | k in t.own && k.user == user && k.pubkey != exclude :: t.own[k].p
  }

  /** What the snapshot lists for a scope depends only on what the scope shows. */
  lemma ListsFollowView(t: Tables, u: Tables, guild: nat, role: nat, user: nat, exclude: PubKey)
    ensures Visible(t, Guild(guild)) == Visible(u, Guild(guild)) ==>
      OthersIn(t, guild, role, exclude) == OthersIn(u, guild, role, exclude)
    ensures Visible(t, User(user)) == Visible(u, User(user)) ==>
      OthersOfUser(t, user, exclude) == OthersOfUser(u, user, exclude)
  {
    GuildViews(t, u, guild);
    UserViews(t, u, user);
    if Visible(t, Guild(guild)) == Visible(u, Guild(guild)) {
      assert forall k: NetKey :: k.guild == guild ==> SameNet(t, u, k);
      assert OthersIn(t, guild, role, exclude) == OthersIn(u, guild, role, exclude);
    }
    if Visible(t, User(user)) == Visible(u, User(user)) {
      assert forall k: OwnKey :: k.user == user ==> SameOwn(t, u, k);
      assert OthersOfUser(t, user, exclude) == OthersOfUser(u, user, exclude);
    }
  }

  // ---- The mutators ----

  datatype Change =
    | Record(guild: nat, role: nat, p: Member, version: string, now: Time)
    | RecordSelf(user: nat, p: Member, version: string, now: Time)
    | Evict(guild: nat, role: nat, pubkey: PubKey)
    | EvictSelf(user: nat, pubkey: PubKey)
    | EvictUser(guild: nat, role: nat, user: nat)
    | Reap(now: Time, maxAge: nat)

  predicate Live(e: Entry, now: Time, maxAge: nat) {
    Since(now, e.lastSeen) <= maxAge
  }

  function Apply(t: Tables, c: Change): Tables {
    match c
    case Record(g, r, p, v, now) => t.(net := t.net[NetKey(g, r, p.pubkey) := Entry(p, now, v)])
    case RecordSelf(u, p, v, now) => t.(own := t.own[OwnKey(u, p.pubkey) := Entry(p, now, v)])
    case Evict(g, r, pk) => t.(net := t.net - {NetKey(g, r, pk)})
    case EvictSelf(u, pk) => t.(own := t.own - {OwnKey(u, pk)})
    case EvictUser(g, r, u) =>
      t.(net := map k | k in t.net && !(k.guild == g && k.role == r && t.net[k].p.user == u) :: t.net[k])
    case Reap(now, maxAge) =>
      Tables(map k | k in t.net && Live(t.net[k], now, maxAge) :: t.net[k],
             map k | k in t.own && Live(t.own[k], now, maxAge) :: t.own[k])
  }

  /** The scopes the mutator's result tells its caller to bump. */
  function Reported(t: Tables, c: Change): set<Scope> {
    match c
    case Record(g, r, p, _, _) =>
      var k := NetKey(g, r, p.pubkey);
      if k in t.net && t.net[k].p == p then {} else {Guild(g)}
    case RecordSelf(u, p, _, _) =>
      var k := OwnKey(u, p.pubkey);
      if k in t.own && t.own[k].p == p then {} else {User(u)}
    case Evict(g, r, pk) => if NetKey(g, r, pk) in t.net then {Guild(g)} else {}
    case EvictSelf(u, pk) => if OwnKey(u, pk) in t.own then {User(u)} else {}
    case EvictUser(g, _, _) => if |Apply(t, c).net| != |t.net| then {Guild(g)} else {}
    case Reap(now, maxAge) =>
      (set k | k in t.net && !Live(t.net[k], now, maxAge) :: Guild(k.guild)) +
      (set k | k in t.own && !Live(t.own[k], now, maxAge) :: User(k.user))
  }

  predicate SameNet(t: Tables, u: Tables, k: NetKey) {
    (k in t.net <==> k in u.net) && (k in t.net ==> t.net[k].p == u.net[k].p)
  }

  predicate SameOwn(t: Tables, u: Tables, k: OwnKey) {
    (k in t.own <==> k in u.own) && (k in t.own ==> t.own[k].p == u.own[k].p)
  }

  lemma GuildViews(t: Tables, u: Tables, g: nat)
    ensures Visible(t, Guild(g)) == Visible(u, Guild(g)) <==> forall k: NetKey :: k.guild == g ==> SameNet(t, u, k)
  {
    var vt, vu := Visible(t, Guild(g)).members, Visible(u, Guild(g)).members;
    if vt == vu {
      forall k: NetKey | k.guild == g ensures SameNet(t, u, k) {
        assert k in vt <==> k in vu;
        assert k in vt ==> vt[k] == vu[k];
      }
    }
    if forall k: NetKey :: k.guild == g ==> SameNet(t, u, k) {
      assert vt == vu;
    }
  }

  lemma UserViews(t: Tables, u: Tables, n: nat)
    ensures Visible(t, User(n)) == Visible(u, User(n)) <==> forall k: OwnKey :: k.user == n ==> SameOwn(t, u, k)
  {
    var vt, vu := Visible(t, User(n)).devices, Visible(u, User(n)).devices;
    if vt == vu {
      forall k: OwnKey | k.user == n ensures SameOwn(t, u, k) {
        assert k in vt <==> k in vu;
        assert k in vt ==> vt[k] == vu[k];
      }
    }
    if forall k: OwnKey :: k.user == n ==> SameOwn(t, u, k) {
      assert vt == vu;
    }
  }

  /** The evicted user had an entry exactly when the table shrank. */
  lemma EvictionShows(t: Tables, c: Change)
    requires c.EvictUser?
    ensures |Apply(t, c).net| != |t.net| <==>
      exists k :: k in t.net && k.guild == c.guild && k.role == c.role && t.net[k].p.user == c.user
  {
    var u := Apply(t, c);
    assert |u.net| == |u.net.Keys| && |t.net| == |t.net.Keys|;
    SizesTell(u.net.Keys, t.net.Keys);
    if k :| k in t.net && k.guild == c.guild && k.role == c.role && t.net[k].p.user == c.user {
      assert k in t.net.Keys && k !in u.net.Keys;
    } else {
      assert u.net.Keys == t.net.Keys;
    }
  }

  /** The change alters what the entry at `k` shows. */
  predicate TouchesNet(t: Tables, c: Change, k: NetKey) {
    match c
    case Record(g, r, p, _, _) => k == NetKey(g, r, p.pubkey) && !(k in t.net && t.net[k].p == p)
    case Evict(g, r, pk) => k == NetKey(g, r, pk) && k in t.net
    case EvictUser(g, r, u) => k in t.net && k.guild == g && k.role == r && t.net[k].p.user == u
    case Reap(now, maxAge) => k in t.net && !Live(t.net[k], now, maxAge)
    case _ => false
  }

  predicate TouchesOwn(t: Tables, c: Change, k: OwnKey) {
    match c
    case RecordSelf(u, p, _, _) => k == OwnKey(u, p.pubkey) && !(k in t.own && t.own[k].p == p)
    case EvictSelf(u, pk) => k == OwnKey(u, pk) && k in t.own
    case Reap(now, maxAge) => k in t.own && !Live(t.own[k], now, maxAge)
    case _ => false
  }

  lemma TouchesExactly(t: Tables, c: Change, k: NetKey, o: OwnKey)
    ensures TouchesNet(t, c, k) <==> !SameNet(Apply(t, c), t, k)
    ensures TouchesOwn(t, c, o) <==> !SameOwn(Apply(t, c), t, o)
  {
  }

  lemma ReportsGuild(t: Tables, c: Change, g: nat)
    ensures Guild(g) in Reported(t, c) <==> exists k: NetKey :: k.guild == g && TouchesNet(t, c, k)
  {
    match c
    case Record(n, r, p, _, _) => assert Guild(g) in Reported(t, c) ==> TouchesNet(t, c, NetKey(n, r, p.pubkey));
    case Evict(n, r, pk) => assert Guild(g) in Reported(t, c) ==> TouchesNet(t, c, NetKey(n, r, pk));
    case EvictUser(n, r, m) => EvictionShows(t, c);
    case _ =>
  }

  lemma ReportsUser(t: Tables, c: Change, n: nat)
    ensures User(n) in Reported(t, c) <==> exists k: OwnKey :: k.user == n && TouchesOwn(t, c, k)
  {
    match c
    case RecordSelf(m, p, _, _) => assert User(n) in Reported(t, c) ==> TouchesOwn(t, c, OwnKey(m, p.pubkey));
    case EvictSelf(m, pk) => assert User(n) in Reported(t, c) ==> TouchesOwn(t, c, OwnKey(m, pk));
    case _ =>
  }

  /** A mutator reports a scope exactly when it changes what the scope shows: no wake is missed, and an
      identical re-record wakes nobody. */
  lemma ReportsExactly(t: Tables, c: Change, sc: Scope)
    ensures sc in Reported(t, c) <==> Visible(Apply(t, c), sc) != Visible(t, sc)
  {
    match sc
    case Guild(g) =>
      GuildViews(Apply(t, c), t, g);
      ReportsGuild(t, c, g);
      forall k: NetKey ensures TouchesNet(t, c, k) <==> !SameNet(Apply(t, c), t, k) {
        TouchesExactly(t, c, k, OwnKey(0, 0));
      }
    case User(n) =>
      UserViews(Apply(t, c), t, n);
      ReportsUser(t, c, n);
      forall k: OwnKey ensures TouchesOwn(t, c, k) <==> !SameOwn(Apply(t, c), t, k) {
        TouchesExactly(t, c, NetKey(0, 0, 0), k);
      }
  }

  lemma SizesTell<T>(a: set<T>, b: set<T>)
    requires a <= b
    ensures |a| == |b| <==> a == b
    ensures a != b ==> exists x :: x in b && x !in a
  {
    assert b == a + (b - a);
    if a != b {
      assert exists x :: x in b - a;
    }
  }

  // ---- Who is present after a run ----

  function ApplyAll(t: Tables, cs: seq<Change>): Tables
    decreases |cs|
  {
    if |cs| == 0 then t else ApplyAll(Apply(t, cs[0]), cs[1..])
  }

  /** The change takes this entry of a network away: it evicts the device, or the user from the network, or reaps
      after the entry's time is up. */
  predicate Dislodges(c: Change, k: NetKey, e: Entry) {
    match c
    case Evict(g, r, pk) => k == NetKey(g, r, pk)
    case EvictUser(g, r, u) => k.guild == g && k.role == r && e.p.user == u
    case Reap(now, maxAge) => now > e.lastSeen + maxAge
    case _ => false
  }

  predicate DislodgesOwn(c: Change, k: OwnKey, e: Entry) {
    match c
    case EvictSelf(u, pk) => k == OwnKey(u, pk)
    case Reap(now, maxAge) => now > e.lastSeen + maxAge
    case _ => false
  }

  predicate RecordsAt(c: Change, k: NetKey) {
    c.Record? && k == NetKey(c.guild, c.role, c.p.pubkey)
  }

  predicate RecordsOwnAt(c: Change, k: OwnKey) {
    c.RecordSelf? && k == OwnKey(c.user, c.p.pubkey)
  }

  lemma {:induction false} EntryLasts(t: Tables, cs: seq<Change>, k: NetKey, e: Entry)
    requires k in t.net && t.net[k] == e && forall c :: c in cs ==> !RecordsAt(c, k)
    ensures k in ApplyAll(t, cs).net <==> forall c :: c in cs ==> !Dislodges(c, k, e)
    ensures k in ApplyAll(t, cs).net ==> ApplyAll(t, cs).net[k] == e
    decreases |cs|
  {
    if |cs| > 0 {
      assert cs[0] in cs && forall c :: c in cs <==> c == cs[0] || c in cs[1..];
      if Dislodges(cs[0], k, e) {
        NeverRecorded(Apply(t, cs[0]), cs[1..], k);
      } else {
        EntryLasts(Apply(t, cs[0]), cs[1..], k, e);
      }
    }
  }

  lemma {:induction false} NeverRecorded(t: Tables, cs: seq<Change>, k: NetKey)
    requires k !in t.net && forall c :: c in cs ==> !RecordsAt(c, k)
    ensures k !in ApplyAll(t, cs).net
    decreases |cs|
  {
    if |cs| > 0 {
      assert cs[0] in cs && forall c :: c in cs[1..] ==> c in cs;
      NeverRecorded(Apply(t, cs[0]), cs[1..], k);
    }
  }

  lemma {:induction false} OwnEntryLasts(t: Tables, cs: seq<Change>, k: OwnKey, e: Entry)
    requires k in t.own && t.own[k] == e && forall c :: c in cs ==> !RecordsOwnAt(c, k)
    ensures k in ApplyAll(t, cs).own <==> forall c :: c in cs ==> !DislodgesOwn(c, k, e)
    ensures k in ApplyAll(t, cs).own ==> ApplyAll(t, cs).own[k] == e
    decreases |cs|
  {
    if |cs| > 0 {
      assert cs[0] in cs && forall c :: c in cs <==> c == cs[0] || c in cs[1..];
      if DislodgesOwn(cs[0], k, e) {
        NeverRecordedOwn(Apply(t, cs[0]), cs[1..], k);
      } else {
        OwnEntryLasts(Apply(t, cs[0]), cs[1..], k, e);
      }
    }
  }

  lemma {:induction false} NeverRecordedOwn(t: Tables, cs: seq<Change>, k: OwnKey)
    requires k !in t.own && forall c :: c in cs ==> !RecordsOwnAt(c, k)
    ensures k !in ApplyAll(t, cs).own
    decreases |cs|
  {
    if |cs| > 0 {
      assert cs[0] in cs && forall c :: c in cs[1..] ==> c in cs;
      NeverRecordedOwn(Apply(t, cs[0]), cs[1..], k);
    }
  }

  /** A device recorded at `now`, whatever was there before, stays through a run that does not record it again exactly
      if nothing in the run evicts it and no reap comes later than its age allows, counted from `now`; and it is then
      shown as it was recorded. */
  lemma RecordedLastsExactly(t: Tables, guild: nat, role: nat, p: Member, v: string, now: Time, later: seq<Change>)
    requires forall c :: c in later ==> !RecordsAt(c, NetKey(guild, role, p.pubkey))
    ensures
      var k, u := NetKey(guild, role, p.pubkey), ApplyAll(Apply(t, Record(guild, role, p, v, now)), later);
      && (k in u.net <==> forall c :: c in later ==> !Dislodges(c, k, Entry(p, now, v)))
      && (k in u.net ==> u.net[k] == Entry(p, now, v))
  {
    EntryLasts(Apply(t, Record(guild, role, p, v, now)), later, NetKey(guild, role, p.pubkey), Entry(p, now, v));
  }

  lemma RecordedSelfLastsExactly(t: Tables, user: nat, p: Member, v: string, now: Time, later: seq<Change>)
    requires forall c :: c in later ==> !RecordsOwnAt(c, OwnKey(user, p.pubkey))
    ensures
      var k, u := OwnKey(user, p.pubkey), ApplyAll(Apply(t, RecordSelf(user, p, v, now)), later);
      && (k in u.own <==> forall c :: c in later ==> !DislodgesOwn(c, k, Entry(p, now, v)))
      && (k in u.own ==> u.own[k] == Entry(p, now, v))
  {
    OwnEntryLasts(Apply(t, RecordSelf(user, p, v, now)), later, OwnKey(user, p.pubkey), Entry(p, now, v));
  }

  /** Every entry stands under its own device's key. */
  ghost predicate OwnNames(t: Tables) {
    && (forall k :: k in t.net ==> t.net[k].p.pubkey == k.pubkey)
    && (forall k :: k in t.own ==> t.own[k].p.pubkey == k.pubkey)
  }

  lemma {:induction false} RunKeepsOwnNames(t: Tables, cs: seq<Change>)
    requires OwnNames(t)
    ensures OwnNames(ApplyAll(t, cs))
    decreases |cs|
  {
    if |cs| > 0 {
      RunKeepsOwnNames(Apply(t, cs[0]), cs[1..]);
    }
  }

  /** After any run a snapshot lists, for a network, exactly the devices present in that very network other than the
      caller's, and for a user exactly that user's other devices. */
  lemma ListedExactly(cs: seq<Change>, guild: nat, role: nat, user: nat, exclude: PubKey, m: Member)
    ensures
      var t := ApplyAll(Tables(map[], map[]), cs);
      var k, o := NetKey(guild, role, m.pubkey), OwnKey(user, m.pubkey);
      && (m in OthersIn(t, guild, role, exclude) <==> m.pubkey != exclude && k in t.net && t.net[k].p == m)
      && (m in OthersOfUser(t, user, exclude) <==> m.pubkey != exclude && o in t.own && t.own[o].p == m)
  {
    RunKeepsOwnNames(Tables(map[], map[]), cs);
  }

  // ---- Counters and tags ----

  datatype Counters = Counters(scopes: map<Scope, nat>, global: nat)

  function Count(v: Counters, sc: Scope): nat {
    if sc in v.scopes then v.scopes[sc] else 0
  }

  function BumpedAll(v: Counters, scs: set<Scope>): Counters {
    if scs == {} then v
    else Counters(map sc | sc in v.scopes.Keys + scs :: Count(v, sc) + if sc in scs then 1 else 0, v.global + 1)
  }

  lemma BumpedOneMore(v: Counters, done: set<Scope>, sc: Scope)
    requires sc !in done
    ensures BumpedAll(v, done + {sc}).scopes == BumpedAll(v, done).scopes[sc := Count(v, sc) + 1]
    ensures Count(BumpedAll(v, done), sc) == Count(v, sc)
  {
  }

  /** The tag over a caller's scopes. The source hashes this table; two tags are equal when it is. */
  function Aggregate(v: Counters, scs: set<Scope>): map<Scope, nat> {
    map sc | sc in scs :: Count(v, sc)
  }

  // ---- Runs ----

  /** `owed` holds the scopes whose reported change has not been bumped yet. */
  datatype System = System(t: Tables, v: Counters, owed: set<Scope>)

  datatype Act = Mutate(c: Change) | Bump(scs: set<Scope>)

  function Do(s: System, a: Act): System {
    match a
    case Mutate(c) => System(Apply(s.t, c), s.v, s.owed + Reported(s.t, c))
    case Bump(scs) => System(s.t, BumpedAll(s.v, scs), s.owed - scs)
  }

  function DoAll(s: System, acts: seq<Act>): System
    decreases |acts|
  {
    if |acts| == 0 then s else DoAll(Do(s, acts[0]), acts[1..])
  }

  /** Along a run a counter only grows; while it stands still nothing owed is forgotten, and a scope that
      owes nothing at the end shows what it showed all along. */
  lemma {:induction false} StillCounter(s: System, acts: seq<Act>, sc: Scope)
    ensures Count(s.v, sc) <= Count(DoAll(s, acts).v, sc)
    ensures Count(s.v, sc) == Count(DoAll(s, acts).v, sc) && sc !in DoAll(s, acts).owed ==>
      sc !in s.owed && Visible(s.t, sc) == Visible(DoAll(s, acts).t, sc)
    decreases |acts|
  {
    if |acts| > 0 {
      if acts[0].Mutate? {
        ReportsExactly(s.t, acts[0].c, sc);
      }
      StillCounter(Do(s, acts[0]), acts[1..], sc);
    }
  }

  /** How many batches of a run bump the scope, or any scope at all. */
  function Batches(acts: seq<Act>, sc: Option<Scope>): nat
    decreases |acts|
  {
    if |acts| == 0 then 0
    else
      (if acts[0].Bump? && (if sc.Some? then sc.value in acts[0].scs else acts[0].scs != {}) then 1 else 0) +
        Batches(acts[1..], sc)
  }

  /** Counters count: each scope's the batches that bumped it, the deployment's the batches that were not empty. */
  lemma {:induction false} CountersCountBatches(s: System, acts: seq<Act>, sc: Scope)
    ensures Count(DoAll(s, acts).v, sc) == Count(s.v, sc) + Batches(acts, Some(sc))
    ensures DoAll(s, acts).v.global == s.v.global + Batches(acts, None)
    decreases |acts|
  {
    if |acts| > 0 {
      CountersCountBatches(Do(s, acts[0]), acts[1..], sc);
    }
  }

  /** ETag soundness: if a later point of a run has the same tag and owes no bump in its scopes, then the
      scope sets are the same and every scope shows exactly the same members. */
  lemma SameTagSameMembers(s: System, acts: seq<Act>, scs: set<Scope>, scs': set<Scope>)
    requires Aggregate(s.v, scs) == Aggregate(DoAll(s, acts).v, scs')
    requires DoAll(s, acts).owed !! scs'
    ensures scs == scs'
    ensures forall sc :: sc in scs ==> Visible(s.t, sc) == Visible(DoAll(s, acts).t, sc)
  {
    var u := DoAll(s, acts);
    assert scs == Aggregate(s.v, scs).Keys == scs';
    forall sc | sc in scs ensures Visible(s.t, sc) == Visible(u.t, sc) {
      assert Aggregate(s.v, scs)[sc] == Count(s.v, sc) == Aggregate(u.v, scs)[sc];
      StillCounter(s, acts, sc);
    }
  }

  /** The tag moves exactly when the run bumps one of its scopes: nothing outside them can wake a client. */
  lemma TagMovesOnlyOnItsBumps(s: System, acts: seq<Act>, scs: set<Scope>)
    ensures Aggregate(s.v, scs) != Aggregate(DoAll(s, acts).v, scs) <==>
      exists i :: 0 <= i < |acts| && acts[i].Bump? && acts[i].scs * scs != {}
  {
    var u := DoAll(s, acts);
    forall sc | sc in scs
      ensures Count(s.v, sc) != Count(u.v, sc) <==> exists i :: 0 <= i < |acts| && acts[i].Bump? && sc in acts[i].scs
    {
      CounterMovesOnBump(s, acts, sc);
    }
    assert forall sc :: sc in scs ==>
      Aggregate(s.v, scs)[sc] == Count(s.v, sc) && Aggregate(u.v, scs)[sc] == Count(u.v, sc);
    if i :| 0 <= i < |acts| && acts[i].Bump? && acts[i].scs * scs != {} {
      var sc :| sc in acts[i].scs * scs;
      assert Count(s.v, sc) != Count(u.v, sc);
    }
    if Aggregate(s.v, scs) != Aggregate(u.v, scs) {
      var sc :| sc in scs && Count(s.v, sc) != Count(u.v, sc);
      var i :| 0 <= i < |acts| && acts[i].Bump? && sc in acts[i].scs;
      assert sc in acts[i].scs * scs;
    }
  }

  lemma {:induction false} CounterMovesOnBump(s: System, acts: seq<Act>, sc: Scope)
    ensures Count(s.v, sc) != Count(DoAll(s, acts).v, sc) <==>
      exists i :: 0 <= i < |acts| && acts[i].Bump? && sc in acts[i].scs
    decreases |acts|
  {
    if |acts| > 0 {
      var d := Do(s, acts[0]);
      StillCounter(d, acts[1..], sc);
      CounterMovesOnBump(d, acts[1..], sc);
      if acts[0].Bump? && sc in acts[0].scs {
        assert Count(d.v, sc) == Count(s.v, sc) + 1;
      } else {
        assert Count(d.v, sc) == Count(s.v, sc);
        if i :| 0 <= i < |acts| && acts[i].Bump? && sc in acts[i].scs {
          assert acts[1..][i - 1] == acts[i];
        }
        if j :| 0 <= j < |acts[1..]| && acts[1..][j].Bump? && sc in acts[1..][j].scs {
          assert acts[j + 1] == acts[1..][j];
        }
      }
    }
  }

  // ---- Serving a snapshot with a tag ----

  lemma {:induction false} DoAllOn(s: System, a: seq<Act>, b: seq<Act>)
    ensures DoAll(s, a + b) == DoAll(DoAll(s, a), b)
    decreases |a|
  {
    if |a| == 0 {
      assert a + b == b;
    } else {
      assert (a + b)[1..] == a[1..] + b;
      DoAllOn(Do(s, a[0]), a[1..], b);
    }
  }

  /** Reading the tag before the members would be safe: whatever is changed or bumped between the two
      reads, a later point that owes nothing and has the served tag shows the members served. */
  lemma TagReadFirstIsSound(s: System, between: seq<Act>, later: seq<Act>, scs: set<Scope>, sc: Scope)
    requires sc in scs
    requires Aggregate(s.v, scs) == Aggregate(DoAll(DoAll(s, between), later).v, scs)
    requires DoAll(DoAll(s, between), later).owed !! scs
    ensures Visible(DoAll(s, between).t, sc) == Visible(DoAll(DoAll(s, between), later).t, sc)
  {
    var m := DoAll(s, between);
    var u := DoAll(m, later);
    assert Aggregate(s.v, scs)[sc] == Count(s.v, sc) && Aggregate(u.v, scs)[sc] == Count(u.v, sc);
    StillCounter(s, between, sc);
    StillCounter(m, later, sc);
  }

  /** The snapshot reads the members first and the tag last. Served that way, the members are still the
      current ones at a later quiet point with the same tag exactly when they had not already changed by
      the time the tag was read. */
  lemma TagReadLastExactly(s: System, between: seq<Act>, later: seq<Act>, scs: set<Scope>, sc: Scope)
    requires sc in scs
    requires Aggregate(DoAll(s, between).v, scs) == Aggregate(DoAll(DoAll(s, between), later).v, scs)
    requires DoAll(DoAll(s, between), later).owed !! scs
    ensures Visible(s.t, sc) == Visible(DoAll(DoAll(s, between), later).t, sc)
      <==> Visible(s.t, sc) == Visible(DoAll(s, between).t, sc)
  {
    SameTagSameMembers(DoAll(s, between), later, scs, scs);
  }

  /** So a served snapshot can be stale although its tag is current and nothing is owed: a peer that
      joins, and is bumped, between the two reads stays unseen until something else moves the tag. */
  lemma TagReadLastCanServeStaleMembers(p: Member)
    ensures exists s, between ::
      && DoAll(s, between).owed == {}
      && Visible(s.t, Guild(1)) != Visible(DoAll(s, between).t, Guild(1))
  {
    var s := System(Tables(map[], map[]), Counters(map[], 0), {});
    var join := Mutate(Record(1, 2, p, "", 0));
    var between := [join, Bump({Guild(1)})];
    var t := Apply(s.t, join.c);
    ReportsExactly(s.t, join.c, Guild(1));
    assert between[1..] == [Bump({Guild(1)})];
    assert DoAll(s, between) == DoAll(Do(s, join), [Bump({Guild(1)})]);
    assert DoAll(Do(s, join), [Bump({Guild(1)})]) == Do(Do(s, join), Bump({Guild(1)}));
    assert DoAll(s, between).t == t;
  }

  // ---- As the source keeps them ----

  class Presence {
    var net: map<NetKey, Entry>
    var own: map<OwnKey, Entry>

    ghost function View(): Tables
      reads this
    {
      Tables(net, own)
    }

    constructor ()
      ensures View() == Tables(map[], map[])
    {
      net, own := map[], map[];
    }

    method Record(guild: nat, role: nat, p: Member, version: string, now: Time) returns (changed: bool)
      modifies this
      ensures View() == Apply(old(View()), Change.Record(guild, role, p, version, now))
      ensures changed <==> Visible(View(), Guild(guild)) != Visible(old(View()), Guild(guild))
    {
      ReportsExactly(View(), Change.Record(guild, role, p, version, now), Guild(guild));
      var key := NetKey(guild, role, p.pubkey);
      changed := !(key in net && net[key].p == p);
      net := net[key := Entry(p, now, version)];
    }

    method RecordSelf(user: nat, p: Member, version: string, now: Time) returns (changed: bool)
      modifies this
      ensures View() == Apply(old(View()), Change.RecordSelf(user, p, version, now))
      ensures changed <==> Visible(View(), User(user)) != Visible(old(View()), User(user))
    {
      ReportsExactly(View(), Change.RecordSelf(user, p, version, now), User(user));
      var key := OwnKey(user, p.pubkey);
      changed := !(key in own && own[key].p == p);
      own := own[key := Entry(p, now, version)];
    }

    method Evict(guild: nat, role: nat, pubkey: PubKey) returns (changed: bool)
      modifies this
      ensures View() == Apply(old(View()), Change.Evict(guild, role, pubkey))
      ensures changed <==> Visible(View(), Guild(guild)) != Visible(old(View()), Guild(guild))
    {
      ReportsExactly(View(), Change.Evict(guild, role, pubkey), Guild(guild));
      changed := NetKey(guild, role, pubkey) in net;
      net := net - {NetKey(guild, role, pubkey)};
    }

    method EvictSelf(user: nat, pubkey: PubKey) returns (changed: bool)
      modifies this
      ensures View() == Apply(old(View()), Change.EvictSelf(user, pubkey))
      ensures changed <==> Visible(View(), User(user)) != Visible(old(View()), User(user))
    {
      ReportsExactly(View(), Change.EvictSelf(user, pubkey), User(user));
      changed := OwnKey(user, pubkey) in own;
      own := own - {OwnKey(user, pubkey)};
    }

    method EvictUser(guild: nat, role: nat, user: nat) returns (changed: bool)
      modifies this
      ensures View() == Apply(old(View()), Change.EvictUser(guild, role, user))
      ensures changed <==> Visible(View(), Guild(guild)) != Visible(old(View()), Guild(guild))
    {
      ReportsExactly(View(), Change.EvictUser(guild, role, user), Guild(guild));
      var before := |net|;
      net := map k | k in net && !(k.guild == guild && k.role == role && net[k].p.user == user) :: net[k];
      changed := |net| != before;
    }

    method Reap(now: Time, maxAge: nat) returns (changed: set<Scope>)
      modifies this
      ensures View() == Apply(old(View()), Change.Reap(now, maxAge))
      ensures forall sc :: sc in changed <==> Visible(View(), sc) != Visible(old(View()), sc)
    {
      forall sc ensures sc in Reported(View(), Change.Reap(now, maxAge)) <==>
        Visible(Apply(View(), Change.Reap(now, maxAge)), sc) != Visible(View(), sc)
      {
        ReportsExactly(View(), Change.Reap(now, maxAge), sc);
      }
      changed := set k | k in net && !Live(net[k], now, maxAge) :: Guild(k.guild);
      net := map k | k in net && Live(net[k], now, maxAge) :: net[k];
      changed := changed + set k | k in own && !Live(own[k], now, maxAge) :: User(k.user);
      own := map k | k in own && Live(own[k], now, maxAge) :: own[k];
    }
  }

  class Versions {
    var scopes: map<Scope, nat>
    var global: nat

    ghost function View(): Counters
      reads this
    {
      Counters(scopes, global)
    }

    constructor ()
      ensures View() == Counters(map[], 0)
    {
      scopes, global := map[], 0;
    }

    method Increment(sc: Scope)
      modifies this`scopes
      ensures scopes == old(scopes)[sc := Count(old(View()), sc) + 1]
    {
      var count := if sc in scopes then scopes[sc] else 0;
      scopes := scopes[sc := count + 1];
    }

    /** Bumps every given scope once, and the deployment-wide counter once unless there is none. */
    method BumpAll(scs: set<Scope>)
      modifies this
      ensures View() == BumpedAll(old(View()), scs)
    {
      ghost var base, done := View(), {};
      var any, rest := false, scs;
      while rest != {}
        invariant done !! rest && done + rest == scs && (any <==> done != {})
        invariant scopes == BumpedAll(base, done).scopes
        decreases rest
        modifies this`scopes
      {
        var sc :| sc in rest;
        BumpedOneMore(base, done, sc);
        Increment(sc);
        any, rest, done := true, rest - {sc}, done + {sc};
      }
      assert done == scs;
      if any {
        global := global + 1;
      }
    }
  }

  // ---- The two callers that settle what they owe at once ----

  /** Presence after a user lost every role of the guild but the ones still held. */
  function Revoked(t: Tables, guild: nat, user: nat, roles: set<nat>): Tables {
    t.(net := map k | k in t.net && !(k.guild == guild && k.role in roles && t.net[k].p.user == user) :: t.net[k])
  }

  lemma RevokedOneMore(t: Tables, guild: nat, user: nat, roles: set<nat>, role: nat)
    ensures Apply(Revoked(t, guild, user, roles), EvictUser(guild, role, user)) ==
      Revoked(t, guild, user, roles + {role})
  {
  }

  lemma RevokedShows(t: Tables, guild: nat, user: nat, roles: set<nat>)
    ensures Visible(Revoked(t, guild, user, roles), Guild(guild)) == Visible(t, Guild(guild)) <==>
      Revoked(t, guild, user, roles) == t
  {
    var u := Revoked(t, guild, user, roles);
    if u.net.Keys != t.net.Keys {
      var k :| k in t.net && k !in u.net;
      assert k in Visible(t, Guild(guild)).members && k !in Visible(u, Guild(guild)).members;
    } else {
      assert u.net == t.net;
    }
  }

  lemma RevokeStep(t: Tables, guild: nat, user: nat, roles: set<nat>, role: nat)
    ensures
      var a := Revoked(t, guild, user, roles);
      var b := Apply(a, EvictUser(guild, role, user));
      && b == Revoked(t, guild, user, roles + {role})
      && (b != t <==> a != t || Visible(b, Guild(guild)) != Visible(a, Guild(guild)))
  {
    var a := Revoked(t, guild, user, roles);
    var b := Revoked(a, guild, user, {role});
    RevokedOneMore(t, guild, user, roles, role);
    RevokedOneMore(a, guild, user, {}, role);
    assert Revoked(a, guild, user, {}) == a && {} + {role} == {role};
    RevokedShows(a, guild, user, {role});
    if b == t {
      assert forall k :: k in t.net ==> k in b.net && k in a.net;
      assert a.net == t.net;
    }
  }

  function Lost(nets: seq<nat>, held: set<nat>): set<nat> {
    set r | r in nets && r !in held
  }

  lemma LostOn(nets: seq<nat>, held: set<nat>, i: nat)
    requires i < |nets|
    ensures Lost(nets[..i + 1], held) == Lost(nets[..i], held) + if nets[i] in held then {} else {nets[i]}
  {
    assert nets[..i + 1] == nets[..i] + [nets[i]];
  }

  /** `nets` are the roles registered as networks of the guild, None if they could not be listed. The cached
      membership is forgotten either way, so that the next lookup asks anew. */
  method Revoke(presence: Presence, versions: Versions, cache: M.Cache, guild: nat, user: nat,
      nets: Option<seq<nat>>, held: set<nat>, now: Time)
    requires cache.Valid() && cache.clock <= now
    modifies presence, versions, cache
    ensures cache.Valid() && cache.log == old(cache.log) + [M.Forgotten(M.Id(guild, user), now)]
    ensures M.Truth(cache.log, M.Id(guild, user), now).None?
    ensures presence.View() ==
      Revoked(old(presence.View()), guild, user, if nets.Some? then Lost(nets.value, held) else {})
    ensures forall k :: k in old(presence.net) ==>
      (k !in presence.net <==>
        && k.guild == guild && old(presence.net)[k].p.user == user
        && nets.Some? && k.role in nets.value && k.role !in held)
    ensures versions.View() ==
      if Visible(presence.View(), Guild(guild)) == Visible(old(presence.View()), Guild(guild))
      then old(versions.View()) else BumpedAll(old(versions.View()), {Guild(guild)})
  {
    ghost var before := presence.View();
    assert Revoked(before, guild, user, {}) == before;
    cache.Forget(M.Id(guild, user), now);
    M.LatestOn(old(cache.log), M.Forgotten(M.Id(guild, user), now), M.Id(guild, user));
    if nets.None? {
      return;
    }
    var changed := false;
    for i := 0 to |nets.value|
      invariant presence.View() == Revoked(before, guild, user, Lost(nets.value[..i], held))
      invariant changed <==> presence.View() != before
      modifies presence
    {
      LostOn(nets.value, held, i);
      if nets.value[i] !in held {
        RevokeStep(before, guild, user, Lost(nets.value[..i], held), nets.value[i]);
        var gone := presence.EvictUser(guild, nets.value[i], user);
        changed := changed || gone;
      }
    }
    assert nets.value[..|nets.value|] == nets.value;
    RevokedShows(before, guild, user, Lost(nets.value, held));
    if changed {
      versions.BumpAll({Guild(guild)});
    }
  }

  /** One tick of the presence reaper: each scope's counter moves by one exactly if the scope lost someone. */
  method ReaperTick(presence: Presence, versions: Versions, now: Time, maxAge: nat)
    modifies presence, versions
    ensures presence.View() == Apply(old(presence.View()), Reap(now, maxAge))
    ensures forall sc ::
      var moved := if Visible(presence.View(), sc) == Visible(old(presence.View()), sc) then 0 else 1;
      Count(versions.View(), sc) == Count(old(versions.View()), sc) + moved
  {
    var scs := presence.Reap(now, maxAge);
    versions.BumpAll(scs);
  }
}
