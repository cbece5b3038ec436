/**
 The cache of signed attestations (crates/coordinator/src/signer.rs). It must be as good as signing anew
 for every caller: same outcome, same claims, and never an expired blob.
 */
module SignCache {
  import opened Prelude
  import A = Addressing
  import N = Names

  type User = nat

  datatype Identity = Identity(user: User, username: string, deviceName: string, isPrimary: bool, ip: A.Ip,
                               pubkey: PubKey)

  datatype Attestation = Attestation(guild: nat, id: Identity, net: A.Net, issuedAt: Time, expiresAt: Time)

  /** A signed attestation: the key that signed it, the wire layout, and what it claims. */
  datatype Blob = Blob(signer: PubKey, layout: nat, att: Attestation)

  datatype SignError = UnknownSchema

  const ATTESTATION_SCHEMA_V1: nat := 0
  const ATTESTATION_SCHEMA_V2: nat := 1
  const SIGN_CACHE_REUSE_CAP_SECS: Time := 300

  datatype CacheKey = CacheKey(guild: nat, pubkey: PubKey, layout: nat)

  datatype Cached = Cached(blob: Blob, signedAt: Time, ip: A.Ip, isPrimary: bool, username: string, deviceName: string)

  datatype Cache = Cache(entries: map<CacheKey, Cached>, lastPrune: Time)

  /** The coordinator's mesh range, attestation lifetime, and signing key of each guild. */
  datatype Deployment = Deployment(net: A.Net, ttl: Time, keys: nat -> PubKey)

  datatype Request = Request(guild: nat, id: Identity, now: Time, layout: nat)

  function ReuseSecs(ttl: Time): Time {
    Max(1, Min(ttl / 2, SIGN_CACHE_REUSE_CAP_SECS))
  }

  /** Signing anew at `clock`. */
  function Sign(d: Deployment, guild: nat, id: Identity, layout: nat, clock: Time): Result<Blob, SignError> {
    if layout == ATTESTATION_SCHEMA_V1 || layout == ATTESTATION_SCHEMA_V2
    then Ok(Blob(d.keys(guild), layout, Attestation(guild, id, d.net, clock, clock + d.ttl)))
    else Err(UnknownSchema)
  }

  function KeyOf(r: Request): CacheKey {
    CacheKey(r.guild, r.id.pubkey, r.layout)
  }

  /** A cached blob that may be served again: young enough, and every compared field unchanged. The user
      id is not compared. */
  predicate Reusable(d: Deployment, c: Cache, r: Request) {
    var k := KeyOf(r);
    && k in c.entries
    && var e := c.entries[k];
       && Since(r.now, e.signedAt) < ReuseSecs(d.ttl)
       && e.ip == r.id.ip && e.isPrimary == r.id.isPrimary
       && e.username == r.id.username && e.deviceName == r.id.deviceName
  }

  function Pruned(d: Deployment, c: Cache, now: Time): Cache {
    if Since(now, c.lastPrune) >= ReuseSecs(d.ttl)
    then Cache(map k | k in c.entries && Since(now, c.entries[k].signedAt) < ReuseSecs(d.ttl) :: c.entries[k], now)
    else c
  }

  /** One request; `clock` is the time at the moment of signing, no earlier than the caller's `now`. */
  function Serve(d: Deployment, c: Cache, r: Request, clock: Time): (Cache, Result<Blob, SignError>) {
    if Reusable(d, c, r) then (c, Ok(c.entries[KeyOf(r)].blob))
    else
      match Sign(d, r.guild, r.id, r.layout, clock)
      case Err(e) => (c, Err(e))
      case Ok(blob) =>
        var e := Cached(blob, r.now, r.id.ip, r.id.isPrimary, r.id.username, r.id.deviceName);
        var p := Pruned(d, c, r.now);
        (p.(entries := p.entries[KeyOf(r) := e]), Ok(blob))
  }

  /** The blob claims exactly what signing the request would, whatever its times. */
  predicate Attests(d: Deployment, b: Blob, r: Request) {
    b.signer == d.keys(r.guild) && b.layout == r.layout && b.att.guild == r.guild && b.att.id == r.id &&
      b.att.net == d.net
  }

  /** The same up to the owner's id. */
  predicate AttestsBut(d: Deployment, b: Blob, r: Request) {
    Attests(d, b, r.(id := r.id.(user := b.att.id.user)))
  }

  /** Each entry holds a blob for its key and recorded fields, expiring no earlier than its age allows. */
  predicate SoundEntry(d: Deployment, k: CacheKey, e: Cached) {
    && e.blob.signer == d.keys(k.guild) && e.blob.layout == k.layout && k.layout <= ATTESTATION_SCHEMA_V2
    && e.blob.att.guild == k.guild && e.blob.att.net == d.net
    && e.blob.att.id == Identity(e.blob.att.id.user, e.username, e.deviceName, e.isPrimary, e.ip, k.pubkey)
    && e.signedAt + d.ttl <= e.blob.att.expiresAt
  }

  ghost predicate Sound(d: Deployment, c: Cache) {
    forall k :: k in c.entries ==> SoundEntry(d, k, c.entries[k])
  }

  /** Labels identify users: every cached blob names the owner of its label. */
  ghost predicate Labelled(c: Cache, labels: map<User, string>) {
    forall k :: k in c.entries ==>
      && c.entries[k].blob.att.id.user in labels
      && labels[c.entries[k].blob.att.id.user] == c.entries[k].username
  }

  lemma ServeIsSound(d: Deployment, c: Cache, r: Request, clock: Time)
    requires Sound(d, c) && r.now <= clock
    ensures Sound(d, Serve(d, c, r, clock).0)
    ensures Serve(d, c, r, clock).1.Ok? <==> Sign(d, r.guild, r.id, r.layout, clock).Ok?
    ensures Serve(d, c, r, clock).1.Ok? ==> AttestsBut(d, Serve(d, c, r, clock).1.value, r)
    ensures Serve(d, c, r, clock).1.Ok? && d.ttl >= 1 ==> r.now < Serve(d, c, r, clock).1.value.att.expiresAt
  {
    if Reusable(d, c, r) {
      assert SoundEntry(d, KeyOf(r), c.entries[KeyOf(r)]);
    }
  }

  /** The cache refines signing every time: it succeeds and fails alike, and what it serves, hit or miss,
      claims exactly what was asked and expires later than now. Not comparing the owner's id is sound
      because labels are unique and never change. */
  lemma ServeRefinesSigning(d: Deployment, c: Cache, r: Request, clock: Time, labels: map<User, string>)
    requires Sound(d, c) && Labelled(c, labels) && N.Injective(labels)
    requires r.now <= clock && r.id.user in labels && labels[r.id.user] == r.id.username
    ensures
      var (c', served) := Serve(d, c, r, clock);
      && Sound(d, c') && Labelled(c', labels)
      && (served.Ok? <==> Sign(d, r.guild, r.id, r.layout, r.now).Ok?)
      && (served.Ok? ==> Attests(d, served.value, r))
      && (served.Ok? && d.ttl >= 1 ==> r.now < served.value.att.expiresAt)
  {
    ServeIsSound(d, c, r, clock);
    if Reusable(d, c, r) {
      assert SoundEntry(d, KeyOf(r), c.entries[KeyOf(r)]);
      var owner := c.entries[KeyOf(r)].blob.att.id.user;
      assert labels[owner] == labels[r.id.user];
    }
  }

  /** A sound cache stays labelled as more labels are allocated. */
  lemma LabelledGrows(c: Cache, labels: map<User, string>, more: map<User, string>)
    requires Labelled(c, labels) && N.Extends(labels, more)
    ensures Labelled(c, more)
  {
  }

  // ---- The cache told from its history ----

  /** A request, and the clock when it was answered. */
  datatype Asked = Asked(r: Request, clock: Time)

  function After(d: Deployment, es: seq<Asked>): Cache {
    if |es| == 0 then Cache(map[], 0)
    else Serve(d, After(d, es[..|es| - 1]), es[|es| - 1].r, es[|es| - 1].clock).0
  }

  /** Requests in the order of their time, none after `t`. */
  predicate Timely(es: seq<Asked>, t: Time) {
    |es| == 0 || (es[|es| - 1].r.now <= t && Timely(es[..|es| - 1], es[|es| - 1].r.now))
  }

  /** Made in the same second, or under 300 seconds ago and with more than half its life left. */
  predicate Young(now: Time, at: Time, ttl: Time) {
    now <= at || (now - at < 300 && 2 * (now - at + 1) <= ttl)
  }

  predicate Known(layout: nat) {
    layout == 0 || layout == 1
  }

  /** What was signed last under the key will do for the request: it is young and claims the same of the device. */
  predicate WillDo(last: Option<Asked>, r: Request, ttl: Time) {
    last.Some? && Young(r.now, last.value.r.now, ttl) && last.value.r.id.(user := r.id.user) == r.id
  }

  /** The last request of the guild, device and layout that was signed anew. */
  function LastSigned(ttl: Time, es: seq<Asked>, k: CacheKey): Option<Asked> {
    if |es| == 0 then None
    else
      var last, e := LastSigned(ttl, es[..|es| - 1], k), es[|es| - 1];
      if KeyOf(e.r) == k && Known(k.layout) && !WillDo(last, e.r, ttl) then Some(e) else last
  }

  /** When the cache was last swept: signing sweeps it unless the sweep before is young. */
  function SweptAt(ttl: Time, es: seq<Asked>): Time {
    if |es| == 0 then 0
    else
      var before, e := es[..|es| - 1], es[|es| - 1];
      var signs := Known(e.r.layout) && !WillDo(LastSigned(ttl, before, KeyOf(e.r)), e.r, ttl);
      if signs && !Young(e.r.now, SweptAt(ttl, before), ttl) then e.r.now else SweptAt(ttl, before)
  }

  /** The blob made for a request: who, in which guild, from when until when. */
  function BlobFor(d: Deployment, a: Asked): Blob {
    Blob(d.keys(a.r.guild), a.r.layout, Attestation(a.r.guild, a.r.id, d.net, a.clock, a.clock + d.ttl))
  }

  /** The entries are the last signings still young when the cache was last swept. */
  ghost predicate Follows(d: Deployment, c: Cache, es: seq<Asked>) {
    c.lastPrune == SweptAt(d.ttl, es) && forall k :: FollowsAt(d, c, es, k)
  }

  ghost predicate FollowsAt(d: Deployment, c: Cache, es: seq<Asked>, k: CacheKey) {
    var last := LastSigned(d.ttl, es, k);
    && (k in c.entries <==> last.Some? && Young(c.lastPrune, last.value.r.now, d.ttl))
    && (last.Some? ==> KeyOf(last.value.r) == k && Known(k.layout))
    && (k in c.entries ==>
          var r := last.value.r;
          c.entries[k] == Cached(BlobFor(d, last.value), r.now, r.id.ip, r.id.isPrimary, r.id.username,
                                 r.id.deviceName))
  }

  lemma YoungExactly(now: Time, at: Time, ttl: Time)
    ensures Since(now, at) < ReuseSecs(ttl) <==> Young(now, at, ttl)
  {
  }

  lemma ReusesExactly(d: Deployment, c: Cache, es: seq<Asked>, r: Request)
    requires Follows(d, c, es) && c.lastPrune <= r.now
    ensures Reusable(d, c, r) <==> WillDo(LastSigned(d.ttl, es, KeyOf(r)), r, d.ttl)
  {
    var k := KeyOf(r);
    var last := LastSigned(d.ttl, es, k);
    assert FollowsAt(d, c, es, k);
    if last.Some? {
      YoungExactly(r.now, last.value.r.now, d.ttl);
    }
  }

  lemma SignedFollows(d: Deployment, c: Cache, es: seq<Asked>, e: Asked)
    requires Follows(d, c, es) && c.lastPrune <= e.r.now
    requires Known(e.r.layout) && !WillDo(LastSigned(d.ttl, es, KeyOf(e.r)), e.r, d.ttl)
    ensures Follows(d, Serve(d, c, e.r, e.clock).0, es + [e])
  {
    var c' := Serve(d, c, e.r, e.clock).0;
    ReusesExactly(d, c, es, e.r);
    YoungExactly(e.r.now, c.lastPrune, d.ttl);
    assert (es + [e])[..|es|] == es;
    forall k ensures FollowsAt(d, c', es + [e], k) {
      assert FollowsAt(d, c, es, k);
      if k in c.entries {
        YoungExactly(e.r.now, c.entries[k].signedAt, d.ttl);
      }
    }
  }

  lemma {:induction false} RunFollows(d: Deployment, es: seq<Asked>, t: Time)
    requires Timely(es, t)
    ensures Follows(d, After(d, es), es) && After(d, es).lastPrune <= t
  {
    if |es| > 0 {
      var before, e := es[..|es| - 1], es[|es| - 1];
      assert es == before + [e];
      RunFollows(d, before, e.r.now);
      ReusesExactly(d, After(d, before), before, e.r);
      if Known(e.r.layout) && !WillDo(LastSigned(d.ttl, before, KeyOf(e.r)), e.r, d.ttl) {
        SignedFollows(d, After(d, before), before, e);
      } else {
        assert After(d, es) == After(d, before);
        forall k ensures FollowsAt(d, After(d, es), es, k) {
          assert FollowsAt(d, After(d, before), before, k);
        }
      }
    }
  }

  /** Whatever was asked before: a request is answered with the last signing for its guild, device and layout exactly
      if that one is young and claims the same of the device; otherwise it is signed anew, if its layout is known. */
  lemma ServedExactly(d: Deployment, es: seq<Asked>, r: Request, clock: Time)
    requires Timely(es, r.now)
    ensures
      var last := LastSigned(d.ttl, es, KeyOf(r));
      Serve(d, After(d, es), r, clock).1 ==
        if WillDo(last, r, d.ttl) then Ok(BlobFor(d, last.value))
        else if Known(r.layout) then Ok(BlobFor(d, Asked(r, clock)))
        else Err(UnknownSchema)
  {
    RunFollows(d, es, r.now);
    ReusesExactly(d, After(d, es), es, r);
    assert FollowsAt(d, After(d, es), es, KeyOf(r));
  }

  /** What the cache holds after any run: the last signings that were young at its last sweep, and nothing else. */
  lemma HoldsExactly(d: Deployment, es: seq<Asked>, t: Time, k: CacheKey)
    requires Timely(es, t)
    ensures k in After(d, es).entries <==>
      var last := LastSigned(d.ttl, es, k);
      last.Some? && Young(SweptAt(d.ttl, es), last.value.r.now, d.ttl)
  {
    RunFollows(d, es, t);
    assert FollowsAt(d, After(d, es), es, k);
  }

  // ---- The two conditions are needed ----

  /** A blob served is unexpired in every run exactly when attestations live at all. */
  lemma NeverExpiredExactly(d: Deployment)
    ensures d.ttl >= 1 <==>
      forall c: Cache, r: Request, clock: Time :: Sound(d, c) && r.now <= clock && Serve(d, c, r, clock).1.Ok? ==>
        r.now < Serve(d, c, r, clock).1.value.att.expiresAt
  {
    if d.ttl >= 1 {
      forall c: Cache, r: Request, clock: Time | Sound(d, c) && r.now <= clock && Serve(d, c, r, clock).1.Ok?
        ensures r.now < Serve(d, c, r, clock).1.value.att.expiresAt
      {
        ServeIsSound(d, c, r, clock);
      }
    } else {
      var c, r := Cache(map[], 0), Request(0, Identity(0, "", "", false, 0, 0), 0, 0);
      assert Sound(d, c);
      assert Serve(d, c, r, 0).1.value.att.expiresAt == 0;
    }
  }

  /** If two users could carry one label, a hit could serve an attestation naming the other one. */
  lemma SharedLabelServesOtherOwner(d: Deployment, a: Request, b: Request)
    requires a.id.user != b.id.user && b.id == a.id.(user := b.id.user)
    requires b == a.(id := b.id) && a.layout <= ATTESTATION_SCHEMA_V2
    ensures
      var c := Serve(d, Cache(map[], 0), a, a.now).0;
      Serve(d, c, b, b.now).1.Ok? && !Attests(d, Serve(d, c, b, b.now).1.value, b)
  {
    var c := Serve(d, Cache(map[], 0), a, a.now).0;
    assert KeyOf(a) == KeyOf(b);
    assert Reusable(d, c, b);
  }

  // ---- The cache as the source keeps it ----

  class AttestationCache {
    const d: Deployment
    var entries: map<CacheKey, Cached>
    var lastPrune: Time
    ghost var labels: map<User, string>

    ghost function View(): Cache
      reads this
    {
      Cache(entries, lastPrune)
    }

    ghost predicate Valid()
      reads this
    {
      Sound(d, View()) && Labelled(View(), labels) && N.Injective(labels)
    }

    constructor (d: Deployment)
      ensures this.d == d && Valid() && View() == Cache(map[], 0)
    {
      this.d := d;
      entries, lastPrune, labels := map[], 0, map[];
    }

    method Fresh(r: Request) returns (hit: Option<Blob>)
      ensures hit == if Reusable(d, View(), r) then Some(entries[KeyOf(r)].blob) else None
    {
      var key := KeyOf(r);
      if key !in entries {
        return None;
      }
      var e := entries[key];
      if Since(r.now, e.signedAt) < ReuseSecs(d.ttl) && e.ip == r.id.ip && e.isPrimary == r.id.isPrimary
        && e.username == r.id.username && e.deviceName == r.id.deviceName {
        return Some(e.blob);
      }
      hit := None;
    }

    /** `current` are the user labels allocated by now. */
    method Attestation(r: Request, clock: Time, ghost current: map<User, string>)
      returns (served: Result<Blob, SignError>)
      requires Valid() && r.now <= clock
      requires N.Injective(current) && N.Extends(labels, current)
      requires r.id.user in current && current[r.id.user] == r.id.username
      modifies this
      ensures Valid() && labels == current
      ensures (View(), served) == Serve(d, old(View()), r, clock)
      ensures served.Ok? <==> Sign(d, r.guild, r.id, r.layout, r.now).Ok?
      ensures served.Ok? ==> Attests(d, served.value, r)
      ensures served.Ok? && d.ttl >= 1 ==> r.now < served.value.att.expiresAt
    {
      LabelledGrows(View(), labels, current);
      ServeRefinesSigning(d, View(), r, clock, current);
      labels := current;
      var hit := Fresh(r);
      if hit.Some? {
        return Ok(hit.value);
      }
      served := Sign(d, r.guild, r.id, r.layout, clock);
      if served.Err? {
        return;
      }
      if Since(r.now, lastPrune) >= ReuseSecs(d.ttl) {
        entries := map k | k in entries && Since(r.now, entries[k].signedAt) < ReuseSecs(d.ttl) :: entries[k];
        lastPrune := r.now;
      }
      entries := entries[KeyOf(r) :=
        Cached(served.value, r.now, r.id.ip, r.id.isPrimary, r.id.username, r.id.deviceName)];
    }
  }
}
