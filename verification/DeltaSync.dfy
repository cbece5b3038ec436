/**
 Delta sync of the peer set: the client's trust gate, merge and pulls (crates/engine/src/coord.rs) against
 the coordinator's answer (crates/coordinator/src/api/snapshot.rs). A delta must leave the client with the
 peers a full snapshot would have given it.
 */
module DeltaSync {
  import opened Prelude
  import A = Addressing
  import M = MeshZone
  import S = SignCache

  type Guild = nat

  /** Endpoint, punch target, networks, relay and ICE offer, as one opaque value. */
  type Transport = nat

  /** What a seed's revision digests. The digest is taken as collision-free, so a revision is its content. */
  datatype Rev = Rev(pubkey: PubKey, ip: A.Ip, isPrimary: bool, username: string, deviceName: string,
                     transport: Transport)

  /** A blob that does not decode carries nothing. */
  datatype GuildAttestation = GuildAttestation(schema: nat, blob: Option<S.Blob>)

  datatype Seed = Seed(attestations: seq<GuildAttestation>, transport: Transport, rev: Rev)

  datatype SeedPeer = SeedPeer(
    pubkey: PubKey, user: nat, username: string, ip: A.Ip, hostname: string, alias: Option<string>,
    transport: Transport, rev: Rev, expiresAt: Time)

  datatype HeldPeer = HeldPeer(pubkey: PubKey, rev: Rev)

  /** `removed` is a list the client reads as a set. */
  datatype Response = Response(seeds: seq<Seed>, removed: set<PubKey>, partial: bool)

  type Pins = seq<(Guild, PubKey)>

  // ---- The trust gate ----

  predicate Accepts(pin: (Guild, PubKey), blob: S.Blob, schema: nat, now: Time) {
    && blob.layout == schema && schema <= S.ATTESTATION_SCHEMA_V2
    && blob.signer == pin.1 && blob.att.guild == pin.0 && now < blob.att.expiresAt
  }

  predicate Trusted(pins: Pins, blob: S.Blob, schema: nat, now: Time) {
    exists i :: 0 <= i < |pins| && Accepts(pins[i], blob, schema, now)
  }

  /** The blob is one we have reason to believe: in the layout declared for it, unexpired, and signed by a key that
      is pinned for the very guild it speaks of. */
  predicate Believable(blob: S.Blob, schema: nat, pins: Pins, now: Time) {
    && (blob.att.guild, blob.signer) in pins
    && blob.layout == schema && (schema == S.ATTESTATION_SCHEMA_V1 || schema == S.ATTESTATION_SCHEMA_V2)
    && now < blob.att.expiresAt
  }

  lemma TrustedExactly(pins: Pins, blob: S.Blob, schema: nat, now: Time)
    ensures Trusted(pins, blob, schema, now) <==> Believable(blob, schema, pins, now)
  {
    if Believable(blob, schema, pins, now) {
      var i :| 0 <= i < |pins| && pins[i] == (blob.att.guild, blob.signer);
      assert Accepts(pins[i], blob, schema, now);
    }
    if i :| 0 <= i < |pins| && Accepts(pins[i], blob, schema, now) {
      assert pins[i] in pins && pins[i] == (blob.att.guild, blob.signer);
    }
  }

  method VerifyAgainstPinned(blob: S.Blob, schema: nat, pins: Pins, now: Time) returns (att: Option<S.Attestation>)
    ensures att == if Trusted(pins, blob, schema, now) then Some(blob.att) else None
    ensures att == if Believable(blob, schema, pins, now) then Some(blob.att) else None
  {
    TrustedExactly(pins, blob, schema, now);
    for i := 0 to |pins|
      invariant forall j :: 0 <= j < i ==> !Accepts(pins[j], blob, schema, now)
    {
      if Accepts(pins[i], blob, schema, now) {
        return Some(blob.att);
      }
    }
    att := None;
  }

  predicate Clears(ga: GuildAttestation, pins: Pins, now: Time, accept: S.Attestation -> bool) {
    ga.blob.Some? && Trusted(pins, ga.blob.value, ga.schema, now) && accept(ga.blob.value.att)
  }

  function FirstVerified(
    blobs: seq<GuildAttestation>, pins: Pins, now: Time, accept: S.Attestation -> bool): Option<S.Attestation>
  {
    if blobs == [] then None
    else if Clears(blobs[0], pins, now, accept) then Some(blobs[0].blob.value.att)
    else FirstVerified(blobs[1..], pins, now, accept)
  }

  /** Blob `i` is the first to clear the gate. */
  ghost predicate FirstAt(
    blobs: seq<GuildAttestation>, pins: Pins, now: Time, accept: S.Attestation -> bool, i: nat)
  {
    && i < |blobs| && Clears(blobs[i], pins, now, accept)
    && forall j :: 0 <= j < i ==> !Clears(blobs[j], pins, now, accept)
  }

  /** One bad blob never hides a good one, and with no good one the gate stays shut. */
  lemma {:induction false} FirstVerifiedExactly(
      blobs: seq<GuildAttestation>, pins: Pins, now: Time, accept: S.Attestation -> bool)
    ensures
      var r := FirstVerified(blobs, pins, now, accept);
      && (r.None? <==> forall i :: 0 <= i < |blobs| ==> !Clears(blobs[i], pins, now, accept))
      && (r.Some? ==> exists i: nat :: FirstAt(blobs, pins, now, accept, i) && r.value == blobs[i].blob.value.att)
  {
    if blobs == [] {
    } else if Clears(blobs[0], pins, now, accept) {
      assert FirstAt(blobs, pins, now, accept, 0);
    } else {
      FirstVerifiedExactly(blobs[1..], pins, now, accept);
      var r := FirstVerified(blobs[1..], pins, now, accept);
      if r.Some? {
        var i: nat :| FirstAt(blobs[1..], pins, now, accept, i) && r.value == blobs[1..][i].blob.value.att;
        forall j | 0 <= j < i + 1 ensures !Clears(blobs[j], pins, now, accept) {
          if j > 0 { assert blobs[j] == blobs[1..][j - 1]; }
        }
        assert FirstAt(blobs, pins, now, accept, i + 1);
      } else {
        forall i | 0 <= i < |blobs| ensures !Clears(blobs[i], pins, now, accept) {
          if i > 0 { assert blobs[i] == blobs[1..][i - 1]; }
        }
      }
    }
  }

  predicate InNet(att: S.Attestation) {
    A.WellFormed(att.net) && A.Contains(att.net, att.id.ip)
  }

  /** The address attested has the prefix bits of the mesh range signed with it. */
  predicate OnMesh(att: S.Attestation) {
    A.WellFormed(att.net) && att.id.ip / A.HostCount(att.net) == att.net.addr / A.HostCount(att.net)
  }

  lemma InNetExactly(att: S.Attestation)
    ensures InNet(att) <==> OnMesh(att)
  {
    if A.WellFormed(att.net) {
      A.ContainsMeansSamePrefix(att.net, att.id.ip);
    }
  }

  /** The peer an attestation describes. */
  function PeerOf(att: S.Attestation, transport: Transport, rev: Rev): SeedPeer {
    SeedPeer(att.id.pubkey, att.id.user, att.id.username, att.id.ip, M.Hostname(att.id.deviceName, att.id.username),
             Alias(att.id), transport, rev, att.expiresAt)
  }

  function Alias(id: S.Identity): Option<string> {
    if id.isPrimary then Some(M.UserAlias(id.username)) else None
  }

  function Admit(seed: Seed, pins: Pins, now: Time): Option<SeedPeer> {
    match FirstVerified(seed.attestations, pins, now, _ => true)
    case None => None
    case Some(att) => if InNet(att) then Some(PeerOf(att, seed.transport, seed.rev)) else None
  }

  function Admitted(seeds: seq<Seed>, pins: Pins, now: Time): seq<SeedPeer> {
    if seeds == [] then []
    else
      var front := Admitted(seeds[..|seeds| - 1], pins, now);
      match Admit(seeds[|seeds| - 1], pins, now)
      case None => front
      case Some(p) => front + [p]
  }

  method VerifiedSeeds(seeds: seq<Seed>, pins: Pins, now: Time) returns (peers: seq<SeedPeer>)
    ensures peers == Admitted(seeds, pins, now)
  {
    peers := [];
    for i := 0 to |seeds|
      invariant peers == Admitted(seeds[..i], pins, now)
    {
      assert seeds[..i + 1][..i] == seeds[..i];
      var verified := FirstVerified(seeds[i].attestations, pins, now, _ => true);
      if verified.Some? && InNet(verified.value) {
        peers := peers + [PeerOf(verified.value, seeds[i].transport, seeds[i].rev)];
      }
    }
    assert seeds[..|seeds|] == seeds;
  }

  /** An unexpired attestation, signed by a pinned key for the guild it was pinned for, names this peer's key
      and address inside its signed range. */
  ghost predicate Vouched(p: SeedPeer, ga: GuildAttestation, pins: Pins, now: Time) {
    && ga.blob.Some? && Trusted(pins, ga.blob.value, ga.schema, now)
    && InNet(ga.blob.value.att) && p == PeerOf(ga.blob.value.att, p.transport, p.rev)
  }

  /** Who is peered with: nobody unvouched, and a bad seed costs no one but its own peer. */
  lemma {:induction false} AdmittedExactly(seeds: seq<Seed>, pins: Pins, now: Time, p: SeedPeer)
    ensures p in Admitted(seeds, pins, now) <==> exists i :: 0 <= i < |seeds| && Admit(seeds[i], pins, now) == Some(p)
  {
    if seeds != [] {
      var n := |seeds| - 1;
      AdmittedExactly(seeds[..n], pins, now, p);
      if p in Admitted(seeds[..n], pins, now) {
        var i :| 0 <= i < n && Admit(seeds[..n][i], pins, now) == Some(p);
        assert Admit(seeds[i], pins, now) == Some(p);
      }
      if i :| 0 <= i < |seeds| && Admit(seeds[i], pins, now) == Some(p) {
        if i < n { assert seeds[..n][i] == seeds[i]; }
      }
    }
  }

  lemma AdmittedIsVouched(seeds: seq<Seed>, pins: Pins, now: Time, p: SeedPeer)
    requires p in Admitted(seeds, pins, now)
    ensures exists i, j ::
      0 <= i < |seeds| && 0 <= j < |seeds[i].attestations| && Vouched(p, seeds[i].attestations[j], pins, now)
  {
    AdmittedExactly(seeds, pins, now, p);
    var i :| 0 <= i < |seeds| && Admit(seeds[i], pins, now) == Some(p);
    FirstVerifiedExactly(seeds[i].attestations, pins, now, _ => true);
    assert FirstVerified(seeds[i].attestations, pins, now, _ => true).Some?;
    var att := FirstVerified(seeds[i].attestations, pins, now, _ => true).value;
    var blobs := seeds[i].attestations;
    var j: nat :| j < |blobs| && blobs[j].blob.Some? && Trusted(pins, blobs[j].blob.value, blobs[j].schema, now)
      && att == blobs[j].blob.value.att;
    assert Vouched(p, seeds[i].attestations[j], pins, now);
  }

  /** The peer shows what the attestation says of its device, field by field. */
  predicate Shows(p: SeedPeer, att: S.Attestation) {
    && p.pubkey == att.id.pubkey && p.user == att.id.user && p.username == att.id.username && p.ip == att.id.ip
    && p.hostname == att.id.deviceName + "." + att.id.username + ".unity.internal"
    && p.alias == (if att.id.isPrimary then Some(att.id.username + ".unity.internal") else None)
    && p.expiresAt == att.expiresAt
  }

  /** Blob `j` is the first believable one that meets the demand. */
  ghost predicate FirstBelievable(blobs: seq<GuildAttestation>, pins: Pins, now: Time, accept: S.Attestation -> bool,
                                  j: nat) {
    && j < |blobs| && Meets(blobs[j], pins, now, accept)
    && forall i :: 0 <= i < j ==> !Meets(blobs[i], pins, now, accept)
  }

  predicate Meets(ga: GuildAttestation, pins: Pins, now: Time, accept: S.Attestation -> bool) {
    ga.blob.Some? && Believable(ga.blob.value, ga.schema, pins, now) && accept(ga.blob.value.att)
  }

  lemma FirstVerifiedIsBelievable(
      blobs: seq<GuildAttestation>, pins: Pins, now: Time, accept: S.Attestation -> bool)
    ensures
      var r := FirstVerified(blobs, pins, now, accept);
      && (r.Some? <==> exists j :: 0 <= j < |blobs| && Meets(blobs[j], pins, now, accept))
      && (forall j: nat :: FirstBelievable(blobs, pins, now, accept, j) ==> r == Some(blobs[j].blob.value.att))
      && (r.Some? ==> exists j: nat :: FirstBelievable(blobs, pins, now, accept, j))
  {
    FirstVerifiedExactly(blobs, pins, now, accept);
    forall i | 0 <= i < |blobs| ensures Clears(blobs[i], pins, now, accept) <==> Meets(blobs[i], pins, now, accept) {
      if blobs[i].blob.Some? {
        TrustedExactly(pins, blobs[i].blob.value, blobs[i].schema, now);
      }
    }
    var r := FirstVerified(blobs, pins, now, accept);
    if r.Some? {
      var i: nat :| FirstAt(blobs, pins, now, accept, i) && r.value == blobs[i].blob.value.att;
      assert FirstBelievable(blobs, pins, now, accept, i);
      forall j: nat | FirstBelievable(blobs, pins, now, accept, j) ensures i == j {
      }
    }
  }

  /** The seed brings in this peer: its first believable attestation describes it, with the address inside the
      range signed with it. */
  ghost predicate Brings(seed: Seed, p: SeedPeer, pins: Pins, now: Time) {
    exists j: nat ::
      && FirstBelievable(seed.attestations, pins, now, _ => true, j)
      && OnMesh(seed.attestations[j].blob.value.att) && Shows(p, seed.attestations[j].blob.value.att)
      && p.transport == seed.transport && p.rev == seed.rev
  }

  lemma AdmitBrings(seed: Seed, pins: Pins, now: Time, p: SeedPeer)
    ensures Admit(seed, pins, now) == Some(p) <==> Brings(seed, p, pins, now)
  {
    FirstVerifiedIsBelievable(seed.attestations, pins, now, _ => true);
    var r := FirstVerified(seed.attestations, pins, now, _ => true);
    if r.Some? {
      InNetExactly(r.value);
    }
    if r.Some? && InNet(r.value) {
      var j: nat :| FirstBelievable(seed.attestations, pins, now, _ => true, j);
      assert r.value == seed.attestations[j].blob.value.att;
      HostnameSpelled(r.value.id);
    }
  }

  lemma HostnameSpelled(id: S.Identity)
    ensures M.Hostname(id.deviceName, id.username) == id.deviceName + "." + id.username + ".unity.internal"
    ensures M.UserAlias(id.username) == id.username + ".unity.internal"
  {
  }

  /** Peered with are exactly those some seed brings in: nobody no pinned key vouches for, and everybody one does. */
  lemma AdmittedFromPinned(seeds: seq<Seed>, pins: Pins, now: Time, p: SeedPeer)
    ensures p in Admitted(seeds, pins, now) <==> exists i :: 0 <= i < |seeds| && Brings(seeds[i], p, pins, now)
  {
    AdmittedExactly(seeds, pins, now, p);
    forall i | 0 <= i < |seeds|
      ensures Admit(seeds[i], pins, now) == Some(p) <==> Brings(seeds[i], p, pins, now)
    {
      AdmitBrings(seeds[i], pins, now, p);
    }
  }

  // ---- Merging ----

  function ByKey(peers: seq<SeedPeer>): map<PubKey, SeedPeer> {
    if peers == [] then map[] else ByKey(peers[..|peers| - 1])[peers[|peers| - 1].pubkey := peers[|peers| - 1]]
  }

  ghost predicate OnePerKey(peers: seq<SeedPeer>) {
    forall i, j :: 0 <= i < j < |peers| ==> peers[i].pubkey != peers[j].pubkey
  }

  lemma OneMoreKey(peers: seq<SeedPeer>, p: SeedPeer)
    ensures ByKey(peers + [p]) == ByKey(peers)[p.pubkey := p]
  {
    assert (peers + [p])[..|peers|] == peers;
  }

  lemma {:induction false} ByKeyAt(peers: seq<SeedPeer>, i: nat)
    requires OnePerKey(peers) && i < |peers|
    ensures peers[i].pubkey in ByKey(peers) && ByKey(peers)[peers[i].pubkey] == peers[i]
  {
    if i < |peers| - 1 {
      assert peers[i].pubkey != peers[|peers| - 1].pubkey;
      ByKeyAt(peers[..|peers| - 1], i);
    }
  }

  lemma {:induction false} ByKeyHolds(peers: seq<SeedPeer>, k: PubKey)
    requires k in ByKey(peers)
    ensures ByKey(peers)[k] in peers && ByKey(peers)[k].pubkey == k
  {
    if k != peers[|peers| - 1].pubkey {
      ByKeyHolds(peers[..|peers| - 1], k);
    }
  }

  /** The peers held after a response: a full one replaces them; a delta drops the removed, replaces or adds
      the verified changed ones, and keeps the rest. */
  function Merged(prev: map<PubKey, SeedPeer>, resp: Response, pins: Pins, now: Time): map<PubKey, SeedPeer> {
    var changed := ByKey(Admitted(resp.seeds, pins, now));
    if resp.partial then (prev - resp.removed) + changed else changed
  }

  method KeepUnremoved(prev: seq<SeedPeer>, removed: set<PubKey>) returns (kept: map<PubKey, SeedPeer>)
    ensures kept == ByKey(prev) - removed
  {
    kept := map[];
    for i := 0 to |prev|
      invariant kept == ByKey(prev[..i]) - removed
    {
      assert prev[..i + 1] == prev[..i] + [prev[i]];
      OneMoreKey(prev[..i], prev[i]);
      if prev[i].pubkey !in removed {
        kept := kept[prev[i].pubkey := prev[i]];
      }
    }
    assert prev[..|prev|] == prev;
  }

  lemma UpdateOver(m: map<PubKey, SeedPeer>, n: map<PubKey, SeedPeer>, k: PubKey, p: SeedPeer)
    ensures (m + n)[k := p] == m + n[k := p]
  {
  }

  method UpsertAll(kept: map<PubKey, SeedPeer>, changed: seq<SeedPeer>) returns (byPubkey: map<PubKey, SeedPeer>)
    ensures byPubkey == kept + ByKey(changed)
  {
    byPubkey := kept;
    for i := 0 to |changed|
      invariant byPubkey == kept + ByKey(changed[..i])
    {
      assert changed[..i + 1] == changed[..i] + [changed[i]];
      OneMoreKey(changed[..i], changed[i]);
      UpdateOver(kept, ByKey(changed[..i]), changed[i].pubkey, changed[i]);
      byPubkey := byPubkey[changed[i].pubkey := changed[i]];
    }
    assert changed[..|changed|] == changed;
  }

  ghost predicate Keyed(m: map<PubKey, SeedPeer>) {
    forall k :: k in m ==> m[k].pubkey == k
  }

  /** The values of a map, in some order. */
  method Values(m: map<PubKey, SeedPeer>) returns (peers: seq<SeedPeer>)
    requires Keyed(m)
    ensures OnePerKey(peers) && ByKey(peers) == m
  {
    peers := [];
    var rest := m.Keys;
    ghost var done: set<PubKey> := {};
    while rest != {}
      invariant rest !! done && rest + done == m.Keys
      invariant forall i :: 0 <= i < |peers| ==> peers[i].pubkey in done
      invariant OnePerKey(peers) && ByKey(peers) == m - rest
      decreases rest
    {
      var k :| k in rest;
      rest, done := rest - {k}, done + {k};
      OneMoreKey(peers, m[k]);
      peers := peers + [m[k]];
    }
    assert m - rest == m;
  }

  method MergeSeeds(prev: seq<SeedPeer>, resp: Response, pins: Pins, now: Time) returns (peers: seq<SeedPeer>)
    ensures ByKey(peers) == Merged(ByKey(prev), resp, pins, now)
    ensures resp.partial ==> OnePerKey(peers)
    ensures !resp.partial ==> peers == Admitted(resp.seeds, pins, now)
  {
    var changed := VerifiedSeeds(resp.seeds, pins, now);
    if !resp.partial {
      return changed;
    }
    var byPubkey := KeepUnremoved(prev, resp.removed);
    byPubkey := UpsertAll(byPubkey, changed);
    forall k | k in byPubkey ensures byPubkey[k].pubkey == k {
      if k in ByKey(changed) { ByKeyHolds(changed, k); } else { ByKeyHolds(prev, k); }
    }
    peers := Values(byPubkey);
  }

  // ---- What the client asks, what the coordinator answers ----

  function Soonest(peers: seq<SeedPeer>): Option<Time> {
    if peers == [] then None
    else
      match Soonest(peers[1..])
      case None => Some(peers[0].expiresAt)
      case Some(t) => Some(Min(peers[0].expiresAt, t))
  }

  function HeldForRefresh(peers: seq<SeedPeer>, now: Time, margin: Time): seq<HeldPeer> {
    var soonest := Soonest(peers);
    if soonest.Some? && soonest.value <= now + margin then []
    else seq(|peers|, i requires 0 <= i < |peers| => HeldPeer(peers[i].pubkey, peers[i].rev))
  }

  lemma {:induction false} SoonestExactly(peers: seq<SeedPeer>, bound: Time)
    ensures
      var s := Soonest(peers);
      && (s.None? <==> peers == [])
      && (s.Some? && s.value <= bound <==> exists i :: 0 <= i < |peers| && peers[i].expiresAt <= bound)
  {
    if peers != [] {
      SoonestExactly(peers[1..], bound);
      if i :| 0 <= i < |peers| && peers[i].expiresAt <= bound {
        if i > 0 { assert peers[1..][i - 1] == peers[i]; }
      }
      if i :| 0 <= i < |peers[1..]| && peers[1..][i].expiresAt <= bound {
        assert peers[i + 1].expiresAt <= bound;
      }
    }
  }

  /** A full refresh is asked for exactly when nothing is held or some held attestation is within the margin
      of lapsing; otherwise every held revision is echoed. */
  lemma HeldExactly(peers: seq<SeedPeer>, now: Time, margin: Time)
    ensures
      var held := HeldForRefresh(peers, now, margin);
      && (held == [] <==> peers == [] || exists i :: 0 <= i < |peers| && peers[i].expiresAt <= now + margin)
      && (held != [] ==> |held| == |peers|)
  {
    SoonestExactly(peers, now + margin);
  }

  function Revs(held: seq<HeldPeer>): map<PubKey, Rev> {
    if held == [] then map[] else Revs(held[..|held| - 1])[held[|held| - 1].pubkey := held[|held| - 1].rev]
  }

  type Snapshot = seq<(PubKey, Seed)>

  function SeedOf(all: Snapshot, k: PubKey): Option<Seed> {
    if all == [] then None
    else if all[|all| - 1].0 == k then Some(all[|all| - 1].1)
    else SeedOf(all[..|all| - 1], k)
  }

  function Changed(all: Snapshot, held: map<PubKey, Rev>): Snapshot {
    if all == [] then []
    else
      var front, last := Changed(all[..|all| - 1], held), all[|all| - 1];
      if last.0 in held && held[last.0] == last.1.rev then front else front + [last]
  }

  function Seeds(all: Snapshot): seq<Seed> {
    seq(|all|, i requires 0 <= i < |all| => all[i].1)
  }

  function ApplyDelta(held: seq<HeldPeer>, all: Snapshot): Response {
    if held == [] then Response(Seeds(all), {}, false)
    else
      var revs := Revs(held);
      Response(Seeds(Changed(all, revs)), set k | k in revs && SeedOf(all, k).None?, true)
  }

  /** A snapshot holds one seed for a key, attested under that key. */
  ghost predicate WellKeyed(all: Snapshot) {
    && (forall i, j :: 0 <= i < j < |all| ==> all[i].0 != all[j].0)
    && forall i :: 0 <= i < |all| ==> NamesKey(all[i].1, all[i].0)
  }

  ghost predicate NamesKey(s: Seed, k: PubKey) {
    forall j :: 0 <= j < |s.attestations| ==>
      s.attestations[j].blob.Some? ==> s.attestations[j].blob.value.att.id.pubkey == k
  }

  // ---- A delta against a full snapshot ----

  function MapGet<V>(m: map<PubKey, V>, k: PubKey): Option<V> {
    if k in m then Some(m[k]) else None
  }

  /** What a full snapshot makes of one key. */
  function FullAt(all: Snapshot, pins: Pins, now: Time, k: PubKey): Option<SeedPeer> {
    match SeedOf(all, k)
    case None => None
    case Some(s) => Admit(s, pins, now)
  }

  lemma {:induction false} SeedOfHolds(all: Snapshot, k: PubKey)
    requires SeedOf(all, k).Some?
    ensures (k, SeedOf(all, k).value) in all
  {
    if all[|all| - 1].0 != k {
      SeedOfHolds(all[..|all| - 1], k);
    }
  }

  lemma AdmitNamesKey(s: Seed, k: PubKey, pins: Pins, now: Time)
    requires NamesKey(s, k)
    ensures Admit(s, pins, now).Some? ==>
      Admit(s, pins, now).value.pubkey == k && now < Admit(s, pins, now).value.expiresAt
  {
    FirstVerifiedExactly(s.attestations, pins, now, _ => true);
  }

  lemma OneMoreAdmitted(seeds: seq<Seed>, s: Seed, pins: Pins, now: Time)
    ensures ByKey(Admitted(seeds + [s], pins, now)) ==
      match Admit(s, pins, now)
      case None => ByKey(Admitted(seeds, pins, now))
      case Some(p) => ByKey(Admitted(seeds, pins, now))[p.pubkey := p]
  {
    assert (seeds + [s])[..|seeds|] == seeds;
    match Admit(s, pins, now)
    case Some(p) => OneMoreKey(Admitted(seeds, pins, now), p);
    case None =>
  }

  lemma LastIsNew(all: Snapshot)
    requires WellKeyed(all) && all != []
    ensures WellKeyed(all[..|all| - 1]) && SeedOf(all[..|all| - 1], all[|all| - 1].0).None?
    ensures NamesKey(all[|all| - 1].1, all[|all| - 1].0)
    ensures Seeds(all) == Seeds(all[..|all| - 1]) + [all[|all| - 1].1]
  {
    var front, k := all[..|all| - 1], all[|all| - 1].0;
    if SeedOf(front, k).Some? {
      SeedOfHolds(front, k);
    }
  }

  lemma FullLookupStep(front: Snapshot, last: PubKey, s: Seed, pins: Pins, now: Time, k: PubKey)
    requires SeedOf(front, last).None? && NamesKey(s, last)
    requires MapGet(ByKey(Admitted(Seeds(front), pins, now)), k) == FullAt(front, pins, now, k)
    ensures MapGet(ByKey(Admitted(Seeds(front) + [s], pins, now)), k) ==
      if k == last then Admit(s, pins, now) else FullAt(front, pins, now, k)
  {
    OneMoreAdmitted(Seeds(front), s, pins, now);
    AdmitNamesKey(s, last, pins, now);
  }

  lemma {:induction false} FullLookup(all: Snapshot, pins: Pins, now: Time, k: PubKey)
    requires WellKeyed(all)
    ensures MapGet(ByKey(Admitted(Seeds(all), pins, now)), k) == FullAt(all, pins, now, k)
  {
    if all != [] {
      var front, last := all[..|all| - 1], all[|all| - 1];
      LastIsNew(all);
      FullLookup(front, pins, now, k);
      FullLookupStep(front, last.0, last.1, pins, now, k);
    }
  }

  lemma {:induction false} ChangedLookup(all: Snapshot, held: map<PubKey, Rev>, k: PubKey)
    requires WellKeyed(all)
    ensures WellKeyed(Changed(all, held))
    ensures forall e :: e in Changed(all, held) ==> e in all
    ensures
      var s := SeedOf(all, k);
      SeedOf(Changed(all, held), k) == if s.Some? && MapGet(held, k) == Some(s.value.rev) then None else s
  {
    if all != [] {
      var n := |all| - 1;
      ChangedLookup(all[..n], held, k);
      var front := Changed(all[..n], held);
      if !(all[n].0 in held && held[all[n].0] == all[n].1.rev) {
        assert (front + [all[n]])[..|front|] == front;
        forall i | 0 <= i < |front| ensures front[i].0 != all[n].0 {
          assert front[i] in all[..n];
        }
      } else if all[n].0 == k && SeedOf(front, k).Some? {
        SeedOfHolds(front, k);
      }
    }
  }

  lemma {:induction false} RevsOf(peers: seq<SeedPeer>, held: seq<HeldPeer>, k: PubKey)
    requires |held| == |peers|
    requires forall i :: 0 <= i < |peers| ==> held[i] == HeldPeer(peers[i].pubkey, peers[i].rev)
    ensures k in Revs(held) <==> k in ByKey(peers)
    ensures k in ByKey(peers) ==> Revs(held)[k] == ByKey(peers)[k].rev
  {
    if peers != [] {
      RevsOf(peers[..|peers| - 1], held[..|held| - 1], k);
    }
  }

  /** One refresh: the client's view after merging the coordinator's answer to what it echoed. */
  ghost function Refreshed(prev: seq<SeedPeer>, all: Snapshot, pins: Pins, asked: Time, margin: Time,
                           now: Time): map<PubKey, SeedPeer> {
    Merged(ByKey(prev), ApplyDelta(HeldForRefresh(prev, asked, margin), all), pins, now)
  }

  /** The same client after a full snapshot. */
  ghost function Full(all: Snapshot, pins: Pins, now: Time): map<PubKey, SeedPeer> {
    ByKey(Admitted(Seeds(all), pins, now))
  }

  ghost predicate IsDelta(prev: seq<SeedPeer>, asked: Time, margin: Time) {
    HeldForRefresh(prev, asked, margin) != []
  }

  /** What a delta makes of one key. */
  ghost function DeltaAt(prev: map<PubKey, SeedPeer>, all: Snapshot, pins: Pins, now: Time,
                         k: PubKey): Option<SeedPeer> {
    match SeedOf(all, k)
    case None => None
    case Some(s) =>
      if k in prev && (prev[k].rev == s.rev || Admit(s, pins, now).None?) then Some(prev[k])
      else Admit(s, pins, now)
  }

  lemma RefreshedLookup(prev: seq<SeedPeer>, all: Snapshot, pins: Pins, asked: Time, margin: Time, now: Time, k: PubKey)
    requires WellKeyed(all)
    ensures MapGet(Refreshed(prev, all, pins, asked, margin, now), k) ==
            if IsDelta(prev, asked, margin) then DeltaAt(ByKey(prev), all, pins, now, k) else FullAt(all, pins, now, k)
  {
    FullLookup(all, pins, now, k);
    if IsDelta(prev, asked, margin) {
      var held := HeldForRefresh(prev, asked, margin);
      RevsOf(prev, held, k);
      ChangedLookup(all, Revs(held), k);
      FullLookup(Changed(all, Revs(held)), pins, now, k);
    }
  }

  /** Every held peer still in the snapshot has a seed that verifies. */
  ghost predicate HeldVerify(prev: seq<SeedPeer>, all: Snapshot, pins: Pins, now: Time) {
    forall k :: k in ByKey(prev) && SeedOf(all, k).Some? ==> FullAt(all, pins, now, k).Some?
  }

  /** A delta leaves the peers a full snapshot would, exactly when every held peer still there verifies. */
  lemma KeysAgreeExactly(prev: seq<SeedPeer>, all: Snapshot, pins: Pins, asked: Time, margin: Time, now: Time)
    requires WellKeyed(all)
    ensures Refreshed(prev, all, pins, asked, margin, now).Keys == Full(all, pins, now).Keys
       <==> !IsDelta(prev, asked, margin) || HeldVerify(prev, all, pins, now)
  {
    var delta, full := Refreshed(prev, all, pins, asked, margin, now), Full(all, pins, now);
    if IsDelta(prev, asked, margin) {
      forall k
        ensures MapGet(delta, k) == DeltaAt(ByKey(prev), all, pins, now, k)
        ensures MapGet(full, k) == FullAt(all, pins, now, k)
      {
        RefreshedLookup(prev, all, pins, asked, margin, now, k);
        FullLookup(all, pins, now, k);
      }
      if HeldVerify(prev, all, pins, now) {
        forall k ensures k in delta <==> k in full {
          assert MapGet(delta, k) == DeltaAt(ByKey(prev), all, pins, now, k);
          assert MapGet(full, k) == FullAt(all, pins, now, k);
        }
        assert delta.Keys == full.Keys;
      } else {
        var k :| k in ByKey(prev) && SeedOf(all, k).Some? && FullAt(all, pins, now, k).None?;
        assert MapGet(delta, k) == DeltaAt(ByKey(prev), all, pins, now, k);
        assert MapGet(full, k) == FullAt(all, pins, now, k);
        assert k in delta.Keys && k !in full.Keys;
      }
    } else {
      assert delta == full;
    }
  }

  predicate SameButFreshness(p: SeedPeer, q: SeedPeer) {
    p == q.(expiresAt := p.expiresAt)
  }

  /** Same peers, each the same but for when its attestation expires. */
  ghost predicate Agree(a: map<PubKey, SeedPeer>, b: map<PubKey, SeedPeer>) {
    a.Keys == b.Keys && forall k :: k in a ==> SameButFreshness(a[k], b[k])
  }

  /** Every held peer whose revision is current shows what its seed says now. */
  ghost predicate HeldCurrent(prev: seq<SeedPeer>, all: Snapshot, pins: Pins, now: Time) {
    forall k :: k in ByKey(prev) && FullAt(all, pins, now, k).Some? ==>
      ByKey(prev)[k].rev == SeedOf(all, k).value.rev ==>
        SameButFreshness(ByKey(prev)[k], FullAt(all, pins, now, k).value)
  }

  /** Delta sync agrees with full sync, up to freshness, exactly when every held peer still in the snapshot
      verifies, and equal revisions mean equal content. */
  lemma DeltaAgreesExactly(prev: seq<SeedPeer>, all: Snapshot, pins: Pins, asked: Time, margin: Time, now: Time)
    requires WellKeyed(all)
    ensures Agree(Refreshed(prev, all, pins, asked, margin, now), Full(all, pins, now))
       <==> !IsDelta(prev, asked, margin) || (HeldVerify(prev, all, pins, now) && HeldCurrent(prev, all, pins, now))
  {
    var delta, full := Refreshed(prev, all, pins, asked, margin, now), Full(all, pins, now);
    KeysAgreeExactly(prev, all, pins, asked, margin, now);
    if IsDelta(prev, asked, margin) && HeldVerify(prev, all, pins, now) {
      forall k
        ensures MapGet(delta, k) == DeltaAt(ByKey(prev), all, pins, now, k)
        ensures MapGet(full, k) == FullAt(all, pins, now, k)
      {
        RefreshedLookup(prev, all, pins, asked, margin, now, k);
        FullLookup(all, pins, now, k);
      }
      if HeldCurrent(prev, all, pins, now) {
        forall k | k in delta ensures SameButFreshness(delta[k], full[k]) {
          assert MapGet(delta, k) == DeltaAt(ByKey(prev), all, pins, now, k);
          assert MapGet(full, k) == FullAt(all, pins, now, k);
        }
      } else {
        var k :| k in ByKey(prev) && FullAt(all, pins, now, k).Some? && ByKey(prev)[k].rev == SeedOf(all, k).value.rev
          && !SameButFreshness(ByKey(prev)[k], FullAt(all, pins, now, k).value);
        assert MapGet(delta, k) == DeltaAt(ByKey(prev), all, pins, now, k);
        assert MapGet(full, k) == FullAt(all, pins, now, k);
      }
    }
  }

  /** No peer a delta keeps was within the margin of lapsing when the client asked, so within the margin
      every peer held is live, kept or fresh. */
  lemma NobodyHeldHasLapsed(prev: seq<SeedPeer>, all: Snapshot, pins: Pins, asked: Time, margin: Time, now: Time,
                            k: PubKey)
    requires WellKeyed(all) && k in Refreshed(prev, all, pins, asked, margin, now)
    ensures
      var p := Refreshed(prev, all, pins, asked, margin, now)[k];
      && p.pubkey == k && SeedOf(all, k).Some?
      && ((IsDelta(prev, asked, margin) && p in prev && asked + margin < p.expiresAt) || now < p.expiresAt)
  {
    RefreshedLookup(prev, all, pins, asked, margin, now, k);
    SeedOfHolds(all, k);
    var s := SeedOf(all, k).value;
    var i :| 0 <= i < |all| && all[i] == (k, s);
    AdmitNamesKey(s, k, pins, now);
    if IsDelta(prev, asked, margin) && DeltaAt(ByKey(prev), all, pins, now, k) != Admit(s, pins, now) {
      ByKeyHolds(prev, k);
      HeldExactly(prev, asked, margin);
    }
  }

  // ---- Pulls from a peer ----

  function Freshens(key: PubKey, expiry: Time): S.Attestation -> bool {
    (att: S.Attestation) => att.id.pubkey == key && InNet(att) && att.expiresAt > expiry
  }

  function VerifyPulled(blobs: seq<GuildAttestation>, key: PubKey, expiry: Time, pins: Pins,
                        now: Time): Option<S.Attestation> {
    FirstVerified(blobs, pins, now, Freshens(key, expiry))
  }

  function ApplyPulled(p: SeedPeer, att: S.Attestation): SeedPeer {
    p.(user := att.id.user, username := att.id.username, ip := att.id.ip,
       hostname := M.Hostname(att.id.deviceName, att.id.username), alias := Alias(att.id), expiresAt := att.expiresAt)
  }

  /** A pull changes nothing but the identity the pinned key vouches for: never the key, the transport state
      or the revision; and it moves the expiry forward. */
  lemma PullsOnlyFreshen(p: SeedPeer, blobs: seq<GuildAttestation>, pins: Pins, now: Time)
    ensures
      var att := VerifyPulled(blobs, p.pubkey, p.expiresAt, pins, now);
      att.Some? ==>
        var q := ApplyPulled(p, att.value);
        && q.pubkey == p.pubkey && q.transport == p.transport && q.rev == p.rev
        && p.expiresAt < q.expiresAt && now < q.expiresAt
        && exists j :: 0 <= j < |blobs| && Vouched(q, blobs[j], pins, now)
  {
    FirstVerifiedExactly(blobs, pins, now, Freshens(p.pubkey, p.expiresAt));
    var att := VerifyPulled(blobs, p.pubkey, p.expiresAt, pins, now);
    if att.Some? {
      var j: nat :| FirstAt(blobs, pins, now, Freshens(p.pubkey, p.expiresAt), j) &&
        att.value == blobs[j].blob.value.att;
      assert Vouched(ApplyPulled(p, att.value), blobs[j], pins, now);
    }
  }

  /** The blob is a believable, strictly fresher attestation of the very device held. */
  predicate Renews(ga: GuildAttestation, p: SeedPeer, pins: Pins, now: Time) {
    && ga.blob.Some? && Believable(ga.blob.value, ga.schema, pins, now)
    && ga.blob.value.att.id.pubkey == p.pubkey && OnMesh(ga.blob.value.att) && p.expiresAt < ga.blob.value.att.expiresAt
  }

  ghost predicate FirstRenewal(blobs: seq<GuildAttestation>, p: SeedPeer, pins: Pins, now: Time, j: nat) {
    j < |blobs| && Renews(blobs[j], p, pins, now) && forall i :: 0 <= i < j ==> !Renews(blobs[i], p, pins, now)
  }

  /** A pull succeeds exactly if the peer answers with a renewal, and the first one is what it then shows. */
  lemma PulledFromPinned(p: SeedPeer, blobs: seq<GuildAttestation>, pins: Pins, now: Time)
    ensures
      var att := VerifyPulled(blobs, p.pubkey, p.expiresAt, pins, now);
      && (att.Some? <==> exists j :: 0 <= j < |blobs| && Renews(blobs[j], p, pins, now))
      && (att.Some? ==> exists j: nat ::
            FirstRenewal(blobs, p, pins, now, j) && Shows(ApplyPulled(p, att.value), blobs[j].blob.value.att))
  {
    var demand := Freshens(p.pubkey, p.expiresAt);
    FirstVerifiedIsBelievable(blobs, pins, now, demand);
    forall i | 0 <= i < |blobs| ensures Meets(blobs[i], pins, now, demand) <==> Renews(blobs[i], p, pins, now) {
      if blobs[i].blob.Some? {
        InNetExactly(blobs[i].blob.value.att);
      }
    }
    var att := VerifyPulled(blobs, p.pubkey, p.expiresAt, pins, now);
    if att.Some? {
      var j: nat :| FirstBelievable(blobs, pins, now, demand, j);
      HostnameSpelled(att.value.id);
      assert FirstRenewal(blobs, p, pins, now, j);
    }
  }

  // ---- Runs ----

  /** The coordinator's own snapshot: its revisions digest what it attests, under the labels it allocated. */
  ghost predicate HonestSeed(s: Seed, k: PubKey, labels: map<nat, string>) {
    && s.rev.pubkey == k && s.rev.transport == s.transport
    && forall j :: 0 <= j < |s.attestations| ==>
      s.attestations[j].blob.Some? ==> Identifies(s.attestations[j].blob.value.att.id, s.rev, labels)
  }

  /** The identity a revision stands for. */
  predicate Identifies(id: S.Identity, rev: Rev, labels: map<nat, string>) {
    && id.pubkey == rev.pubkey && id.ip == rev.ip && id.isPrimary == rev.isPrimary
    && id.username == rev.username && id.deviceName == rev.deviceName
    && id.user in labels && labels[id.user] == id.username
  }

  ghost predicate Honest(all: Snapshot, labels: map<nat, string>) {
    WellKeyed(all) && forall i :: 0 <= i < |all| ==> HonestSeed(all[i].1, all[i].0, labels)
  }

  /** A held peer shows what its revision stands for. */
  predicate Current(p: SeedPeer, labels: map<nat, string>) {
    && p.pubkey == p.rev.pubkey && p.username == p.rev.username && p.ip == p.rev.ip
    && p.hostname == M.Hostname(p.rev.deviceName, p.rev.username)
    && p.alias == (if p.rev.isPrimary then Some(M.UserAlias(p.rev.username)) else None)
    && p.transport == p.rev.transport
    && p.user in labels && labels[p.user] == p.username
  }

  ghost predicate AllCurrent(peers: seq<SeedPeer>, labels: map<nat, string>) {
    forall i :: 0 <= i < |peers| ==> Current(peers[i], labels)
  }

  lemma HonestIsCurrent(all: Snapshot, pins: Pins, now: Time, k: PubKey, labels: map<nat, string>)
    requires Honest(all, labels) && FullAt(all, pins, now, k).Some?
    ensures Current(FullAt(all, pins, now, k).value, labels)
    ensures FullAt(all, pins, now, k).value.rev == SeedOf(all, k).value.rev
  {
    SeedOfHolds(all, k);
    var s := SeedOf(all, k).value;
    var i :| 0 <= i < |all| && all[i] == (k, s);
    FirstVerifiedExactly(s.attestations, pins, now, _ => true);
  }

  /** With unique labels, one revision shows one peer. */
  lemma CurrentIsUnique(p: SeedPeer, q: SeedPeer, labels: map<nat, string>)
    requires S.N.Injective(labels) && Current(p, labels) && Current(q, labels) && p.rev == q.rev
    ensures SameButFreshness(p, q)
  {
  }

  datatype Event =
    | Refresh(all: Snapshot, pins: Pins, asked: Time, margin: Time, now: Time)
    | Pull(at: nat, blobs: seq<GuildAttestation>, pins: Pins, now: Time)
    | Lapse(now: Time)

  function Unlapsed(peers: seq<SeedPeer>, now: Time): seq<SeedPeer> {
    if peers == [] then []
    else
      var front, last := Unlapsed(peers[..|peers| - 1], now), peers[|peers| - 1];
      if last.expiresAt > now then front + [last] else front
  }

  function Pulled(peers: seq<SeedPeer>, at: nat, blobs: seq<GuildAttestation>, pins: Pins, now: Time): seq<SeedPeer>
    requires at < |peers|
  {
    match VerifyPulled(blobs, peers[at].pubkey, peers[at].expiresAt, pins, now)
    case None => peers
    case Some(att) => peers[at := ApplyPulled(peers[at], att)]
  }

  /** A round of pulls renews a peer only near expiry, and only if it answers with something that clears the gate. */
  function AfterRound(p: SeedPeer, answer: Option<seq<GuildAttestation>>, pins: Pins, now: Time,
                      margin: Time): SeedPeer {
    if p.expiresAt > now + margin || answer.None? then p
    else
      match VerifyPulled(answer.value, p.pubkey, p.expiresAt, pins, now)
      case None => p
      case Some(att) => ApplyPulled(p, att)
  }

  /** After a round of pulls a peer shows its first renewal, exactly if it is within the margin of expiry and answers
      with one; its transport and revision, and every other peer, stay as they were. */
  lemma RoundExactly(p: SeedPeer, answer: Option<seq<GuildAttestation>>, pins: Pins, now: Time, margin: Time)
    ensures
      var q := AfterRound(p, answer, pins, now, margin);
      if p.expiresAt <= now + margin && answer.Some?
         && exists i :: 0 <= i < |answer.value| && Renews(answer.value[i], p, pins, now)
      then
        && q.transport == p.transport && q.rev == p.rev
        && exists j: nat ::
             FirstRenewal(answer.value, p, pins, now, j) && Shows(q, answer.value[j].blob.value.att)
      else q == p
  {
    if answer.Some? {
      PulledFromPinned(p, answer.value, pins, now);
      PullsOnlyFreshen(p, answer.value, pins, now);
    }
  }

  /** One step of the client's peer set. The merge fixes the peers, not their order. */
  ghost predicate Step(peers: seq<SeedPeer>, e: Event, next: seq<SeedPeer>) {
    match e
    case Refresh(all, pins, asked, margin, now) =>
      && OnePerKey(next) && ByKey(next) == Refreshed(peers, all, pins, asked, margin, now)
    case Pull(at, blobs, pins, now) => at < |peers| && next == Pulled(peers, at, blobs, pins, now)
    case Lapse(now) => next == Unlapsed(peers, now)
  }

  /** The coordinator is honest, its seeds verify for this client, and a pull only renews: the identity it
      brings is the one held. */
  ghost predicate Regular(peers: seq<SeedPeer>, e: Event, labels: map<nat, string>) {
    match e
    case Refresh(all, pins, asked, margin, now) =>
      && Honest(all, labels) && asked <= now <= asked + margin
      && forall k :: SeedOf(all, k).Some? ==> FullAt(all, pins, now, k).Some?
    case Pull(at, blobs, pins, now) =>
      && at < |peers|
      && var att := VerifyPulled(blobs, peers[at].pubkey, peers[at].expiresAt, pins, now);
         att.Some? ==> SameButFreshness(ApplyPulled(peers[at], att.value), peers[at])
    case Lapse(now) => true
  }

  /** What a client holds right after refreshing: the snapshot's peers, as a full answer gives them, all live. */
  ghost predicate InSync(peers: seq<SeedPeer>, e: Event) {
    e.Refresh? ==>
      && Agree(ByKey(peers), Full(e.all, e.pins, e.now))
      && forall k :: k in ByKey(peers) ==> e.now < ByKey(peers)[k].expiresAt
  }

  lemma {:induction false} UnlapsedIsPart(peers: seq<SeedPeer>, now: Time)
    ensures forall p :: p in Unlapsed(peers, now) <==> p in peers && now < p.expiresAt
  {
    if peers != [] {
      var n := |peers| - 1;
      UnlapsedIsPart(peers[..n], now);
      assert peers == peers[..n] + [peers[n]];
    }
  }

  lemma {:induction false} UnlapsedKeys(peers: seq<SeedPeer>, now: Time)
    requires OnePerKey(peers)
    ensures OnePerKey(Unlapsed(peers, now))
  {
    if peers != [] {
      var n := |peers| - 1;
      UnlapsedKeys(peers[..n], now);
      UnlapsedIsPart(peers[..n], now);
      var front := Unlapsed(peers[..n], now);
      forall i | 0 <= i < |front| ensures front[i].pubkey != peers[n].pubkey {
        assert front[i] in peers[..n];
      }
    }
  }

  lemma RefreshKeepsInSync(peers: seq<SeedPeer>, e: Event, next: seq<SeedPeer>, labels: map<nat, string>)
    requires e.Refresh? && Step(peers, e, next) && Regular(peers, e, labels)
    requires AllCurrent(peers, labels) && S.N.Injective(labels)
    ensures AllCurrent(next, labels) && InSync(next, e)
  {
    var Refresh(all, pins, asked, margin, now) := e;
    forall k | k in ByKey(peers) && FullAt(all, pins, now, k).Some? && ByKey(peers)[k].rev == SeedOf(all, k).value.rev
      ensures SameButFreshness(ByKey(peers)[k], FullAt(all, pins, now, k).value)
    {
      ByKeyHolds(peers, k);
      HonestIsCurrent(all, pins, now, k, labels);
      CurrentIsUnique(ByKey(peers)[k], FullAt(all, pins, now, k).value, labels);
    }
    DeltaAgreesExactly(peers, all, pins, asked, margin, now);
    forall k | k in ByKey(next) ensures now < ByKey(next)[k].expiresAt {
      NobodyHeldHasLapsed(peers, all, pins, asked, margin, now, k);
    }
    forall i | 0 <= i < |next| ensures Current(next[i], labels) {
      ByKeyAt(next, i);
      var k := next[i].pubkey;
      assert k in Full(all, pins, now).Keys;
      FullLookup(all, pins, now, k);
      HonestIsCurrent(all, pins, now, k, labels);
    }
  }

  lemma StepKeepsInSync(peers: seq<SeedPeer>, e: Event, next: seq<SeedPeer>, labels: map<nat, string>)
    requires Step(peers, e, next) && Regular(peers, e, labels)
    requires OnePerKey(peers) && AllCurrent(peers, labels) && S.N.Injective(labels)
    ensures OnePerKey(next) && AllCurrent(next, labels) && InSync(next, e)
  {
    match e
    case Refresh(_, _, _, _, _) => RefreshKeepsInSync(peers, e, next, labels);
    case Pull(at, blobs, pins, now) => PullsOnlyFreshen(peers[at], blobs, pins, now);
    case Lapse(now) =>
      UnlapsedIsPart(peers, now);
      UnlapsedKeys(peers, now);
      forall i | 0 <= i < |next| ensures Current(next[i], labels) {
        assert next[i] in peers;
      }
  }

  ghost predicate Run(states: seq<seq<SeedPeer>>, events: seq<Event>, labels: map<nat, string>) {
    && |states| == |events| + 1 && states[0] == []
    && forall i :: 0 <= i < |events| ==>
         Step(states[i], events[i], states[i + 1]) && Regular(states[i], events[i], labels)
  }

  /** Over every such run from an empty set, in any mix of refreshes, renewals and lapses, each refresh leaves
      the client holding what a full snapshot would give it, all of it live. */
  lemma {:induction false} EveryRefreshAgrees(states: seq<seq<SeedPeer>>, events: seq<Event>,
                                              labels: map<nat, string>, n: nat)
    requires Run(states, events, labels) && S.N.Injective(labels) && n <= |events|
    ensures OnePerKey(states[n]) && AllCurrent(states[n], labels)
    ensures n > 0 ==> InSync(states[n], events[n - 1])
  {
    if n > 0 {
      EveryRefreshAgrees(states, events, labels, n - 1);
      StepKeepsInSync(states[n - 1], events[n - 1], states[n], labels);
    }
  }

  // ---- Nobody is peered with on an unpinned key's word ----

  /** Anything that can happen to the peer set, whoever sent it: a response, a pulled answer, a lapse. */
  datatype Input =
    | Responded(resp: Response, pins: Pins, now: Time)
    | Answered(at: nat, blobs: seq<GuildAttestation>, pins: Pins, now: Time)
    | Lapsed(now: Time)

  /** What the client makes of an input, in whatever order a merge leaves its peers. */
  ghost predicate Takes(peers: seq<SeedPeer>, e: Input, next: seq<SeedPeer>) {
    match e
    case Responded(resp, pins, now) =>
      if resp.partial then OnePerKey(next) && ByKey(next) == Merged(ByKey(peers), resp, pins, now)
      else next == Admitted(resp.seeds, pins, now)
    case Answered(at, blobs, pins, now) => at < |peers| && next == Pulled(peers, at, blobs, pins, now)
    case Lapsed(now) => next == Unlapsed(peers, now)
  }

  ghost predicate Taken(states: seq<seq<SeedPeer>>, inputs: seq<Input>) {
    && |states| == |inputs| + 1 && states[0] == []
    && forall i :: 0 <= i < |inputs| ==> Takes(states[i], inputs[i], states[i + 1])
  }

  /** The input carries this blob. */
  ghost predicate Carries(e: Input, ga: GuildAttestation) {
    match e
    case Responded(resp, _, _) => exists i, j ::
      0 <= i < |resp.seeds| && 0 <= j < |resp.seeds[i].attestations| && ga == resp.seeds[i].attestations[j]
    case Answered(_, blobs, _, _) => ga in blobs
    case Lapsed(_) => false
  }

  /** The input carries a blob, believable under the pins of the moment, that says what the peer shows. */
  ghost predicate Backs(e: Input, p: SeedPeer) {
    !e.Lapsed? && exists ga :: Carries(e, ga) && BackedBy(ga, p, e.pins, e.now)
  }

  predicate BackedBy(ga: GuildAttestation, p: SeedPeer, pins: Pins, now: Time) {
    && ga.blob.Some? && Believable(ga.blob.value, ga.schema, pins, now)
    && OnMesh(ga.blob.value.att) && Shows(p, ga.blob.value.att)
  }

  lemma AdmittedIsBacked(resp: Response, pins: Pins, now: Time, p: SeedPeer)
    requires p in Admitted(resp.seeds, pins, now)
    ensures Backs(Responded(resp, pins, now), p)
  {
    AdmittedFromPinned(resp.seeds, pins, now, p);
    var i :| 0 <= i < |resp.seeds| && Brings(resp.seeds[i], p, pins, now);
    var j: nat :|
      && FirstBelievable(resp.seeds[i].attestations, pins, now, _ => true, j)
      && OnMesh(resp.seeds[i].attestations[j].blob.value.att) && Shows(p, resp.seeds[i].attestations[j].blob.value.att);
    assert Carries(Responded(resp, pins, now), resp.seeds[i].attestations[j]);
    assert BackedBy(resp.seeds[i].attestations[j], p, pins, now);
  }

  /** A step brings in only peers its input backs. */
  lemma NewPeersAreBacked(peers: seq<SeedPeer>, e: Input, next: seq<SeedPeer>, p: SeedPeer)
    requires Takes(peers, e, next) && p in next
    ensures p in peers || Backs(e, p)
  {
    match e
    case Responded(resp, pins, now) =>
      if resp.partial {
        var i :| 0 <= i < |next| && next[i] == p;
        ByKeyAt(next, i);
        var changed := Admitted(resp.seeds, pins, now);
        if p.pubkey in ByKey(changed) {
          ByKeyHolds(changed, p.pubkey);
          AdmittedIsBacked(resp, pins, now, p);
        } else {
          ByKeyHolds(peers, p.pubkey);
        }
      } else {
        AdmittedIsBacked(resp, pins, now, p);
      }
    case Answered(at, blobs, pins, now) =>
      if p !in peers {
        PulledFromPinned(peers[at], blobs, pins, now);
        var att := VerifyPulled(blobs, peers[at].pubkey, peers[at].expiresAt, pins, now);
        var j: nat :| FirstRenewal(blobs, peers[at], pins, now, j)
          && Shows(ApplyPulled(peers[at], att.value), blobs[j].blob.value.att);
        assert Carries(e, blobs[j]) && BackedBy(blobs[j], p, pins, now);
      }
    case Lapsed(now) => UnlapsedIsPart(peers, now);
  }

  /** Whoever answers, with whatever seeds and blobs, every peer held at any point of any run shows exactly what
      some blob said that was received, unexpired and signed by a key pinned for its guild at the time. */
  lemma {:induction false} HeldPeersAreBacked(states: seq<seq<SeedPeer>>, inputs: seq<Input>, n: nat, p: SeedPeer)
    requires Taken(states, inputs) && n <= |inputs| && p in states[n]
    ensures exists i :: 0 <= i < n && Backs(inputs[i], p)
  {
    NewPeersAreBacked(states[n - 1], inputs[n - 1], states[n], p);
    if p in states[n - 1] {
      HeldPeersAreBacked(states, inputs, n - 1, p);
    }
  }

  /** No blob of the input is signed by a key pinned for the guild it speaks of. */
  ghost predicate Foreign(e: Input) {
    !e.Lapsed? ==> forall ga ::
      Carries(e, ga) && ga.blob.Some? ==> (ga.blob.value.att.guild, ga.blob.value.signer) !in e.pins
  }

  /** So keys nobody pinned peer a client with nobody, over any run. */
  lemma UnpinnedKeysAdmitNobody(states: seq<seq<SeedPeer>>, inputs: seq<Input>, n: nat)
    requires Taken(states, inputs) && n <= |inputs|
    requires forall i :: 0 <= i < |inputs| ==> Foreign(inputs[i])
    ensures states[n] == []
  {
    if states[n] != [] {
      var p := states[n][0];
      HeldPeersAreBacked(states, inputs, n, p);
    }
  }

  // ---- Where a delta falls short ----

  lemma FullOfOne(seed: Seed, k: PubKey, pins: Pins, now: Time)
    requires NamesKey(seed, k) && Admit(seed, pins, now).Some?
    ensures WellKeyed([(k, seed)]) && SeedOf([(k, seed)], k) == Some(seed)
    ensures Admit(seed, pins, now).value.pubkey == k
    ensures Full([(k, seed)], pins, now) == map[k := Admit(seed, pins, now).value]
  {
    AdmitNamesKey(seed, k, pins, now);
    assert Seeds([(k, seed)]) == [] + [seed];
    OneMoreAdmitted([], seed, pins, now);
    assert ByKey(Admitted([], pins, now)) == map[];
  }

  /** A held peer that no longer shows what its revision stands for is not repaired by a delta. */
  lemma StalePeerStays(p: SeedPeer, seed: Seed, pins: Pins, margin: Time, now: Time)
    requires Admit(seed, pins, now).Some? && NamesKey(seed, p.pubkey)
    requires p.rev == seed.rev && now + margin < p.expiresAt && !SameButFreshness(p, Admit(seed, pins, now).value)
    ensures WellKeyed([(p.pubkey, seed)])
    ensures !Agree(Refreshed([p], [(p.pubkey, seed)], pins, now, margin, now), Full([(p.pubkey, seed)], pins, now))
  {
    var all := [(p.pubkey, seed)];
    FullOfOne(seed, p.pubkey, pins, now);
    ByKeyAt([p], 0);
    HeldExactly([p], now, margin);
    assert IsDelta([p], now, margin);
    assert FullAt(all, pins, now, p.pubkey) == Admit(seed, pins, now);
    DeltaAgreesExactly([p], all, pins, now, margin, now);
  }

  /** A pull brings a newer name but keeps the revision. If the peer's name then reverts, the coordinator's
      revision matches the one held and a delta says nothing: the client keeps the abandoned name, which a
      full snapshot would have corrected. */
  lemma PulledNameCanOutstayItsPeer(pins: Pins, seed: Seed, ga: GuildAttestation, margin: Time, now: Time)
    requires Admit(seed, pins, now).Some?
    requires
      var p := Admit(seed, pins, now).value;
      && NamesKey(seed, p.pubkey) && Clears(ga, pins, now, Freshens(p.pubkey, p.expiresAt))
      && M.Hostname(ga.blob.value.att.id.deviceName, ga.blob.value.att.id.username) != p.hostname
      && now + margin < ga.blob.value.att.expiresAt
    ensures
      var p := Admit(seed, pins, now).value;
      var all := [(p.pubkey, seed)];
      && WellKeyed(all)
      && !Agree(Refreshed(Pulled([p], 0, [ga], pins, now), all, pins, now, margin, now), Full(all, pins, now))
  {
    var p := Admit(seed, pins, now).value;
    var q := ApplyPulled(p, ga.blob.value.att);
    assert VerifyPulled([ga], p.pubkey, p.expiresAt, pins, now) == Some(ga.blob.value.att);
    assert Pulled([p], 0, [ga], pins, now) == [q];
    StalePeerStays(q, seed, pins, margin, now);
  }

  /** An attestation naming one device of "ann" as `device`. */
  function Named(device: string, expiresAt: Time): GuildAttestation {
    GuildAttestation(0,
      Some(S.Blob(9, 0, S.Attestation(7, S.Identity(1, "ann", device, false, 5, 3), A.Net(5, 32), 0, expiresAt))))
  }

  /** Such a run: seeded as "pc", pulled as "mac", back to "pc", and then a delta. */
  lemma RevertedNameExample()
    ensures
      var pins := [(7, 9)];
      var seed := Seed([Named("pc", 100)], 0, Rev(3, 5, false, "ann", "pc", 0));
      var all := [(3, seed)];
      var held := Admitted([seed], pins, 0);
      && Honest(all, map[1 := "ann"]) && |held| == 1
      && var pulled := Pulled(held, 0, [Named("mac", 200)], pins, 0);
         !Agree(Refreshed(pulled, all, pins, 0, 10, 0), Full(all, pins, 0))
  {
    var pins := [(7, 9)];
    var seed := Seed([Named("pc", 100)], 0, Rev(3, 5, false, "ann", "pc", 0));
    assert Accepts(pins[0], seed.attestations[0].blob.value, 0, 0);
    var p := PeerOf(seed.attestations[0].blob.value.att, 0, seed.rev);
    assert Admit(seed, pins, 0) == Some(p);
    assert [seed][..0] == [];
    assert Admitted([seed], pins, 0) == [] + [p];
    var ga := Named("mac", 200);
    assert Accepts(pins[0], ga.blob.value, 0, 0);
    assert Clears(ga, pins, 0, Freshens(3, 100));
    assert M.Hostname("pc", "ann")[0] == 'p' && M.Hostname("mac", "ann")[0] == 'm';
    PulledNameCanOutstayItsPeer(pins, seed, ga, 10, 0);
  }

  // ---- The client's peer set, updated in place ----

  class PeerSet {
    var seeds: seq<SeedPeer>

    constructor ()
      ensures seeds == []
    {
      seeds := [];
    }

    method MergeResponse(resp: Response, pins: Pins, now: Time)
      modifies this
      ensures ByKey(seeds) == Merged(ByKey(old(seeds)), resp, pins, now)
      ensures resp.partial ==> OnePerKey(seeds)
    {
      seeds := MergeSeeds(seeds, resp, pins, now);
    }

    method PullPeer(at: nat, blobs: seq<GuildAttestation>, pins: Pins, now: Time)
      requires at < |seeds|
      modifies this
      ensures seeds == Pulled(old(seeds), at, blobs, pins, now)
      ensures seeds[at].pubkey == old(seeds)[at].pubkey && old(seeds)[at].expiresAt <= seeds[at].expiresAt
    {
      PullsOnlyFreshen(seeds[at], blobs, pins, now);
      var att := VerifyPulled(blobs, seeds[at].pubkey, seeds[at].expiresAt, pins, now);
      if att.Some? {
        seeds := seeds[at := ApplyPulled(seeds[at], att.value)];
      }
    }

    /** One round of pulls: every peer near expiry is asked, `answers` being what each of them sends if it can be
        reached; the others are left alone. */
    method PullRound(answers: seq<Option<seq<GuildAttestation>>>, pins: Pins, now: Time, margin: Time)
      requires |answers| == |seeds|
      modifies this
      ensures |seeds| == |old(seeds)|
      ensures forall i :: 0 <= i < |seeds| ==>
        seeds[i] == AfterRound(old(seeds)[i], answers[i], pins, now, margin)
        && seeds[i].pubkey == old(seeds)[i].pubkey && old(seeds)[i].expiresAt <= seeds[i].expiresAt
    {
      ghost var before := seeds;
      for i := 0 to |seeds|
        invariant |seeds| == |before|
        invariant forall j :: i <= j < |seeds| ==> seeds[j] == before[j]
        invariant forall j :: 0 <= j < i ==>
          seeds[j] == AfterRound(before[j], answers[j], pins, now, margin)
          && seeds[j].pubkey == before[j].pubkey && before[j].expiresAt <= seeds[j].expiresAt
      {
        if seeds[i].expiresAt <= now + margin && answers[i].Some? {
          PullPeer(i, answers[i].value, pins, now);
        }
      }
    }

    method DropLapsed(now: Time)
      modifies this
      ensures seeds == Unlapsed(old(seeds), now)
      ensures forall p :: p in seeds <==> p in old(seeds) && now < p.expiresAt
    {
      UnlapsedIsPart(seeds, now);
      var kept: seq<SeedPeer> := [];
      for i := 0 to |seeds|
        invariant seeds == old(seeds) && kept == Unlapsed(seeds[..i], now)
      {
        assert seeds[..i + 1][..i] == seeds[..i];
        if seeds[i].expiresAt > now {
          kept := kept + [seeds[i]];
        }
      }
      assert seeds[..|seeds|] == seeds;
      seeds := kept;
    }
  }
}
