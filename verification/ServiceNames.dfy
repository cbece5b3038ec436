/**
 Which claim on a service name wins (crates/engine/src/mesh_services.rs). Every device must reach the
 same decision from the same claims, in whatever order it learned them.
 */
module ServiceNames {
  import opened Prelude
  import D = DeviceStore
  import M = MeshZone

  type Ip = nat

  datatype Proto = Tcp | Udp

  datatype Claim = Claim(pubkey: PubKey, ip: Ip, name: string, hostname: string, proto: Proto, port: nat, web: bool)

  datatype Resolved = Resolved(best: map<string, Claim>, shadowed: set<(PubKey, string)>)

  /** The decision, one claim after another. */
  function Resolve(claims: seq<Claim>, devices: set<string>): Resolved {
    if |claims| == 0 then Resolved(map[], {})
    else
      var r, c := Resolve(claims[..|claims| - 1], devices), claims[|claims| - 1];
      if c.hostname in devices then r.(shadowed := r.shadowed + {(c.pubkey, c.name)})
      else if c.hostname !in r.best then r.(best := r.best[c.hostname := c])
      else if r.best[c.hostname].pubkey <= c.pubkey then r.(shadowed := r.shadowed + {(c.pubkey, c.name)})
      else
        var held := r.best[c.hostname];
        Resolved(r.best[c.hostname := c], r.shadowed + {(held.pubkey, held.name)})
  }

  function Names(r: Resolved): map<string, Ip> {
    map h | h in r.best :: r.best[h].ip
  }

  // ---- The rule, without an order ----

  /** No device holds the name, and nobody with a lower key claims it. */
  predicate Wins(c: Claim, claims: seq<Claim>, devices: set<string>) {
    && c in claims && c.hostname !in devices
    && forall d :: d in claims && d.hostname == c.hostname ==> c.pubkey <= d.pubkey
  }

  predicate Contested(h: string, claims: seq<Claim>, devices: set<string>) {
    h !in devices && exists c :: c in claims && c.hostname == h
  }

  /** The losers: claims on a device's name, or on a name somebody with a lower key claims too. */
  function Losers(claims: seq<Claim>, devices: set<string>): set<(PubKey, string)> {
    set c | c in claims && !Wins(c, claims, devices) :: (c.pubkey, c.name)
  }

  /** The name goes to one of its lowest-key claimants, unless a device holds it or nobody claims it. */
  predicate Settled(h: string, claims: seq<Claim>, devices: set<string>, best: map<string, Claim>) {
    && (h in best <==> Contested(h, claims, devices))
    && (h in best ==> best[h].hostname == h && Wins(best[h], claims, devices))
  }

  lemma {:induction false} SettledStep(h: string, before: seq<Claim>, c: Claim, devices: set<string>)
    requires Settled(h, before, devices, Resolve(before, devices).best)
    ensures Settled(h, before + [c], devices, Resolve(before + [c], devices).best)
  {
    var all := before + [c];
    assert all[..|all| - 1] == before;
    var r, u := Resolve(before, devices).best, Resolve(all, devices).best;
    assert c in all && forall d :: d in all <==> d in before || d == c;
    if c.hostname != h {
      assert h in u <==> h in r;
      assert Contested(h, all, devices) <==> Contested(h, before, devices);
    } else if h in devices {
      assert h !in u;
    } else if h in r {
      assert u[h] == if r[h].pubkey <= c.pubkey then r[h] else c;
    } else {
      assert !Contested(h, before, devices);
      assert u[h] == c;
    }
  }

  lemma {:induction false} SettledAt(h: string, claims: seq<Claim>, devices: set<string>)
    ensures Settled(h, claims, devices, Resolve(claims, devices).best)
  {
    if |claims| > 0 {
      var before, c := claims[..|claims| - 1], claims[|claims| - 1];
      assert claims == before + [c];
      SettledAt(h, before, devices);
      SettledStep(h, before, c, devices);
    }
  }

  /** Each name no device holds goes to a lowest-key claimant. */
  lemma {:induction false} BestWins(claims: seq<Claim>, devices: set<string>)
    ensures forall h :: Settled(h, claims, devices, Resolve(claims, devices).best)
  {
    forall h ensures Settled(h, claims, devices, Resolve(claims, devices).best) {
      SettledAt(h, claims, devices);
    }
  }

  // ---- The shadowed set ----

  predicate Is(c: Claim, pk: PubKey, h: string) {
    c.pubkey == pk && c.hostname == h
  }

  predicate Claimed(pk: PubKey, h: string, claims: seq<Claim>) {
    exists c :: c in claims && Is(c, pk, h)
  }

  /** The name is a device's, or somebody with a lower key claims it. */
  predicate Beaten(pk: PubKey, h: string, claims: seq<Claim>, devices: set<string>) {
    h in devices || exists d :: d in claims && d.hostname == h && d.pubkey < pk
  }

  /** The device claims the name more than once, as when it exposes one service on tcp and on udp. */
  ghost predicate Twice(pk: PubKey, h: string, claims: seq<Claim>) {
    exists c, d :: c in claims && d in claims && Is(c, pk, h) && Is(d, pk, h) && (c != d || multiset(claims)[c] > 1)
  }

  ghost predicate Shaded(pk: PubKey, h: string, claims: seq<Claim>, devices: set<string>) {
    Claimed(pk, h, claims) && (Beaten(pk, h, claims, devices) || Twice(pk, h, claims))
  }

  lemma ClaimedOn(pk: PubKey, h: string, before: seq<Claim>, c: Claim, devices: set<string>)
    ensures Claimed(pk, h, before + [c]) <==> Claimed(pk, h, before) || Is(c, pk, h)
    ensures Beaten(pk, h, before + [c], devices) <==>
      Beaten(pk, h, before, devices) || (c.hostname == h && c.pubkey < pk)
  {
    var all := before + [c];
    assert c in all && forall d :: d in all <==> d in before || d == c;
  }

  lemma TwiceOn(pk: PubKey, h: string, before: seq<Claim>, c: Claim)
    ensures Twice(pk, h, before + [c]) <==> Twice(pk, h, before) || (Is(c, pk, h) && Claimed(pk, h, before))
  {
    var all := before + [c];
    assert c in all && forall d :: d in all <==> d in before || d == c;
    assert multiset(all) == multiset(before) + multiset{c};
    if Twice(pk, h, before) {
      var x, y :| x in before && y in before && Is(x, pk, h) && Is(y, pk, h) && (x != y || multiset(before)[x] > 1);
      assert x in all && y in all && multiset(all)[x] >= multiset(before)[x];
    } else if Is(c, pk, h) && Claimed(pk, h, before) {
      var x :| x in before && Is(x, pk, h);
      assert x in multiset(before);
      assert x in all && (x != c || multiset(all)[c] > 1);
    } else if Twice(pk, h, all) {
      var x, y :| x in all && y in all && Is(x, pk, h) && Is(y, pk, h) && (x != y || multiset(all)[x] > 1);
      assert false;
    }
  }

  /** Under this key, the label and the hostname go together. */
  predicate Pairs(claims: seq<Claim>, pk: PubKey, name: string, h: string) {
    forall d :: d in claims && d.pubkey == pk ==> (d.name == name <==> d.hostname == h)
  }

  lemma {:induction false} ShadowedStep(pk: PubKey, name: string, h: string, before: seq<Claim>, c: Claim,
                                        devices: set<string>)
    requires Pairs(before + [c], pk, name, h)
    requires (pk, name) in Resolve(before, devices).shadowed <==> Shaded(pk, h, before, devices)
    ensures (pk, name) in Resolve(before + [c], devices).shadowed <==> Shaded(pk, h, before + [c], devices)
  {
    var all := before + [c];
    assert all[..|all| - 1] == before;
    assert c in all && forall d :: d in before ==> d in all;
    ClaimedOn(pk, h, before, c, devices);
    TwiceOn(pk, h, before, c);
    SettledAt(c.hostname, before, devices);
    var r := Resolve(before, devices);
    if c.hostname == h && c.hostname !in devices && h !in r.best {
      assert !Contested(h, before, devices);
    }
  }

  lemma {:induction false} ShadowedExactly(pk: PubKey, name: string, h: string, claims: seq<Claim>,
                                           devices: set<string>)
    requires Pairs(claims, pk, name, h)
    ensures (pk, name) in Resolve(claims, devices).shadowed <==> Shaded(pk, h, claims, devices)
  {
    if |claims| > 0 {
      var before, c := claims[..|claims| - 1], claims[|claims| - 1];
      assert claims == before + [c];
      ShadowedExactly(pk, name, h, before, devices);
      ShadowedStep(pk, name, h, before, c, devices);
    }
  }

  predicate Announces(c: Claim, pk: PubKey, name: string) {
    c.pubkey == pk && c.name == name
  }

  lemma {:induction false} ShadowedAreClaims(pk: PubKey, name: string, claims: seq<Claim>, devices: set<string>)
    requires (pk, name) in Resolve(claims, devices).shadowed
    ensures exists c :: c in claims && Announces(c, pk, name)
  {
    var before, c := claims[..|claims| - 1], claims[|claims| - 1];
    assert claims == before + [c];
    if (pk, name) in Resolve(before, devices).shadowed {
      ShadowedAreClaims(pk, name, before, devices);
    } else {
      SettledAt(c.hostname, before, devices);
      assert Announces(c, pk, name) || Announces(Resolve(before, devices).best[c.hostname], pk, name);
    }
  }

  // ---- What the code guarantees of its claims ----

  /** A device has one address, and its labels and hostnames correspond. */
  predicate Coherent(claims: seq<Claim>) {
    forall c, d :: c in claims && d in claims && c.pubkey == d.pubkey ==> Agree(c, d)
  }

  predicate Agree(c: Claim, d: Claim) {
    c.ip == d.ip && (c.name == d.name <==> c.hostname == d.hostname)
  }

  datatype MeshService = MeshService(name: string, proto: Proto, port: nat, web: bool)

  /** A device, its owner's verified label, its address, and the services it announces. */
  datatype Announcer = Announcer(pubkey: PubKey, user: string, ip: Ip, services: seq<MeshService>)

  function Compose(a: Announcer, s: MeshService): Claim {
    Claim(a.pubkey, a.ip, s.name, M.Lower(M.Hostname(s.name, a.user)), s.proto, s.port, s.web)
  }

  function ClaimsOf(a: Announcer): seq<Claim> {
    seq(|a.services|, i requires 0 <= i < |a.services| => Compose(a, a.services[i]))
  }

  function AllClaims(announcers: seq<Announcer>): seq<Claim> {
    if |announcers| == 0 then [] else ClaimsOf(announcers[0]) + AllClaims(announcers[1..])
  }

  predicate Usable(a: Announcer) {
    forall s :: s in a.services ==> D.ValidLabel(s.name)
  }

  lemma {:induction false} ClaimIsComposed(announcers: seq<Announcer>, c: Claim)
    requires c in AllClaims(announcers)
    ensures exists a, s :: a in announcers && s in a.services && c == Compose(a, s)
  {
    var a := announcers[0];
    if c in ClaimsOf(a) {
      var i :| 0 <= i < |a.services| && c == Compose(a, a.services[i]);
      assert a in announcers && a.services[i] in a.services;
    } else {
      ClaimIsComposed(announcers[1..], c);
      var b, s :| b in announcers[1..] && s in b.services && c == Compose(b, s);
      assert b in announcers;
    }
  }

  lemma {:induction false} ServicesAreClaimed(announcers: seq<Announcer>, a: Announcer, s: MeshService)
    requires a in announcers && s in a.services
    ensures Compose(a, s) in AllClaims(announcers)
  {
    if a == announcers[0] {
      var i :| 0 <= i < |a.services| && a.services[i] == s;
      assert ClaimsOf(a)[i] == Compose(a, s);
    } else {
      ServicesAreClaimed(announcers[1..], a, s);
    }
  }

  predicate ClaimOf(c: Claim, a: Announcer, s: MeshService) {
    && c.pubkey == a.pubkey && c.ip == a.ip && c.name == s.name
    && c.hostname == M.Lower(s.name + "." + a.user + ".unity.internal")
    && c.proto == s.proto && c.port == s.port && c.web == s.web
  }

  /** The claims are the services announced, each at its device's address and under its owner's verified label. */
  lemma ClaimsExactly(announcers: seq<Announcer>, c: Claim)
    ensures c in AllClaims(announcers) <==>
      exists a, s :: a in announcers && s in a.services && ClaimOf(c, a, s)
  {
    forall a: Announcer, s: MeshService ensures c == Compose(a, s) <==> ClaimOf(c, a, s) {
      assert M.Hostname(s.name, a.user) == s.name + "." + a.user + ".unity.internal";
    }
    if c in AllClaims(announcers) {
      ClaimIsComposed(announcers, c);
    }
    forall a, s | a in announcers && s in a.services ensures Compose(a, s) in AllClaims(announcers) {
      ServicesAreClaimed(announcers, a, s);
    }
  }

  /** Nobody leaves its owner's namespace: two claims contend for a name only if they are of one label, and of devices
      whose owners have one label. */
  lemma ContendersExactly(a: Announcer, s: MeshService, b: Announcer, t: MeshService)
    requires D.ValidLabel(s.name) && D.ValidLabel(t.name)
    ensures Compose(a, s).hostname == Compose(b, t).hostname <==>
      s.name == t.name && M.Lower(a.user) == M.Lower(b.user)
  {
    HostnameParts(a, s);
    HostnameParts(b, t);
    var u, v := M.Lower(a.user) + M.DOT_SUFFIX, M.Lower(b.user) + M.DOT_SUFFIX;
    if Compose(a, s).hostname == Compose(b, t).hostname {
      SamePartsOf(s.name, u, t.name, v);
      M.CancelTail(M.Lower(a.user), M.Lower(b.user), M.DOT_SUFFIX);
    }
  }

  lemma SamePartsOf(x: string, u: string, y: string, v: string)
    requires '.' !in x && '.' !in y && x + "." + u == y + "." + v
    ensures x == y && u == v
  {
    var whole := x + "." + u;
    assert whole[|x|] == '.' && whole[|y|] == '.';
    assert forall i :: 0 <= i < |x| ==> whole[i] == x[i];
    assert forall i :: 0 <= i < |y| ==> whole[i] == y[i];
    assert |x| == |y|;
    assert x == whole[..|x|] == y && u == whole[|x| + 1..] == v;
  }

  lemma HostnameParts(a: Announcer, s: MeshService)
    requires D.ValidLabel(s.name)
    ensures '.' !in s.name
    ensures Compose(a, s).hostname == s.name + "." + (M.Lower(a.user) + M.DOT_SUFFIX)
  {
    M.NormBelow(s.name + "." + a.user);
    M.LowerConcat(s.name + ".", a.user);
    M.LowerConcat(s.name, ".");
    assert forall i :: 0 <= i < |s.name| ==> D.ServiceChar(s.name[i]);
    assert M.Lower(s.name) == s.name && M.Lower(".") == ".";
    assert (s.name + "." + M.Lower(a.user)) + M.DOT_SUFFIX == s.name + "." + (M.Lower(a.user) + M.DOT_SUFFIX);
  }

  lemma ComposedAgree(a: Announcer, s: MeshService, t: MeshService)
    requires D.ValidLabel(s.name) && D.ValidLabel(t.name)
    ensures Agree(Compose(a, s), Compose(a, t))
  {
    var tail := "." + a.user + M.DOT_SUFFIX;
    forall x: MeshService | D.ValidLabel(x.name) ensures M.Lower(M.Hostname(x.name, a.user)) == x.name + M.Lower(tail) {
      assert M.Hostname(x.name, a.user) == x.name + tail;
      M.LowerConcat(x.name, tail);
      assert M.Lower(x.name) == x.name;
    }
    if s.name + M.Lower(tail) == t.name + M.Lower(tail) {
      M.CancelTail(s.name, t.name, M.Lower(tail));
    }
  }

  /** Labels are refused unless lower-case, so one device's claims on one name announce one label. */
  lemma AnnouncementsAreCoherent(announcers: seq<Announcer>)
    requires forall a :: a in announcers ==> Usable(a)
    requires forall a, b :: a in announcers && b in announcers && a.pubkey == b.pubkey ==> a == b
    ensures Coherent(AllClaims(announcers))
  {
    var claims := AllClaims(announcers);
    forall c, d | c in claims && d in claims && c.pubkey == d.pubkey ensures Agree(c, d) {
      ClaimIsComposed(announcers, c);
      ClaimIsComposed(announcers, d);
      var a, s :| a in announcers && s in a.services && c == Compose(a, s);
      var b, t :| b in announcers && t in b.services && d == Compose(b, t);
      assert Usable(a) && a == b;
      ComposedAgree(a, s, t);
    }
  }

  lemma BeatenLoses(c: Claim, claims: seq<Claim>, devices: set<string>)
    requires c in claims
    ensures Beaten(c.pubkey, c.hostname, claims, devices) <==> !Wins(c, claims, devices)
  {
  }

  /** A claim is shadowed exactly if it loses, or its device claims that name more than once. */
  lemma ClaimShadowedExactly(c: Claim, claims: seq<Claim>, devices: set<string>)
    requires Coherent(claims) && c in claims
    ensures (c.pubkey, c.name) in Resolve(claims, devices).shadowed <==>
      !Wins(c, claims, devices) || Twice(c.pubkey, c.hostname, claims)
  {
    forall d | d in claims && d.pubkey == c.pubkey ensures d.name == c.name <==> d.hostname == c.hostname {
      assert Agree(d, c);
    }
    ShadowedExactly(c.pubkey, c.name, c.hostname, claims, devices);
    BeatenLoses(c, claims, devices);
    assert Claimed(c.pubkey, c.hostname, claims);
  }

  /** No winner is claimed more than once by its device. */
  ghost predicate WinnersOnce(claims: seq<Claim>, devices: set<string>) {
    forall c :: c in claims && Wins(c, claims, devices) ==> !Twice(c.pubkey, c.hostname, claims)
  }

  lemma LosersHold(pk: PubKey, name: string, claims: seq<Claim>, devices: set<string>)
    ensures (pk, name) in Losers(claims, devices) <==>
      exists c :: c in claims && Announces(c, pk, name) && !Wins(c, claims, devices)
  {
  }

  lemma ShadowedIffLoses(pk: PubKey, name: string, claims: seq<Claim>, devices: set<string>)
    requires Coherent(claims) && WinnersOnce(claims, devices)
    ensures (pk, name) in Resolve(claims, devices).shadowed <==> (pk, name) in Losers(claims, devices)
  {
    LosersHold(pk, name, claims, devices);
    if (pk, name) in Resolve(claims, devices).shadowed {
      ShadowedAreClaims(pk, name, claims, devices);
      var c :| c in claims && Announces(c, pk, name);
      ClaimShadowedExactly(c, claims, devices);
    }
    if c :| c in claims && Announces(c, pk, name) && !Wins(c, claims, devices) {
      ClaimShadowedExactly(c, claims, devices);
    }
  }

  /** The shadowed set is exactly the losing claims if and only if no winning name is claimed more than once by
      its device. */
  lemma ShadowedAreLosersExactly(claims: seq<Claim>, devices: set<string>)
    requires Coherent(claims)
    ensures Resolve(claims, devices).shadowed == Losers(claims, devices) <==> WinnersOnce(claims, devices)
  {
    var shadowed := Resolve(claims, devices).shadowed;
    if WinnersOnce(claims, devices) {
      forall x: (PubKey, string) ensures x in shadowed <==> x in Losers(claims, devices) {
        ShadowedIffLoses(x.0, x.1, claims, devices);
      }
      assert shadowed == Losers(claims, devices);
    } else {
      var c :| c in claims && Wins(c, claims, devices) && Twice(c.pubkey, c.hostname, claims);
      ClaimShadowedExactly(c, claims, devices);
      LosersHold(c.pubkey, c.name, claims, devices);
      forall d | d in claims && Announces(d, c.pubkey, c.name) ensures Wins(d, claims, devices) {
        assert Agree(c, d);
      }
    }
  }

  /** One service on tcp and on udp, claimed by nobody else, is reported as having lost its name. */
  lemma OneNameOnTwoProtocols(pk: PubKey, ip: Ip, port: nat)
    ensures
      var a := Announcer(pk, "alice", ip, [MeshService("mc", Tcp, port, false), MeshService("mc", Udp, port, false)]);
      var claims := AllClaims([a]);
      && Usable(a) && Resolve(claims, {}).shadowed == {(pk, "mc")} && Losers(claims, {}) == {}
  {
    var s, t := MeshService("mc", Tcp, port, false), MeshService("mc", Udp, port, false);
    var a := Announcer(pk, "alice", ip, [s, t]);
    var c, d := Compose(a, s), Compose(a, t);
    assert "mc"[0] == 'm' && "mc"[1] == 'c';
    assert D.ValidLabel("mc");
    assert AllClaims([a]) == [c, d] by {
      assert [a][1..] == [] && ClaimsOf(a) == [c, d];
    }
    assert [c, d][..1] == [c] && [c][..0] == [];
    assert Resolve([c], {}) == Resolved(map[c.hostname := c], {});
    assert Wins(c, [c, d], {}) && Wins(d, [c, d], {});
  }

  // ---- Order does not matter ----

  lemma PermutedSame(a: seq<Claim>, b: seq<Claim>, devices: set<string>)
    requires multiset(a) == multiset(b)
    ensures forall c :: c in a <==> c in b
    ensures forall c :: Wins(c, a, devices) <==> Wins(c, b, devices)
    ensures forall h :: Contested(h, a, devices) <==> Contested(h, b, devices)
  {
    forall c ensures c in a <==> c in b {
      assert c in multiset(a) <==> c in multiset(b);
    }
  }

  lemma TwicePermuted(pk: PubKey, h: string, a: seq<Claim>, b: seq<Claim>)
    requires multiset(a) == multiset(b) && Twice(pk, h, a)
    ensures Twice(pk, h, b)
  {
    var c, d :| c in a && d in a && Is(c, pk, h) && Is(d, pk, h) && (c != d || multiset(a)[c] > 1);
    assert c in multiset(a) && d in multiset(a);
    assert c in b && d in b;
  }

  lemma ShadowedPermuted(pk: PubKey, name: string, a: seq<Claim>, b: seq<Claim>, devices: set<string>)
    requires multiset(a) == multiset(b) && Coherent(a) && (pk, name) in Resolve(a, devices).shadowed
    ensures (pk, name) in Resolve(b, devices).shadowed
  {
    PermutedSame(a, b, devices);
    ShadowedAreClaims(pk, name, a, devices);
    var c :| c in a && Announces(c, pk, name);
    ClaimShadowedExactly(c, a, devices);
    ClaimShadowedExactly(c, b, devices);
    if Twice(c.pubkey, c.hostname, a) {
      TwicePermuted(c.pubkey, c.hostname, a, b);
    }
  }

  lemma CoherentTiesAgree(claims: seq<Claim>, devices: set<string>)
    requires Coherent(claims)
    ensures TiesAgree(claims, devices)
  {
    forall c, d | c in claims && d in claims && Tied(c, d, claims, devices) ensures c.ip == d.ip {
      assert c.pubkey == d.pubkey && Agree(c, d);
    }
  }

  /** Every device reaches the same decision, in whatever order it learned the claims. */
  lemma OrderDoesNotMatter(a: seq<Claim>, b: seq<Claim>, devices: set<string>)
    requires multiset(a) == multiset(b) && Coherent(a)
    ensures Names(Resolve(a, devices)) == Names(Resolve(b, devices))
    ensures Resolve(a, devices).shadowed == Resolve(b, devices).shadowed
  {
    PermutedSame(a, b, devices);
    assert Coherent(b);
    CoherentTiesAgree(a, devices);
    TiesAgreeSettles(a, b, devices);
    forall x: (PubKey, string) | x in Resolve(a, devices).shadowed ensures x in Resolve(b, devices).shadowed {
      ShadowedPermuted(x.0, x.1, a, b, devices);
    }
    forall x: (PubKey, string) | x in Resolve(b, devices).shadowed ensures x in Resolve(a, devices).shadowed {
      ShadowedPermuted(x.0, x.1, b, a, devices);
    }
  }

  // ---- Whatever the claims ----

  predicate Tied(c: Claim, d: Claim, claims: seq<Claim>, devices: set<string>) {
    c.hostname == d.hostname && Wins(c, claims, devices) && Wins(d, claims, devices)
  }

  /** Winners of one name share an address: true whenever a device announces all its services at one. */
  predicate TiesAgree(claims: seq<Claim>, devices: set<string>) {
    forall c, d :: c in claims && d in claims && Tied(c, d, claims, devices) ==> c.ip == d.ip
  }

  lemma {:induction false} FirstWinnerIsBest(c: Claim, rest: seq<Claim>, devices: set<string>)
    requires Wins(c, [c] + rest, devices)
    ensures c.hostname in Resolve([c] + rest, devices).best
    ensures Resolve([c] + rest, devices).best[c.hostname] == c
    decreases |rest|
  {
    var all := [c] + rest;
    if |rest| > 0 {
      assert all[..|all| - 1] == [c] + rest[..|rest| - 1];
      assert forall d :: d in [c] + rest[..|rest| - 1] ==> d in all;
      FirstWinnerIsBest(c, rest[..|rest| - 1], devices);
      assert all[|all| - 1] in all;
    } else {
      assert all[..0] == [];
    }
  }

  lemma TiesAgreeSettles(claims: seq<Claim>, other: seq<Claim>, devices: set<string>)
    requires TiesAgree(claims, devices) && multiset(other) == multiset(claims)
    ensures Names(Resolve(other, devices)) == Names(Resolve(claims, devices))
  {
    PermutedSame(other, claims, devices);
    var p, q := Resolve(other, devices).best, Resolve(claims, devices).best;
    forall h ensures (h in p <==> h in q) && (h in p ==> p[h].ip == q[h].ip) {
      SettledAt(h, other, devices);
      SettledAt(h, claims, devices);
      if h in p { assert Tied(p[h], q[h], claims, devices); }
    }
  }

  lemma TiesDisagreeUnsettles(claims: seq<Claim>, devices: set<string>, c: Claim, d: Claim)
    returns (cs: seq<Claim>, ds: seq<Claim>)
    requires c in claims && d in claims && Tied(c, d, claims, devices) && c.ip != d.ip
    ensures multiset(cs) == multiset(claims) && multiset(ds) == multiset(claims)
    ensures Names(Resolve(cs, devices)) != Names(Resolve(ds, devices))
  {
    cs := ToFront(claims, c);
    ds := ToFront(claims, d);
    PermutedSame(cs, claims, devices);
    PermutedSame(ds, claims, devices);
    assert cs == [c] + cs[1..] && ds == [d] + ds[1..];
    FirstWinnerIsBest(c, cs[1..], devices);
    FirstWinnerIsBest(d, ds[1..], devices);
    assert Names(Resolve(cs, devices))[c.hostname] == c.ip;
    assert Names(Resolve(ds, devices))[c.hostname] == d.ip;
  }

  /** The addresses the names resolve to are the same in every order exactly when tied winners agree. */
  lemma {:induction false} NamesSettledExactly(claims: seq<Claim>, devices: set<string>)
    ensures TiesAgree(claims, devices) <==>
      forall other :: multiset(other) == multiset(claims) ==>
        Names(Resolve(other, devices)) == Names(Resolve(claims, devices))
  {
    if TiesAgree(claims, devices) {
      forall other | multiset(other) == multiset(claims)
        ensures Names(Resolve(other, devices)) == Names(Resolve(claims, devices))
      {
        TiesAgreeSettles(claims, other, devices);
      }
    } else {
      var c, d :| c in claims && d in claims && Tied(c, d, claims, devices) && c.ip != d.ip;
      var cs, ds := TiesDisagreeUnsettles(claims, devices, c, d);
    }
  }

  lemma ToFront(claims: seq<Claim>, c: Claim) returns (moved: seq<Claim>)
    requires c in claims
    ensures multiset(moved) == multiset(claims) && |moved| > 0 && moved[0] == c
  {
    var i :| 0 <= i < |claims| && claims[i] == c;
    moved := [c] + claims[..i] + claims[i + 1..];
    assert claims == claims[..i] + [c] + claims[i + 1..];
  }

  // ---- As the source computes it ----

  method ResolveClaims(claims: seq<Claim>, devices: set<string>)
    returns (names: map<string, Ip>, shadowed: set<(PubKey, string)>)
    ensures names == Names(Resolve(claims, devices)) && shadowed == Resolve(claims, devices).shadowed
  {
    var best: map<string, Claim> := map[];
    shadowed := {};
    for i := 0 to |claims|
      invariant Resolved(best, shadowed) == Resolve(claims[..i], devices)
    {
      var c := claims[i];
      assert claims[..i + 1][..i] == claims[..i];
      if c.hostname in devices {
        shadowed := shadowed + {(c.pubkey, c.name)};
      } else if c.hostname in best && best[c.hostname].pubkey <= c.pubkey {
        shadowed := shadowed + {(c.pubkey, c.name)};
      } else if c.hostname in best {
        var held := best[c.hostname];
        shadowed := shadowed + {(held.pubkey, held.name)};
        best := best[c.hostname := c];
      } else {
        best := best[c.hostname := c];
      }
    }
    assert claims[..|claims|] == claims;
    names := map h | h in best :: best[h].ip;
  }
}
