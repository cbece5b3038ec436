/**
 Trust-anchor rotation: the client's walk over signed hops (crates/common/src/rotation.rs), the
 coordinator's two-step rotation (crates/coordinator/src/rotate.rs) and the client's pin
 (crates/engine/src/keys.rs).

 Signatures are ideal: a blob verifies under the one key that signed it. An anchor is 32 bytes that may
 or may not decode to a key.
 */
module Rotation {
  import opened Prelude

  datatype Anchor = Key(id: nat) | NotAKey(bytes: nat)

  datatype Cert = Cert(prev: Anchor, next: Anchor)

  /** A signed blob: the key it verifies under, and its content if that decodes as a rotation cert. */
  datatype Signed = Signed(signer: Anchor, cert: Option<Cert>)

  const MAX_ROTATION_CHAIN: nat := 64

  // ---- The walk ----

  predicate Advances(current: Anchor, s: Signed) {
    s.signer == current && s.cert.Some? && s.cert.value.prev == current
  }

  /** The first anchor `current` vouches for in the chain. */
  function Vouched(current: Anchor, chain: seq<Signed>): Option<Anchor> {
    if |chain| == 0 then None
    else if Advances(current, chain[0]) then Some(chain[0].cert.value.next)
    else Vouched(current, chain[1..])
  }

  function Successor(current: Anchor, chain: seq<Signed>): Option<Anchor> {
    if current.Key? then Vouched(current, chain) else None
  }

  /** The anchor `hops` hops after `from`, if the chain gets that far. */
  function Orbit(from: Anchor, chain: seq<Signed>, hops: nat): Option<Anchor> {
    if hops == 0 then Some(from)
    else
      match Orbit(from, chain, hops - 1)
      case None => None
      case Some(a) => Successor(a, chain)
  }

  ghost predicate Reaches(from: Anchor, target: Anchor, chain: seq<Signed>) {
    exists hops: nat :: Orbit(from, chain, hops) == Some(target)
  }

  /** An anchor that is no key vouches for nobody, so the walk ends there, whatever the certs say. */
  lemma {:induction false} OnlyKeysLeadOn(from: Anchor, target: Anchor, chain: seq<Signed>)
    requires !from.Key?
    ensures Reaches(from, target, chain) <==> target == from
  {
    assert Orbit(from, chain, 0) == Some(from);
    if hops: nat :| Orbit(from, chain, hops) == Some(target) {
      if hops > 0 {
        NoKeyNoHop(from, chain, hops);
      }
    }
  }

  lemma {:induction false} NoKeyNoHop(from: Anchor, chain: seq<Signed>, hops: nat)
    requires !from.Key? && hops > 0
    ensures Orbit(from, chain, hops) == None
  {
    if hops > 1 {
      NoKeyNoHop(from, chain, hops - 1);
    } else {
      assert Orbit(from, chain, 0) == Some(from);
    }
  }

  method Advance(current: Anchor, chain: seq<Signed>) returns (next: Option<Anchor>)
    ensures next == Vouched(current, chain)
    ensures next.Some? ==> exists i ::
      0 <= i < |chain| && Advances(current, chain[i]) && next.value == chain[i].cert.value.next
  {
    for i := 0 to |chain|
      invariant Vouched(current, chain) == Vouched(current, chain[i..])
    {
      if Advances(current, chain[i]) {
        return Some(chain[i].cert.value.next);
      }
    }
    next := None;
  }

  /** The walk finds the target exactly when it is reachable at all, however many hops that takes. */
  method WalkChain(pinned: Anchor, target: Anchor, chain: seq<Signed>) returns (ok: bool)
    ensures ok <==> |chain| <= MAX_ROTATION_CHAIN && Reaches(pinned, target, chain)
  {
    if |chain| > MAX_ROTATION_CHAIN {
      return false;
    }
    var current := pinned;
    for hop := 0 to |chain| + 1
      invariant Orbit(pinned, chain, hop) == Some(current)
      invariant forall h: nat :: h < hop ==> Orbit(pinned, chain, h) != Some(target)
    {
      if current == target {
        return true;
      }
      if current.NotAKey? {
        EndOfOrbit(pinned, chain, hop, target);
        return false;
      }
      var next := Advance(current, chain);
      if next.None? {
        EndOfOrbit(pinned, chain, hop, target);
        return false;
      }
      current := next.value;
    }
    if Reaches(pinned, target, chain) {
      var hops := ShortWay(pinned, target, chain);
    }
    ok := current == target;
  }

  lemma {:induction false} OrbitStops(from: Anchor, chain: seq<Signed>, hop: nat, more: nat)
    requires Orbit(from, chain, hop).None? && hop <= more
    ensures Orbit(from, chain, more).None?
    decreases more
  {
    if hop < more {
      OrbitStops(from, chain, hop, more - 1);
    }
  }

  lemma EndOfOrbit(from: Anchor, chain: seq<Signed>, hop: nat, target: Anchor)
    requires Orbit(from, chain, hop).Some? && Successor(Orbit(from, chain, hop).value, chain).None?
    requires forall h: nat :: h <= hop ==> Orbit(from, chain, h) != Some(target)
    ensures !Reaches(from, target, chain)
  {
    if h: nat :| Orbit(from, chain, h) == Some(target) {
      OrbitStops(from, chain, hop + 1, h);
    }
  }

  lemma {:induction false} OrbitOnward(from: Anchor, chain: seq<Signed>, a: nat, b: nat)
    requires Orbit(from, chain, a).Some?
    ensures Orbit(from, chain, a + b) == Orbit(Orbit(from, chain, a).value, chain, b)
    decreases b
  {
    if b > 0 {
      OrbitOnward(from, chain, a, b - 1);
      assert a + b - 1 == a + (b - 1);
    }
  }

  /** The position of the first cert that carries `current` onward. */
  function HopIndex(current: Anchor, chain: seq<Signed>): (i: nat)
    requires Vouched(current, chain).Some?
    ensures i < |chain| && Advances(current, chain[i])
  {
    if Advances(current, chain[0]) then 0 else 1 + HopIndex(current, chain[1..])
  }

  /** Pigeonhole: each anchor left behind on a way without repetition uses a cert of its own, so a
      reachable target is reached within as many hops as there are certs. */
  lemma ShortWay(from: Anchor, target: Anchor, chain: seq<Signed>) returns (hops: nat)
    requires Reaches(from, target, chain)
    ensures hops <= |chain| && Orbit(from, chain, hops) == Some(target)
  {
    hops :| Orbit(from, chain, hops) == Some(target);
    while hops > |chain|
      invariant Orbit(from, chain, hops) == Some(target)
      decreases hops
    {
      hops := Shortcut(from, target, chain, hops);
    }
  }

  lemma HopsOn(from: Anchor, chain: seq<Signed>, hops: nat, h: nat)
    requires Orbit(from, chain, hops).Some? && h < hops
    ensures Orbit(from, chain, h).Some? && Vouched(Orbit(from, chain, h).value, chain).Some?
  {
    if Orbit(from, chain, h + 1).None? {
      OrbitStops(from, chain, h + 1, hops);
    }
  }

  /** The certs used by the hops of a way, in order. */
  lemma {:induction false} HopCerts(from: Anchor, chain: seq<Signed>, hops: nat) returns (used: seq<nat>)
    requires Orbit(from, chain, hops).Some?
    ensures |used| == hops && forall h :: 0 <= h < hops ==>
      used[h] < |chain| && chain[used[h]].cert.Some? && Orbit(from, chain, h) == Some(chain[used[h]].cert.value.prev)
  {
    if hops == 0 {
      used := [];
    } else {
      HopsOn(from, chain, hops, hops - 1);
      used := HopCerts(from, chain, hops - 1);
      used := used + [HopIndex(Orbit(from, chain, hops - 1).value, chain)];
    }
  }

  lemma SameHop(from: Anchor, chain: seq<Signed>, hops: nat) returns (a: nat, b: nat)
    requires Orbit(from, chain, hops).Some? && hops > |chain|
    ensures a < b <= hops && Orbit(from, chain, a).Some? && Orbit(from, chain, a) == Orbit(from, chain, b)
  {
    var used := HopCerts(from, chain, hops);
    if Distinct(used) {
      DistinctFits(used, Below(|chain|));
    }
    a, b :| 0 <= a < b < |used| && used[a] == used[b];
  }

  lemma Shortcut(from: Anchor, target: Anchor, chain: seq<Signed>, hops: nat) returns (fewer: nat)
    requires Orbit(from, chain, hops) == Some(target) && hops > |chain|
    ensures fewer < hops && Orbit(from, chain, fewer) == Some(target)
  {
    var a, b := SameHop(from, chain, hops);
    OrbitOnward(from, chain, a, hops - b);
    OrbitOnward(from, chain, b, hops - b);
    fewer := a + (hops - b);
  }

  /** Some cert, signed by `a`, hands on to `b`. */
  predicate HandsOn(a: Anchor, b: Anchor, chain: seq<Signed>) {
    exists j :: 0 <= j < |chain| && Advances(a, chain[j]) && chain[j].cert.value.next == b
  }

  /** `true` means a signed path: every hop is a cert signed by the anchor it leaves. */
  ghost predicate SignedPath(path: seq<Anchor>, chain: seq<Signed>) {
    forall i, j :: 0 <= i && j == i + 1 && j < |path| ==> HandsOn(path[i], path[j], chain)
  }

  predicate PathBetween(path: seq<Anchor>, from: Anchor, to: Anchor) {
    |path| > 0 && path[0] == from && path[|path| - 1] == to
  }

  lemma {:induction false} ReachMeansSignedPath(from: Anchor, chain: seq<Signed>, hops: nat)
    requires Orbit(from, chain, hops).Some?
    ensures exists path :: PathBetween(path, from, Orbit(from, chain, hops).value) && SignedPath(path, chain)
  {
    if hops == 0 {
      assert PathBetween([from], from, from) && SignedPath([from], chain);
    } else {
      ReachMeansSignedPath(from, chain, hops - 1);
      var last := Orbit(from, chain, hops - 1).value;
      var path :| PathBetween(path, from, last) && SignedPath(path, chain);
      var next := Orbit(from, chain, hops).value;
      VouchedAt(last, chain);
      assert HandsOn(last, next, chain);
      var longer := path + [next];
      assert PathBetween(longer, from, next) && SignedPath(longer, chain);
    }
  }

  lemma {:induction false} VouchedAt(current: Anchor, chain: seq<Signed>)
    requires Vouched(current, chain).Some?
    ensures HandsOn(current, Vouched(current, chain).value, chain)
  {
    if Advances(current, chain[0]) {
    } else {
      VouchedAt(current, chain[1..]);
      var j :| 0 <= j < |chain| - 1 && Advances(current, chain[1..][j]) &&
        chain[1..][j].cert.value.next == Vouched(current, chain).value;
      assert chain[j + 1] == chain[1..][j];
    }
  }

  // ---- The client's pin ----

  /** The pinned-anchor file of one guild. */
  datatype Pin = Unpinned | Corrupt | Pinned(anchor: Anchor)

  datatype PinError = CorruptFile | NoRotationPath

  /** Certs that do not even decode as signed blobs are dropped before the walk. */
  function Decoded(certs: seq<Option<Signed>>): seq<Signed> {
    if |certs| == 0 then []
    else (if certs[0].Some? then [certs[0].value] else []) + Decoded(certs[1..])
  }

  /** The served certs carry this chain: its certs, in order, at these places, and nothing decodable elsewhere. */
  ghost predicate CarriesAt(certs: seq<Option<Signed>>, chain: seq<Signed>, at: seq<nat>) {
    && |at| == |chain|
    && (forall i, j :: 0 <= i < j < |at| ==> at[i] < at[j])
    && (forall i :: 0 <= i < |at| ==> at[i] < |certs| && certs[at[i]] == Some(chain[i]))
    && (forall n: nat :: n < |certs| && certs[n].Some? ==> n in at)
  }

  ghost predicate Carries(certs: seq<Option<Signed>>, chain: seq<Signed>) {
    exists at :: CarriesAt(certs, chain, at)
  }

  function Later(at: seq<nat>): seq<nat> {
    seq(|at|, i requires 0 <= i < |at| => at[i] + 1)
  }

  lemma LaterHolds(at: seq<nat>, n: nat)
    ensures n + 1 in Later(at) <==> n in at
  {
    if n in at {
      var i :| 0 <= i < |at| && at[i] == n;
      assert Later(at)[i] == n + 1;
    }
    if n + 1 in Later(at) {
      var i :| 0 <= i < |at| && Later(at)[i] == n + 1;
      assert at[i] == n;
    }
  }

  lemma JunkInFront(certs: seq<Option<Signed>>, chain: seq<Signed>, at: seq<nat>)
    requires |certs| > 0 && certs[0].None? && CarriesAt(certs[1..], chain, at)
    ensures CarriesAt(certs, chain, Later(at))
  {
    forall n: nat | n < |certs| && certs[n].Some? ensures n in Later(at) {
      assert certs[1..][n - 1].Some?;
      LaterHolds(at, n - 1);
    }
    forall i | 0 <= i < |at| ensures certs[Later(at)[i]] == Some(chain[i]) {
      assert certs[1..][at[i]] == Some(chain[i]);
    }
  }

  lemma LaterPlaces(certs: seq<Option<Signed>>, chain: seq<Signed>, at: seq<nat>, i: nat)
    requires |certs| > 0 && CarriesAt(certs[1..], chain, at) && i < |at|
    ensures at[i] + 1 < |certs| && certs[at[i] + 1] == Some(chain[i])
  {
    assert certs[1..][at[i]] == Some(chain[i]);
  }

  lemma NoneMissed(certs: seq<Option<Signed>>, chain: seq<Signed>, at: seq<nat>, n: nat)
    requires |certs| > 0 && CarriesAt(certs[1..], chain, at) && 0 < n < |certs| && certs[n].Some?
    ensures n in Later(at)
  {
    assert certs[1..][n - 1].Some?;
    LaterHolds(at, n - 1);
  }

  lemma CertInFront(certs: seq<Option<Signed>>, chain: seq<Signed>, at: seq<nat>)
    requires |certs| > 0 && certs[0].Some? && CarriesAt(certs[1..], chain, at)
    ensures CarriesAt(certs, [certs[0].value] + chain, [0] + Later(at))
  {
    var later := Later(at);
    forall n: nat | 0 < n < |certs| && certs[n].Some? ensures n in later {
      NoneMissed(certs, chain, at, n);
    }
    forall i | 0 <= i < |at| ensures later[i] < |certs| && certs[later[i]] == Some(chain[i]) {
      LaterPlaces(certs, chain, at, i);
    }
    assert forall i, j :: 0 <= i < j < |later| ==> later[i] < later[j];
    OneInFront(certs, certs[0].value, chain, later);
  }

  lemma OneInFront(certs: seq<Option<Signed>>, first: Signed, chain: seq<Signed>, later: seq<nat>)
    requires |certs| > 0 && certs[0] == Some(first) && |later| == |chain|
    requires forall i :: 0 <= i < |later| ==> 0 < later[i] < |certs| && certs[later[i]] == Some(chain[i])
    requires forall i, j :: 0 <= i < j < |later| ==> later[i] < later[j]
    requires forall n: nat :: 0 < n < |certs| && certs[n].Some? ==> n in later
    ensures CarriesAt(certs, [first] + chain, [0] + later)
  {
  }

  lemma {:induction false} DecodedIsCarried(certs: seq<Option<Signed>>) returns (at: seq<nat>)
    ensures CarriesAt(certs, Decoded(certs), at)
  {
    if |certs| == 0 {
      at := [];
    } else {
      var tail := DecodedIsCarried(certs[1..]);
      if certs[0].Some? {
        CertInFront(certs, Decoded(certs[1..]), tail);
        at := [0] + Later(tail);
      } else {
        JunkInFront(certs, Decoded(certs[1..]), tail);
        assert [] + Decoded(certs[1..]) == Decoded(certs[1..]);
        at := Later(tail);
      }
    }
  }

  /** Two increasing lists of the same places are one list. */
  lemma {:induction false} SamePlaces(a: seq<nat>, b: seq<nat>)
    requires forall i, j :: 0 <= i < j < |a| ==> a[i] < a[j]
    requires forall i, j :: 0 <= i < j < |b| ==> b[i] < b[j]
    requires forall n :: n in a <==> n in b
    ensures a == b
  {
    assert (|a| > 0 ==> a[0] in b) && (|b| > 0 ==> b[0] in a);
    if |a| > 0 && |b| > 0 {
      var m, n := |a| - 1, |b| - 1;
      assert a[m] in b && b[n] in a;
      assert a[m] == b[n];
      forall x ensures x in a[..m] <==> x in b[..n] {
        if x in a[..m] {
          assert x in a && x != a[m];
        }
        if x in b[..n] {
          assert x in b && x != b[n];
        }
      }
      SamePlaces(a[..m], b[..n]);
    }
  }

  /** Decoding keeps exactly the decodable certs, in order. */
  lemma DecodedExactly(certs: seq<Option<Signed>>, chain: seq<Signed>)
    ensures Decoded(certs) == chain <==> Carries(certs, chain)
  {
    var at := DecodedIsCarried(certs);
    if Carries(certs, chain) {
      var places :| CarriesAt(certs, chain, places);
      SamePlaces(at, places);
    }
  }

  /** A chain as the coordinator serves it. */
  function Encoded(chain: seq<Signed>): seq<Option<Signed>> {
    seq(|chain|, i requires 0 <= i < |chain| => Some(chain[i]))
  }

  lemma {:induction false} DecodedSplits(a: seq<Option<Signed>>, b: seq<Option<Signed>>)
    ensures Decoded(a + b) == Decoded(a) + Decoded(b)
  {
    if |a| == 0 {
      assert a + b == b;
    } else {
      assert (a + b)[1..] == a[1..] + b && (a + b)[0] == a[0];
      DecodedSplits(a[1..], b);
      var first := if a[0].Some? then [a[0].value] else [];
      assert first + (Decoded(a[1..]) + Decoded(b)) == (first + Decoded(a[1..])) + Decoded(b);
    }
  }

  lemma {:induction false} EncodedDecodes(chain: seq<Signed>)
    ensures Decoded(Encoded(chain)) == chain
  {
    if |chain| > 0 {
      EncodedDecodes(chain[1..]);
      assert Encoded(chain)[1..] == Encoded(chain[1..]);
    }
  }

  /** An undecodable cert put in anywhere changes nothing. */
  lemma JunkChangesNothing(before: seq<Option<Signed>>, after: seq<Option<Signed>>)
    ensures Decoded(before + [None] + after) == Decoded(before + after)
  {
    DecodedSplits(before + [None], after);
    DecodedSplits(before, [None]);
    DecodedSplits(before, after);
    assert Decoded([None]) == [];
  }

  /** When a served anchor is taken over a decoded chain: on first sight, unchanged, or along a walkable chain. */
  ghost predicate Accepts(pin: Pin, anchor: Anchor, chain: seq<Signed>) {
    match pin
    case Unpinned => true
    case Corrupt => false
    case Pinned(p) => p == anchor || (|chain| <= MAX_ROTATION_CHAIN && Reaches(p, anchor, chain))
  }

  /** The same of certs as served, decodable or not: the decodable ones form a chain within the cap that leads from
      the pinned anchor to this one. */
  ghost predicate Takes(pin: Pin, anchor: Anchor, certs: seq<Option<Signed>>) {
    || pin == Unpinned || pin == Pinned(anchor)
    || (pin.Pinned? && exists chain ::
          Carries(certs, chain) && |chain| <= MAX_ROTATION_CHAIN && Reaches(pin.anchor, anchor, chain))
  }

  lemma TakesDecoded(pin: Pin, anchor: Anchor, certs: seq<Option<Signed>>, chain: seq<Signed>)
    requires Carries(certs, chain)
    ensures Takes(pin, anchor, certs) <==> Accepts(pin, anchor, chain)
  {
    DecodedExactly(certs, chain);
    if pin.Pinned? {
      forall other | Carries(certs, other) ensures other == chain {
        DecodedExactly(certs, other);
      }
    }
  }

  class PinFile {
    var pin: Pin

    constructor ()
      ensures pin == Unpinned
    {
      pin := Unpinned;
    }

    method PinAnchor(anchor: Anchor, certs: seq<Option<Signed>>) returns (r: Result<(), PinError>)
      modifies this
      ensures r.Ok? <==> Takes(old(pin), anchor, certs)
      ensures old(pin) == Unpinned ==> r == Ok(())
      ensures old(pin) == Corrupt ==> r == Err(CorruptFile)
      ensures old(pin).Pinned? ==>
        (r == Ok(()) <==> anchor == old(pin).anchor || exists chain ::
           Carries(certs, chain) && |chain| <= 64 && Reaches(old(pin).anchor, anchor, chain))
      ensures r.Err? ==> r.error == if old(pin).Corrupt? then CorruptFile else NoRotationPath
      ensures pin == if r.Ok? then Pinned(anchor) else old(pin)
    {
      DecodedExactly(certs, Decoded(certs));
      TakesDecoded(pin, anchor, certs, Decoded(certs));
      if pin.Unpinned? {
        pin := Pinned(anchor);
        return Ok(());
      }
      if pin.Corrupt? {
        return Err(CorruptFile);
      }
      if pin.anchor == anchor {
        return Ok(());
      }
      var ok := WalkChain(pin.anchor, anchor, Decoded(certs));
      if !ok {
        return Err(NoRotationPath);
      }
      pin := Pinned(anchor);
      r := Ok(());
    }
  }

  datatype Offer = Offer(anchor: Anchor, certs: seq<Option<Signed>>)

  /** The pin after a series of responses, each accepted or refused. */
  ghost function PinAfter(pin: Pin, offers: seq<Offer>): Pin
    decreases |offers|
  {
    if |offers| == 0 then pin
    else PinAfter(if Takes(pin, offers[0].anchor, offers[0].certs) then Pinned(offers[0].anchor) else pin, offers[1..])
  }

  /** Every cert signed by a trusted key vouches for a trusted key: nobody else can forge one. */
  ghost predicate Unforged(chain: seq<Signed>, trusted: set<Anchor>) {
    forall s :: s in chain && s.signer in trusted && s.cert.Some? ==> s.cert.value.next in trusted
  }

  ghost predicate UnforgedOffer(o: Offer, trusted: set<Anchor>) {
    forall c :: c in o.certs && c.Some? && c.value.signer in trusted && c.value.cert.Some? ==>
      c.value.cert.value.next in trusted
  }

  lemma {:induction false} OrbitStaysTrusted(from: Anchor, chain: seq<Signed>, hops: nat, trusted: set<Anchor>)
    requires from in trusted && Unforged(chain, trusted) && Orbit(from, chain, hops).Some?
    ensures Orbit(from, chain, hops).value in trusted
  {
    if hops > 0 {
      OrbitStaysTrusted(from, chain, hops - 1, trusted);
      var a := Orbit(from, chain, hops - 1).value;
      VouchedAt(a, chain);
      assert chain[HopIndex(a, chain)] in chain;
    }
  }

  lemma CarriedIsServed(certs: seq<Option<Signed>>, chain: seq<Signed>, s: Signed)
    requires Carries(certs, chain) && s in chain
    ensures Some(s) in certs
  {
    var at :| CarriesAt(certs, chain, at);
    var i :| 0 <= i < |chain| && chain[i] == s;
    assert certs[at[i]] == Some(s);
  }

  lemma OfferStaysTrusted(p: Anchor, o: Offer, trusted: set<Anchor>)
    requires p in trusted && UnforgedOffer(o, trusted) && Takes(Pinned(p), o.anchor, o.certs)
    ensures o.anchor in trusted
  {
    if p != o.anchor {
      var chain: seq<Signed> :| Carries(o.certs, chain) && Reaches(p, o.anchor, chain);
      forall s: Signed | s in chain && s.signer in trusted && s.cert.Some? ensures s.cert.value.next in trusted {
        CarriedIsServed(o.certs, chain, s);
      }
      assert Reaches(p, o.anchor, chain);
      var hops: nat :| Orbit(p, chain, hops) == Some(o.anchor);
      OrbitStaysTrusted(p, chain, hops, trusted);
    }
  }

  /** Once pinned to a trusted anchor, no series of responses, however adversarial, moves the pin to an
      untrusted one. */
  lemma {:induction false} PinStaysTrusted(pin: Pin, offers: seq<Offer>, trusted: set<Anchor>)
    requires pin.Pinned? && pin.anchor in trusted
    requires forall o :: o in offers ==> UnforgedOffer(o, trusted)
    ensures PinAfter(pin, offers).Pinned? && PinAfter(pin, offers).anchor in trusted
    decreases |offers|
  {
    if |offers| > 0 {
      var o := offers[0];
      if Takes(pin, o.anchor, o.certs) {
        OfferStaysTrusted(pin.anchor, o, trusted);
      }
      PinStaysTrusted(if Takes(pin, o.anchor, o.certs) then Pinned(o.anchor) else pin, offers[1..], trusted);
    }
  }

  // ---- The coordinator's rotation ----

  /** One `rotate_key` call that minted `key`: it either completed, or crashed after appending its cert. */
  datatype Attempt = Rotated(key: Anchor) | Crashed(key: Anchor)

  function Hop(prev: Anchor, next: Anchor): Signed {
    Signed(prev, Some(Cert(prev, next)))
  }

  /** The signing key after a history of rotations. */
  function Current(first: Anchor, history: seq<Attempt>): Anchor
    decreases |history|
  {
    if |history| == 0 then first
    else Current(if history[0].Rotated? then history[0].key else first, history[1..])
  }

  /** The certs a history appends, oldest first. */
  function Issued(first: Anchor, history: seq<Attempt>): (chain: seq<Signed>)
    ensures |chain| == |history|
    decreases |history|
  {
    if |history| == 0 then []
    else [Hop(first, history[0].key)] + Issued(if history[0].Rotated? then history[0].key else first, history[1..])
  }

  class GuildKeyStore {
    var seed: Anchor
    var chain: seq<Signed>

    constructor (first: Anchor)
      ensures seed == first && chain == []
    {
      seed, chain := first, [];
    }

    method AppendRotationCert(cert: Signed)
      modifies this`chain
      ensures chain == old(chain) + [cert]
    {
      chain := chain + [cert];
    }

    method ReplaceSeed(key: Anchor)
      modifies this`seed
      ensures seed == key
    {
      seed := key;
    }

    /** `crash` tells whether the process dies between the two store steps. */
    method RotateKey(minted: Anchor, crash: bool)
      modifies this
      ensures seed == Current(old(seed), [if crash then Crashed(minted) else Rotated(minted)])
      ensures chain == old(chain) + Issued(old(seed), [if crash then Crashed(minted) else Rotated(minted)])
    {
      AppendRotationCert(Hop(seed, minted));
      if crash {
        return;
      }
      ReplaceSeed(minted);
    }
  }

  function Minted(history: seq<Attempt>): seq<Anchor> {
    seq(|history|, i requires 0 <= i < |history| => history[i].key)
  }

  /** All keys ever generated are keys, and no two are the same. */
  ghost predicate FreshKeys(first: Anchor, history: seq<Attempt>) {
    Distinct([first] + Minted(history)) && forall a :: a in [first] + Minted(history) ==> a.Key?
  }

  /** No completed rotation follows a crashed one. */
  predicate NoRotationAfterCrash(history: seq<Attempt>) {
    forall i, j :: 0 <= i < j < |history| && history[i].Crashed? ==> history[j].Crashed?
  }

  lemma {:induction false} HistorySplits(first: Anchor, a: seq<Attempt>, b: seq<Attempt>)
    ensures Current(first, a + b) == Current(Current(first, a), b)
    ensures Issued(first, a + b) == Issued(first, a) + Issued(Current(first, a), b)
    decreases |a|
  {
    if |a| == 0 {
      assert a + b == b;
    } else {
      assert (a + b)[1..] == a[1..] + b;
      HistorySplits(if a[0].Rotated? then a[0].key else first, a[1..], b);
    }
  }

  lemma {:induction false} CurrentIsKnown(first: Anchor, history: seq<Attempt>)
    ensures Current(first, history) in [first] + Minted(history)
    decreases |history|
  {
    if |history| > 0 {
      CurrentIsKnown(if history[0].Rotated? then history[0].key else first, history[1..]);
      assert Minted(history) == [history[0].key] + Minted(history[1..]);
    }
  }

  /** Each cert is signed by the key that was current, and names it. */
  lemma {:induction false} IssuedByCurrent(first: Anchor, history: seq<Attempt>, i: nat)
    requires i < |history|
    ensures Issued(first, history)[i] == Hop(Current(first, history[..i]), history[i].key)
    decreases |history|
  {
    if i > 0 {
      var next := if history[0].Rotated? then history[0].key else first;
      IssuedByCurrent(next, history[1..], i - 1);
      assert history[1..][..i - 1] == history[..i][1..];
    }
  }

  ghost predicate Silent(chain: seq<Signed>, a: Anchor) {
    forall s :: s in chain ==> !Advances(a, s)
  }

  lemma {:induction false} SilentPrefix(a: Anchor, before: seq<Signed>, chain: seq<Signed>)
    requires Silent(before, a)
    ensures Vouched(a, before + chain) == Vouched(a, chain)
    decreases |before|
  {
    if |before| == 0 {
      assert before + chain == chain;
    } else {
      assert (before + chain)[1..] == before[1..] + chain;
      SilentPrefix(a, before[1..], chain);
    }
  }

  /** With fresh keys and no earlier cert speaking for the anchors involved, the walk from the current
      anchor follows the history to its end exactly when no crash precedes a completed rotation: the
      dangling cert comes first in the chain and leads to a key that vouches for nothing. */
  lemma {:induction false} WalkFollowsHistory(before: seq<Signed>, p: Anchor, history: seq<Attempt>)
    requires FreshKeys(p, history)
    requires forall a :: a in [p] + Minted(history) ==> Silent(before, a)
    ensures Reaches(p, Current(p, history), before + Issued(p, history)) <==> NoRotationAfterCrash(history)
    decreases |history|
  {
    var chain := before + Issued(p, history);
    if |history| == 0 {
      assert Orbit(p, chain, 0) == Some(p);
    } else {
      var n, rest := history[0].key, history[1..];
      assert Minted(history) == [n] + Minted(rest);
      SilentPrefix(p, before, Issued(p, history));
      assert Successor(p, chain) == Some(n);
      if history[0].Rotated? {
        WalkAfterRotation(before, p, history);
      } else {
        WalkAfterCrash(before, p, history);
      }
    }
  }

  lemma {:induction false} WalkAfterRotation(before: seq<Signed>, p: Anchor, history: seq<Attempt>)
    requires FreshKeys(p, history) && |history| > 0 && history[0].Rotated?
    requires forall a :: a in [p] + Minted(history) ==> Silent(before, a)
    requires Successor(p, before + Issued(p, history)) == Some(history[0].key)
    ensures Reaches(p, Current(p, history), before + Issued(p, history)) <==> NoRotationAfterCrash(history)
    decreases |history|, 0
  {
    var n, rest := history[0].key, history[1..];
    var chain := before + Issued(p, history);
    var before' := before + [Hop(p, n)];
    assert chain == before' + Issued(n, rest);
    FreshTail(p, history);
    forall a | a in [n] + Minted(rest) ensures Silent(before', a) {
      assert a in [p] + Minted(history) && a != p;
    }
    WalkFollowsHistory(before', n, rest);
    var target := Current(n, rest);
    CurrentIsKnown(n, rest);
    assert target != p;
    if hops: nat :| Orbit(p, chain, hops) == Some(target) {
      OrbitOnward(p, chain, 1, hops - 1);
      assert Orbit(p, chain, 1) == Some(n);
      assert Orbit(n, chain, hops - 1) == Some(target);
    }
    if hops: nat :| Orbit(n, chain, hops) == Some(target) {
      assert Orbit(p, chain, 1) == Some(n);
      OrbitOnward(p, chain, 1, hops);
      assert Orbit(p, chain, 1 + hops) == Some(target);
    }
    if NoRotationAfterCrash(rest) {
      assert forall i, j :: 0 <= i < j < |history| && history[i].Crashed? ==>
        rest[i - 1].Crashed? && rest[j - 1] == history[j];
    }
    if NoRotationAfterCrash(history) {
      assert forall i, j :: 0 <= i < j < |rest| && rest[i].Crashed? ==>
        history[i + 1].Crashed? && history[j + 1] == rest[j];
    }
  }

  lemma {:induction false} FreshTail(p: Anchor, history: seq<Attempt>)
    requires FreshKeys(p, history) && |history| > 0
    ensures Minted(history) == [history[0].key] + Minted(history[1..])
    ensures FreshKeys(history[0].key, history[1..])
    ensures p !in [history[0].key] + Minted(history[1..])
    ensures FreshKeys(p, history[1..]) && history[0].key !in [p] + Minted(history[1..])
  {
    var n, rest := history[0].key, history[1..];
    assert Minted(history) == [n] + Minted(rest);
    DistinctHead(p, [n] + Minted(rest));
    DistinctHead(n, Minted(rest));
    DistinctPrepend(p, Minted(rest));
    assert forall a :: a in [n] + Minted(rest) ==> a in [p] + Minted(history);
    assert forall a :: a in [p] + Minted(rest) ==> a in [p] + Minted(history);
  }

  /** A key that was never current signs nothing. */
  lemma {:induction false} NobodySpeaksFor(p: Anchor, history: seq<Attempt>, a: Anchor)
    requires a !in [p] + Minted(history)
    ensures Silent(Issued(p, history), a)
    decreases |history|
  {
    if |history| > 0 {
      assert Minted(history) == [history[0].key] + Minted(history[1..]);
      NobodySpeaksFor(if history[0].Rotated? then history[0].key else p, history[1..], a);
    }
  }

  lemma {:induction false} WalkAfterCrash(before: seq<Signed>, p: Anchor, history: seq<Attempt>)
    requires FreshKeys(p, history) && |history| > 0 && history[0].Crashed?
    requires forall a :: a in [p] + Minted(history) ==> Silent(before, a)
    requires Successor(p, before + Issued(p, history)) == Some(history[0].key)
    ensures Reaches(p, Current(p, history), before + Issued(p, history)) <==> NoRotationAfterCrash(history)
  {
    var n, rest := history[0].key, history[1..];
    var chain := before + Issued(p, history);
    var target := Current(p, rest);
    FreshTail(p, history);
    CurrentIsKnown(p, rest);
    assert target != n;
    NobodySpeaksFor(p, rest, n);
    assert Issued(p, history) == [Hop(p, n)] + Issued(p, rest);
    assert n in [p] + Minted(history);
    assert Silent(chain, n);
    SilentPrefix(n, chain, []);
    assert chain + [] == chain;
    assert Successor(n, chain) == None;
    CurrentStays(p, rest);
    if target == p {
      assert Orbit(p, chain, 0) == Some(target);
      assert forall j :: 0 < j < |history| ==> history[j] == rest[j - 1];
    } else {
      if hops: nat :| Orbit(p, chain, hops) == Some(target) {
        assert Orbit(p, chain, 1) == Some(n);
        if hops > 1 {
          OrbitStops(p, chain, 2, hops);
        }
      }
      var j :| 0 <= j < |rest| && rest[j].Rotated?;
      assert history[j + 1] == rest[j];
    }
  }

  /** The key is still the first one exactly when no rotation completed. */
  lemma {:induction false} CurrentStays(p: Anchor, history: seq<Attempt>)
    requires FreshKeys(p, history)
    ensures Current(p, history) == p <==> forall j :: 0 <= j < |history| ==> history[j].Crashed?
    decreases |history|
  {
    if |history| > 0 {
      FreshTail(p, history);
      if history[0].Rotated? {
        CurrentIsKnown(history[0].key, history[1..]);
      } else {
        CurrentStays(p, history[1..]);
        assert forall j :: 0 < j < |history| ==> history[j] == history[1..][j - 1];
      }
    }
  }

  /** The pin a client took when its anchor came into force is accepted again, over the certs served, whatever
      undecodable ones are among them, exactly when that anchor is still current, or the whole chain is within the
      cap and no completed rotation follows a crashed one since. */
  lemma RepinExactly(first: Anchor, before: seq<Attempt>, since: seq<Attempt>, certs: seq<Option<Signed>>)
    requires FreshKeys(first, before + since) && Carries(certs, Issued(first, before + since))
    requires |before| == 0 || before[|before| - 1].Rotated?
    ensures
      Takes(Pinned(Current(first, before)), Current(first, before + since), certs) <==>
        || (forall i :: 0 <= i < |since| ==> since[i].Crashed?)
        || (|before + since| <= MAX_ROTATION_CHAIN && NoRotationAfterCrash(since))
  {
    var pinned := Current(first, before);
    TakesDecoded(Pinned(pinned), Current(first, before + since), certs, Issued(first, before + since));
    HistorySplits(first, before, since);
    FreshSplit(first, before, since);
    CurrentStays(pinned, since);
    WalkFollowsHistory(Issued(first, before), pinned, since);
  }

  /** What the earlier certs and the later keys have to do with each other: nothing. */
  lemma FreshSplit(first: Anchor, before: seq<Attempt>, since: seq<Attempt>)
    requires FreshKeys(first, before + since)
    requires |before| == 0 || before[|before| - 1].Rotated?
    ensures FreshKeys(Current(first, before), since)
    ensures forall a :: a in [Current(first, before)] + Minted(since) ==> Silent(Issued(first, before), a)
  {
    var all := [first] + Minted(before + since);
    var n := |before|;
    var pinned := Current(first, before);
    if n > 0 {
      assert before == before[..n - 1] + [before[n - 1]];
      HistorySplits(first, before[..n - 1], [before[n - 1]]);
      assert Current(Current(first, before[..n - 1]), [before[n - 1]]) == before[n - 1].key;
    }
    assert pinned == all[n];
    assert forall i :: 0 <= i < |since| ==> Minted(since)[i] == all[n + 1 + i];
    assert [pinned] + Minted(since) == all[n..];
    forall a, i | a in all[n..] && 0 <= i < n ensures !Advances(a, Issued(first, before)[i]) {
      var m :| n <= m < |all| && all[m] == a;
      LaterIsSilent(first, before, since, i, m);
    }
  }

  /** No cert is signed by a key minted later than the history that issued it. */
  lemma LaterIsSilent(first: Anchor, before: seq<Attempt>, since: seq<Attempt>, i: nat, m: nat)
    requires FreshKeys(first, before + since) && i < |before| <= m <= |before + since|
    ensures !Advances(([first] + Minted(before + since))[m], Issued(first, before)[i])
  {
    var all, known := [first] + Minted(before + since), [first] + Minted(before[..i]);
    IssuedByCurrent(first, before, i);
    CurrentIsKnown(first, before[..i]);
    var k :| 0 <= k < |known| && known[k] == Current(first, before[..i]);
    assert known[k] == all[k];
    assert all[k] != all[m];
  }

  /** Without crashes, every anchor that was ever current leads a client to the current one, as long as
      there were at most 64 rotations in all, whatever undecodable certs are served among theirs. */
  lemma CrashFreeRepins(first: Anchor, before: seq<Attempt>, since: seq<Attempt>, certs: seq<Option<Signed>>)
    requires FreshKeys(first, before + since) && Carries(certs, Issued(first, before + since))
    requires forall r :: r in before + since ==> r.Rotated?
    requires |before + since| <= 64
    ensures Takes(Pinned(Current(first, before)), Current(first, before + since), certs)
  {
    if |before| > 0 {
      assert before[|before| - 1] in before + since;
    }
    assert forall i :: 0 <= i < |since| ==> since[i] in before + since;
    RepinExactly(first, before, since, certs);
  }

  lemma EncodedCarries(chain: seq<Signed>)
    ensures Carries(Encoded(chain), chain)
  {
    EncodedDecodes(chain);
    DecodedExactly(Encoded(chain), chain);
  }

  lemma CrashLeavesRefused(history: seq<Attempt>)
    requires history == [Crashed(Key(1)), Rotated(Key(2))]
    ensures !Takes(Pinned(Key(0)), Current(Key(0), history), Encoded(Issued(Key(0), history)))
  {
    EncodedCarries(Issued(Key(0), history));
    assert [] + history == history && Minted(history) == [Key(1), Key(2)];
    assert Current(Key(0), []) == Key(0);
    assert history[1..] == [Rotated(Key(2))];
    RepinExactly(Key(0), [], history, Encoded(Issued(Key(0), history)));
  }

  /** The cert left dangling by a crash is harmless only until the next rotation: this client is then
      refused the anchor its own pin's key went on to sign for. */
  lemma DanglingCertStrandsClients()
    ensures
      var history := [Crashed(Key(1)), Rotated(Key(2))];
      && Takes(Pinned(Key(0)), Current(Key(0), history[..1]), Encoded(Issued(Key(0), history[..1])))
      && !Takes(Pinned(Key(0)), Current(Key(0), history), Encoded(Issued(Key(0), history)))
      && Hop(Key(0), Key(2)) in Issued(Key(0), history)
  {
    var history := [Crashed(Key(1)), Rotated(Key(2))];
    CrashLeavesRefused(history);
    assert history[..1] == [Crashed(Key(1))] && Current(Key(0), history[..1]) == Key(0);
    assert Issued(Key(0), history)[1] == Hop(Key(0), Key(2)) by {
      IssuedByCurrent(Key(0), history, 1);
      assert history[..1] == [Crashed(Key(1))];
    }
  }
}
