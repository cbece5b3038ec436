/**
 The coordinator's device tables (crates/coordinator/src/store.rs): addresses and names allocated to
 devices, the primary pointer, and the registered service labels. SQL tables are maps keyed as their
 PRIMARY KEYs; each operation is a step from one database state to the next, and a run is any series of
 operations taken one at a time, for a fixed mesh network.
 */
module DeviceStore {
  import opened Prelude
  import A = Addressing
  import N = Names

  type User = nat

  const MAX_DEVICES_PER_USER: nat := 32
  const MAX_WEB_SERVICES_PER_DEVICE: nat := 8
  const MAX_SERVICE_LABEL_LEN: nat := 24

  datatype Row = Row(idx: nat, user: User, name: string, lastSeen: Option<Time>, personal: bool)

  datatype ServiceKey = ServiceKey(user: User, name: string)

  datatype Db = Db(devices: map<PubKey, Row>, primary: map<User, PubKey>, services: map<ServiceKey, PubKey>)

  // ---- Queries ----

  function DevicesOf(db: Db, user: User): set<PubKey> {
    set pk | pk in db.devices && db.devices[pk].user == user
  }

  /** The names of the user's devices other than `except`. */
  function NamesOf(db: Db, user: User, except: Option<PubKey>): set<string> {
    set pk | pk in db.devices && db.devices[pk].user == user && except != Some(pk) :: db.devices[pk].name
  }

  function TakenIndices(db: Db): set<nat> {
    set pk | pk in db.devices :: db.devices[pk].idx
  }

  predicate Owns(db: Db, user: User, pk: PubKey) {
    pk in db.devices && db.devices[pk].user == user
  }

  // ---- The invariant ----

  predicate SameName(a: Row, b: Row) {
    a.user == b.user && a.name == b.name
  }

  ghost predicate IndicesSound(net: A.Net, devices: map<PubKey, Row>)
    requires A.WellFormed(net)
  {
    && (forall pk :: pk in devices ==> A.IndexIsValid(net, devices[pk].idx))
    && (forall p, q :: p in devices && q in devices && devices[p].idx == devices[q].idx ==> p == q)
  }

  ghost predicate NamesDistinct(devices: map<PubKey, Row>) {
    forall p, q :: p in devices && q in devices && SameName(devices[p], devices[q]) ==> p == q
  }

  ghost predicate FleetsBounded(db: Db) {
    forall u :: |DevicesOf(db, u)| <= MAX_DEVICES_PER_USER
  }

  /** Primaries and service labels point at live devices of their user. */
  ghost predicate PointersSound(db: Db) {
    && (forall u :: u in db.primary ==> Owns(db, u, db.primary[u]))
    && (forall k :: k in db.services ==> Owns(db, k.user, db.services[k]))
  }

  ghost predicate Inv(net: A.Net, db: Db)
    requires A.WellFormed(net)
  {
    IndicesSound(net, db.devices) && NamesDistinct(db.devices) && FleetsBounded(db) && PointersSound(db)
  }

  // ---- Service labels ----

  predicate ServiceChar(c: char) {
    'a' <= c <= 'z' || '0' <= c <= '9' || c == '-'
  }

  predicate ValidLabel(l: string) {
    && 0 < |l| <= MAX_SERVICE_LABEL_LEN
    && (forall i :: 0 <= i < |l| ==> ServiceChar(l[i]))
    && l[0] != '-' && l[|l| - 1] != '-'
    && exists i :: 0 <= i < |l| && !('0' <= l[i] <= '9')
  }

  predicate DoubleDash(l: string) {
    exists i :: 0 < i < |l| && l[i - 1] == '-' && l[i] == '-'
  }

  predicate Numeric(l: string) {
    forall c :: c in l ==> c in "0123456789"
  }

  lemma {:induction false} LabelIsClean(l: string)
    requires N.SingleDashes(l)
    ensures ValidLabel(l) <==> 0 < |l| <= 24 && l[|l| - 1] != '-' && !Numeric(l)
  {
    if 0 < |l| {
      if Numeric(l) {
        forall i | 0 <= i < |l| ensures '0' <= l[i] <= '9' {
          assert l[i] in l;
        }
      } else {
        var c :| c in l && c !in "0123456789";
        var i :| 0 <= i < |l| && l[i] == c;
        NoDigit(c);
      }
      forall i | 0 <= i < |l| ensures ServiceChar(l[i]) {
        assert N.LabelChar(l[i]);
      }
    }
  }

  lemma NoDigit(c: char)
    ensures '0' <= c <= '9' <==> c in "0123456789"
  {
    var digits := "0123456789";
    if '0' <= c <= '9' {
      var i := c as int - 48;
      assert forall j :: 0 <= j < 10 ==> digits[j] as int == 48 + j;
      assert digits[i] == c;
    }
  }

  /** A text without a double dash is a usable label exactly if it is its own sanitised form, has at most 24
      characters, and is not a number. */
  lemma ValidLabelExactly(l: string)
    requires !DoubleDash(l)
    ensures ValidLabel(l) <==> N.Sanitized(l) == l && |l| <= 24 && !Numeric(l)
  {
    N.SanitizedIsLabel(l);
    if ValidLabel(l) {
      assert N.SingleDashes(l);
      N.CleanStays(l);
      LabelIsClean(l);
    }
    if N.Sanitized(l) == l && |l| <= 24 && !Numeric(l) {
      LabelIsClean(l);
    }
  }

  /** And a double dash is as good as a single one, if the label is short enough. */
  lemma DoubleDashExactly(a: string, b: string)
    ensures ValidLabel(a + "--" + b) <==> |a| + |b| <= 22 && ValidLabel(a + "-" + b)
  {
    var two, one := a + "--" + b, a + "-" + b;
    var n := |a|;
    assert forall i :: 0 <= i <= n ==> two[i] == one[i];
    assert forall i :: n < i < |one| ==> two[i + 1] == one[i];
    assert two[n + 1] == '-' && one[n] == '-';
    assert |two| == |one| + 1;
    assert two[0] == one[0];
    assert two[|two| - 1] == one[|one| - 1];
    if ValidLabel(two) {
      forall i | 0 <= i < |one| ensures ServiceChar(one[i]) {
        if i > n { assert ServiceChar(two[i + 1]); } else { assert ServiceChar(two[i]); }
      }
    }
    if ValidLabel(one) {
      forall i | 0 <= i < |two| ensures ServiceChar(two[i]) {
        if i > n { assert ServiceChar(one[i - 1]); } else { assert ServiceChar(one[i]); }
      }
    }
  }

  /** Labels of this owner that some other device already serves. */
  function HeldElsewhere(db: Db, user: User, pk: PubKey): set<string> {
    set k | k in db.services && k.user == user && db.services[k] != pk :: k.name
  }

  datatype Refusal = Unusable | DeviceNameWins | ServedElsewhere | TooMany

  function Judge(db: Db, user: User, pk: PubKey, l: string, accepted: nat): Option<Refusal> {
    if !ValidLabel(l) then Some(Unusable)
    else if l in NamesOf(db, user, None) then Some(DeviceNameWins)
    else if l in HeldElsewhere(db, user, pk) then Some(ServedElsewhere)
    else if accepted >= MAX_WEB_SERVICES_PER_DEVICE then Some(TooMany)
    else None
  }

  /** The labels that pass, in order. */
  function Accepted(db: Db, user: User, pk: PubKey, ls: seq<string>): seq<string> {
    if |ls| == 0 then []
    else
      var before := Accepted(db, user, pk, ls[..|ls| - 1]);
      if Judge(db, user, pk, ls[|ls| - 1], |before|).None? then before + [ls[|ls| - 1]] else before
  }

  /** The labels that do not, each with its reason. */
  function RefusedOf(db: Db, user: User, pk: PubKey, ls: seq<string>): seq<(string, Refusal)> {
    if |ls| == 0 then []
    else
      var l, before := ls[|ls| - 1], RefusedOf(db, user, pk, ls[..|ls| - 1]);
      match Judge(db, user, pk, l, |Accepted(db, user, pk, ls[..|ls| - 1])|)
      case Some(reason) => before + [(l, reason)]
      case None => before
  }

  predicate Claimable(db: Db, user: User, pk: PubKey, l: string) {
    ValidLabel(l) && l !in NamesOf(db, user, None) && l !in HeldElsewhere(db, user, pk)
  }

  /** Only this owner's devices and registrations stand in the way. */
  lemma ClaimableExactly(db: Db, user: User, pk: PubKey, l: string)
    ensures Claimable(db, user, pk, l) <==>
      && ValidLabel(l)
      && (forall q :: q in db.devices && db.devices[q].user == user ==> db.devices[q].name != l)
      && (ServiceKey(user, l) in db.services ==> db.services[ServiceKey(user, l)] == pk)
  {
    if ServiceKey(user, l) in db.services && db.services[ServiceKey(user, l)] != pk {
      assert ServiceKey(user, l).name in HeldElsewhere(db, user, pk);
    }
  }

  /** The first cause that applies: an unusable label, a device's name, a sibling's label, eight accepted before. */
  ghost predicate Because(db: Db, user: User, pk: PubKey, l: string, before: nat, why: Refusal) {
    var device := exists q :: q in db.devices && db.devices[q].user == user && db.devices[q].name == l;
    var sibling := ServiceKey(user, l) in db.services && db.services[ServiceKey(user, l)] != pk;
    match why
    case Unusable => !ValidLabel(l)
    case DeviceNameWins => ValidLabel(l) && device
    case ServedElsewhere => ValidLabel(l) && !device && sibling
    case TooMany => ValidLabel(l) && !device && !sibling && before >= 8
  }

  lemma JudgeExactly(db: Db, user: User, pk: PubKey, l: string, before: nat, why: Refusal)
    ensures Judge(db, user, pk, l, before) == Some(why) <==> Because(db, user, pk, l, before, why)
  {
    ClaimableExactly(db, user, pk, l);
    if ServiceKey(user, l) in db.services && db.services[ServiceKey(user, l)] != pk {
      assert ServiceKey(user, l).name in HeldElsewhere(db, user, pk);
    }
  }

  /** Every refusal is of a label asked for, for the first cause that applies when its turn comes. */
  lemma {:induction false} RefusedExactly(db: Db, user: User, pk: PubKey, ls: seq<string>, l: string, why: Refusal)
    ensures (l, why) in RefusedOf(db, user, pk, ls) <==>
      exists i: nat :: i < |ls| && ls[i] == l && Because(db, user, pk, l, |Accepted(db, user, pk, ls[..i])|, why)
  {
    if |ls| > 0 {
      var n := |ls| - 1;
      RefusedExactly(db, user, pk, ls[..n], l, why);
      JudgeExactly(db, user, pk, l, |Accepted(db, user, pk, ls[..n])|, why);
      forall i | 0 <= i < n ensures ls[..n][..i] == ls[..i] {}
      if i: nat :| i < n && ls[..n][i] == l && Because(db, user, pk, l, |Accepted(db, user, pk, ls[..n][..i])|, why) {
        assert ls[i] == l && ls[..n][..i] == ls[..i];
      }
    }
  }

  /** Nothing but claimable labels is accepted, at most eight of them; a claimable label is refused only
      when eight others were accepted before it; and every label is either accepted or refused. */
  lemma {:induction false} AcceptedExactly(db: Db, user: User, pk: PubKey, ls: seq<string>)
    ensures |Accepted(db, user, pk, ls)| <= MAX_WEB_SERVICES_PER_DEVICE
    ensures forall l :: l in Accepted(db, user, pk, ls) ==> l in ls && Claimable(db, user, pk, l)
    ensures forall l :: l in ls && Claimable(db, user, pk, l) && l !in Accepted(db, user, pk, ls) ==>
      |Accepted(db, user, pk, ls)| == MAX_WEB_SERVICES_PER_DEVICE
    ensures |Accepted(db, user, pk, ls)| + |RefusedOf(db, user, pk, ls)| == |ls|
  {
    if |ls| > 0 {
      assert ls == ls[..|ls| - 1] + [ls[|ls| - 1]];
      AcceptedExactly(db, user, pk, ls[..|ls| - 1]);
    }
  }

  // ---- Operations ----

  datatype Op =
    | Allocate(pk: PubKey, user: User, desired: string, digest: nat)
    | Rename(user: User, pk: PubKey, desired: string)
    | Remove(user: User, pk: PubKey)
    | EnsurePrimary(user: User, pk: PubKey)
    | SetPrimary(user: User, pk: PubKey)
    | SetServices(user: User, pk: PubKey, labels: seq<string>)
    | Touch(pk: PubKey, personal: bool, now: Time)

  /** What the callers in the coordinator see to: they rename, promote and register services for a
      device of the user they authenticated. */
  predicate Authorised(db: Db, op: Op) {
    match op
    case Rename(u, pk, _) => pk in db.devices ==> db.devices[pk].user == u
    case EnsurePrimary(u, pk) => Owns(db, u, pk)
    case SetPrimary(u, pk) => Owns(db, u, pk)
    case SetServices(u, pk, _) => Owns(db, u, pk)
    case _ => true
  }

  /** A device name chosen by `unique_device_name`: the first free one. */
  ghost predicate FirstFreeName(taken: set<string>, desired: string, name: string) {
    && name !in taken
    && exists k: nat :: name == N.DeviceCandidate(desired, k) &&
         forall earlier: nat :: earlier < k ==> N.DeviceCandidate(desired, earlier) in taken
  }

  predicate Full(net: A.Net, db: Db, user: User)
    requires A.WellFormed(net)
  {
    || |DevicesOf(db, user)| >= MAX_DEVICES_PER_USER
    || forall i :: 1 <= i <= A.Allocatable(net) ==> i in TakenIndices(db)
  }

  function Registered(db: Db, user: User, pk: PubKey, ls: seq<string>): map<ServiceKey, PubKey> {
    (map k | k in db.services && !(k.user == user && db.services[k] == pk) :: db.services[k]) +
    (map l | l in ls :: ServiceKey(user, l) := pk)
  }

  /** The same table, one upsert after another. */
  function Placed(base: map<ServiceKey, PubKey>, user: User, pk: PubKey, ls: seq<string>): map<ServiceKey, PubKey> {
    if |ls| == 0 then base
    else Placed(base, user, pk, ls[..|ls| - 1])[ServiceKey(user, ls[|ls| - 1]) := pk]
  }

  lemma {:induction false} PlacedIs(base: map<ServiceKey, PubKey>, user: User, pk: PubKey, ls: seq<string>)
    ensures Placed(base, user, pk, ls) == base + map l | l in ls :: ServiceKey(user, l) := pk
  {
    if |ls| > 0 {
      assert ls == ls[..|ls| - 1] + [ls[|ls| - 1]];
      PlacedIs(base, user, pk, ls[..|ls| - 1]);
    }
  }

  ghost predicate Step(net: A.Net, db: Db, op: Op, db': Db)
    requires A.WellFormed(net)
  {
    match op
    case Allocate(pk, u, desired, digest) =>
      if pk in db.devices || Full(net, db, u) then db' == db
      else
        && pk in db'.devices
        && var row := db'.devices[pk];
           && db' == db.(devices := db.devices[pk := row])
           && row == Row(row.idx, u, row.name, None, false)
           && A.FirstFreeIndex(net, TakenIndices(db), A.DeviceHint(net, digest), row.idx)
           && FirstFreeName(NamesOf(db, u, None), desired, row.name)
    case Rename(u, pk, desired) =>
      if pk !in db.devices then db' == db
      else
        && pk in db'.devices
        && db' == db.(devices := db.devices[pk := db.devices[pk].(name := db'.devices[pk].name)])
        && FirstFreeName(NamesOf(db, u, Some(pk)), desired, db'.devices[pk].name)
    case Remove(u, pk) =>
      && db'.devices == (if Owns(db, u, pk) then db.devices - {pk} else db.devices)
      && db'.services == (map k | k in db.services && db.services[k] != pk :: db.services[k])
      && (if u in db.primary && db.primary[u] == pk then
            if DevicesOf(db', u) == {} then db'.primary == db.primary - {u}
            else exists heir :: heir in DevicesOf(db', u) && db'.primary == db.primary[u := heir]
          else db'.primary == db.primary)
    case EnsurePrimary(u, pk) =>
      db' == if u in db.primary then db else db.(primary := db.primary[u := pk])
    case SetPrimary(u, pk) =>
      db' == db.(primary := db.primary[u := pk])
    case SetServices(u, pk, ls) =>
      db' == db.(services := Registered(db, u, pk, Accepted(db, u, pk, ls)))
    case Touch(pk, personal, now) =>
      db' == if pk in db.devices
             then db.(devices := db.devices[pk := db.devices[pk].(lastSeen := Some(now), personal := personal)])
             else db
  }

  // ---- What every step keeps ----

  lemma StepKeepsIndices(net: A.Net, db: Db, op: Op, db': Db)
    requires A.WellFormed(net) && IndicesSound(net, db.devices) && Step(net, db, op, db')
    ensures IndicesSound(net, db'.devices)
  {
    if op.Allocate? && db' != db {
      forall q | q in db.devices ensures db.devices[q].idx != db'.devices[op.pk].idx {
        assert db.devices[q].idx in TakenIndices(db);
      }
    }
  }

  lemma StepKeepsNames(net: A.Net, db: Db, op: Op, db': Db)
    requires A.WellFormed(net) && NamesDistinct(db.devices) && Authorised(db, op) && Step(net, db, op, db')
    ensures NamesDistinct(db'.devices)
  {
    if (op.Allocate? && db' != db) || (op.Rename? && op.pk in db.devices) {
      var row := db'.devices[op.pk];
      forall q | q in db.devices && q != op.pk ensures !SameName(db.devices[q], row) {
        if db.devices[q].user == op.user {
          var except := if op.Rename? then Some(op.pk) else None;
          assert db.devices[q].name in NamesOf(db, op.user, except);
        }
      }
      forall p, q | p in db'.devices && q in db'.devices && SameName(db'.devices[p], db'.devices[q]) ensures p == q {
        if p != op.pk && q != op.pk {
          assert SameName(db.devices[p], db.devices[q]);
        }
      }
    } else {
      forall p, q | p in db'.devices && q in db'.devices && SameName(db'.devices[p], db'.devices[q]) ensures p == q {
        assert SameName(db.devices[p], db.devices[q]);
      }
    }
  }

  lemma OwnerStep(net: A.Net, db: Db, op: Op, db': Db, v: User, pk: PubKey)
    requires A.WellFormed(net) && Step(net, db, op, db') && Owns(db', v, pk)
    ensures Owns(db, v, pk) || (op.Allocate? && pk == op.pk && v == op.user && !Full(net, db, v))
  {
  }

  lemma StepKeepsFleets(net: A.Net, db: Db, op: Op, db': Db)
    requires A.WellFormed(net) && FleetsBounded(db) && Step(net, db, op, db')
    ensures FleetsBounded(db')
  {
    forall v ensures |DevicesOf(db', v)| <= MAX_DEVICES_PER_USER {
      var before, after := DevicesOf(db, v), DevicesOf(db', v);
      assert |before| <= MAX_DEVICES_PER_USER;
      forall pk | pk in after
        ensures pk in before || (op.Allocate? && pk == op.pk && v == op.user && !Full(net, db, v))
      {
        OwnerStep(net, db, op, db', v, pk);
      }
      if op.Allocate? && v == op.user && !Full(net, db, v) {
        SubsetSize(after, before + {op.pk});
      } else {
        SubsetSize(after, before);
      }
    }
  }

  lemma StepKeepsPointers(net: A.Net, db: Db, op: Op, db': Db)
    requires A.WellFormed(net) && PointersSound(db) && Authorised(db, op) && Step(net, db, op, db')
    ensures PointersSound(db')
  {
    forall u | u in db'.primary ensures Owns(db', u, db'.primary[u]) {
      if u in db.primary {
        assert Owns(db, u, db.primary[u]);
      }
      if op.Remove? && u == op.user && u in db.primary && db.primary[u] == op.pk {
        assert db'.primary[u] in DevicesOf(db', u);
      }
    }
    forall k | k in db'.services ensures Owns(db', k.user, db'.services[k]) {
      assert k in db.services ==> Owns(db, k.user, db.services[k]);
    }
  }

  lemma StepKeepsInv(net: A.Net, db: Db, op: Op, db': Db)
    requires A.WellFormed(net) && Inv(net, db) && Authorised(db, op) && Step(net, db, op, db')
    ensures Inv(net, db')
  {
    StepKeepsIndices(net, db, op, db');
    StepKeepsNames(net, db, op, db');
    StepKeepsFleets(net, db, op, db');
    StepKeepsPointers(net, db, op, db');
  }

  // ---- Runs ----

  ghost predicate Run(net: A.Net, dbs: seq<Db>, ops: seq<Op>)
    requires A.WellFormed(net)
  {
    && |dbs| == |ops| + 1
    && forall i :: 0 <= i < |ops| ==> Authorised(dbs[i], ops[i]) && Step(net, dbs[i], ops[i], dbs[i + 1])
  }

  /** Over every run: indices stay distinct and valid, names distinct per owner, at most 32 devices per
      user, and every primary and every service label points at a live device of its user; and names stay
      within 63 characters as long as their seeds do. */
  lemma {:induction false} RunKeepsInv(net: A.Net, dbs: seq<Db>, ops: seq<Op>, i: nat)
    requires A.WellFormed(net) && Run(net, dbs, ops) && Inv(net, dbs[0]) && i < |dbs|
    ensures Inv(net, dbs[i])
    ensures NamesShort(dbs[0]) && (forall k :: 0 <= k < i ==> ShortSeed(ops[k])) ==> NamesShort(dbs[i])
  {
    if i > 0 {
      RunKeepsInv(net, dbs, ops, i - 1);
      StepKeepsInv(net, dbs[i - 1], ops[i - 1], dbs[i]);
      if NamesShort(dbs[i - 1]) && ShortSeed(ops[i - 1]) {
        StepKeepsNamesShort(net, dbs[i - 1], ops[i - 1], dbs[i]);
      }
    }
  }

  /** A device keeps its address, its owner and its place in the tables until it is removed. */
  lemma {:induction false} AddressIsStable(net: A.Net, dbs: seq<Db>, ops: seq<Op>, i: nat, j: nat, pk: PubKey)
    requires A.WellFormed(net) && Run(net, dbs, ops) && i <= j < |dbs| && pk in dbs[i].devices
    requires forall k :: i <= k < j ==> ops[k] != Remove(dbs[i].devices[pk].user, pk)
    ensures pk in dbs[j].devices && dbs[j].devices[pk].idx == dbs[i].devices[pk].idx
    ensures dbs[j].devices[pk].user == dbs[i].devices[pk].user
    decreases j - i
  {
    if i < j {
      AddressIsStable(net, dbs, ops, i, j - 1, pk);
      assert Step(net, dbs[j - 1], ops[j - 1], dbs[j]);
    }
  }

  /** No two devices of a reachable state share an address or an owner-scoped name. */
  lemma NoSharedAddressOrName(net: A.Net, dbs: seq<Db>, ops: seq<Op>, i: nat, p: PubKey, q: PubKey)
    requires A.WellFormed(net) && Run(net, dbs, ops) && dbs[0] == Db(map[], map[], map[]) && i < |dbs|
    requires p in dbs[i].devices && q in dbs[i].devices && p != q
    ensures A.IndexIsValid(net, dbs[i].devices[p].idx) && A.IndexIsValid(net, dbs[i].devices[q].idx)
    ensures A.AddrFromIndex(net, dbs[i].devices[p].idx) != A.AddrFromIndex(net, dbs[i].devices[q].idx)
    ensures dbs[i].devices[p].user == dbs[i].devices[q].user ==> dbs[i].devices[p].name != dbs[i].devices[q].name
  {
    EmptyIsSound(net);
    RunKeepsInv(net, dbs, ops, i);
    A.AddressesAreDistinct(net, dbs[i].devices[p].idx, dbs[i].devices[q].idx);
  }

  lemma EmptyIsSound(net: A.Net)
    requires A.WellFormed(net)
    ensures Inv(net, Db(map[], map[], map[]))
  {
    forall u ensures DevicesOf(Db(map[], map[], map[]), u) == {} {}
  }

  ghost predicate Unused(net: A.Net, db: Db, i: nat)
    requires A.WellFormed(net)
  {
    1 <= i <= A.Allocatable(net) && forall q :: q in db.devices ==> db.devices[q].idx != i
  }

  /** What a new device is given: nothing exactly if its owner has 32 devices or every address is some device's;
      else the name asked for exactly if no device of its owner has it, the address hinted at exactly if no device
      of anybody has it, and no stamp. */
  lemma AllocatesExactly(net: A.Net, db: Db, pk: PubKey, user: User, desired: string, digest: nat, db': Db)
    requires A.WellFormed(net) && Step(net, db, Allocate(pk, user, desired, digest), db') && pk !in db.devices
    ensures pk in db'.devices <==>
      && |set q | q in db.devices && db.devices[q].user == user| < 32
      && exists i :: Unused(net, db, i)
    ensures pk in db'.devices ==>
      var row := db'.devices[pk];
      && row.user == user && row.lastSeen == None && !row.personal
      && (row.name == desired <==> forall q :: q in db.devices && db.devices[q].user == user ==>
            db.devices[q].name != desired)
      && (row.idx == A.DeviceHint(net, digest) <==> forall q :: q in db.devices ==>
            db.devices[q].idx != A.DeviceHint(net, digest))
    ensures db'.devices - {pk} == db.devices && db'.primary == db.primary && db'.services == db.services
  {
    var owned := set q | q in db.devices && db.devices[q].user == user;
    assert owned == DevicesOf(db, user);
    forall i: nat | 1 <= i <= A.Allocatable(net) ensures Unused(net, db, i) <==> i !in TakenIndices(db) {
    }
    if pk in db'.devices {
      var row, hint, last := db'.devices[pk], A.DeviceHint(net, digest), A.Allocatable(net);
      assert N.DeviceCandidate(desired, 0) == desired;
      assert A.IndexIsValid(net, row.idx) && A.Clamp(hint, last) == hint && A.Probe(hint, last, 0) == hint;
      assert hint in TakenIndices(db) <==> !Unused(net, db, hint);
    }
  }

  /** A renamed device gets the name asked for exactly if no other device of its owner has it, and nothing else
      changes. */
  lemma RenamesExactly(net: A.Net, db: Db, user: User, pk: PubKey, desired: string, db': Db)
    requires A.WellFormed(net) && Step(net, db, Rename(user, pk, desired), db')
    ensures pk !in db.devices ==> db' == db
    ensures pk in db.devices ==>
      && pk in db'.devices && db'.devices - {pk} == db.devices - {pk}
      && db'.devices[pk].(name := db.devices[pk].name) == db.devices[pk]
      && db'.primary == db.primary && db'.services == db.services
      && (db'.devices[pk].name == desired <==>
            forall q :: q in db.devices && q != pk && db.devices[q].user == user ==> db.devices[q].name != desired)
  {
    if pk in db.devices {
      var name := db'.devices[pk].name;
      assert N.DeviceCandidate(desired, 0) == desired;
      assert desired in NamesOf(db, user, Some(pk)) <==>
        exists q :: q in db.devices && q != pk && db.devices[q].user == user && db.devices[q].name == desired;
    }
  }

  /** Removing a device clears the owner's primary exactly when it was the primary and the last device. */
  lemma PrimaryOutlivesDevices(net: A.Net, db: Db, user: User, pk: PubKey, db': Db)
    requires A.WellFormed(net) && Inv(net, db) && user in db.primary && Step(net, db, Remove(user, pk), db')
    ensures user !in db'.primary <==> DevicesOf(db, user) == {pk}
  {
    assert Owns(db, user, db.primary[user]);
    assert db.primary[user] in DevicesOf(db, user);
    if Owns(db, user, pk) {
      assert DevicesOf(db', user) == DevicesOf(db, user) - {pk};
    } else {
      assert pk !in DevicesOf(db, user);
    }
  }

  /** The operation names a device of the user for its primary. */
  predicate Elects(op: Op, u: User) {
    (op.EnsurePrimary? || op.SetPrimary?) && op.user == u
  }

  lemma ElectedAt(net: A.Net, db: Db, op: Op, db': Db, u: User)
    requires A.WellFormed(net) && Inv(net, db) && Authorised(db, op) && Step(net, db, op, db') && Elects(op, u)
    ensures u in db'.primary && DevicesOf(db', u) != {}
    ensures db'.primary[u] == if op.EnsurePrimary? && u in db.primary then db.primary[u] else op.pk
  {
    assert op.pk in DevicesOf(db', u);
  }

  lemma PrimaryStep(net: A.Net, db: Db, op: Op, db': Db, u: User)
    requires A.WellFormed(net) && Inv(net, db) && Authorised(db, op) && Step(net, db, op, db') && !Elects(op, u)
    ensures u in db'.primary <==> u in db.primary && DevicesOf(db', u) != {}
    ensures u in db.primary && op != Remove(u, db.primary[u]) ==> u in db'.primary && db'.primary[u] == db.primary[u]
  {
    StepKeepsInv(net, db, op, db');
    if u in db'.primary {
      assert Owns(db', u, db'.primary[u]);
      assert db'.primary[u] in DevicesOf(db', u);
    }
  }

  ghost predicate HasDevices(dbs: seq<Db>, i: nat, j: nat, u: User)
    requires j < |dbs|
  {
    forall m :: i < m <= j ==> DevicesOf(dbs[m], u) != {}
  }

  /** What each operation of a run does to the user's primary. */
  ghost predicate PrimaryRun(dbs: seq<Db>, ops: seq<Op>, u: User)
    requires |dbs| == |ops| + 1
  {
    forall m :: 0 <= m < |ops| ==> PrimaryOn(dbs[m], ops[m], dbs[m + 1], u)
  }

  ghost predicate PrimaryOn(db: Db, op: Op, db': Db, u: User) {
    if Elects(op, u) then
      && u in db'.primary && DevicesOf(db', u) != {}
      && db'.primary[u] == if op.EnsurePrimary? && u in db.primary then db.primary[u] else op.pk
    else
      && (u in db'.primary <==> u in db.primary && DevicesOf(db', u) != {})
      && (u in db.primary && op != Remove(u, db.primary[u]) ==>
            u in db'.primary && db'.primary[u] == db.primary[u])
  }

  lemma RunMovesPrimary(net: A.Net, dbs: seq<Db>, ops: seq<Op>, u: User)
    requires A.WellFormed(net) && Run(net, dbs, ops) && Inv(net, dbs[0])
    ensures PrimaryRun(dbs, ops, u)
  {
    forall m | 0 <= m < |ops| ensures PrimaryOn(dbs[m], ops[m], dbs[m + 1], u) {
      RunKeepsInv(net, dbs, ops, m);
      if Elects(ops[m], u) {
        ElectedAt(net, dbs[m], ops[m], dbs[m + 1], u);
      } else {
        PrimaryStep(net, dbs[m], ops[m], dbs[m + 1], u);
      }
    }
  }

  lemma {:induction false} PrimaryWhile(dbs: seq<Db>, ops: seq<Op>, i: nat, j: nat, u: User)
    requires |dbs| == |ops| + 1 && PrimaryRun(dbs, ops, u) && i < j < |dbs| && Elects(ops[i], u)
    requires forall m :: i < m < j ==> !Elects(ops[m], u)
    ensures u in dbs[j].primary <==> HasDevices(dbs, i, j, u)
    decreases j
  {
    assert PrimaryOn(dbs[j - 1], ops[j - 1], dbs[j], u);
    if j > i + 1 {
      PrimaryWhile(dbs, ops, i, j - 1, u);
    }
  }

  lemma {:induction false} ElectedWhile(dbs: seq<Db>, ops: seq<Op>, i: nat, j: nat, u: User, pk: PubKey)
    requires |dbs| == |ops| + 1 && PrimaryRun(dbs, ops, u) && i < j < |dbs| && Elects(ops[i], u)
    requires pk == if ops[i].EnsurePrimary? && u in dbs[i].primary then dbs[i].primary[u] else ops[i].pk
    requires forall m :: i < m < j ==> !Elects(ops[m], u) && ops[m] != Remove(u, pk)
    ensures u in dbs[j].primary && dbs[j].primary[u] == pk
    decreases j
  {
    assert PrimaryOn(dbs[j - 1], ops[j - 1], dbs[j], u);
    if j > i + 1 {
      ElectedWhile(dbs, ops, i, j - 1, u, pk);
    }
  }

  /** Once a device was elected, and until the next election, its user has a primary exactly while it has always had
      a device since. */
  lemma PrimaryExactly(net: A.Net, dbs: seq<Db>, ops: seq<Op>, i: nat, j: nat, u: User)
    requires A.WellFormed(net) && Run(net, dbs, ops) && Inv(net, dbs[0]) && i < j < |dbs| && Elects(ops[i], u)
    requires forall m :: i < m < j ==> !Elects(ops[m], u)
    ensures u in dbs[j].primary <==> forall m :: i < m <= j ==> DevicesOf(dbs[m], u) != {}
  {
    RunMovesPrimary(net, dbs, ops, u);
    PrimaryWhile(dbs, ops, i, j, u);
  }

  /** The one elected stays the primary until it is removed or another is elected; a first device is elected only where
      there is no primary. */
  lemma ElectedStays(net: A.Net, dbs: seq<Db>, ops: seq<Op>, i: nat, j: nat, u: User, pk: PubKey)
    requires A.WellFormed(net) && Run(net, dbs, ops) && Inv(net, dbs[0]) && i < j < |dbs| && Elects(ops[i], u)
    requires pk == if ops[i].EnsurePrimary? && u in dbs[i].primary then dbs[i].primary[u] else ops[i].pk
    requires forall m :: i < m < j ==> !Elects(ops[m], u) && ops[m] != Remove(u, pk)
    ensures u in dbs[j].primary && dbs[j].primary[u] == pk
  {
    RunMovesPrimary(net, dbs, ops, u);
    ElectedWhile(dbs, ops, i, j, u, pk);
  }

  /** Registering services leaves every other device's labels as they were, and makes this device's exactly
      the labels accepted of those requested. */
  lemma ServicesTakeNothing(net: A.Net, db: Db, user: User, pk: PubKey, ls: seq<string>, db': Db, k: ServiceKey)
    requires A.WellFormed(net) && Step(net, db, SetServices(user, pk, ls), db')
    ensures k in db.services && (db.services[k] != pk || k.user != user) ==>
      k in db'.services && db'.services[k] == db.services[k]
    ensures k in db'.services && db'.services[k] == pk && k.user == user <==>
      k.user == user && k.name in Accepted(db, user, pk, ls)
  {
    AcceptedExactly(db, user, pk, ls);
    if k in db.services && db.services[k] != pk && k.user == user {
      assert k.name in HeldElsewhere(db, user, pk);
    }
  }

  // ---- Names stay short ----

  ghost predicate NamesShort(db: Db) {
    forall pk :: pk in db.devices ==> |db.devices[pk].name| <= N.MAX_LABEL_LEN
  }

  /** The operation seeds no name longer than a DNS label, as no sanitised one is. */
  predicate ShortSeed(op: Op) {
    (op.Allocate? || op.Rename?) ==> |op.desired| <= N.MAX_LABEL_LEN
  }

  function Named(db: Db, pks: set<PubKey>): set<string> {
    set pk | pk in pks && pk in db.devices :: db.devices[pk].name
  }

  lemma {:induction false} NamedIsSmall(db: Db, pks: set<PubKey>)
    ensures |Named(db, pks)| <= |pks|
  {
    if pks != {} {
      var pk :| pk in pks;
      var rest := pks - {pk};
      NamedIsSmall(db, rest);
      var one := if pk in db.devices then {db.devices[pk].name} else {};
      assert Named(db, pks) == Named(db, rest) + one;
    } else {
      assert Named(db, pks) == {};
    }
  }

  lemma NamesAreFew(db: Db, user: User, except: Option<PubKey>)
    requires FleetsBounded(db)
    ensures |NamesOf(db, user, except)| <= MAX_DEVICES_PER_USER
  {
    var mine := DevicesOf(db, user);
    NamedIsSmall(db, mine);
    assert NamesOf(db, user, except) <= Named(db, mine);
    SubsetSize(NamesOf(db, user, except), Named(db, mine));
  }

  lemma ChosenIsShort(taken: set<string>, desired: string, name: string)
    requires FirstFreeName(taken, desired, name) && |taken| <= MAX_DEVICES_PER_USER && |desired| <= N.MAX_LABEL_LEN
    ensures |name| <= N.MAX_LABEL_LEN
  {
    var k: nat :| name == N.DeviceCandidate(desired, k) &&
      forall earlier: nat :: earlier < k ==> N.DeviceCandidate(desired, earlier) in taken;
    N.DigitsGrow(|taken| + 2, 34);
    assert |N.Decimal(34)| == 2 by { assert N.Decimal(34) == N.Decimal(3) + [N.Digit(4)]; }
    N.FirstFreeFits(taken, desired, k);
  }

  lemma StepKeepsNamesShort(net: A.Net, db: Db, op: Op, db': Db)
    requires A.WellFormed(net) && FleetsBounded(db) && NamesShort(db) && ShortSeed(op) && Step(net, db, op, db')
    ensures NamesShort(db')
  {
    if op.Allocate? && db' != db {
      NamesAreFew(db, op.user, None);
      ChosenIsShort(NamesOf(db, op.user, None), op.desired, db'.devices[op.pk].name);
    } else if op.Rename? && op.pk in db.devices {
      NamesAreFew(db, op.user, Some(op.pk));
      ChosenIsShort(NamesOf(db, op.user, Some(op.pk)), op.desired, db'.devices[op.pk].name);
    }
  }

  // ---- Labels against device names ----

  /** No registered label is a device name of its owner. */
  ghost predicate LabelsClear(db: Db) {
    forall k :: k in db.services ==> k.name !in NamesOf(db, k.user, None)
  }

  /** The name the operation will choose is one of its user's registered labels: asked of the state before. */
  ghost predicate TakesALabel(net: A.Net, db: Db, op: Op)
    requires A.WellFormed(net)
  {
    match op
    case Allocate(pk, u, desired, _) => pk !in db.devices && !Full(net, db, u) && ChoosesALabel(db, u, None, desired)
    case Rename(u, pk, desired) => pk in db.devices && ChoosesALabel(db, u, Some(pk), desired)
    case _ => false
  }

  ghost predicate ChoosesALabel(db: Db, u: User, except: Option<PubKey>, desired: string) {
    exists k :: k in db.services && k.user == u && FirstFreeName(NamesOf(db, u, except), desired, k.name)
  }

  /** The first free name is one name. */
  lemma FirstFreeIsOne(taken: set<string>, desired: string, a: string, b: string)
    requires FirstFreeName(taken, desired, a) && FirstFreeName(taken, desired, b)
    ensures a == b
  {
    var i: nat :| a == N.DeviceCandidate(desired, i) &&
      forall earlier: nat :: earlier < i ==> N.DeviceCandidate(desired, earlier) in taken;
    var j: nat :| b == N.DeviceCandidate(desired, j) &&
      forall earlier: nat :: earlier < j ==> N.DeviceCandidate(desired, earlier) in taken;
    assert i == j by {
      assert !(i < j) && !(j < i);
    }
  }

  /** The operation names a device as one of its owner's registered labels. */
  ghost predicate NamesALabel(db: Db, op: Op, db': Db) {
    && (op.Allocate? || op.Rename?) && db' != db && op.pk in db'.devices
    && ServiceKey(db'.devices[op.pk].user, db'.devices[op.pk].name) in db.services
  }

  lemma NamesWhatItTakes(net: A.Net, db: Db, op: Op, db': Db)
    requires A.WellFormed(net) && LabelsClear(db) && Authorised(db, op) && Step(net, db, op, db')
    ensures NamesALabel(db, op, db') <==> TakesALabel(net, db, op)
  {
    if (op.Allocate? && op.pk !in db.devices && !Full(net, db, op.user)) || (op.Rename? && op.pk in db.devices) {
      var taken := NamesOf(db, op.user, if op.Rename? then Some(op.pk) else None);
      var name := db'.devices[op.pk].name;
      assert db'.devices[op.pk].user == op.user && FirstFreeName(taken, op.desired, name);
      assert op.Rename? ==> db.devices[op.pk].name in NamesOf(db, op.user, None);
      if TakesALabel(net, db, op) {
        var k :| k in db.services && k.user == op.user && FirstFreeName(taken, op.desired, k.name);
        FirstFreeIsOne(taken, op.desired, k.name, name);
        assert k == ServiceKey(op.user, name);
      }
    }
  }

  /** `set_device_services` refuses a label that is a device name; nothing refuses the converse. A step keeps labels
      and names apart exactly unless the first name free for its device is a label already registered. */
  lemma LabelsClearExactly(net: A.Net, db: Db, op: Op, db': Db)
    requires A.WellFormed(net) && LabelsClear(db) && Authorised(db, op) && Step(net, db, op, db')
    ensures LabelsClear(db') <==> !TakesALabel(net, db, op)
  {
    NamesWhatItTakes(net, db, op, db');
    if NamesALabel(db, op, db') {
      var row := db'.devices[op.pk];
      var k := ServiceKey(row.user, row.name);
      assert k in db'.services && k.name in NamesOf(db', k.user, None);
    } else {
      forall k | k in db'.services ensures k.name !in NamesOf(db', k.user, None) {
        LabelStaysClear(net, db, op, db', k);
      }
    }
  }

  lemma LabelStaysClear(net: A.Net, db: Db, op: Op, db': Db, k: ServiceKey)
    requires A.WellFormed(net) && LabelsClear(db) && Authorised(db, op) && Step(net, db, op, db')
    requires !NamesALabel(db, op, db') && k in db'.services
    ensures k.name !in NamesOf(db', k.user, None)
  {
    if op.SetServices? {
      RegisteredStaysClear(db, op.user, op.pk, op.labels, k);
      assert NamesOf(db', k.user, None) == NamesOf(db, k.user, None);
    } else {
      assert k in db.services && k.name !in NamesOf(db, k.user, None);
      forall pk | pk in db'.devices && db'.devices[pk].user == k.user ensures db'.devices[pk].name != k.name {
        if pk in db.devices && db.devices[pk].user == k.user && db.devices[pk].name == db'.devices[pk].name {
          assert db.devices[pk].name in NamesOf(db, k.user, None);
        }
      }
    }
  }

  lemma RegisteredStaysClear(db: Db, user: User, pk: PubKey, ls: seq<string>, k: ServiceKey)
    requires LabelsClear(db) && k in Registered(db, user, pk, Accepted(db, user, pk, ls))
    ensures k.name !in NamesOf(db, k.user, None)
  {
    AcceptedExactly(db, user, pk, ls);
    if k !in db.services {
      assert Claimable(db, user, pk, k.name);
    }
  }

  const NOTHING := Db(map[], map[], map[])
  const PC := Row(1, 7, "pc", None, false)
  const ENROLLED := Db(map[1 := PC], map[], map[])
  const SERVING := Db(map[1 := PC], map[], map[ServiceKey(7, "wiki") := 1])
  const RENAMED := Db(map[1 := PC.(name := "wiki")], map[], map[ServiceKey(7, "wiki") := 1])

  lemma EnrolsPc(net: A.Net)
    requires net == A.Net(0, 30)
    ensures Step(net, NOTHING, Allocate(1, 7, "pc", 0), ENROLLED)
  {
    assert A.Pow2(2) == 4;
    assert A.Allocatable(net) == 2 && A.DeviceHint(net, 0) == 1;
    assert A.Probe(A.Clamp(1, 2), 2, 0) == 1;
    assert TakenIndices(NOTHING) == {} && NamesOf(NOTHING, 7, None) == {} && DevicesOf(NOTHING, 7) == {};
    assert 1 !in TakenIndices(NOTHING);
    assert A.FirstFreeIndex(net, {}, 1, 1);
    assert N.DeviceCandidate("pc", 0) == "pc";
    assert FirstFreeName({}, "pc", "pc");
  }

  lemma OneAccepted(db: Db, user: User, pk: PubKey, l: string)
    requires Judge(db, user, pk, l, 0).None?
    ensures Accepted(db, user, pk, [l]) == [l]
  {
    assert [l][..0] == [];
    assert Accepted(db, user, pk, [l][..0]) == [];
    assert Accepted(db, user, pk, [l]) == [] + [l];
  }

  lemma WikiIsClaimable()
    ensures Judge(ENROLLED, 7, 1, "wiki", 0).None?
  {
    var l := "wiki";
    assert l[0] == 'w' && l[1] == 'i' && l[2] == 'k' && l[3] == 'i' && |l| == 4 && |"pc"| == 2;
    assert ValidLabel(l);
    assert forall n :: n in NamesOf(ENROLLED, 7, None) ==> n == "pc";
  }

  lemma ServesWiki(net: A.Net)
    requires A.WellFormed(net)
    ensures Step(net, ENROLLED, SetServices(7, 1, ["wiki"]), SERVING)
  {
    WikiIsClaimable();
    OneAccepted(ENROLLED, 7, 1, "wiki");
    OneRegistered(ENROLLED, 7, 1, "wiki");
  }

  lemma OneRegistered(db: Db, user: User, pk: PubKey, l: string)
    requires db.services == map[]
    ensures Registered(db, user, pk, [l]) == map[ServiceKey(user, l) := pk]
  {
    assert l in [l];
  }

  lemma RenamesToWiki(net: A.Net)
    requires A.WellFormed(net)
    ensures Step(net, SERVING, Rename(7, 1, "wiki"), RENAMED)
  {
    assert NamesOf(SERVING, 7, Some(1)) == {};
    assert N.DeviceCandidate("wiki", 0) == "wiki";
    assert FirstFreeName({}, "wiki", "wiki");
    assert SERVING.devices[1 := PC.(name := "wiki")] == RENAMED.devices;
  }

  /** A run from the empty store after which a device is called what it serves. */
  lemma LabelTakenByRename(net: A.Net)
    requires net == A.Net(0, 30)
    ensures
      var ops := [Allocate(1, 7, "pc", 0), SetServices(7, 1, ["wiki"]), Rename(7, 1, "wiki")];
      && Run(net, [NOTHING, ENROLLED, SERVING, RENAMED], ops)
      && LabelsClear(SERVING) && !LabelsClear(RENAMED)
  {
    EnrolsPc(net);
    ServesWiki(net);
    RenamesToWiki(net);
    ServedThenTaken();
  }

  lemma ServedThenTaken()
    ensures LabelsClear(SERVING) && !LabelsClear(RENAMED)
  {
    assert |"pc"| == 2 && |"wiki"| == 4;
    var k := ServiceKey(7, "wiki");
    assert k in RENAMED.services && RENAMED.devices[1].name in NamesOf(RENAMED, 7, None);
  }

  // ---- The store ----

  datatype StoreError = StaleIndex | DeviceLimit | Exhausted

  class Store {
    const net: A.Net
    var devices: map<PubKey, Row>
    var primary: map<User, PubKey>
    var services: map<ServiceKey, PubKey>

    ghost function View(): Db
      reads this
    {
      Db(devices, primary, services)
    }

    constructor (net: A.Net)
      requires A.WellFormed(net)
      ensures this.net == net && View() == Db(map[], map[], map[])
    {
      this.net := net;
      devices, primary, services := map[], map[], map[];
    }

    /** A known device gets its stored address and name back; a new one gets the first free index from
        its hint and the first free name, unless its owner is at the cap or the network is full. */
    method AllocateDevice(pk: PubKey, digest: nat, user: User, desired: string)
      returns (r: Result<(A.Ip, string), StoreError>)
      requires A.WellFormed(net)
      modifies this
      ensures Step(net, old(View()), Allocate(pk, user, desired, digest), View())
      ensures r.Ok? ==> pk in devices && A.IndexIsValid(net, devices[pk].idx)
      ensures r.Ok? ==> r.value == (A.AddrFromIndex(net, devices[pk].idx), devices[pk].name)
      ensures r == Err(StaleIndex) <==> pk in old(devices) && !A.IndexIsValid(net, old(devices)[pk].idx)
      ensures r == Err(DeviceLimit) <==>
        pk !in old(devices) && |DevicesOf(old(View()), user)| >= MAX_DEVICES_PER_USER
      ensures r == Err(Exhausted) <==>
        pk !in old(devices) && |DevicesOf(old(View()), user)| < MAX_DEVICES_PER_USER && Full(net, old(View()), user)
    {
      if pk in devices {
        var idx := devices[pk].idx;
        if !A.IndexIsValid(net, idx) {
          return Err(StaleIndex);
        }
        return Ok((A.AddrFromIndex(net, idx), devices[pk].name));
      }
      ghost var db := View();
      var owned := set q | q in devices && devices[q].user == user;
      assert owned == DevicesOf(db, user);
      if |owned| >= MAX_DEVICES_PER_USER {
        return Err(DeviceLimit);
      }
      var taken := set q | q in devices :: devices[q].idx;
      assert taken == TakenIndices(db);
      var free := A.PickFreeIndex(net, taken, A.DeviceHint(net, digest));
      if free.None? {
        return Err(Exhausted);
      }
      var names := set q | q in devices && devices[q].user == user :: devices[q].name;
      assert names == NamesOf(db, user, None);
      var name := N.UniqueDeviceName(names, desired);
      devices := devices[pk := Row(free.value, user, name, None, false)];
      r := Ok((A.AddrFromIndex(net, free.value), name));
    }

    method RenameDevice(user: User, pk: PubKey, desired: string) returns (name: string)
      requires A.WellFormed(net)
      modifies this
      ensures Step(net, old(View()), Rename(user, pk, desired), View())
      ensures pk in devices ==> devices[pk].name == name
    {
      ghost var db := View();
      var names := set q | q in devices && devices[q].user == user && q != pk :: devices[q].name;
      assert names == NamesOf(db, user, Some(pk));
      name := N.UniqueDeviceName(names, desired);
      if pk in devices {
        devices := devices[pk := devices[pk].(name := name)];
      }
    }

    method RemoveDevice(user: User, pk: PubKey)
      requires A.WellFormed(net)
      modifies this
      ensures Step(net, old(View()), Remove(user, pk), View())
    {
      if pk in devices && devices[pk].user == user {
        devices := devices - {pk};
      }
      services := map k | k in services && services[k] != pk :: services[k];
      if user in primary && primary[user] == pk {
        var left := set q | q in devices && devices[q].user == user;
        assert left == DevicesOf(View(), user);
        if left != {} {
          var heir :| heir in left;
          primary := primary[user := heir];
        } else {
          primary := primary - {user};
        }
      }
    }

    method EnsurePrimary(user: User, pk: PubKey)
      requires A.WellFormed(net)
      modifies this
      ensures Step(net, old(View()), Op.EnsurePrimary(user, pk), View())
    {
      if user !in primary {
        primary := primary[user := pk];
      }
    }

    method SetPrimary(user: User, pk: PubKey)
      requires A.WellFormed(net)
      modifies this
      ensures Step(net, old(View()), Op.SetPrimary(user, pk), View())
    {
      primary := primary[user := pk];
    }

    method TouchDevice(pk: PubKey, personal: bool, now: Time)
      requires A.WellFormed(net)
      modifies this
      ensures Step(net, old(View()), Touch(pk, personal, now), View())
    {
      if pk in devices {
        devices := devices[pk := devices[pk].(lastSeen := Some(now), personal := personal)];
      }
    }

    method JudgeLabels(user: User, pk: PubKey, ls: seq<string>)
      returns (registered: seq<string>, refused: seq<(string, Refusal)>)
      ensures registered == Accepted(View(), user, pk, ls) && refused == RefusedOf(View(), user, pk, ls)
    {
      var deviceNames := set q | q in devices && devices[q].user == user :: devices[q].name;
      var heldElsewhere := set k | k in services && k.user == user && services[k] != pk :: k.name;
      assert deviceNames == NamesOf(View(), user, None) && heldElsewhere == HeldElsewhere(View(), user, pk);
      registered, refused := [], [];
      for i := 0 to |ls|
        invariant registered == Accepted(View(), user, pk, ls[..i])
        invariant refused == RefusedOf(View(), user, pk, ls[..i])
      {
        assert ls[..i + 1][..i] == ls[..i];
        var reason := if !ValidLabel(ls[i]) then Some(Unusable)
          else if ls[i] in deviceNames then Some(DeviceNameWins)
          else if ls[i] in heldElsewhere then Some(ServedElsewhere)
          else if |registered| >= MAX_WEB_SERVICES_PER_DEVICE then Some(TooMany)
          else None;
        match reason {
          case Some(why) => refused := refused + [(ls[i], why)];
          case None => registered := registered + [ls[i]];
        }
      }
      assert ls[..|ls|] == ls;
    }

    method PlaceLabels(user: User, pk: PubKey, ls: seq<string>)
      modifies this`services
      ensures services == old(services) + map l | l in ls :: ServiceKey(user, l) := pk
    {
      ghost var base := services;
      for i := 0 to |ls|
        invariant services == Placed(base, user, pk, ls[..i])
      {
        assert ls[..i + 1][..i] == ls[..i];
        services := services[ServiceKey(user, ls[i]) := pk];
      }
      assert ls[..|ls|] == ls;
      PlacedIs(base, user, pk, ls);
    }

    /** Replaces whatever this device had registered by the labels that pass. */
    method SetDeviceServices(user: User, pk: PubKey, ls: seq<string>)
      returns (registered: seq<string>, refused: seq<(string, Refusal)>)
      requires A.WellFormed(net)
      modifies this
      ensures registered == Accepted(old(View()), user, pk, ls) && refused == RefusedOf(old(View()), user, pk, ls)
      ensures Step(net, old(View()), SetServices(user, pk, ls), View())
    {
      registered, refused := JudgeLabels(user, pk, ls);
      services := map k | k in services && !(k.user == user && services[k] == pk) :: services[k];
      PlaceLabels(user, pk, registered);
    }
  }

  predicate Idle(row: Row, cutoff: Time) {
    row.personal && row.lastSeen.Some? && row.lastSeen.value < cutoff
  }

  function IdleDevices(devices: map<PubKey, Row>, cutoff: Time): set<PubKey> {
    set pk | pk in devices && Idle(devices[pk], cutoff)
  }

  // ---- Idle personal devices ----

  /** The last touch of a device since it was enrolled, if any. */
  ghost function LastTouch(dbs: seq<Db>, ops: seq<Op>, j: nat, pk: PubKey): Option<Op>
    requires |dbs| == |ops| + 1 && j < |dbs|
  {
    if j == 0 || pk !in dbs[j - 1].devices then None
    else if ops[j - 1].Touch? && ops[j - 1].pk == pk then Some(ops[j - 1])
    else LastTouch(dbs, ops, j - 1, pk)
  }

  lemma {:induction false} StampsFollowTouches(net: A.Net, dbs: seq<Db>, ops: seq<Op>, j: nat, pk: PubKey)
    requires A.WellFormed(net) && Run(net, dbs, ops) && dbs[0].devices == map[]
    requires j < |dbs| && pk in dbs[j].devices
    ensures
      var (row, last) := (dbs[j].devices[pk], LastTouch(dbs, ops, j, pk));
      match last
      case None => row.lastSeen == None && !row.personal
      case Some(op) => op.Touch? && row.lastSeen == Some(op.now) && row.personal == op.personal
  {
    if j > 0 {
      assert Step(net, dbs[j - 1], ops[j - 1], dbs[j]);
      if pk in dbs[j - 1].devices {
        StampsFollowTouches(net, dbs, ops, j - 1, pk);
      }
    }
  }

  /** A reclaim frees a device exactly if its last touch since its enrolment was a personal one before the cutoff: a
      device never touched stays, however old. */
  lemma IdleExactly(net: A.Net, dbs: seq<Db>, ops: seq<Op>, j: nat, pk: PubKey, cutoff: Time)
    requires A.WellFormed(net) && Run(net, dbs, ops) && dbs[0].devices == map[]
    requires j < |dbs| && pk in dbs[j].devices
    ensures
      var last := LastTouch(dbs, ops, j, pk);
      pk in IdleDevices(dbs[j].devices, cutoff) <==>
        last.Some? && last.value.Touch? && last.value.personal && last.value.now < cutoff
  {
    StampsFollowTouches(net, dbs, ops, j, pk);
  }

  /** The tables after some devices were removed soundly. */
  ghost predicate Without(net: A.Net, db: Db, gone: set<PubKey>, db': Db)
    requires A.WellFormed(net)
  {
    && Inv(net, db') && db'.devices == db.devices - gone
    && db'.services == (map k | k in db.services && db.services[k] !in gone :: db.services[k])
    && forall u :: PrimaryFollows(db, gone, db', u)
  }

  /** A primary that stays keeps its place; one that goes is replaced by another device of its owner, if any. */
  ghost predicate PrimaryFollows(db: Db, gone: set<PubKey>, db': Db, u: User) {
    && (u in db'.primary <==> u in db.primary && DevicesOf(db', u) != {})
    && (u in db.primary && db.primary[u] !in gone ==> u in db'.primary && db'.primary[u] == db.primary[u])
  }

  lemma OneMoreWithout(net: A.Net, db: Db, gone: set<PubKey>, mid: Db, user: User, pk: PubKey, db': Db)
    requires A.WellFormed(net) && Without(net, db, gone, mid)
    requires Owns(mid, user, pk) && Step(net, mid, Remove(user, pk), db')
    ensures Without(net, db, gone + {pk}, db')
  {
    StepKeepsInv(net, mid, Remove(user, pk), db');
    forall u ensures PrimaryFollows(db, gone + {pk}, db', u) {
      PrimaryFollowsOn(net, db, gone, mid, user, pk, db', u);
    }
    assert forall k :: k in mid.services <==> k in db.services && db.services[k] !in gone;
  }

  lemma PrimaryFollowsOn(net: A.Net, db: Db, gone: set<PubKey>, mid: Db, user: User, pk: PubKey, db': Db, u: User)
    requires A.WellFormed(net) && PointersSound(mid) && PrimaryFollows(db, gone, mid, u)
    requires Owns(mid, user, pk) && Step(net, mid, Remove(user, pk), db')
    ensures PrimaryFollows(db, gone + {pk}, db', u)
  {
    assert DevicesOf(db', u) == DevicesOf(mid, u) - {pk};
    if u != user {
      assert pk !in DevicesOf(mid, u);
      assert DevicesOf(db', u) == DevicesOf(mid, u);
    } else {
      assert pk in DevicesOf(mid, u);
      if u in mid.primary {
        assert Owns(mid, u, mid.primary[u]);
        assert mid.primary[u] in DevicesOf(mid, u);
        if mid.primary[u] != pk {
          assert mid.primary[u] in DevicesOf(db', u);
        }
      }
    }
  }

  lemma NothingGone(net: A.Net, db: Db)
    requires A.WellFormed(net) && Inv(net, db)
    ensures Without(net, db, {}, db)
  {
    assert db.devices - {} == db.devices;
    assert (map k | k in db.services && db.services[k] !in {} :: db.services[k]) == db.services;
    forall u ensures PrimaryFollows(db, {}, db, u) {
      if u in db.primary {
        assert Owns(db, u, db.primary[u]);
        assert db.primary[u] in DevicesOf(db, u);
      }
    }
  }

  method FreeOne(store: Store, pk: PubKey, ghost before: Db, ghost gone: set<PubKey>)
    requires A.WellFormed(store.net) && Without(store.net, before, gone, store.View())
    requires pk in before.devices && pk !in gone
    modifies store
    ensures Without(store.net, before, gone + {pk}, store.View())
  {
    ghost var mid := store.View();
    assert pk in before.devices - gone;
    var user := store.devices[pk].user;
    store.RemoveDevice(user, pk);
    OneMoreWithout(store.net, before, gone, mid, user, pk, store.View());
  }

  method FreeAll(store: Store, idle: set<PubKey>, ghost before: Db)
    requires A.WellFormed(store.net) && Without(store.net, before, {}, store.View())
    requires idle <= before.devices.Keys
    modifies store
    ensures Without(store.net, before, idle, store.View())
  {
    var rows := idle;
    ghost var done: set<PubKey> := {};
    while rows != {}
      invariant done !! rows && done + rows == idle
      invariant Without(store.net, before, done, store.View())
      decreases rows
    {
      var pk :| pk in rows;
      FreeOne(store, pk, before, done);
      rows, done := rows - {pk}, done + {pk};
    }
    assert done == idle;
  }

  /** Frees exactly the personal devices last seen before `cutoff`; every primary and label left behind
      points at a device that is still there. */
  method ReclaimIdlePersonalDevices(store: Store, cutoff: Time) returns (freed: nat)
    requires A.WellFormed(store.net) && Inv(store.net, store.View())
    modifies store
    ensures Without(store.net, old(store.View()), IdleDevices(old(store.devices), cutoff), store.View())
    ensures forall pk :: pk in old(store.devices) ==>
      (pk !in store.devices <==>
        var row := old(store.devices)[pk];
        row.personal && row.lastSeen.Some? && row.lastSeen.value < cutoff)
    ensures freed == |IdleDevices(old(store.devices), cutoff)|
  {
    ghost var before := store.View();
    var rows := set pk | pk in store.devices && Idle(store.devices[pk], cutoff);
    assert rows == IdleDevices(before.devices, cutoff);
    NothingGone(store.net, before);
    FreeAll(store, rows, before);
    freed := |rows|;
  }
}
