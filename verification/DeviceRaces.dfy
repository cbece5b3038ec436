/**
 Enrolments and renames that overlap (crates/coordinator/src/store.rs). Each of them reads the device table in
 several statements before it writes one row, and statements of other requests run in between. The schema keeps
 keys and indices unique; nothing in it keeps an owner's names apart or an owner's devices within the cap. The steps
 here are single statements; the store's other operations run whole.
 */
module DeviceRaces {
  import opened Prelude
  import A = Addressing
  import D = DeviceStore
  import N = Names

  type User = D.User
  type Caller = nat

  /** A request between two of its statements. */
  datatype Task =
    | Asked(pk: PubKey, user: User, desired: string, digest: nat)     // the key has no row
    | Counted(pk: PubKey, user: User, desired: string, digest: nat)   // its owner is below the cap
    | Placed(pk: PubKey, user: User, desired: string, idx: nat)       // an index is chosen
    | Inserting(pk: PubKey, user: User, idx: nat, name: string)       // and a name
    | Updating(pk: PubKey, user: User, name: string)                  // a rename with its name chosen
    | Over

  datatype State = State(db: D.Db, tasks: map<Caller, Task>)

  datatype Step =
    | Ask(c: Caller, pk: PubKey, user: User, desired: string, digest: nat)
    | Count(c: Caller)
    | Place(c: Caller, idx: nat)
    | Choose(c: Caller, name: string)
    | Insert(c: Caller)
    | ChooseNew(c: Caller, pk: PubKey, user: User, desired: string, name: string)
    | Update(c: Caller)
    | Quit(c: Caller)                // no index left, a failed statement, or a dropped request
    | Whole(op: D.Op, db: D.Db)      // another operation of the store, with its outcome

  const INIT := State(D.NOTHING, map[])

  predicate At(s: State, c: Caller) {
    c in s.tasks
  }

  ghost predicate Enabled(net: A.Net, s: State, t: Step)
    requires A.WellFormed(net)
  {
    match t
    case Ask(c, _, _, _, _) => c !in s.tasks
    case Count(c) => At(s, c) && s.tasks[c].Asked?
    case Place(c, idx) => At(s, c) && s.tasks[c].Counted? &&
      A.FirstFreeIndex(net, D.TakenIndices(s.db), A.DeviceHint(net, s.tasks[c].digest), idx)
    case Choose(c, name) => At(s, c) && s.tasks[c].Placed? &&
      D.FirstFreeName(D.NamesOf(s.db, s.tasks[c].user, None), s.tasks[c].desired, name)
    case Insert(c) => At(s, c) && s.tasks[c].Inserting?
    case ChooseNew(c, pk, u, desired, name) => c !in s.tasks && D.Authorised(s.db, D.Rename(u, pk, desired)) &&
      D.FirstFreeName(D.NamesOf(s.db, u, Some(pk)), desired, name)
    case Update(c) => At(s, c) && s.tasks[c].Updating?
    case Quit(c) => At(s, c)
    case Whole(op, db) => !op.Allocate? && !op.Rename? && D.Authorised(s.db, op) && D.Step(net, s.db, op, db)
  }

  /** The two UNIQUE constraints let the row in. */
  predicate Accepts(db: D.Db, w: Task)
    requires w.Inserting?
  {
    w.pk !in db.devices && w.idx !in D.TakenIndices(db)
  }

  function Move(s: State, c: Caller, task: Task): State {
    s.(tasks := s.tasks[c := task])
  }

  function Put(s: State, pk: PubKey, row: D.Row): State {
    s.(db := s.db.(devices := s.db.devices[pk := row]))
  }

  ghost function Next(net: A.Net, s: State, t: Step): State
    requires A.WellFormed(net) && Enabled(net, s, t)
  {
    match t
    case Ask(c, pk, user, desired, digest) =>
      Move(s, c, if pk in s.db.devices then Over else Asked(pk, user, desired, digest))
    case Count(c) =>
      var w := s.tasks[c];
      Move(s, c, if |D.DevicesOf(s.db, w.user)| >= D.MAX_DEVICES_PER_USER then Over
                 else Counted(w.pk, w.user, w.desired, w.digest))
    case Place(c, idx) =>
      Move(s, c, Placed(s.tasks[c].pk, s.tasks[c].user, s.tasks[c].desired, idx))
    case Choose(c, name) =>
      Move(s, c, Inserting(s.tasks[c].pk, s.tasks[c].user, s.tasks[c].idx, name))
    case Insert(c) =>
      var w := s.tasks[c];
      Move(if Accepts(s.db, w) then Put(s, w.pk, D.Row(w.idx, w.user, w.name, None, false)) else s, c, Over)
    case ChooseNew(c, pk, u, _, name) =>
      Move(s, c, Updating(pk, u, name))
    case Update(c) =>
      var w := s.tasks[c];
      Move(if w.pk in s.db.devices then Put(s, w.pk, s.db.devices[w.pk].(name := w.name)) else s, c, Over)
    case Quit(c) => Move(s, c, Over)
    case Whole(_, db) => s.(db := db)
  }

  /** `ss` are the states before, between and after the steps `ts`. */
  ghost predicate Run(net: A.Net, ss: seq<State>, ts: seq<Step>)
    requires A.WellFormed(net)
  {
    && |ss| == |ts| + 1
    && forall i :: 0 <= i < |ts| ==> Enabled(net, ss[i], ts[i]) && ss[i + 1] == Next(net, ss[i], ts[i])
  }

  /** The step changes a row: an insert that is let in, or an update of a key that has one. */
  predicate Writes(s: State, t: Step) {
    || (t.Insert? && At(s, t.c) && s.tasks[t.c].Inserting? && Accepts(s.db, s.tasks[t.c]))
    || (t.Update? && At(s, t.c) && s.tasks[t.c].Updating? && s.tasks[t.c].pk in s.db.devices)
  }

  /** Whose device it writes. */
  function Owner(s: State, t: Step): User
    requires Writes(s, t)
  {
    if t.Insert? then s.tasks[t.c].user else s.db.devices[s.tasks[t.c].pk].user
  }

  /** Every device of `after` is one of `before`, with its index, owner and name. */
  ghost predicate Shrinks(before: D.Db, after: D.Db) {
    forall pk :: pk in after.devices ==>
      && pk in before.devices && after.devices[pk].idx == before.devices[pk].idx
      && after.devices[pk].user == before.devices[pk].user && after.devices[pk].name == before.devices[pk].name
  }

  lemma WithoutWriteShrinks(net: A.Net, s: State, t: Step)
    requires A.WellFormed(net) && Enabled(net, s, t) && !Writes(s, t)
    ensures Shrinks(s.db, Next(net, s, t).db)
  {
  }

  // ---- A request that runs alone ----

  predicate Of(t: Step, c: Caller) {
    !t.Whole? && t.c == c
  }

  /** The request can do nothing but give up. */
  ghost predicate Stuck(net: A.Net, s: State, c: Caller)
    requires A.WellFormed(net)
  {
    forall t :: Of(t, c) && !t.Quit? ==> !Enabled(net, s, t)
  }

  /** All steps are of one request, which ends in state `u` and gives up only where it is stuck. */
  ghost predicate ByItself(net: A.Net, s: State, ts: seq<Step>, c: Caller, u: State)
    requires A.WellFormed(net)
    decreases |ts|
  {
    if |ts| == 0 then u == s && c in s.tasks && s.tasks[c].Over?
    else
      && !(c in s.tasks && s.tasks[c].Over?)
      && Of(ts[0], c) && Enabled(net, s, ts[0]) && (ts[0].Quit? ==> Stuck(net, s, c))
      && ByItself(net, Next(net, s, ts[0]), ts[1..], c, u)
  }

  lemma FirstFreeIndexExists(net: A.Net, taken: set<nat>, hint: nat, i: nat)
    requires A.WellFormed(net) && A.Free(net, taken, i)
    ensures exists index :: A.FirstFreeIndex(net, taken, hint, index)
  {
    var last := A.Allocatable(net);
    var start := A.Clamp(hint, last);
    var end, step := A.StepTo(start, last, i), 0;
    while A.Probe(start, last, step) in taken
      invariant step <= end
      invariant forall earlier: nat :: earlier < step ==> A.Probe(start, last, earlier) in taken
      decreases end - step
    {
      step := step + 1;
    }
    assert A.FirstFreeIndex(net, taken, hint, A.Probe(start, last, step));
  }

  lemma {:induction false} FirstFreeUpTo(taken: set<string>, desired: string, n: nat)
    requires N.DeviceCandidate(desired, n) !in taken
    ensures exists name :: D.FirstFreeName(taken, desired, name)
    decreases n
  {
    if earlier: nat :| earlier < n && N.DeviceCandidate(desired, earlier) !in taken {
      FirstFreeUpTo(taken, desired, earlier);
    } else {
      assert D.FirstFreeName(taken, desired, N.DeviceCandidate(desired, n));
    }
  }

  lemma FirstFreeNameExists(taken: set<string>, desired: string)
    ensures exists name :: D.FirstFreeName(taken, desired, name)
  {
    N.FreeSuffixExists(taken, desired);
    var n :| 2 <= n <= |taken| + 2 && N.Suffixed(desired, n) !in taken;
    assert N.DeviceCandidate(desired, n - 1) == N.Suffixed(desired, n);
    FirstFreeUpTo(taken, desired, n - 1);
  }

  lemma InsertsAlone(net: A.Net, s: State, ts: seq<Step>, c: Caller, u: State)
    requires A.WellFormed(net) && At(s, c) && s.tasks[c].Inserting?
    ensures ByItself(net, s, ts, c, u) <==> ts == [Insert(c)] && u == Next(net, s, Insert(c))
  {
    assert Of(Insert(c), c) && Enabled(net, s, Insert(c));
    if |ts| > 0 && ts[0] == Insert(c) {
      assert ts == [Insert(c)] + ts[1..];
    }
  }

  lemma ChoosesAlone(net: A.Net, s: State, ts: seq<Step>, c: Caller, u: State)
    requires A.WellFormed(net) && At(s, c) && s.tasks[c].Placed? && ByItself(net, s, ts, c, u)
    ensures ts != [] && ts[0].Choose? && u == Next(net, Next(net, s, ts[0]), Insert(c))
  {
    FirstFreeNameExists(D.NamesOf(s.db, s.tasks[c].user, None), s.tasks[c].desired);
    var name :| D.FirstFreeName(D.NamesOf(s.db, s.tasks[c].user, None), s.tasks[c].desired, name);
    assert Of(Choose(c, name), c) && Enabled(net, s, Choose(c, name));
    InsertsAlone(net, Next(net, s, ts[0]), ts[1..], c, u);
  }

  ghost predicate NoIndexLeft(net: A.Net, db: D.Db)
    requires A.WellFormed(net)
  {
    forall i :: 1 <= i <= A.Allocatable(net) ==> i in D.TakenIndices(db)
  }

  lemma PlacesAlone(net: A.Net, s: State, ts: seq<Step>, c: Caller, u: State)
    requires A.WellFormed(net) && At(s, c) && s.tasks[c].Counted? && ByItself(net, s, ts, c, u)
    requires s.tasks[c].pk !in s.db.devices
    ensures NoIndexLeft(net, s.db) ==> u.db == s.db
    ensures !NoIndexLeft(net, s.db) ==> Enrolls(net, s.db, s.tasks[c], u.db)
  {
    var taken, hint := D.TakenIndices(s.db), A.DeviceHint(net, s.tasks[c].digest);
    if NoIndexLeft(net, s.db) {
      assert ts[0].Quit?;
    } else {
      var i :| 1 <= i <= A.Allocatable(net) && i !in taken;
      FirstFreeIndexExists(net, taken, hint, i);
      var index :| A.FirstFreeIndex(net, taken, hint, index);
      assert Of(Place(c, index), c) && Enabled(net, s, Place(c, index));
      ChoosesAlone(net, Next(net, s, ts[0]), ts[1..], c, u);
    }
  }

  /** The table gains the row the request asks for: the first free index, the first free name. */
  ghost predicate Enrolls(net: A.Net, db: D.Db, w: Task, db': D.Db)
    requires A.WellFormed(net) && w.Counted?
  {
    && w.pk in db'.devices
    && var row := db'.devices[w.pk];
       && db' == db.(devices := db.devices[w.pk := row]) && row == D.Row(row.idx, w.user, row.name, None, false)
       && A.FirstFreeIndex(net, D.TakenIndices(db), A.DeviceHint(net, w.digest), row.idx)
       && D.FirstFreeName(D.NamesOf(db, w.user, None), w.desired, row.name)
  }

  lemma AloneEnrolls(net: A.Net, s: State, ts: seq<Step>, c: Caller, u: State, pk: PubKey, user: User, desired: string,
                     digest: nat)
    requires A.WellFormed(net) && c !in s.tasks
    requires ts != [] && ts[0] == Ask(c, pk, user, desired, digest) && ByItself(net, s, ts, c, u)
    ensures D.Step(net, s.db, D.Allocate(pk, user, desired, digest), u.db)
  {
    var asked, rest := Next(net, s, ts[0]), ts[1..];
    assert ByItself(net, asked, rest, c, u);
    if pk in s.db.devices {
      assert rest == [];
    } else {
      assert Of(Count(c), c) && Enabled(net, asked, Count(c));
      assert rest != [] && rest[0] == Count(c);
      var counted := Next(net, asked, Count(c));
      assert ByItself(net, counted, rest[1..], c, u);
      if |D.DevicesOf(s.db, user)| >= D.MAX_DEVICES_PER_USER {
        assert counted.tasks[c].Over? && u == counted;
      } else {
        PlacesAlone(net, counted, rest[1..], c, u);
      }
    }
  }

  lemma EnrollsAlone(net: A.Net, s: State, c: Caller, pk: PubKey, user: User, desired: string, digest: nat, db': D.Db)
    returns (ts: seq<Step>, u: State)
    requires A.WellFormed(net) && c !in s.tasks && D.Step(net, s.db, D.Allocate(pk, user, desired, digest), db')
    ensures ts != [] && ts[0] == Ask(c, pk, user, desired, digest) && ByItself(net, s, ts, c, u) && u.db == db'
  {
    var asked := Next(net, s, Ask(c, pk, user, desired, digest));
    if pk in s.db.devices {
      return [Ask(c, pk, user, desired, digest)], asked;
    }
    var counted := Next(net, asked, Count(c));
    if |D.DevicesOf(s.db, user)| >= D.MAX_DEVICES_PER_USER {
      u := counted;
      assert ByItself(net, counted, [], c, u);
      ts := Prefixed(net, asked, Count(c), [], c, u);
    } else if NoIndexLeft(net, s.db) {
      u := Next(net, counted, Quit(c));
      assert ByItself(net, u, [], c, u);
      assert Stuck(net, counted, c);
      ts := Prefixed(net, counted, Quit(c), [], c, u);
      ts := Prefixed(net, asked, Count(c), ts, c, u);
    } else {
      var row := db'.devices[pk];
      var placed := Next(net, counted, Place(c, row.idx));
      var inserting := Next(net, placed, Choose(c, row.name));
      u := Next(net, inserting, Insert(c));
      InsertsAlone(net, inserting, [Insert(c)], c, u);
      ts := Prefixed(net, placed, Choose(c, row.name), [Insert(c)], c, u);
      ts := Prefixed(net, counted, Place(c, row.idx), ts, c, u);
      ts := Prefixed(net, asked, Count(c), ts, c, u);
    }
    ts := Prefixed(net, s, Ask(c, pk, user, desired, digest), ts, c, u);
  }

  lemma Prefixed(net: A.Net, s: State, t: Step, rest: seq<Step>, c: Caller, u: State) returns (ts: seq<Step>)
    requires A.WellFormed(net) && Of(t, c) && Enabled(net, s, t) && (t.Quit? ==> Stuck(net, s, c))
    requires !(c in s.tasks && s.tasks[c].Over?) && ByItself(net, Next(net, s, t), rest, c, u)
    ensures ts == [t] + rest && ByItself(net, s, ts, c, u)
  {
    ts := [t] + rest;
    assert ts[1..] == rest;
  }

  /** An enrolment whose statements nothing comes between is the store's whole operation: it can leave the tables
      exactly as that can. */
  lemma EnrolmentAloneExactly(net: A.Net, s: State, c: Caller, pk: PubKey, user: User, desired: string, digest: nat,
                              db': D.Db)
    requires A.WellFormed(net) && c !in s.tasks
    ensures D.Step(net, s.db, D.Allocate(pk, user, desired, digest), db') <==>
      exists ts, u ::
        ts != [] && ts[0] == Ask(c, pk, user, desired, digest) && ByItself(net, s, ts, c, u) && u.db == db'
  {
    if D.Step(net, s.db, D.Allocate(pk, user, desired, digest), db') {
      var ts, u := EnrollsAlone(net, s, c, pk, user, desired, digest, db');
    }
    if ts, u :| ts != [] && ts[0] == Ask(c, pk, user, desired, digest) && ByItself(net, s, ts, c, u) && u.db == db' {
      AloneEnrolls(net, s, ts, c, u, pk, user, desired, digest);
    }
  }

  lemma RenamesAlone(net: A.Net, s: State, c: Caller, pk: PubKey, user: User, desired: string, name: string)
    returns (u: State)
    requires A.WellFormed(net) && c !in s.tasks && D.Authorised(s.db, D.Rename(user, pk, desired))
    requires D.FirstFreeName(D.NamesOf(s.db, user, Some(pk)), desired, name)
    ensures ByItself(net, s, [ChooseNew(c, pk, user, desired, name), Update(c)], c, u)
    ensures u.db == if pk in s.db.devices then Put(s, pk, s.db.devices[pk].(name := name)).db else s.db
  {
    var chosen := Next(net, s, ChooseNew(c, pk, user, desired, name));
    u := Next(net, chosen, Update(c));
    assert ByItself(net, u, [], c, u);
    var ts := Prefixed(net, chosen, Update(c), [], c, u);
    ts := Prefixed(net, s, ChooseNew(c, pk, user, desired, name), ts, c, u);
    assert ts == [ChooseNew(c, pk, user, desired, name), Update(c)];
  }

  lemma AloneRenames(net: A.Net, s: State, c: Caller, pk: PubKey, user: User, desired: string, name: string, u: State)
    requires A.WellFormed(net) && c !in s.tasks
    requires ByItself(net, s, [ChooseNew(c, pk, user, desired, name), Update(c)], c, u)
    ensures D.FirstFreeName(D.NamesOf(s.db, user, Some(pk)), desired, name)
    ensures u.db == if pk in s.db.devices then Put(s, pk, s.db.devices[pk].(name := name)).db else s.db
  {
    var ts := [ChooseNew(c, pk, user, desired, name), Update(c)];
    assert ts[1..] == [Update(c)] && ts[1..][1..] == [];
    var chosen := Next(net, s, ts[0]);
    assert ByItself(net, chosen, [Update(c)], c, u);
    assert ByItself(net, Next(net, chosen, Update(c)), [Update(c)][1..], c, u);
  }

  /** And so is a rename. */
  lemma RenameAloneExactly(net: A.Net, s: State, c: Caller, pk: PubKey, user: User, desired: string, db': D.Db)
    requires A.WellFormed(net) && c !in s.tasks && D.Authorised(s.db, D.Rename(user, pk, desired))
    ensures D.Step(net, s.db, D.Rename(user, pk, desired), db') <==>
      exists name, u :: ByItself(net, s, [ChooseNew(c, pk, user, desired, name), Update(c)], c, u) && u.db == db'
  {
    if D.Step(net, s.db, D.Rename(user, pk, desired), db') {
      FirstFreeNameExists(D.NamesOf(s.db, user, Some(pk)), desired);
      var free :| D.FirstFreeName(D.NamesOf(s.db, user, Some(pk)), desired, free);
      var u := RenamesAlone(net, s, c, pk, user, desired, if pk in s.db.devices then db'.devices[pk].name else free);
      assert u.db == db';
    }
    if name, u :| ByItself(net, s, [ChooseNew(c, pk, user, desired, name), Update(c)], c, u) && u.db == db' {
      AloneRenames(net, s, c, pk, user, desired, name, u);
    }
  }

  // ---- Indices stay sound ----

  ghost predicate IndexInv(net: A.Net, s: State)
    requires A.WellFormed(net)
  {
    && D.IndicesSound(net, s.db.devices)
    && forall c :: c in s.tasks && (s.tasks[c].Placed? || s.tasks[c].Inserting?) ==> A.IndexIsValid(net, s.tasks[c].idx)
  }

  lemma NextKeepsIndices(net: A.Net, s: State, t: Step)
    requires A.WellFormed(net) && IndexInv(net, s) && Enabled(net, s, t)
    ensures IndexInv(net, Next(net, s, t))
  {
    var u := Next(net, s, t);
    if Writes(s, t) {
      var w := s.tasks[t.c];
      forall q | q in s.db.devices && q != w.pk && t.Insert? ensures s.db.devices[q].idx != w.idx {
        assert s.db.devices[q].idx in D.TakenIndices(s.db);
      }
    } else {
      WithoutWriteShrinks(net, s, t);
    }
  }

  /** However enrolments and renames overlap, addresses stay valid and distinct: the constraints see to it. */
  lemma {:induction false} IndicesStaySound(net: A.Net, ss: seq<State>, ts: seq<Step>, i: nat)
    requires A.WellFormed(net) && Run(net, ss, ts) && ss[0] == INIT && i < |ss|
    ensures IndexInv(net, ss[i])
  {
    if i > 0 {
      IndicesStaySound(net, ss, ts, i - 1);
      NextKeepsIndices(net, ss[i - 1], ts[i - 1]);
    }
  }

  // ---- What becomes of a request ----

  function Rank(w: Task): nat {
    match w
    case Asked(_, _, _, _) => 0
    case Counted(_, _, _, _) => 1
    case Placed(_, _, _, _) => 2
    case Inserting(_, _, _, _) => 3
    case Updating(_, _, _) => 3
    case Over => 4
  }

  predicate Onward(before: Task, after: Task) {
    || before == after
    || (Rank(before) < Rank(after) && (!after.Over? ==> after.pk == before.pk && after.user == before.user))
  }

  /** A request only moves on, and for the key and the user it came with. */
  lemma {:induction false} RequestMovesOn(net: A.Net, ss: seq<State>, ts: seq<Step>, i: nat, j: nat, c: Caller)
    requires A.WellFormed(net) && Run(net, ss, ts) && i <= j < |ss| && c in ss[i].tasks
    ensures c in ss[j].tasks && Onward(ss[i].tasks[c], ss[j].tasks[c])
    decreases j - i
  {
    if i < j {
      RequestMovesOn(net, ss, ts, i, j - 1, c);
      StepMovesOn(net, ss[j - 1], ts[j - 1], c);
    }
  }

  lemma StepMovesOn(net: A.Net, s: State, t: Step, c: Caller)
    requires A.WellFormed(net) && Enabled(net, s, t) && c in s.tasks
    ensures c in Next(net, s, t).tasks && Onward(s.tasks[c], Next(net, s, t).tasks[c])
  {
  }

  // ---- Names ----

  /** Another device of the owner has the name about to be written. */
  predicate NameTaken(s: State, t: Step)
    requires Writes(s, t)
  {
    s.tasks[t.c].name in D.NamesOf(s.db, Owner(s, t), Some(s.tasks[t.c].pk))
  }

  /** A step keeps each owner's names apart exactly unless it writes a name another device of the owner has by
      then: what a UNIQUE constraint would refuse. */
  lemma NamesSurviveExactly(net: A.Net, s: State, t: Step)
    requires A.WellFormed(net) && D.NamesDistinct(s.db.devices) && Enabled(net, s, t)
    ensures D.NamesDistinct(Next(net, s, t).db.devices) <==> !(Writes(s, t) && NameTaken(s, t))
  {
    var u := Next(net, s, t);
    if Writes(s, t) {
      var w := s.tasks[t.c];
      if NameTaken(s, t) {
        var q :| q in s.db.devices && s.db.devices[q].user == Owner(s, t) && q != w.pk &&
          s.db.devices[q].name == w.name;
        assert D.SameName(u.db.devices[q], u.db.devices[w.pk]);
      } else {
        WriteKeepsNames(s.db.devices, w.pk, u.db.devices[w.pk]);
      }
    } else {
      WithoutWriteShrinks(net, s, t);
      forall p, q | p in u.db.devices && q in u.db.devices && D.SameName(u.db.devices[p], u.db.devices[q])
        ensures p == q
      {
        assert D.SameName(s.db.devices[p], s.db.devices[q]);
      }
    }
  }

  lemma WriteKeepsNames(devices: map<PubKey, D.Row>, pk: PubKey, row: D.Row)
    requires D.NamesDistinct(devices)
    requires forall q :: q in devices && q != pk ==> !D.SameName(devices[q], row)
    ensures D.NamesDistinct(devices[pk := row])
  {
    var after := devices[pk := row];
    forall p, q | p in after && q in after && D.SameName(after[p], after[q]) ensures p == q {
      if p != pk && q != pk {
        assert D.SameName(devices[p], devices[q]);
      }
    }
  }

  /** Device `q` of the user bears the name. */
  predicate Bears(db: D.Db, user: User, q: PubKey, name: string) {
    q in db.devices && db.devices[q].user == user && db.devices[q].name == name
  }

  /** The step makes device `q` of the user bear the name. */
  predicate Gives(s: State, t: Step, user: User, q: PubKey, name: string) {
    Writes(s, t) && Owner(s, t) == user && s.tasks[t.c].pk == q && s.tasks[t.c].name == name
  }

  lemma {:induction false} BornByGift(net: A.Net, ss: seq<State>, ts: seq<Step>, i: nat, j: nat,
                                      user: User, q: PubKey, name: string)
    requires A.WellFormed(net) && Run(net, ss, ts) && i <= j < |ss|
    requires !Bears(ss[i].db, user, q, name) && Bears(ss[j].db, user, q, name)
    ensures exists k :: i <= k < j && Gives(ss[k], ts[k], user, q, name)
    decreases j - i
  {
    if Bears(ss[j - 1].db, user, q, name) {
      BornByGift(net, ss, ts, i, j - 1, user, q, name);
    } else {
      var s, t := ss[j - 1], ts[j - 1];
      assert ss[j] == Next(net, s, t);
      if !Writes(s, t) {
        WithoutWriteShrinks(net, s, t);
      }
      assert Gives(s, t, user, q, name);
    }
  }

  /** The step reads the names in use and chooses one. */
  predicate ChoosesName(t: Step) {
    t.Choose? || t.ChooseNew?
  }

  lemma ChosenIsFree(net: A.Net, s: State, t: Step)
    requires A.WellFormed(net) && Enabled(net, s, t) && ChoosesName(t)
    ensures
      var w := Next(net, s, t).tasks[t.c];
      && (w.Inserting? || w.Updating?)
      && forall q :: q != w.pk || t.Choose? ==> !Bears(Next(net, s, t).db, w.user, q, w.name)
  {
    var w := Next(net, s, t).tasks[t.c];
    var except := if t.Choose? then None else Some(w.pk);
    assert w.name !in D.NamesOf(s.db, w.user, except);
    assert forall q :: q in s.db.devices && s.db.devices[q].user == w.user && except != Some(q) ==>
      s.db.devices[q].name in D.NamesOf(s.db, w.user, except);
  }

  /** A write whose device is still the user's breaks the names apart exactly if, between its reading of the names
      and itself, a write of another request gave the name to another device of the user, which still has it. */
  lemma NamesOvertakenExactly(net: A.Net, ss: seq<State>, ts: seq<Step>, i: nat, j: nat)
    requires A.WellFormed(net) && Run(net, ss, ts) && i < j < |ts|
    requires ChoosesName(ts[i]) && Writes(ss[j], ts[j]) && ts[j].c == ts[i].c
    requires Owner(ss[j], ts[j]) == ss[j].tasks[ts[j].c].user && D.NamesDistinct(ss[j].db.devices)
    ensures
      var w := ss[j].tasks[ts[j].c];
      D.NamesDistinct(ss[j + 1].db.devices) <==>
        !exists q, k :: i < k < j && q != w.pk && Gives(ss[k], ts[k], w.user, q, w.name) &&
           ts[k].c != ts[j].c && Bears(ss[j].db, w.user, q, w.name)
  {
    var w := ss[j].tasks[ts[j].c];
    FreeWhenRead(net, ss, ts, i, j, ss[i + 1], w);
    assert ss[j + 1] == Next(net, ss[j], ts[j]);
    NamesSurviveExactly(net, ss[j], ts[j]);
    NameTakenMeans(ss[j], ts[j]);
    if q :| q != w.pk && Bears(ss[j].db, w.user, q, w.name) {
      BornByGift(net, ss, ts, i + 1, j, w.user, q, w.name);
      var k :| i + 1 <= k < j && Gives(ss[k], ts[k], w.user, q, w.name);
      NotItsOwn(net, ss, ts, k, j);
    }
  }

  lemma FreeWhenRead(net: A.Net, ss: seq<State>, ts: seq<Step>, i: nat, j: nat, read: State, w: Task)
    requires A.WellFormed(net) && Run(net, ss, ts) && i < j < |ts| && read == ss[i + 1]
    requires ChoosesName(ts[i]) && Writes(ss[j], ts[j]) && ts[j].c == ts[i].c && w == ss[j].tasks[ts[j].c]
    ensures forall q :: q != w.pk ==> !Bears(read.db, w.user, q, w.name)
  {
    assert read == Next(net, ss[i], ts[i]);
    ChosenIsFree(net, ss[i], ts[i]);
    RequestMovesOn(net, ss, ts, i + 1, j, ts[j].c);
  }

  lemma NameTakenMeans(s: State, t: Step)
    requires Writes(s, t) && Owner(s, t) == s.tasks[t.c].user
    ensures NameTaken(s, t) <==>
      exists q :: q != s.tasks[t.c].pk && Bears(s.db, s.tasks[t.c].user, q, s.tasks[t.c].name)
  {
    if NameTaken(s, t) {
      var q :| q in s.db.devices && s.db.devices[q].user == Owner(s, t) && q != s.tasks[t.c].pk &&
        s.db.devices[q].name == s.tasks[t.c].name;
      assert Bears(s.db, s.tasks[t.c].user, q, s.tasks[t.c].name);
    }
  }

  /** Nobody writes twice. */
  lemma NotItsOwn(net: A.Net, ss: seq<State>, ts: seq<Step>, k: nat, j: nat)
    requires A.WellFormed(net) && Run(net, ss, ts) && k < j < |ts| && Writes(ss[k], ts[k]) && Writes(ss[j], ts[j])
    ensures ts[k].c != ts[j].c
  {
    assert ss[k + 1] == Next(net, ss[k], ts[k]);
    RequestMovesOn(net, ss, ts, k + 1, j, ts[k].c);
  }

  /** About to write a name. */
  predicate Pending(s: State, c: Caller) {
    c in s.tasks && (s.tasks[c].Inserting? || s.tasks[c].Updating?)
  }

  /** No two requests about to write names are for one user or one key. */
  ghost predicate Apart(s: State) {
    forall c, d :: Pending(s, c) && Pending(s, d) && c != d ==>
      s.tasks[c].user != s.tasks[d].user && s.tasks[c].pk != s.tasks[d].pk
  }

  /** Nothing has come in the way of the write. */
  predicate Clear(db: D.Db, w: Task)
    requires w.Inserting? || w.Updating?
  {
    && w.name !in D.NamesOf(db, w.user, Some(w.pk))
    && (w.Updating? && w.pk in db.devices ==> db.devices[w.pk].user == w.user)
  }

  ghost predicate NameInv(s: State) {
    D.NamesDistinct(s.db.devices) && forall c :: Pending(s, c) ==> Clear(s.db, s.tasks[c])
  }

  lemma ShrinkingStaysClear(before: D.Db, after: D.Db, w: Task)
    requires Shrinks(before, after) && (w.Inserting? || w.Updating?) && Clear(before, w)
    ensures Clear(after, w)
  {
    forall q | q in after.devices && after.devices[q].user == w.user && q != w.pk
      ensures after.devices[q].name != w.name
    {
      assert before.devices[q].name in D.NamesOf(before, w.user, Some(w.pk));
    }
  }

  lemma ChosenIsClear(net: A.Net, s: State, t: Step)
    requires A.WellFormed(net) && Enabled(net, s, t) && ChoosesName(t)
    ensures Pending(Next(net, s, t), t.c) && Clear(s.db, Next(net, s, t).tasks[t.c])
  {
    ChosenIsFree(net, s, t);
    var w := Next(net, s, t).tasks[t.c];
    assert forall q :: q in s.db.devices && s.db.devices[q].user == w.user && q != w.pk ==>
      !Bears(s.db, w.user, q, w.name);
  }

  lemma WriteLeavesClear(net: A.Net, s: State, t: Step, c: Caller)
    requires A.WellFormed(net) && Enabled(net, s, t) && Writes(s, t) && NameInv(s) && Apart(s)
    requires Pending(s, c) && c != t.c
    ensures Clear(Next(net, s, t).db, s.tasks[c])
  {
    var u, w, v := Next(net, s, t), s.tasks[c], s.tasks[t.c];
    assert Pending(s, t.c) && w.user != v.user && w.pk != v.pk && Clear(s.db, v) && Clear(s.db, w);
    forall q | q in u.db.devices && u.db.devices[q].user == w.user && q != w.pk
      ensures u.db.devices[q].name != w.name
    {
      assert q != v.pk;
      assert s.db.devices[q].name in D.NamesOf(s.db, w.user, Some(w.pk));
    }
  }

  lemma NextKeepsNames(net: A.Net, s: State, t: Step)
    requires A.WellFormed(net) && Enabled(net, s, t) && NameInv(s) && Apart(s)
    ensures NameInv(Next(net, s, t))
  {
    var u := Next(net, s, t);
    NamesSurviveExactly(net, s, t);
    if Writes(s, t) {
      assert Pending(s, t.c);
    }
    forall c | Pending(u, c) ensures Clear(u.db, u.tasks[c]) {
      if ChoosesName(t) && t.c == c {
        ChosenIsClear(net, s, t);
      } else {
        assert Pending(s, c) && u.tasks[c] == s.tasks[c];
        if Writes(s, t) {
          WriteLeavesClear(net, s, t, c);
        } else {
          WithoutWriteShrinks(net, s, t);
          ShrinkingStaysClear(s.db, u.db, s.tasks[c]);
        }
      }
    }
  }

  /** So an owner's names stay apart over every run in which no two requests for one user, or for one key, are
      about to write at once. */
  lemma {:induction false} NamesStayApart(net: A.Net, ss: seq<State>, ts: seq<Step>, i: nat)
    requires A.WellFormed(net) && Run(net, ss, ts) && ss[0] == INIT && i < |ss|
    requires forall k :: 0 <= k < i ==> Apart(ss[k])
    ensures NameInv(ss[i])
  {
    if i > 0 {
      NamesStayApart(net, ss, ts, i - 1);
      NextKeepsNames(net, ss[i - 1], ts[i - 1]);
    }
  }

  // ---- The fleet ----

  function Arrives(s: State, t: Step, user: User): nat {
    if t.Insert? && Writes(s, t) && Owner(s, t) == user then 1 else 0
  }

  function Departs(s: State, t: Step, user: User): nat {
    if t.Whole? && t.op.Remove? && t.op.user == user && D.Owns(s.db, user, t.op.pk) then 1 else 0
  }

  /** Devices of the user inserted, or removed, by the steps from `i` on, up to `j`. */
  function Arrivals(ss: seq<State>, ts: seq<Step>, i: nat, j: nat, user: User): nat
    requires i <= j <= |ts| <= |ss|
    decreases j - i
  {
    if i == j then 0 else Arrivals(ss, ts, i, j - 1, user) + Arrives(ss[j - 1], ts[j - 1], user)
  }

  function Departures(ss: seq<State>, ts: seq<Step>, i: nat, j: nat, user: User): nat
    requires i <= j <= |ts| <= |ss|
    decreases j - i
  {
    if i == j then 0 else Departures(ss, ts, i, j - 1, user) + Departs(ss[j - 1], ts[j - 1], user)
  }

  lemma WholeBalances(net: A.Net, db: D.Db, op: D.Op, db': D.Db, user: User)
    requires A.WellFormed(net) && !op.Allocate? && !op.Rename? && D.Step(net, db, op, db')
    ensures |D.DevicesOf(db', user)| + (if op.Remove? && op.user == user && D.Owns(db, user, op.pk) then 1 else 0) ==
      |D.DevicesOf(db, user)|
  {
    var before, after := D.DevicesOf(db, user), D.DevicesOf(db', user);
    if op.Remove? && op.user == user && D.Owns(db, user, op.pk) {
      assert after == before - {op.pk} && op.pk in before;
    } else {
      assert after == before;
    }
  }

  lemma PutBalances(s: State, pk: PubKey, row: D.Row, user: User)
    requires pk in s.db.devices ==> s.db.devices[pk].user == row.user
    ensures |D.DevicesOf(Put(s, pk, row).db, user)| ==
      |D.DevicesOf(s.db, user)| + if pk !in s.db.devices && row.user == user then 1 else 0
  {
    var before, after := D.DevicesOf(s.db, user), D.DevicesOf(Put(s, pk, row).db, user);
    if row.user == user {
      assert after == before + {pk};
      assert pk in s.db.devices ==> pk in before && after == before;
    } else {
      assert after == before;
    }
  }

  lemma StepBalances(net: A.Net, s: State, t: Step, user: User)
    requires A.WellFormed(net) && Enabled(net, s, t)
    ensures |D.DevicesOf(Next(net, s, t).db, user)| + Departs(s, t, user) ==
      |D.DevicesOf(s.db, user)| + Arrives(s, t, user)
  {
    if t.Whole? {
      WholeBalances(net, s.db, t.op, t.db, user);
    } else if Writes(s, t) {
      var w := s.tasks[t.c];
      PutBalances(s, w.pk, Next(net, s, t).db.devices[w.pk], user);
    }
  }

  /** Along any run devices are conserved: held at the end and departed, against held at the start and arrived. */
  lemma {:induction false} FleetBalances(net: A.Net, ss: seq<State>, ts: seq<Step>, i: nat, j: nat, user: User)
    requires A.WellFormed(net) && Run(net, ss, ts) && i <= j < |ss|
    ensures |D.DevicesOf(ss[j].db, user)| + Departures(ss, ts, i, j, user) ==
      |D.DevicesOf(ss[i].db, user)| + Arrivals(ss, ts, i, j, user)
    decreases j - i
  {
    if i < j {
      FleetBalances(net, ss, ts, i, j - 1, user);
      StepBalances(net, ss[j - 1], ts[j - 1], user);
    }
  }

  /** An accepted insert keeps the cap exactly if the devices counted, and those that arrived since, less those that
      left, are still below it. */
  lemma CapSurvivesExactly(net: A.Net, ss: seq<State>, ts: seq<Step>, i: nat, j: nat)
    requires A.WellFormed(net) && Run(net, ss, ts) && i < j < |ts|
    requires ts[i].Count? && ts[j] == Insert(ts[i].c) && Writes(ss[j], ts[j]) && D.FleetsBounded(ss[j].db)
    ensures
      var user := ss[i].tasks[ts[i].c].user;
      D.FleetsBounded(ss[j + 1].db) <==>
        |D.DevicesOf(ss[i].db, user)| + Arrivals(ss, ts, i, j, user) - Departures(ss, ts, i, j, user)
          < D.MAX_DEVICES_PER_USER
  {
    var user := ss[i].tasks[ts[i].c].user;
    RequestMovesOn(net, ss, ts, i, j, ts[i].c);
    FleetBalances(net, ss, ts, i, j, user);
    assert ss[j + 1] == Next(net, ss[j], ts[j]);
    forall v ensures |D.DevicesOf(ss[j + 1].db, v)| == |D.DevicesOf(ss[j].db, v)| + if v == user then 1 else 0 {
      StepBalances(net, ss[j], ts[j], v);
    }
    OneMoreDevice(ss[j].db, ss[j + 1].db, user);
  }

  lemma OneMoreDevice(before: D.Db, after: D.Db, user: User)
    requires D.FleetsBounded(before)
    requires forall v :: |D.DevicesOf(after, v)| == |D.DevicesOf(before, v)| + if v == user then 1 else 0
    ensures D.FleetsBounded(after) <==> |D.DevicesOf(before, user)| < D.MAX_DEVICES_PER_USER
  {
    assert |D.DevicesOf(after, user)| == |D.DevicesOf(before, user)| + 1;
    forall v ensures v != user ==> |D.DevicesOf(after, v)| <= D.MAX_DEVICES_PER_USER {
      assert |D.DevicesOf(before, v)| <= D.MAX_DEVICES_PER_USER;
    }
  }

  /** Enrolments of the user that have counted and not inserted yet. */
  function InFlight(s: State, user: User): set<Caller> {
    set c | c in s.tasks && Owes(s.tasks[c], user)
  }

  predicate Owes(w: Task, user: User) {
    (w.Counted? || w.Placed? || w.Inserting?) && w.user == user
  }

  lemma StepKeepsBound(net: A.Net, s: State, t: Step, user: User, m: nat)
    requires A.WellFormed(net) && Enabled(net, s, t)
    requires |D.DevicesOf(s.db, user)| + |InFlight(s, user)| < D.MAX_DEVICES_PER_USER + m
    requires |InFlight(Next(net, s, t), user)| <= m
    ensures |D.DevicesOf(Next(net, s, t).db, user)| + |InFlight(Next(net, s, t), user)| < D.MAX_DEVICES_PER_USER + m
  {
    var u := Next(net, s, t);
    StepBalances(net, s, t, user);
    if t.Count? && |D.DevicesOf(s.db, s.tasks[t.c].user)| < D.MAX_DEVICES_PER_USER && s.tasks[t.c].user == user {
      assert u.db == s.db;
    } else if Arrives(s, t, user) == 1 {
      assert InFlight(u, user) == InFlight(s, user) - {t.c};
      assert t.c in InFlight(s, user);
    } else {
      forall c | c in InFlight(u, user) ensures c in InFlight(s, user) {
      }
      SubsetSize(InFlight(u, user), InFlight(s, user));
    }
  }

  ghost predicate AtMost(ss: seq<State>, user: User, m: nat) {
    forall i :: 0 <= i < |ss| ==> |InFlight(ss[i], user)| <= m
  }

  /** With never more than `m` enrolments of one user between their count and their insert, the user never has more
      than 31 + m devices: 32, as promised, if they come one at a time. */
  lemma {:induction false} FleetBound(net: A.Net, ss: seq<State>, ts: seq<Step>, i: nat, user: User, m: nat)
    requires A.WellFormed(net) && Run(net, ss, ts) && ss[0] == INIT && AtMost(ss, user, m) && i < |ss|
    ensures |D.DevicesOf(ss[i].db, user)| + |InFlight(ss[i], user)| < D.MAX_DEVICES_PER_USER + m
  {
    if i > 0 {
      FleetBound(net, ss, ts, i - 1, user, m);
      assert ss[i] == Next(net, ss[i - 1], ts[i - 1]);
      StepKeepsBound(net, ss[i - 1], ts[i - 1], user, m);
    } else {
      assert D.DevicesOf(INIT.db, user) == {} && InFlight(INIT, user) == {};
    }
  }

  // ---- Runs that break them ----

  /** Some run ends in `s`, with never more than `m` enrolments of user 7 in flight. */
  ghost predicate Reached(net: A.Net, s: State, m: nat)
    requires A.WellFormed(net)
  {
    exists ss, ts :: Leads(net, ss, ts, s, m)
  }

  ghost predicate Leads(net: A.Net, ss: seq<State>, ts: seq<Step>, s: State, m: nat)
    requires A.WellFormed(net)
  {
    Run(net, ss, ts) && ss[0] == INIT && AtMost(ss, 7, m) && ss[|ts|] == s
  }

  lemma Reach(net: A.Net, s: State, t: Step, m: nat) returns (u: State)
    requires A.WellFormed(net) && Reached(net, s, m) && Enabled(net, s, t) && |InFlight(Next(net, s, t), 7)| <= m
    ensures u == Next(net, s, t) && Reached(net, u, m)
  {
    u := Next(net, s, t);
    var ss, ts :| Leads(net, ss, ts, s, m);
    assert Leads(net, ss + [u], ts + [t], u, m);
  }

  lemma InitReached(net: A.Net, m: nat)
    requires A.WellFormed(net)
    ensures Reached(net, INIT, m)
  {
    assert InFlight(INIT, 7) == {};
    assert Leads(net, [INIT], [], INIT, m);
  }

  /** Devices 1 to n of user 7 are enrolled, each under its number; n+1 to b are counted. */
  ghost predicate Enrolled(s: State, names: nat -> string, n: nat, b: nat) {
    && n <= b
    && (forall pk :: pk in s.db.devices <==> 1 <= pk <= n)
    && (forall pk :: pk in s.db.devices ==> s.db.devices[pk] == D.Row(pk, 7, names(pk), None, false))
    && (forall c :: c in s.tasks <==> 1 <= c <= b)
    && (forall c :: c in s.tasks ==> s.tasks[c] == if c <= n then Over else Counted(c, 7, names(c), c - 1))
  }

  ghost predicate AllDifferent(names: nat -> string) {
    forall i, j :: names(i) == names(j) ==> i == j
  }

  lemma UpTo(xs: set<nat>, lo: nat, hi: nat)
    requires lo <= hi && forall x :: x in xs <==> lo < x <= hi
    ensures |xs| == hi - lo
    decreases hi
  {
    if lo < hi {
      UpTo(xs - {hi}, lo, hi - 1);
    } else {
      assert xs == {};
    }
  }

  lemma EnrolledSizes(s: State, names: nat -> string, n: nat, b: nat)
    requires Enrolled(s, names, n, b)
    ensures |D.DevicesOf(s.db, 7)| == n && |InFlight(s, 7)| == b - n
  {
    UpTo(D.DevicesOf(s.db, 7), 0, n);
    UpTo(InFlight(s, 7), n, b);
  }

  lemma Begin(net: A.Net, s: State, names: nat -> string, n: nat, b: nat, m: nat) returns (u: State)
    requires A.WellFormed(net) && Reached(net, s, m) && Enrolled(s, names, n, b)
    requires n < D.MAX_DEVICES_PER_USER && b - n < m
    ensures Reached(net, u, m) && Enrolled(u, names, n, b + 1)
  {
    EnrolledSizes(s, names, n, b);
    NextCounted(s, names, n, b);
    u := BeginOne(net, s, b + 1, names(b + 1), b, m);
  }

  lemma BeginOne(net: A.Net, s: State, c: nat, desired: string, digest: nat, m: nat) returns (u: State)
    requires A.WellFormed(net) && Reached(net, s, m) && |InFlight(s, 7)| < m && c !in s.tasks && c !in s.db.devices
    requires |D.DevicesOf(s.db, 7)| < D.MAX_DEVICES_PER_USER
    ensures Reached(net, u, m) && u == Move(s, c, Counted(c, 7, desired, digest))
    ensures InFlight(u, 7) == InFlight(s, 7) + {c}
  {
    u := Start(net, s, c, desired, digest, m);
    u := CountOne(net, u, c, m);
  }

  lemma NextCounted(s: State, names: nat -> string, n: nat, b: nat)
    requires Enrolled(s, names, n, b)
    ensures b + 1 !in s.tasks && b + 1 !in s.db.devices
    ensures Enrolled(Move(s, b + 1, Counted(b + 1, 7, names(b + 1), b)), names, n, b + 1)
  {
  }

  lemma Start(net: A.Net, s: State, c: nat, desired: string, digest: nat, m: nat) returns (u: State)
    requires A.WellFormed(net) && Reached(net, s, m) && |InFlight(s, 7)| <= m && c !in s.tasks && c !in s.db.devices
    ensures Reached(net, u, m) && u == Move(s, c, Asked(c, 7, desired, digest))
    ensures InFlight(u, 7) == InFlight(s, 7)
  {
    var t := Ask(c, c, 7, desired, digest);
    assert Next(net, s, t) == Move(s, c, Asked(c, 7, desired, digest));
    assert InFlight(Next(net, s, t), 7) == InFlight(s, 7);
    u := Reach(net, s, t, m);
  }

  lemma CountOne(net: A.Net, s: State, c: Caller, m: nat) returns (u: State)
    requires A.WellFormed(net) && Reached(net, s, m) && |InFlight(s, 7)| < m
    requires c in s.tasks && s.tasks[c].Asked? && s.tasks[c].user == 7
    requires |D.DevicesOf(s.db, 7)| < D.MAX_DEVICES_PER_USER
    ensures
      var w := s.tasks[c];
      Reached(net, u, m) && u == Move(s, c, Counted(w.pk, 7, w.desired, w.digest))
    ensures InFlight(u, 7) == InFlight(s, 7) + {c}
  {
    assert InFlight(Next(net, s, Count(c)), 7) == InFlight(s, 7) + {c};
    u := Reach(net, s, Count(c), m);
  }

  lemma NextIsFree(net: A.Net, s: State, names: nat -> string, n: nat, b: nat)
    requires A.WellFormed(net) && Enrolled(s, names, n, b) && AllDifferent(names) && n < A.Allocatable(net)
    ensures A.FirstFreeIndex(net, D.TakenIndices(s.db), A.DeviceHint(net, n), n + 1)
    ensures D.FirstFreeName(D.NamesOf(s.db, 7, None), names(n + 1), names(n + 1))
  {
    HintIsFree(net, D.TakenIndices(s.db), n);
    forall pk | pk in s.db.devices ensures s.db.devices[pk].name != names(n + 1) {
      assert pk != n + 1;
    }
    DesiredIsFree(D.NamesOf(s.db, 7, None), names(n + 1));
  }

  lemma HintIsFree(net: A.Net, taken: set<nat>, n: nat)
    requires A.WellFormed(net) && n < A.Allocatable(net) && n + 1 !in taken
    ensures A.FirstFreeIndex(net, taken, A.DeviceHint(net, n), n + 1)
  {
    var last := A.Allocatable(net);
    SmallRemainder(n, last);
    assert A.DeviceHint(net, n) == n + 1;
    assert A.Probe(A.Clamp(n + 1, last), last, 0) == n + 1;
  }

  lemma SmallRemainder(n: nat, d: nat)
    requires n < d
    ensures n % d == n
  {
  }

  lemma DesiredIsFree(taken: set<string>, desired: string)
    requires desired !in taken
    ensures D.FirstFreeName(taken, desired, desired)
  {
    assert N.DeviceCandidate(desired, 0) == desired;
  }

  lemma Finish(net: A.Net, s: State, names: nat -> string, n: nat, b: nat, m: nat) returns (u: State)
    requires A.WellFormed(net) && Reached(net, s, m) && Enrolled(s, names, n, b) && n < b && b - n <= m
    requires AllDifferent(names) && n < A.Allocatable(net)
    ensures Reached(net, u, m) && Enrolled(u, names, n + 1, b)
  {
    EnrolledSizes(s, names, n, b);
    NextIsFree(net, s, names, n, b);
    NextInserted(s, names, n, b);
    u := InsertOne(net, s, n + 1, names(n + 1), m);
  }

  lemma NextInserted(s: State, names: nat -> string, n: nat, b: nat)
    requires Enrolled(s, names, n, b) && n < b
    ensures n + 1 in s.tasks && s.tasks[n + 1] == Counted(n + 1, 7, names(n + 1), n)
    ensures n + 1 !in s.db.devices && n + 1 !in D.TakenIndices(s.db)
    ensures
      Enrolled(Move(Put(s, n + 1, D.Row(n + 1, 7, names(n + 1), None, false)), n + 1, Over), names, n + 1, b)
  {
  }

  lemma InsertOne(net: A.Net, s: State, c: nat, name: string, m: nat) returns (u: State)
    requires A.WellFormed(net) && Reached(net, s, m) && |InFlight(s, 7)| <= m
    requires c > 0 && c in s.tasks && s.tasks[c] == Counted(c, 7, name, c - 1)
    requires c !in s.db.devices && c !in D.TakenIndices(s.db)
    requires A.FirstFreeIndex(net, D.TakenIndices(s.db), A.DeviceHint(net, c - 1), c)
    requires D.FirstFreeName(D.NamesOf(s.db, 7, None), name, name)
    ensures Reached(net, u, m) && u == Move(Put(s, c, D.Row(c, 7, name, None, false)), c, Over)
  {
    u := PlaceOne(net, s, c, c, m);
    u := ChooseOne(net, u, c, name, m);
    u := Accepted(net, u, c, m);
    assert u.tasks == s.tasks[c := Over];
  }

  lemma Accepted(net: A.Net, s: State, c: Caller, m: nat) returns (u: State)
    requires A.WellFormed(net) && Reached(net, s, m) && |InFlight(s, 7)| <= m
    requires c in s.tasks && s.tasks[c].Inserting? && s.tasks[c].user == 7 && Accepts(s.db, s.tasks[c])
    ensures
      var w := s.tasks[c];
      Reached(net, u, m) && u == Move(Put(s, w.pk, D.Row(w.idx, 7, w.name, None, false)), c, Over)
    ensures |InFlight(u, 7)| <= m
  {
    assert InFlight(Next(net, s, Insert(c)), 7) == InFlight(s, 7) - {c};
    u := Reach(net, s, Insert(c), m);
  }

  lemma PlaceOne(net: A.Net, s: State, c: Caller, idx: nat, m: nat) returns (u: State)
    requires A.WellFormed(net) && Reached(net, s, m) && |InFlight(s, 7)| <= m
    requires c in s.tasks && s.tasks[c].Counted? && s.tasks[c].user == 7
    requires A.FirstFreeIndex(net, D.TakenIndices(s.db), A.DeviceHint(net, s.tasks[c].digest), idx)
    ensures Reached(net, u, m) && InFlight(u, 7) == InFlight(s, 7)
    ensures u == Move(s, c, Placed(s.tasks[c].pk, 7, s.tasks[c].desired, idx))
  {
    assert InFlight(Next(net, s, Place(c, idx)), 7) == InFlight(s, 7);
    u := Reach(net, s, Place(c, idx), m);
  }

  lemma ChooseOne(net: A.Net, s: State, c: Caller, name: string, m: nat) returns (u: State)
    requires A.WellFormed(net) && Reached(net, s, m) && |InFlight(s, 7)| <= m
    requires c in s.tasks && s.tasks[c].Placed? && s.tasks[c].user == 7
    requires D.FirstFreeName(D.NamesOf(s.db, 7, None), s.tasks[c].desired, name)
    ensures Reached(net, u, m) && InFlight(u, 7) == InFlight(s, 7)
    ensures u == Move(s, c, Inserting(s.tasks[c].pk, 7, s.tasks[c].idx, name))
  {
    assert InFlight(Next(net, s, Choose(c, name)), 7) == InFlight(s, 7);
    u := Reach(net, s, Choose(c, name), m);
  }

  lemma {:induction false} Alone(net: A.Net, names: nat -> string, n: nat, m: nat) returns (s: State)
    requires A.WellFormed(net) && n < D.MAX_DEVICES_PER_USER && n <= A.Allocatable(net) && 1 <= m
    requires AllDifferent(names)
    ensures Reached(net, s, m) && Enrolled(s, names, n, n)
  {
    if n == 0 {
      InitReached(net, m);
      s := INIT;
    } else {
      s := Alone(net, names, n - 1, m);
      s := Begin(net, s, names, n - 1, n - 1, m);
      s := Finish(net, s, names, n - 1, n, m);
    }
  }

  /** The bound is met: for every `m`, 31 enrolments one by one and then `m` that overlap, each counting before any
      inserts, leave 31 + m devices. */
  lemma FleetBoundIsMet(net: A.Net, m: nat)
    requires A.WellFormed(net) && 1 <= m && D.MAX_DEVICES_PER_USER - 1 + m <= A.Allocatable(net)
    ensures exists ss: seq<State>, ts ::
      && Run(net, ss, ts) && ss[0] == INIT && AtMost(ss, 7, m)
      && |D.DevicesOf(ss[|ts|].db, 7)| == D.MAX_DEVICES_PER_USER - 1 + m
  {
    var n, names := D.MAX_DEVICES_PER_USER - 1, N.Decimal;
    forall i, j | names(i) == names(j) ensures i == j {
      N.DecimalInjective(i, j);
    }
    var s := Alone(net, names, n, m);
    for k := 0 to m
      invariant Reached(net, s, m) && Enrolled(s, names, n, n + k)
    {
      s := Begin(net, s, names, n, n + k, m);
    }
    for k := 0 to m
      invariant Reached(net, s, m) && Enrolled(s, names, n + k, n + m)
    {
      s := Finish(net, s, names, n + k, n + m, m);
    }
    EnrolledSizes(s, names, n + m, n + m);
    var ss: seq<State>, ts :| Leads(net, ss, ts, s, m);
  }

  /** Two enrolments of one user that read the names before either writes end with devices of one name. */
  lemma TwoEnrolmentsOneName(net: A.Net, desired: string)
    requires A.WellFormed(net) && 2 <= A.Allocatable(net)
    ensures exists ss: seq<State>, ts ::
      && Run(net, ss, ts) && ss[0] == INIT
      && Bears(ss[|ts|].db, 7, 1, desired) && Bears(ss[|ts|].db, 7, 2, desired)
      && !D.NamesDistinct(ss[|ts|].db.devices)
  {
    var s := BothChosen(net, desired);
    s := Accepted(net, s, 1, 2);
    assert D.TakenIndices(s.db) == {1};
    s := Accepted(net, s, 2, 2);
    assert s.db.devices == map[1 := D.Row(1, 7, desired, None, false), 2 := D.Row(2, 7, desired, None, false)];
    assert D.SameName(s.db.devices[1], s.db.devices[2]);
    var ss: seq<State>, ts :| Leads(net, ss, ts, s, 2);
  }

  lemma BothChosen(net: A.Net, desired: string) returns (s: State)
    requires A.WellFormed(net) && 2 <= A.Allocatable(net)
    ensures Reached(net, s, 2) && InFlight(s, 7) == {1, 2} && s.db == D.NOTHING
    ensures s.tasks == map[1 := Inserting(1, 7, 1, desired), 2 := Inserting(2, 7, 2, desired)]
  {
    s := BothCounted(net, desired);
    NothingTaken();
    HintIsFree(net, {}, 0);
    HintIsFree(net, {}, 1);
    DesiredIsFree({}, desired);
    s := PlaceOne(net, s, 1, 1, 2);
    s := PlaceOne(net, s, 2, 2, 2);
    s := ChooseOne(net, s, 1, desired, 2);
    s := ChooseOne(net, s, 2, desired, 2);
  }

  lemma NothingTaken()
    ensures D.DevicesOf(D.NOTHING, 7) == {} && D.TakenIndices(D.NOTHING) == {} && D.NamesOf(D.NOTHING, 7, None) == {}
  {
  }

  lemma BothCounted(net: A.Net, desired: string) returns (s: State)
    requires A.WellFormed(net)
    ensures Reached(net, s, 2) && InFlight(s, 7) == {1, 2} && s.db == D.NOTHING
    ensures s.tasks == map[1 := Counted(1, 7, desired, 0), 2 := Counted(2, 7, desired, 1)]
  {
    InitReached(net, 2);
    NothingTaken();
    assert InFlight(INIT, 7) == {};
    s := BeginOne(net, INIT, 1, desired, 0, 2);
    s := BeginOne(net, s, 2, desired, 1, 2);
  }
}
