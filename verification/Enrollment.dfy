/**
 One-time enrollment keys (crates/coordinator/src/store.rs). Consuming a key is two database statements,
 a read and a conditional claim, and other registrations may run between them: a transition system whose
 steps are single statements.
 */
module Enrollment {
  import opened Prelude

  type EnrollKey = string
  type User = nat
  type Caller = nat

  datatype KeyRow = KeyRow(user: User, expires: Option<Time>, usedBy: Option<PubKey>)

  datatype Error = Unknown | AlreadyUsed | Expired

  /** A registration presenting `key` for `pk` at `now`: between its two statements, or answered. */
  datatype Attempt =
    | HasRead(key: EnrollKey, pk: PubKey, now: Time, row: KeyRow)
    | Answered(key: EnrollKey, pk: PubKey, r: Result<User, Error>)

  datatype State = State(rows: map<EnrollKey, KeyRow>, attempts: map<Caller, Attempt>)

  datatype Step =
    | Create(key: EnrollKey, user: User, expires: Option<Time>)
    | Read(c: Caller, key: EnrollKey, pk: PubKey, now: Time)
    | Claim(c: Caller)

  const INIT := State(map[], map[])

  predicate Enabled(s: State, t: Step) {
    match t
    case Create(_, _, _) => true
    case Read(c, _, _, _) => c !in s.attempts
    case Claim(c) => c in s.attempts && s.attempts[c].HasRead?
  }

  predicate Claimable(row: KeyRow, now: Time) {
    row.usedBy.None? && (row.expires.None? || now < row.expires.value)
  }

  /** Seeding an existing key again refreshes its owner and expiry, never its use. */
  function Seeded(s: State, key: EnrollKey, user: User, expires: Option<Time>): KeyRow {
    KeyRow(user, expires, if key in s.rows then s.rows[key].usedBy else None)
  }

  /** The answer of an attempt whose claim matched no row, from the row it read. */
  function Refusal(a: Attempt): Result<User, Error>
    requires a.HasRead?
  {
    match a.row.usedBy
    case Some(used) => if used == a.pk then Ok(a.row.user) else Err(AlreadyUsed)
    case None => Err(Expired)
  }

  function Next(s: State, t: Step): State
    requires Enabled(s, t)
  {
    match t
    case Create(key, user, expires) =>
      s.(rows := s.rows[key := Seeded(s, key, user, expires)])
    case Read(c, key, pk, now) =>
      var a := if key in s.rows then HasRead(key, pk, now, s.rows[key]) else Answered(key, pk, Err(Unknown));
      s.(attempts := s.attempts[c := a])
    case Claim(c) =>
      var a := s.attempts[c];
      if a.key in s.rows && Claimable(s.rows[a.key], a.now) then
        State(s.rows[a.key := s.rows[a.key].(usedBy := Some(a.pk))],
              s.attempts[c := Answered(a.key, a.pk, Ok(a.row.user))])
      else s.(attempts := s.attempts[c := Answered(a.key, a.pk, Refusal(a))])
  }

  predicate Runs(s: State, ts: seq<Step>)
    decreases |ts|
  {
    |ts| == 0 || (Enabled(s, ts[0]) && Runs(Next(s, ts[0]), ts[1..]))
  }

  function After(s: State, ts: seq<Step>): State
    requires Runs(s, ts)
    decreases |ts|
  {
    if |ts| == 0 then s else After(Next(s, ts[0]), ts[1..])
  }

  predicate UsedBy(s: State, key: EnrollKey, pk: PubKey) {
    key in s.rows && s.rows[key].usedBy == Some(pk)
  }

  predicate Enrolled(s: State, c: Caller, key: EnrollKey, pk: PubKey) {
    c in s.attempts && s.attempts[c].Answered? && s.attempts[c].key == key && s.attempts[c].pk == pk &&
    s.attempts[c].r.Ok?
  }

  /** Whoever was told Ok is recorded as the key's user, and what a pending attempt read as used still is. */
  ghost predicate Inv(s: State) {
    && (forall c, key, pk :: Enrolled(s, c, key, pk) ==> UsedBy(s, key, pk))
    && (forall c, pk :: c in s.attempts && s.attempts[c].HasRead? && s.attempts[c].row.usedBy == Some(pk) ==>
          UsedBy(s, s.attempts[c].key, pk))
  }

  lemma NextKeepsInv(s: State, t: Step)
    requires Inv(s) && Enabled(s, t)
    ensures Inv(Next(s, t))
    ensures forall key, pk :: UsedBy(s, key, pk) ==> UsedBy(Next(s, t), key, pk)
  {
    var u := Next(s, t);
    forall c, key, pk | Enrolled(u, c, key, pk) ensures UsedBy(u, key, pk) {
      if c in s.attempts && u.attempts[c] == s.attempts[c] {
        assert Enrolled(s, c, key, pk);
      }
    }
  }

  lemma {:induction false} RunKeepsInv(s: State, ts: seq<Step>)
    requires Inv(s) && Runs(s, ts)
    ensures Inv(After(s, ts))
    ensures forall key, pk :: UsedBy(s, key, pk) ==> UsedBy(After(s, ts), key, pk)
    decreases |ts|
  {
    if |ts| > 0 {
      NextKeepsInv(s, ts[0]);
      RunKeepsInv(Next(s, ts[0]), ts[1..]);
    }
  }

  /** In every interleaving at most one device is ever enrolled by a key, even if it is seeded again. */
  lemma OneDevicePerKey(ts: seq<Step>, key: EnrollKey, c: Caller, p: PubKey, d: Caller, q: PubKey)
    requires Runs(INIT, ts)
    requires Enrolled(After(INIT, ts), c, key, p) && Enrolled(After(INIT, ts), d, key, q)
    ensures p == q
  {
    RunKeepsInv(INIT, ts);
    assert UsedBy(After(INIT, ts), key, p) && UsedBy(After(INIT, ts), key, q);
  }

  /** What a registration that meets nobody else is told. */
  function Consumed(s: State, c: Caller, key: EnrollKey, pk: PubKey, now: Time): Result<User, Error>
    requires Enabled(s, Read(c, key, pk, now))
  {
    var t := Next(s, Read(c, key, pk, now));
    if t.attempts[c].Answered? then t.attempts[c].r else Next(t, Claim(c)).attempts[c].r
  }

  /** Presented alone, a key enrolls exactly while it is known, unused and unexpired, or again for the device
      that used it; otherwise the refusal says which it was. */
  lemma ConsumeAlone(s: State, c: Caller, key: EnrollKey, pk: PubKey, now: Time)
    requires c !in s.attempts
    ensures
      var r := Consumed(s, c, key, pk, now);
      if key !in s.rows then r == Err(Unknown)
      else
        var row := s.rows[key];
        && (r == Ok(row.user) <==> Claimable(row, now) || row.usedBy == Some(pk))
        && (r == Err(AlreadyUsed) <==> row.usedBy.Some? && row.usedBy.value != pk)
        && (r == Err(Expired) <==> row.usedBy.None? && !Claimable(row, now))
  {
  }

  // ---- Exactly what a key is worth after any run ----

  /** What the run last seeds the key with, if it does. */
  function LastSeeding(ts: seq<Step>, key: EnrollKey): Option<(User, Option<Time>)> {
    if |ts| == 0 then None
    else
      var last := ts[|ts| - 1];
      if last.Create? && last.key == key then Some((last.user, last.expires)) else LastSeeding(ts[..|ts| - 1], key)
  }

  /** Rows hold what they were last seeded with, and are used by whoever was told Ok. */
  ghost predicate Explained(s: State, ts: seq<Step>) {
    && (forall key :: key in s.rows <==> LastSeeding(ts, key).Some?)
    && (forall key :: key in s.rows ==> (s.rows[key].user, s.rows[key].expires) == LastSeeding(ts, key).value)
    && (forall key, pk :: UsedBy(s, key, pk) <==> exists c :: Enrolled(s, c, key, pk))
  }

  lemma ExplainedNext(s: State, ts: seq<Step>, t: Step)
    requires Inv(s) && Explained(s, ts) && Enabled(s, t)
    ensures Explained(Next(s, t), ts + [t])
  {
    var u := Next(s, t);
    assert (ts + [t])[..|ts|] == ts;
    NextKeepsInv(s, t);
    forall key, pk | UsedBy(u, key, pk) ensures exists c :: Enrolled(u, c, key, pk) {
      if UsedBy(s, key, pk) {
        var c :| Enrolled(s, c, key, pk);
        assert Enrolled(u, c, key, pk);
      } else {
        assert Enrolled(u, t.c, key, pk);
      }
    }
  }

  lemma {:induction false} RunExplained(s: State, before: seq<Step>, ts: seq<Step>)
    requires Inv(s) && Explained(s, before) && Runs(s, ts)
    ensures Explained(After(s, ts), before + ts)
    decreases |ts|
  {
    if |ts| == 0 {
      assert before + ts == before;
    } else {
      ExplainedNext(s, before, ts[0]);
      NextKeepsInv(s, ts[0]);
      RunExplained(Next(s, ts[0]), before + [ts[0]], ts[1..]);
      assert before + [ts[0]] + ts[1..] == before + ts;
    }
  }

  /** After any run, a registration that meets nobody else enrolls for whom the key was last seeded, exactly if the
      key was seeded, and either its device is the one enrolled with it before, or none was and the expiry it was last
      seeded with is not reached; and each refusal names its cause. */
  lemma EnrollsExactly(ts: seq<Step>, c: Caller, key: EnrollKey, pk: PubKey, now: Time)
    requires Runs(INIT, ts) && c !in After(INIT, ts).attempts
    ensures
      var s := After(INIT, ts);
      Consumed(s, c, key, pk, now) ==
        match LastSeeding(ts, key)
        case None => Err(Unknown)
        case Some((user, expires)) =>
          if exists d :: Enrolled(s, d, key, pk) then Ok(user)
          else if exists d, q :: Enrolled(s, d, key, q) then Err(AlreadyUsed)
          else if expires.Some? && expires.value <= now then Err(Expired)
          else Ok(user)
  {
    var s := After(INIT, ts);
    RunKeepsInv(INIT, ts);
    RunExplained(INIT, [], ts);
    assert [] + ts == ts;
    ConsumeAlone(s, c, key, pk, now);
    if key in s.rows && s.rows[key].usedBy.Some? {
      assert UsedBy(s, key, s.rows[key].usedBy.value);
    }
    if d, q :| Enrolled(s, d, key, q) {
      assert UsedBy(s, key, q);
    }
    if d :| Enrolled(s, d, key, pk) {
      assert UsedBy(s, key, pk);
    }
  }

  // ---- Whose device it becomes ----

  /** Whom the run last seeds the key for, if it does. */
  function LastOwner(ts: seq<Step>, key: EnrollKey): Option<User> {
    if LastSeeding(ts, key).Some? then Some(LastSeeding(ts, key).value.0) else None
  }

  lemma {:induction false} SeedingAfterFirst(ts: seq<Step>, key: EnrollKey)
    requires |ts| > 0
    ensures LastSeeding(ts, key) ==
      if LastSeeding(ts[1..], key).Some? then LastSeeding(ts[1..], key) else LastSeeding([ts[0]], key)
  {
    if |ts| > 1 {
      SeedingAfterFirst(ts[..|ts| - 1], key);
      assert ts[..|ts| - 1][1..] == ts[1..][..|ts| - 2];
    } else {
      assert ts == [ts[0]];
    }
  }

  lemma {:induction false} OwnerIsLastSeeded(s: State, ts: seq<Step>, key: EnrollKey)
    requires Runs(s, ts) && key in s.rows
    ensures key in After(s, ts).rows
    ensures After(s, ts).rows[key].user == LastOwner(ts, key).GetOr(s.rows[key].user)
    decreases |ts|
  {
    if |ts| > 0 {
      SeedingAfterFirst(ts, key);
      assert [ts[0]][..0] == [];
      OwnerIsLastSeeded(Next(s, ts[0]), ts[1..], key);
    }
  }

  lemma {:induction false} AttemptStays(s: State, ts: seq<Step>, c: Caller)
    requires Runs(s, ts) && c in s.attempts && s.attempts[c].HasRead?
    requires forall t :: t in ts ==> t != Claim(c)
    ensures c in After(s, ts).attempts && After(s, ts).attempts[c] == s.attempts[c]
    decreases |ts|
  {
    if |ts| > 0 {
      assert ts[0] in ts && forall t :: t in ts[1..] ==> t in ts;
      AttemptStays(Next(s, ts[0]), ts[1..], c);
    }
  }

  /** Whatever runs between an attempt's two statements: if it is told Ok it is told the owner it read, and that
      is the key's owner by then exactly if the key was not seeded again meanwhile, or last for that same user. */
  lemma {:induction false} ToldOwnerExactly(s: State, c: Caller, key: EnrollKey, pk: PubKey, now: Time, ts: seq<Step>)
    requires Enabled(s, Read(c, key, pk, now)) && key in s.rows
    requires Runs(Next(s, Read(c, key, pk, now)), ts) && forall t :: t in ts ==> t != Claim(c)
    ensures
      var between := After(Next(s, Read(c, key, pk, now)), ts);
      && Enabled(between, Claim(c))
      && var after := Next(between, Claim(c));
         && key in after.rows
         && (after.attempts[c].r.Ok? ==>
              && after.attempts[c].r.value == s.rows[key].user
              && (after.attempts[c].r.value == after.rows[key].user <==>
                    LastOwner(ts, key).None? || LastOwner(ts, key) == Some(s.rows[key].user)))
  {
    var read := Next(s, Read(c, key, pk, now));
    AttemptStays(read, ts, c);
    OwnerIsLastSeeded(read, ts, key);
  }

  lemma OneMore(s: State, t: Step, rest: seq<Step>)
    requires Enabled(s, t) && Runs(Next(s, t), rest)
    ensures Runs(s, [t] + rest) && After(s, [t] + rest) == After(Next(s, t), rest)
  {
    assert ([t] + rest)[1..] == rest;
  }

  /** A key seeded for somebody else between the read and the claim enrolls the device for the owner read
      before: the claim checks use and expiry, not the owner. */
  lemma ReseedCanMoveTheOwner()
    ensures exists ts ::
      && Runs(INIT, ts)
      && Enrolled(After(INIT, ts), 9, "k", 5)
      && "k" in After(INIT, ts).rows
      && After(INIT, ts).attempts[9].r != Ok(After(INIT, ts).rows["k"].user)
  {
    var ts := [Create("k", 1, None), Read(9, "k", 5, 0), Create("k", 2, None), Claim(9)];
    var s1 := Next(INIT, ts[0]);
    var s2 := Next(s1, ts[1]);
    var s3 := Next(s2, ts[2]);
    var s4 := Next(s3, ts[3]);
    OneMore(s3, ts[3], []);
    OneMore(s2, ts[2], [ts[3]]);
    OneMore(s1, ts[1], [ts[2], ts[3]]);
    OneMore(INIT, ts[0], [ts[1], ts[2], ts[3]]);
    assert ts == [ts[0]] + [ts[1], ts[2], ts[3]];
    assert After(INIT, ts) == s4;
  }
}
