/**
 The per-(guild, user) member cache behind the gate (crates/coordinator/src/discord.rs): one time to
 live for members and a longer one for known absences, entries dropped on demand and swept now and then.

 The reference is the history itself: a lookup must answer from the last thing recorded about the key.
 */
module MemberCache {
  import opened Prelude

  datatype Id = Id(guild: nat, user: nat)

  datatype Roles = Roles(username: string, roleIds: seq<nat>)

  /** `roles` is None for a user known not to be in the guild. */
  datatype Entry = Entry(fetched: Time, roles: Option<Roles>)

  const LONGPOLL_HOLD_SECS: Time := 900
  const MEMBER_TTL: Time := 30
  const MEMBER_ABSENT_TTL: Time := LONGPOLL_HOLD_SECS
  const MEMBER_PRUNE_EVERY: Time := MEMBER_ABSENT_TTL

  predicate Fresh(e: Entry, now: Time) {
    Since(now, e.fetched) < if e.roles.Some? then MEMBER_TTL else MEMBER_ABSENT_TTL
  }

  datatype Event = Stored(id: Id, roles: Option<Roles>, at: Time) | Forgotten(id: Id, at: Time)

  predicate Chronological(log: seq<Event>, until: Time) {
    |log| == 0 || (log[|log| - 1].at <= until && Chronological(log[..|log| - 1], log[|log| - 1].at))
  }

  /** The last thing recorded about a key, unless it was forgotten since. */
  function Latest(log: seq<Event>, id: Id): Option<Entry> {
    if |log| == 0 then None
    else
      var last := log[|log| - 1];
      if last.id != id then Latest(log[..|log| - 1], id)
      else if last.Stored? then Some(Entry(last.at, last.roles)) else None
  }

  /** What a lookup must answer: None is a miss, Some(None) a known absence. */
  function Truth(log: seq<Event>, id: Id, now: Time): Option<Option<Roles>> {
    match Latest(log, id)
    case Some(e) => if Fresh(e, now) then Some(e.roles) else None
    case None => None
  }

  /** The map holds the last record of each key, except those that had expired when it was last swept. */
  ghost predicate Follows(entries: map<Id, Entry>, log: seq<Event>, swept: Time) {
    && (forall id :: id in entries <==> Latest(log, id).Some? && Fresh(Latest(log, id).value, swept))
    && (forall id :: id in entries ==> Latest(log, id) == Some(entries[id]))
  }

  /** When a cache made at `born` was last swept: a store sweeps it if the sweep before is 900 seconds old. */
  function SweptAt(born: Time, log: seq<Event>): Time {
    if |log| == 0 then born
    else
      var before, last := SweptAt(born, log[..|log| - 1]), log[|log| - 1];
      if last.Stored? && Since(last.at, before) >= 900 then last.at else before
  }

  lemma ExpiredForGood(e: Entry, now: Time, later: Time)
    requires !Fresh(e, now) && now <= later
    ensures !Fresh(e, later)
  {
  }

  lemma LatestOn(log: seq<Event>, e: Event, id: Id)
    ensures Latest(log + [e], id) ==
      if e.id != id then Latest(log, id) else if e.Stored? then Some(Entry(e.at, e.roles)) else None
  {
    assert (log + [e])[..|log|] == log;
  }

  lemma RecordFollows(entries: map<Id, Entry>, log: seq<Event>, swept: Time, e: Event)
    requires Follows(entries, log, swept) && swept <= e.at
    ensures Follows(if e.Stored? then entries[e.id := Entry(e.at, e.roles)] else entries - {e.id}, log + [e], swept)
  {
    forall id ensures Latest(log + [e], id) ==
      if e.id != id then Latest(log, id) else if e.Stored? then Some(Entry(e.at, e.roles)) else None
    {
      LatestOn(log, e, id);
    }
  }

  function Swept(entries: map<Id, Entry>, now: Time): map<Id, Entry> {
    map k | k in entries && Fresh(entries[k], now) :: entries[k]
  }

  lemma SweepFollows(entries: map<Id, Entry>, log: seq<Event>, swept: Time, now: Time)
    requires Follows(entries, log, swept) && swept <= now
    ensures Follows(Swept(entries, now), log, now)
  {
    forall id | id !in entries && Latest(log, id).Some? ensures !Fresh(Latest(log, id).value, now) {
      ExpiredForGood(Latest(log, id).value, swept, now);
    }
    assert forall id :: id in entries ==> Latest(log, id) == Some(entries[id]);
  }

  /** The i-th event is the last about its key. */
  ghost predicate LastAbout(log: seq<Event>, i: nat) {
    i < |log| && forall j :: i < j < |log| ==> log[j].id != log[i].id
  }

  lemma LastAboutBefore(log: seq<Event>, last: Event, i: nat)
    requires i < |log|
    ensures LastAbout(log + [last], i) <==> LastAbout(log, i) && last.id != log[i].id
  {
    assert (log + [last])[|log|] == last && forall j :: 0 <= j < |log| ==> (log + [last])[j] == log[j];
  }

  lemma {:induction false} LatestExactly(log: seq<Event>, id: Id, e: Entry)
    ensures Latest(log, id) == Some(e) <==>
      exists i: nat :: LastAbout(log, i) && log[i] == Stored(id, e.roles, e.fetched)
  {
    if |log| > 0 {
      var before, last := log[..|log| - 1], log[|log| - 1];
      LatestExactly(before, id, e);
      assert log == before + [last];
      forall i: nat | i < |before| ensures LastAbout(log, i) <==> LastAbout(before, i) && last.id != before[i].id {
        LastAboutBefore(before, last, i);
      }
      if last.id == id {
        assert LastAbout(log, |log| - 1);
      } else if Latest(before, id) == Some(e) {
        var i: nat :| LastAbout(before, i) && before[i] == Stored(id, e.roles, e.fetched);
        assert LastAbout(log, i) && log[i] == before[i];
      }
    }
  }

  /** An answer is served exactly if it is the last thing recorded about the key and less than 30 seconds old for a
      member, less than 900 for somebody known to be absent. */
  lemma AnswersExactly(log: seq<Event>, id: Id, now: Time, roles: Option<Roles>)
    requires Chronological(log, now)
    ensures Truth(log, id, now) == Some(roles) <==>
      exists i: nat ::
        && LastAbout(log, i) && log[i] == Stored(id, roles, log[i].at)
        && now < log[i].at + if roles.Some? then 30 else 900
  {
    ChronologicalMeans(log, now);
    if Latest(log, id).Some? {
      LatestExactly(log, id, Latest(log, id).value);
    }
    if i: nat :| LastAbout(log, i) && log[i] == Stored(id, roles, log[i].at) {
      LatestExactly(log, id, Entry(log[i].at, roles));
    }
  }

  lemma {:induction false} ChronologicalMeans(log: seq<Event>, until: Time)
    requires Chronological(log, until)
    ensures forall i :: 0 <= i < |log| ==> log[i].at <= until
  {
    if |log| > 0 {
      ChronologicalMeans(log[..|log| - 1], log[|log| - 1].at);
    }
  }

  lemma {:induction false} SweptRecently(born: Time, log: seq<Event>)
    requires |log| > 0 && log[|log| - 1].Stored? && Chronological(log, log[|log| - 1].at)
    requires forall i :: 0 <= i < |log| ==> born <= log[i].at
    ensures SweptAt(born, log) <= log[|log| - 1].at < SweptAt(born, log) + 900
  {
    SweptBefore(born, log[..|log| - 1], log[|log| - 1].at);
  }

  lemma {:induction false} SweptBefore(born: Time, log: seq<Event>, until: Time)
    requires Chronological(log, until) && born <= until && forall i :: 0 <= i < |log| ==> born <= log[i].at
    ensures SweptAt(born, log) <= until
  {
    if |log| > 0 {
      SweptBefore(born, log[..|log| - 1], log[|log| - 1].at);
    }
  }

  /** The map stays small: right after a store it holds only records of the last half hour, and every record that is
      younger than 30 seconds, or than 900 if of an absence. */
  lemma MapHoldsRecent(entries: map<Id, Entry>, born: Time, log: seq<Event>, id: Id)
    requires |log| > 0 && log[|log| - 1].Stored? && Chronological(log, log[|log| - 1].at)
    requires forall i :: 0 <= i < |log| ==> born <= log[i].at
    requires Follows(entries, log, SweptAt(born, log))
    ensures id in entries ==> log[|log| - 1].at < entries[id].fetched + 1800
    ensures Truth(log, id, log[|log| - 1].at).Some? ==> id in entries
  {
    SweptRecently(born, log);
    if Truth(log, id, log[|log| - 1].at).Some? && id !in entries {
      ExpiredForGood(Latest(log, id).value, SweptAt(born, log), log[|log| - 1].at);
    }
  }

  lemma MapIsRecent(entries: map<Id, Entry>, born: Time, log: seq<Event>)
    requires |log| > 0 && log[|log| - 1].Stored? && Chronological(log, log[|log| - 1].at)
    requires forall i :: 0 <= i < |log| ==> born <= log[i].at
    requires Follows(entries, log, SweptAt(born, log))
    ensures forall id :: id in entries ==> log[|log| - 1].at < entries[id].fetched + 1800
  {
    forall id | id in entries ensures log[|log| - 1].at < entries[id].fetched + 1800 {
      MapHoldsRecent(entries, born, log, id);
    }
  }

  /** The log is in the order of the clock, from the time the cache was made. */
  ghost predicate Timed(log: seq<Event>, born: Time, clock: Time) {
    Chronological(log, clock) && born <= clock && forall i :: 0 <= i < |log| ==> born <= log[i].at
  }

  lemma TimedOn(log: seq<Event>, born: Time, clock: Time, e: Event)
    requires Timed(log, born, clock) && clock <= e.at
    ensures Timed(log + [e], born, e.at)
    ensures SweptAt(born, log + [e]) ==
      if e.Stored? && Since(e.at, SweptAt(born, log)) >= 900 then e.at else SweptAt(born, log)
  {
    assert (log + [e])[..|log|] == log;
    if |log| > 0 {
      assert Chronological(log, e.at);
    }
  }

  class Cache {
    var entries: map<Id, Entry>
    var pruned: Time
    ghost var log: seq<Event>
    ghost var clock: Time
    ghost const born: Time

    ghost predicate Valid()
      reads this
    {
      && Timed(log, born, clock) && pruned <= clock
      && pruned == SweptAt(born, log) && Follows(entries, log, pruned)
    }

    constructor (now: Time)
      ensures Valid() && log == [] && clock == born == now
    {
      entries, pruned, log, clock, born := map[], now, [], now, now;
    }

    /** A lookup answers exactly what the history says, however often the map was swept. */
    method Cached(id: Id, now: Time) returns (r: Option<Option<Roles>>)
      requires Valid() && clock <= now
      ensures r == Truth(log, id, now)
    {
      if id !in entries {
        if Latest(log, id).Some? {
          ExpiredForGood(Latest(log, id).value, pruned, now);
        }
        return None;
      }
      if !Fresh(entries[id], now) {
        return None;
      }
      r := Some(entries[id].roles);
    }

    method Store(id: Id, roles: Option<Roles>, now: Time)
      requires Valid() && clock <= now
      modifies this
      ensures Valid() && clock == now && log == old(log) + [Stored(id, roles, now)]
      ensures forall k :: k in entries ==> now < entries[k].fetched + 1800
    {
      RecordFollows(entries, log, pruned, Stored(id, roles, now));
      TimedOn(log, born, clock, Stored(id, roles, now));
      log, clock := log + [Stored(id, roles, now)], now;
      entries := entries[id := Entry(now, roles)];
      if Since(now, pruned) >= MEMBER_PRUNE_EVERY {
        SweepFollows(entries, log, pruned, now);
        entries := Swept(entries, now);
        pruned := now;
      }
      MapIsRecent(entries, born, log);
    }

    method Forget(id: Id, now: Time)
      requires Valid() && clock <= now
      modifies this
      ensures Valid() && clock == now && log == old(log) + [Forgotten(id, now)]
    {
      RecordFollows(entries, log, pruned, Forgotten(id, now));
      TimedOn(log, born, clock, Forgotten(id, now));
      log, clock := log + [Forgotten(id, now)], now;
      entries := entries - {id};
    }
  }
}
