/**
 The windowed request counter of the coordinator's rate limits (crates/coordinator/src/limiter.rs).

 `Decide` is the whole effect of one request as a function; the class below performs it in place. The
 theorem is about runs: however the fixed windows fall, a span shorter than one window meets at most
 two of them.
 */
module Limiter {
  import opened Prelude

  type Ip = nat

  datatype Caps = Caps(window: Time, maxPerIp: nat, maxTotal: nat, maxTrackedIps: nat)

  datatype Counter = Counter(start: Time, total: nat, perIp: map<Ip, nat>)

  datatype Request = Request(ip: Ip, at: Time)

  /** The counter after the window has been restarted if the request falls past it. */
  function Rolled(caps: Caps, c: Counter, now: Time): Counter {
    if Since(now, c.start) >= caps.window then Counter(now, 0, map[]) else c
  }

  predicate HasRoom(caps: Caps, c: Counter, ip: Ip) {
    && c.total < caps.maxTotal
    && if ip in c.perIp then c.perIp[ip] < caps.maxPerIp else |c.perIp| < caps.maxTrackedIps
  }

  function Charged(c: Counter, ip: Ip): Counter {
    c.(total := c.total + 1, perIp := c.perIp[ip := if ip in c.perIp then c.perIp[ip] + 1 else 1])
  }

  /** One request: the counter afterwards and whether it was admitted. */
  function Decide(caps: Caps, c: Counter, r: Request): (Counter, bool) {
    var w := Rolled(caps, c, r.at);
    if HasRoom(caps, w, r.ip) then (Charged(w, r.ip), true) else (w, false)
  }

  // ---- What one counter always satisfies ----

  /** `m` holds each source as often as `perIp` counts it. */
  ghost predicate Tallies(perIp: map<Ip, nat>, m: multiset<Ip>) {
    forall ip :: m[ip] == if ip in perIp then perIp[ip] else 0
  }

  /** What one source, or everybody together, may be granted in one window. The first request of a
      source is not compared with `maxPerIp`, so a cap of zero still lets one through. */
  function Cap(caps: Caps, who: Option<Ip>): nat {
    match who
    case None => caps.maxTotal
    case Some(_) => Max(1, caps.maxPerIp)
  }

  function Used(c: Counter, who: Option<Ip>): nat {
    match who
    case None => c.total
    case Some(ip) => if ip in c.perIp then c.perIp[ip] else 0
  }

  /** The total is the sum of the per-source counts, and every cap is respected. */
  ghost predicate Sound(caps: Caps, c: Counter) {
    && (exists m :: Tallies(c.perIp, m) && |m| == c.total)
    && (forall who :: Used(c, who) <= Cap(caps, who))
    && |c.perIp| <= caps.maxTrackedIps
  }

  lemma FreshIsSound(caps: Caps, now: Time)
    ensures Sound(caps, Counter(now, 0, map[]))
  {
    assert Tallies(map[], multiset{});
  }

  lemma TalliesOneMore(w: Counter, ip: Ip, m: multiset<Ip>)
    requires Tallies(w.perIp, m)
    ensures Tallies(Charged(w, ip).perIp, m + multiset{ip})
  {
  }

  lemma ChargedKeepsSound(caps: Caps, w: Counter, ip: Ip)
    requires Sound(caps, w) && HasRoom(caps, w, ip)
    ensures Sound(caps, Charged(w, ip))
  {
    var m :| Tallies(w.perIp, m) && |m| == w.total;
    var d := Charged(w, ip);
    TalliesOneMore(w, ip, m);
    assert |m + multiset{ip}| == d.total;
    forall who ensures Used(d, who) <= Cap(caps, who) {
      assert Used(w, who) <= Cap(caps, who);
    }
    assert d.perIp.Keys == w.perIp.Keys + {ip};
    assert |d.perIp| == |d.perIp.Keys| && |w.perIp| == |w.perIp.Keys|;
    if ip in w.perIp {
      assert d.perIp.Keys == w.perIp.Keys;
    }
  }

  lemma DecideKeepsSound(caps: Caps, c: Counter, r: Request)
    requires Sound(caps, c)
    ensures Sound(caps, Decide(caps, c, r).0)
  {
    var w := Rolled(caps, c, r.at);
    FreshIsSound(caps, r.at);
    assert Sound(caps, w);
    if HasRoom(caps, w, r.ip) {
      ChargedKeepsSound(caps, w, r.ip);
    }
  }

  // ---- Runs ----

  predicate Ordered(rs: seq<Request>, from: Time) {
    |rs| == 0 || (from <= rs[0].at && Ordered(rs[1..], rs[0].at))
  }

  predicate Counts(r: Request, who: Option<Ip>, lo: Time, hi: Time) {
    lo <= r.at < hi && (who.None? || who.value == r.ip)
  }

  /** How many of the requests made in [lo, hi) by `who` (by anyone, for None) the run admits. */
  function Admitted(caps: Caps, c: Counter, rs: seq<Request>, who: Option<Ip>, lo: Time, hi: Time): nat
    decreases |rs|
  {
    if |rs| == 0 then 0
    else
      var (d, ok) := Decide(caps, c, rs[0]);
      (if ok && Counts(rs[0], who, lo, hi) then 1 else 0) + Admitted(caps, d, rs[1..], who, lo, hi)
  }

  lemma {:induction false} NothingAfter(caps: Caps, c: Counter, rs: seq<Request>, who: Option<Ip>, lo: Time, hi: Time)
    requires Ordered(rs, hi)
    ensures Admitted(caps, c, rs, who, lo, hi) == 0
    decreases |rs|
  {
    if |rs| > 0 {
      OrderedWeaken(rs[1..], rs[0].at, hi);
      NothingAfter(caps, Decide(caps, c, rs[0]).0, rs[1..], who, lo, hi);
    }
  }

  lemma OrderedWeaken(rs: seq<Request>, from: Time, earlier: Time)
    requires Ordered(rs, from) && earlier <= from
    ensures Ordered(rs, earlier)
  {
  }

  /** Inside one window, the admissions still to come fit in the room that is left. */
  lemma {:induction false} WithinWindow(caps: Caps, c: Counter, rs: seq<Request>, from: Time, who: Option<Ip>,
                                        lo: Time, hi: Time)
    requires Sound(caps, c) && Ordered(rs, from)
    requires 0 < caps.window && hi <= c.start + caps.window
    ensures Used(c, who) + Admitted(caps, c, rs, who, lo, hi) <= Cap(caps, who)
    decreases |rs|
  {
    if |rs| > 0 {
      var (d, ok) := Decide(caps, c, rs[0]);
      if rs[0].at < hi {
        DecideKeepsSound(caps, c, rs[0]);
        WithinWindow(caps, d, rs[1..], rs[0].at, who, lo, hi);
      } else {
        NothingAfter(caps, c, rs, who, lo, hi);
      }
    }
  }

  /** After a restart only one window is left before lo + window. */
  lemma {:induction false} FromRestart(caps: Caps, c: Counter, rs: seq<Request>, lo: Time, from: Time,
                                       who: Option<Ip>, hi: Time)
    requires Sound(caps, c) && Ordered(rs, from) && lo <= from && hi <= lo + caps.window && |rs| > 0
    requires Since(rs[0].at, c.start) >= caps.window
    ensures Admitted(caps, c, rs, who, lo, hi) <= Cap(caps, who)
  {
    var w := Counter(rs[0].at, 0, map[]);
    FreshIsSound(caps, rs[0].at);
    if caps.window == 0 {
      OrderedWeaken(rs, from, hi);
      NothingAfter(caps, c, rs, who, lo, hi);
    } else {
      assert Decide(caps, w, rs[0]) == Decide(caps, c, rs[0]);
      WithinWindow(caps, w, rs, from, who, lo, hi);
    }
  }

  /** Once the clock has reached `lo`, at most one restart separates the admissions before lo + window. */
  lemma {:induction false} AcrossOneRestart(caps: Caps, c: Counter, rs: seq<Request>, lo: Time, from: Time,
                                            who: Option<Ip>, hi: Time)
    requires Sound(caps, c) && Ordered(rs, from) && lo <= from && hi <= lo + caps.window
    ensures Used(c, who) + Admitted(caps, c, rs, who, lo, hi) <= 2 * Cap(caps, who)
    decreases |rs|
  {
    if |rs| > 0 {
      if Since(rs[0].at, c.start) >= caps.window {
        FromRestart(caps, c, rs, lo, from, who, hi);
        assert Used(c, who) <= Cap(caps, who);
      } else {
        DecideKeepsSound(caps, c, rs[0]);
        AcrossOneRestart(caps, Decide(caps, c, rs[0]).0, rs[1..], lo, rs[0].at, who, hi);
      }
    }
  }

  /** Over any run with a monotone clock, any span no longer than the window admits at most twice the
      cap: overall, and for each source. */
  lemma {:induction false} SpanBound(caps: Caps, c: Counter, rs: seq<Request>, from: Time, who: Option<Ip>, lo: Time,
                                     hi: Time)
    requires Sound(caps, c) && Ordered(rs, from) && hi <= lo + caps.window
    ensures Admitted(caps, c, rs, who, lo, hi) <= 2 * Cap(caps, who)
    decreases |rs|
  {
    if |rs| > 0 {
      if rs[0].at < lo {
        DecideKeepsSound(caps, c, rs[0]);
        SpanBound(caps, Decide(caps, c, rs[0]).0, rs[1..], rs[0].at, who, lo, hi);
      } else {
        AcrossOneRestart(caps, c, rs, lo, rs[0].at, who, hi);
      }
    }
  }

  /** The documented per-source cap, as a bound on every run. */
  ghost predicate DocumentedSourceBound(caps: Caps) {
    forall c, rs, from: Time, ip: Ip, lo: Time, hi: Time ::
      Sound(caps, c) && Ordered(rs, from) && hi <= lo + caps.window ==>
        Admitted(caps, c, rs, Some(ip), lo, hi) <= 2 * caps.maxPerIp
  }

  /** The counter grants nothing at all. */
  predicate Closed(caps: Caps) {
    caps.maxTotal == 0 || caps.maxTrackedIps == 0
  }

  lemma {:induction false} ClosedAdmitsNothing(caps: Caps, c: Counter, rs: seq<Request>, who: Option<Ip>, lo: Time,
                                               hi: Time)
    requires Closed(caps) && Sound(caps, c)
    ensures Admitted(caps, c, rs, who, lo, hi) == 0
    decreases |rs|
  {
    if |rs| > 0 {
      DecideKeepsSound(caps, c, rs[0]);
      assert Used(c, None) <= Cap(caps, None);
      assert |c.perIp| == |c.perIp.Keys|;
      ClosedAdmitsNothing(caps, Decide(caps, c, rs[0]).0, rs[1..], who, lo, hi);
    }
  }

  lemma {:induction false} EmptySpanAdmitsNothing(caps: Caps, c: Counter, rs: seq<Request>, who: Option<Ip>, lo: Time,
                                                  hi: Time)
    requires hi <= lo
    ensures Admitted(caps, c, rs, who, lo, hi) == 0
    decreases |rs|
  {
    if |rs| > 0 {
      EmptySpanAdmitsNothing(caps, Decide(caps, c, rs[0]).0, rs[1..], who, lo, hi);
    }
  }

  /** It holds exactly when `maxPerIp` is at least one, or nothing can be admitted anyway: otherwise a source's
      first request in a window is admitted without being compared with the cap. */
  lemma {:induction false} DocumentedSourceBoundExactly(caps: Caps)
    ensures DocumentedSourceBound(caps) <==> caps.maxPerIp >= 1 || Closed(caps) || caps.window == 0
  {
    if Closed(caps) || caps.window == 0 {
      forall c, rs, from: Time, ip: Ip, lo: Time, hi: Time |
          Sound(caps, c) && Ordered(rs, from) && hi <= lo + caps.window
        ensures Admitted(caps, c, rs, Some(ip), lo, hi) <= 2 * caps.maxPerIp
      {
        if Closed(caps) {
          ClosedAdmitsNothing(caps, c, rs, Some(ip), lo, hi);
        } else {
          EmptySpanAdmitsNothing(caps, c, rs, Some(ip), lo, hi);
        }
      }
    } else if caps.maxPerIp >= 1 {
      forall c, rs, from: Time, ip: Ip, lo: Time, hi: Time |
          Sound(caps, c) && Ordered(rs, from) && hi <= lo + caps.window
        ensures Admitted(caps, c, rs, Some(ip), lo, hi) <= 2 * caps.maxPerIp
      {
        SpanBound(caps, c, rs, from, Some(ip), lo, hi);
      }
    } else {
      var c, r := Counter(0, 0, map[]), Request(0, 0);
      FreshIsSound(caps, 0);
      assert Ordered([r], 0);
      assert Decide(caps, c, r).1;
      assert Admitted(caps, c, [r], Some(0), 0, caps.window) == 1;
    }
  }

  // ---- Exactly what is granted ----

  /** The limit as a log would keep it: when the window began, and the source of every request granted in it. */
  datatype Log = Log(start: Time, granted: multiset<Ip>)

  function Sources(m: multiset<Ip>): set<Ip> {
    set ip | ip in m
  }

  /** A request is granted exactly if the window has granted fewer than the overall cap, and to its source fewer than
      the source's cap, or nothing yet while fewer sources than can be tracked were granted anything. */
  predicate Grants(caps: Caps, m: multiset<Ip>, ip: Ip) {
    |m| < caps.maxTotal && if m[ip] > 0 then m[ip] < caps.maxPerIp else |Sources(m)| < caps.maxTrackedIps
  }

  function Logged(caps: Caps, l: Log, r: Request): (Log, bool) {
    var w := if r.at >= l.start + caps.window then Log(r.at, multiset{}) else l;
    if Grants(caps, w.granted, r.ip) then (Log(w.start, w.granted + multiset{r.ip}), true) else (w, false)
  }

  function Verdicts(caps: Caps, c: Counter, rs: seq<Request>): seq<bool>
    decreases |rs|
  {
    if |rs| == 0 then [] else [Decide(caps, c, rs[0]).1] + Verdicts(caps, Decide(caps, c, rs[0]).0, rs[1..])
  }

  function LoggedVerdicts(caps: Caps, l: Log, rs: seq<Request>): seq<bool>
    decreases |rs|
  {
    if |rs| == 0 then [] else [Logged(caps, l, rs[0]).1] + LoggedVerdicts(caps, Logged(caps, l, rs[0]).0, rs[1..])
  }

  /** The counter stands for this log. */
  ghost predicate Keeps(c: Counter, l: Log) {
    c.start == l.start && c.total == |l.granted| && Counted(c.perIp, l.granted)
  }

  /** The sources counted are those granted something, each as often as it was. */
  ghost predicate Counted(perIp: map<Ip, nat>, m: multiset<Ip>) {
    Tallies(perIp, m) && forall ip :: ip in perIp ==> perIp[ip] > 0
  }

  lemma TrackedAreSources(perIp: map<Ip, nat>, m: multiset<Ip>)
    requires Counted(perIp, m)
    ensures |perIp| == |Sources(m)|
  {
    forall ip ensures ip in perIp <==> ip in m {
      assert m[ip] == if ip in perIp then perIp[ip] else 0;
    }
    assert perIp.Keys == Sources(m);
    assert |perIp| == |perIp.Keys|;
  }

  lemma DecideKeepsLog(caps: Caps, c: Counter, l: Log, r: Request)
    requires Keeps(c, l) && l.start <= r.at
    ensures Decide(caps, c, r).1 == Logged(caps, l, r).1
    ensures Keeps(Decide(caps, c, r).0, Logged(caps, l, r).0)
  {
    var w := Rolled(caps, c, r.at);
    var m := if r.at >= l.start + caps.window then multiset{} else l.granted;
    assert Counted(w.perIp, m) && w.total == |m|;
    TrackedAreSources(w.perIp, m);
    assert m[r.ip] == if r.ip in w.perIp then w.perIp[r.ip] else 0;
    TalliesOneMore(w, r.ip, m);
  }

  /** Over any run with a monotone clock the counter grants exactly what the log would. */
  lemma {:induction false} VerdictsFollowLog(caps: Caps, c: Counter, l: Log, rs: seq<Request>)
    requires Keeps(c, l) && Ordered(rs, l.start)
    ensures Verdicts(caps, c, rs) == LoggedVerdicts(caps, l, rs)
    decreases |rs|
  {
    if |rs| > 0 {
      DecideKeepsLog(caps, c, l, rs[0]);
      VerdictsFollowLog(caps, Decide(caps, c, rs[0]).0, Logged(caps, l, rs[0]).0, rs[1..]);
    }
  }

  /** What a source gets that has the window to itself. */
  function Allowance(caps: Caps): nat {
    if caps.maxTrackedIps == 0 then 0 else Min(caps.maxTotal, Max(1, caps.maxPerIp))
  }

  /** A source alone is granted its requests up to its allowance, and no more, until the window ends. */
  lemma {:induction false} LoneSourceGetsItsAllowance(caps: Caps, start: Time, rs: seq<Request>, from: Time, ip: Ip,
                                                      used: nat)
    requires Ordered(rs, from) && start <= from && used <= Allowance(caps)
    requires forall r :: r in rs ==> r.ip == ip && r.at < start + caps.window
    ensures
      var c := Counter(start, used, if used == 0 then map[] else map[ip := used]);
      Admitted(caps, c, rs, Some(ip), start, start + caps.window) == Min(|rs|, Allowance(caps) - used)
    decreases |rs|
  {
    if |rs| > 0 {
      var c := Counter(start, used, if used == 0 then map[] else map[ip := used]);
      assert rs[0] in rs && forall r :: r in rs[1..] ==> r in rs;
      assert |c.perIp| == if used == 0 then 0 else 1;
      if used < Allowance(caps) {
        assert c.perIp[ip := used + 1] == map[ip := used + 1];
        assert Decide(caps, c, rs[0]) == (Counter(start, used + 1, map[ip := used + 1]), true);
        LoneSourceGetsItsAllowance(caps, start, rs[1..], rs[0].at, ip, used + 1);
      } else {
        assert Decide(caps, c, rs[0]) == (c, false);
        LoneSourceGetsItsAllowance(caps, start, rs[1..], rs[0].at, ip, used);
      }
    }
  }

  // ---- The counter as the source keeps it ----

  class WindowCounter {
    const caps: Caps
    var windowStart: Time
    var total: nat
    var perIp: map<Ip, nat>

    ghost function View(): Counter
      reads this
    {
      Counter(windowStart, total, perIp)
    }

    constructor (caps: Caps, now: Time)
      ensures this.caps == caps && View() == Counter(now, 0, map[]) && Sound(caps, View())
    {
      this.caps := caps;
      windowStart, total, perIp := now, 0, map[];
      new;
      FreshIsSound(caps, now);
    }

    method Allow(ip: Ip, now: Time) returns (ok: bool)
      requires Sound(caps, View())
      modifies this
      ensures Sound(caps, View())
      ensures (View(), ok) == Decide(caps, old(View()), Request(ip, now))
    {
      DecideKeepsSound(caps, View(), Request(ip, now));
      if Since(now, windowStart) >= caps.window {
        windowStart, total, perIp := now, 0, map[];
      }
      if total >= caps.maxTotal {
        return false;
      }
      if ip in perIp {
        if perIp[ip] >= caps.maxPerIp {
          return false;
        }
        perIp := perIp[ip := perIp[ip] + 1];
      } else {
        if |perIp| >= caps.maxTrackedIps {
          return false;
        }
        perIp := perIp[ip := 1];
      }
      total := total + 1;
      ok := true;
    }
  }
}
