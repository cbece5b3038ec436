/**
 The resolver's zone (crates/engine/src/dns.rs): every mesh name resolves under `unity.internal` and,
 when the deployment has a certificate domain, under that domain as well.
 */
module MeshZone {
  import opened Prelude

  type Ip = nat

  const DOT_SUFFIX: string := ".unity.internal"

  datatype Zone = Zone(names: map<string, Ip>, wildcard: map<string, Ip>, certDomain: Option<string>)

  // ---- Strings ----

  function LowerChar(c: char): char {
    if 'A' <= c <= 'Z' then (c as int + 32) as char else c
  }

  function Lower(s: string): (r: string)
    ensures |r| == |s|
    ensures forall i :: 0 <= i < |s| ==> r[i] == LowerChar(s[i])
  {
    seq(|s|, i requires 0 <= i < |s| => LowerChar(s[i]))
  }

  function TrimDots(s: string): string {
    if |s| > 0 && s[|s| - 1] == '.' then TrimDots(s[..|s| - 1]) else s
  }

  function Norm(name: string): string {
    Lower(TrimDots(name))
  }

  predicate EndsWith(s: string, tail: string) {
    |tail| <= |s| && s[|s| - |tail|..] == tail
  }

  function StripSuffix(s: string, tail: string): Option<string> {
    if EndsWith(s, tail) then Some(s[..|s| - |tail|]) else None
  }

  /** What follows the first dot. */
  function AfterFirstDot(s: string): Option<string> {
    if |s| == 0 then None else if s[0] == '.' then Some(s[1..]) else AfterFirstDot(s[1..])
  }

  // ---- Names ----

  function Hostname(device: string, user: string): string {
    device + "." + user + DOT_SUFFIX
  }

  function UserAlias(user: string): string {
    user + DOT_SUFFIX
  }

  /** The same name under the certificate domain. */
  function CertificateAlias(name: string, domain: Option<string>): Option<string> {
    match domain
    case None => None
    case Some(d) =>
      match StripSuffix(name, DOT_SUFFIX)
      case None => None
      case Some(stem) => Some(Lower(stem + "." + d))
  }

  // ---- Building the zone ----

  /** One name of the zone; `sub` says that names one label below it resolve to it too. */
  datatype Entry = Entry(name: string, ip: Ip, sub: bool)

  datatype Device = Device(device: string, user: string, ip: Ip, primary: bool)

  function Add(z: Zone, e: Entry): Zone {
    var n := Norm(e.name);
    var y := match CertificateAlias(n, z.certDomain)
      case None => z
      case Some(alias) =>
        z.(names := z.names[alias := e.ip], wildcard := if e.sub then z.wildcard[alias := e.ip] else z.wildcard);
    y.(names := y.names[n := e.ip], wildcard := if e.sub then y.wildcard[n := e.ip] else y.wildcard)
  }

  function AddAll(z: Zone, es: seq<Entry>): Zone {
    if |es| == 0 then z else Add(AddAll(z, es[..|es| - 1]), es[|es| - 1])
  }

  /** A device's own name, and the bare user alias if it is its owner's primary. */
  function EntriesOf(d: Device): seq<Entry> {
    [Entry(Hostname(d.device, d.user), d.ip, true)] +
    if d.primary then [Entry(UserAlias(d.user), d.ip, false)] else []
  }

  function DeviceEntries(ds: seq<Device>): seq<Entry> {
    if |ds| == 0 then [] else DeviceEntries(ds[..|ds| - 1]) + EntriesOf(ds[|ds| - 1])
  }

  /** A service claim that won its name, composed under its owner's label. */
  datatype Service = Service(name: string, user: string, ip: Ip)

  function ServiceEntries(services: seq<Service>): seq<Entry> {
    if |services| == 0 then []
    else
      var s := services[|services| - 1];
      ServiceEntries(services[..|services| - 1]) + [Entry(Lower(Hostname(s.name, s.user)), s.ip, false)]
  }

  function Empty(domain: Option<string>): Zone {
    Zone(map[], map[], domain)
  }

  /** Services first, so that device names overwrite them. */
  function Built(ds: seq<Device>, services: seq<Service>, domain: Option<string>): Zone {
    AddAll(AddAll(Empty(domain), ServiceEntries(services)), DeviceEntries(ds))
  }

  // ---- Looking up ----

  function Get(m: map<string, Ip>, k: string): Option<Ip> {
    if k in m then Some(m[k]) else None
  }

  function Lookup(z: Zone, name: string): Option<Ip> {
    if name in z.names then Some(z.names[name]) else ByWildcard(z, name)
  }

  function ByWildcard(z: Zone, name: string): Option<Ip> {
    match AfterFirstDot(name)
    case None => None
    case Some(base) => Get(z.wildcard, base)
  }

  predicate Ours(z: Zone, name: string) {
    EndsWith(name, DOT_SUFFIX) || (z.certDomain.Some? && EndsWith(name, "." + z.certDomain.value))
  }

  // ---- A certificate domain that is nobody's internal name ----

  /** What configuration validation leaves: lower case, and not `internal` or anything under it. */
  predicate Issuable(domain: string) {
    Lower(domain) == domain && domain != "internal" && !EndsWith(domain, ".internal")
  }

  /** What follows the last dot, or the whole name if it has none. */
  function LastLabel(s: string): string {
    if '.' !in s then s else LastLabel(s[1..])
  }

  lemma {:induction false} LastLabelIs(s: string, front: string, last: string)
    requires '.' !in last && s == front + "." + last
    ensures LastLabel(s) == last
  {
    assert s[|front|] == '.';
    if |front| == 0 {
      assert s[1..] == last;
    } else {
      assert s[1..] == front[1..] + "." + last;
      assert s[1..][|front| - 1] == '.';
      LastLabelIs(s[1..], front[1..], last);
    }
  }

  lemma {:induction false} LastLabelSplits(s: string)
    ensures '.' !in LastLabel(s)
    ensures '.' in s ==> EndsWith(s, "." + LastLabel(s))
    ensures '.' !in s ==> LastLabel(s) == s
  {
    if '.' in s {
      if '.' in s[1..] {
        LastLabelSplits(s[1..]);
        var tail := "." + LastLabel(s);
        assert s[|s| - |tail|..] == s[1..][|s| - 1 - |tail|..];
      } else {
        assert s[0] == '.' && s == "." + s[1..];
      }
    }
  }

  /** A lower-case domain can be certified exactly if its last label is not `internal`. */
  lemma IssuableExactly(domain: string)
    ensures Issuable(domain) <==> Lower(domain) == domain && LastLabel(domain) != "internal"
  {
    LastLabelSplits(domain);
    if EndsWith(domain, ".internal") {
      var front := domain[..|domain| - 9];
      assert domain == front + "." + "internal";
      LastLabelIs(domain, front, "internal");
    }
    if domain == "internal" {
      assert '.' !in domain;
    }
    assert "." + "internal" == ".internal";
  }

  lemma EndsWithConcat(a: string, b: string)
    ensures EndsWith(a + b, b)
    ensures StripSuffix(a + b, b) == Some(a)
  {
    assert (a + b)[|a|..] == b && (a + b)[..|a|] == a;
  }

  /** A string ending in `.d` and in `.unity.internal` would make `d` an internal name. */
  lemma SuffixesClash(d: string, x: string, y: string)
    requires Issuable(d)
    ensures x + "." + d != y + DOT_SUFFIX
  {
    if x + "." + d == y + DOT_SUFFIX {
      InternalTail(d, x, y);
    }
  }

  lemma InternalTail(d: string, x: string, y: string)
    requires x + "." + d == y + DOT_SUFFIX
    ensures d == "internal" || EndsWith(d, ".internal")
  {
    var s := y + DOT_SUFFIX;
    var n, k := |s|, |d|;
    assert s == x + "." + d;
    assert forall i {:trigger s[i]} :: n - 15 <= i < n ==> s[i] == DOT_SUFFIX[i - (n - 15)];
    assert forall i {:trigger s[i]} :: n - k <= i < n ==> s[i] == d[i - (n - k)];
    assert s[n - k - 1] == '.';
    if k >= 9 {
      assert s[n - 9..] == ".internal";
      assert d[k - 9..] == s[n - 9..];
    } else {
      OneDotInTail(k);
      assert s[n - 8..] == "internal";
      assert d == s[n - 8..];
    }
  }

  lemma OneDotInTail(k: nat)
    requires k < 9 && DOT_SUFFIX[14 - k] == '.'
    ensures k == 8
  {
  }

  lemma LowerConcat(a: string, b: string)
    ensures Lower(a + b) == Lower(a) + Lower(b)
  {
  }

  lemma NormBelow(stem: string)
    ensures Norm(stem + DOT_SUFFIX) == Lower(stem) + DOT_SUFFIX
    ensures Lower(stem + DOT_SUFFIX) == Lower(stem) + DOT_SUFFIX
  {
    LowerConcat(stem, DOT_SUFFIX);
    assert Lower(DOT_SUFFIX) == DOT_SUFFIX;
    assert (stem + DOT_SUFFIX)[|stem| + 14] == 'l';
  }

  /** For a lower-case name, the alias swaps the suffix. */
  lemma AliasSwaps(stem: string, d: string)
    requires Lower(stem) == stem && Lower(d) == d
    ensures CertificateAlias(stem + DOT_SUFFIX, Some(d)) == Some(stem + "." + d)
  {
    EndsWithConcat(stem, DOT_SUFFIX);
    LowerConcat(stem + ".", d);
    LowerConcat(stem, ".");
    assert Lower(".") == ".";
    assert Lower(stem + "." + d) == stem + "." + d;
  }

  lemma CancelTail(a: string, b: string, tail: string)
    requires a + tail == b + tail
    ensures a == b
  {
    assert (a + tail)[..|a|] == a && (b + tail)[..|b|] == b;
  }

  // ---- Every name has its mirror image ----

  /** Everything below `unity.internal` has the same entry below the certificate domain. */
  ghost predicate Mirrored(m: map<string, Ip>, d: string) {
    forall stem :: MirroredAt(m, d, stem)
  }

  predicate MirroredAt(m: map<string, Ip>, d: string, stem: string) {
    Get(m, stem + DOT_SUFFIX) == Get(m, stem + "." + d)
  }

  /** Every key is a name with at least two labels below one of the two suffixes. */
  ghost predicate HostKeys(m: map<string, Ip>, domain: Option<string>) {
    forall k :: k in m ==> exists stem :: '.' in stem && Names(k, stem, domain)
  }

  predicate Names(k: string, stem: string, domain: Option<string>) {
    k == stem + DOT_SUFFIX || (domain.Some? && k == stem + "." + domain.value)
  }

  /** The entry names something below `unity.internal`, and only a host lets a label stand below it. */
  ghost predicate Below(e: Entry) {
    exists stem :: e.name == stem + DOT_SUFFIX && (e.sub ==> '.' in stem)
  }

  lemma MirroredUpdate(m: map<string, Ip>, d: string, stem: string, ip: Ip)
    requires Issuable(d) && Mirrored(m, d)
    ensures Mirrored(m[stem + "." + d := ip][stem + DOT_SUFFIX := ip], d)
  {
    var u := m[stem + "." + d := ip][stem + DOT_SUFFIX := ip];
    forall t ensures MirroredAt(u, d, t) {
      assert MirroredAt(m, d, t);
      SuffixesClash(d, stem, t);
      SuffixesClash(d, t, stem);
      if t + DOT_SUFFIX == stem + DOT_SUFFIX || t + "." + d == stem + "." + d {
        assert (t + DOT_SUFFIX)[..|t|] == t && (stem + DOT_SUFFIX)[..|stem|] == stem;
        assert (t + "." + d)[..|t|] == t && (stem + "." + d)[..|stem|] == stem;
      }
    }
  }

  /** What adding one entry does to the two maps, in the terms of its stem. */
  lemma AddedKeys(z: Zone, e: Entry, stem: string)
    requires e.name == stem + DOT_SUFFIX && (z.certDomain.Some? ==> Lower(z.certDomain.value) == z.certDomain.value)
    ensures Add(z, e).certDomain == z.certDomain
    ensures z.certDomain.None? ==> Add(z, e).names == z.names[Lower(stem) + DOT_SUFFIX := e.ip]
    ensures z.certDomain.Some? ==>
      Add(z, e).names == z.names[Lower(stem) + "." + z.certDomain.value := e.ip][Lower(stem) + DOT_SUFFIX := e.ip]
    ensures !e.sub ==> Add(z, e).wildcard == z.wildcard
    ensures e.sub && z.certDomain.None? ==> Add(z, e).wildcard == z.wildcard[Lower(stem) + DOT_SUFFIX := e.ip]
    ensures e.sub && z.certDomain.Some? ==>
      Add(z, e).wildcard == z.wildcard[Lower(stem) + "." + z.certDomain.value := e.ip][Lower(stem) + DOT_SUFFIX := e.ip]
  {
    NormBelow(stem);
    if z.certDomain.Some? {
      assert Lower(Lower(stem)) == Lower(stem);
      AliasSwaps(Lower(stem), z.certDomain.value);
    }
  }

  lemma LowerKeepsDot(stem: string)
    requires '.' in stem
    ensures '.' in Lower(stem)
  {
    var i :| 0 <= i < |stem| && stem[i] == '.';
    assert Lower(stem)[i] == '.';
  }

  /** The zone keeps its shape through every entry. */
  ghost predicate Shaped(z: Zone) {
    && HostKeys(z.wildcard, z.certDomain)
    && (z.certDomain.Some? ==> Mirrored(z.names, z.certDomain.value) && Mirrored(z.wildcard, z.certDomain.value))
  }

  lemma AddKeepsShape(z: Zone, e: Entry)
    requires Shaped(z) && Below(e) && (z.certDomain.Some? ==> Issuable(z.certDomain.value))
    ensures Shaped(Add(z, e))
  {
    var stem :| e.name == stem + DOT_SUFFIX && (e.sub ==> '.' in stem);
    AddedKeys(z, e, stem);
    if e.sub {
      LowerKeepsDot(stem);
    }
    var w := Add(z, e).wildcard;
    forall k | k in w ensures exists t :: '.' in t && Names(k, t, z.certDomain) {
      if k !in z.wildcard {
        assert Names(k, Lower(stem), z.certDomain);
      }
    }
    if z.certDomain.Some? {
      MirroredUpdate(z.names, z.certDomain.value, Lower(stem), e.ip);
      MirroredUpdate(z.wildcard, z.certDomain.value, Lower(stem), e.ip);
    }
  }

  lemma {:induction false} AddAllKeepsShape(z: Zone, es: seq<Entry>)
    requires Shaped(z) && (z.certDomain.Some? ==> Issuable(z.certDomain.value))
    requires forall e :: e in es ==> Below(e)
    ensures Shaped(AddAll(z, es)) && AddAll(z, es).certDomain == z.certDomain
  {
    if |es| > 0 {
      AddAllKeepsShape(z, es[..|es| - 1]);
      AddKeepsShape(AddAll(z, es[..|es| - 1]), es[|es| - 1]);
    }
  }

  lemma HostIsBelow(device: string, user: string, ip: Ip, sub: bool)
    ensures Below(Entry(Hostname(device, user), ip, sub))
    ensures Below(Entry(Lower(Hostname(device, user)), ip, sub))
    ensures Below(Entry(UserAlias(user), ip, false))
  {
    var stem := device + "." + user;
    assert stem[|device|] == '.';
    assert Hostname(device, user) == stem + DOT_SUFFIX;
    NormBelow(stem);
    LowerKeepsDot(stem);
    assert UserAlias(user) == user + DOT_SUFFIX;
  }

  lemma {:induction false} EntriesAreBelow(ds: seq<Device>, services: seq<Service>)
    ensures forall e :: e in DeviceEntries(ds) || e in ServiceEntries(services) ==> Below(e)
  {
    if |ds| > 0 {
      EntriesAreBelow(ds[..|ds| - 1], services);
      var d := ds[|ds| - 1];
      HostIsBelow(d.device, d.user, d.ip, true);
    } else if |services| > 0 {
      EntriesAreBelow(ds, services[..|services| - 1]);
      var s := services[|services| - 1];
      HostIsBelow(s.name, s.user, s.ip, false);
    }
  }

  lemma BuiltIsShaped(ds: seq<Device>, services: seq<Service>, domain: Option<string>)
    requires domain.Some? ==> Issuable(domain.value)
    ensures Shaped(Built(ds, services, domain)) && Built(ds, services, domain).certDomain == domain
  {
    EntriesAreBelow(ds, services);
    AddAllKeepsShape(Empty(domain), ServiceEntries(services));
    AddAllKeepsShape(AddAll(Empty(domain), ServiceEntries(services)), DeviceEntries(ds));
  }

  lemma {:induction false} FirstDotOf(stem: string, tail: string)
    ensures AfterFirstDot(stem).Some? <==> '.' in stem
    ensures AfterFirstDot(stem + "." + tail) ==
      Some(if '.' in stem then AfterFirstDot(stem).value + "." + tail else tail)
  {
    var s := stem + "." + tail;
    if |stem| > 0 {
      assert s[1..] == stem[1..] + "." + tail;
      assert stem == [stem[0]] + stem[1..];
      if stem[0] != '.' {
        FirstDotOf(stem[1..], tail);
      }
    } else {
      assert s == "." + tail;
    }
  }

  lemma OneDot(i: nat, j: nat)
    requires i < j < 14
    ensures !("unity.internal"[i] == '.' && "unity.internal"[j] == '.')
  {
  }

  /** The suffix itself is no name of two labels. */
  lemma SuffixIsNoName(stem: string, d: string)
    requires '.' in stem && Issuable(d)
    ensures !Names("unity.internal", stem, Some(d)) && !Names(d, stem, Some(d))
  {
    assert |stem + DOT_SUFFIX| > 14 && |stem + "." + d| > |d|;
    if stem + "." + d == "unity.internal" {
      var i :| 0 <= i < |stem| && stem[i] == '.';
      assert "unity.internal"[i] == stem[i] && "unity.internal"[|stem|] == '.';
      OneDot(i, |stem|);
    }
    if d == stem + DOT_SUFFIX {
      InternalSuffix(stem);
    }
  }

  lemma InternalSuffix(stem: string)
    ensures EndsWith(stem + DOT_SUFFIX, ".internal")
  {
    var s := stem + DOT_SUFFIX;
    assert s[|s| - 9..] == ".internal";
  }

  lemma NoBareWildcard(z: Zone, d: string)
    requires HostKeys(z.wildcard, Some(d)) && Issuable(d)
    ensures "unity.internal" !in z.wildcard && d !in z.wildcard
  {
    forall t | '.' in t ensures !Names("unity.internal", t, Some(d)) && !Names(d, t, Some(d)) {
      SuffixIsNoName(t, d);
    }
  }

  lemma BaseBelow(stem: string, suffix: string, tail: string)
    requires suffix == "." + tail
    ensures AfterFirstDot(stem).Some? <==> '.' in stem
    ensures AfterFirstDot(stem + suffix) == Some(if '.' in stem then AfterFirstDot(stem).value + suffix else tail)
  {
    FirstDotOf(stem, tail);
    assert stem + suffix == stem + "." + tail;
    if '.' in stem {
      assert AfterFirstDot(stem).value + suffix == AfterFirstDot(stem).value + "." + tail;
    }
  }

  lemma DottedMirrors(z: Zone, d: string, stem: string)
    requires '.' in stem && Mirrored(z.wildcard, d)
    ensures ByWildcard(z, stem + DOT_SUFFIX) == ByWildcard(z, stem + "." + d)
  {
    BaseBelow(stem, DOT_SUFFIX, "unity.internal");
    BaseBelow(stem, "." + d, d);
    assert stem + "." + d == stem + ("." + d);
    var rest := AfterFirstDot(stem).value;
    assert MirroredAt(z.wildcard, d, rest);
    assert rest + "." + d == rest + ("." + d);
  }

  lemma BareMirrors(z: Zone, d: string, stem: string)
    requires '.' !in stem && "unity.internal" !in z.wildcard && d !in z.wildcard
    ensures ByWildcard(z, stem + DOT_SUFFIX) == ByWildcard(z, stem + "." + d)
  {
    BaseBelow(stem, DOT_SUFFIX, "unity.internal");
    BaseBelow(stem, "." + d, d);
    assert stem + "." + d == stem + ("." + d);
  }

  lemma ShapedLookup(z: Zone, d: string, stem: string)
    requires Shaped(z) && z.certDomain == Some(d) && Issuable(d)
    ensures Lookup(z, stem + DOT_SUFFIX) == Lookup(z, stem + "." + d)
  {
    assert MirroredAt(z.names, d, stem);
    if '.' in stem {
      DottedMirrors(z, d, stem);
    } else {
      NoBareWildcard(z, d);
      BareMirrors(z, d, stem);
    }
  }

  /** Swapping the suffix never changes what a name resolves to, through exact and wildcard entries
      alike, and the resolver speaks for both names. */
  lemma LookupMirrors(ds: seq<Device>, services: seq<Service>, d: string, stem: string)
    requires Issuable(d) && Lower(stem) == stem
    ensures
      var z, q := Built(ds, services, Some(d)), stem + DOT_SUFFIX;
      && CertificateAlias(q, Some(d)) == Some(stem + "." + d)
      && Lookup(z, q) == Lookup(z, stem + "." + d)
      && Ours(z, q) && Ours(z, stem + "." + d)
  {
    BuiltIsShaped(ds, services, Some(d));
    ShapedLookup(Built(ds, services, Some(d)), d, stem);
    AliasSwaps(stem, d);
    EndsWithConcat(stem, DOT_SUFFIX);
    EndsWithConcat(stem, "." + d);
    assert stem + ("." + d) == stem + "." + d;
  }

  // ---- Who wins a name ----

  function Over(z: Zone, y: Zone): Zone {
    Zone(z.names + y.names, z.wildcard + y.wildcard, z.certDomain)
  }

  lemma UpdateOver(m: map<string, Ip>, n: map<string, Ip>, k: string, ip: Ip)
    ensures (m + n)[k := ip] == m + n[k := ip]
  {
  }

  lemma AddOver(z: Zone, y: Zone, e: Entry)
    requires y.certDomain == z.certDomain
    ensures Add(Over(z, y), e) == Over(z, Add(y, e))
  {
    var n := Norm(e.name);
    UpdateOver(z.names, y.names, n, e.ip);
    UpdateOver(z.wildcard, y.wildcard, n, e.ip);
    match CertificateAlias(n, z.certDomain)
    case None =>
    case Some(alias) =>
      UpdateOver(z.names, y.names, alias, e.ip);
      UpdateOver(z.names, y.names[alias := e.ip], n, e.ip);
      UpdateOver(z.wildcard, y.wildcard, alias, e.ip);
      UpdateOver(z.wildcard, y.wildcard[alias := e.ip], n, e.ip);
  }

  lemma {:induction false} DomainKept(z: Zone, es: seq<Entry>)
    ensures AddAll(z, es).certDomain == z.certDomain
  {
    if |es| > 0 {
      DomainKept(z, es[..|es| - 1]);
    }
  }

  lemma {:induction false} AddAllMerges(z: Zone, es: seq<Entry>)
    ensures AddAll(z, es) == Over(z, AddAll(Empty(z.certDomain), es))
    decreases |es|
  {
    if |es| > 0 {
      AddAllMerges(z, es[..|es| - 1]);
      DomainKept(Empty(z.certDomain), es[..|es| - 1]);
      AddOver(z, AddAll(Empty(z.certDomain), es[..|es| - 1]), es[|es| - 1]);
    } else {
      assert z.names + map[] == z.names && z.wildcard + map[] == z.wildcard;
    }
  }

  lemma {:induction false} ServicesAreLeaves(services: seq<Service>, domain: Option<string>)
    ensures AddAll(Empty(domain), ServiceEntries(services)).wildcard == map[]
    ensures AddAll(Empty(domain), ServiceEntries(services)).certDomain == domain
  {
    if |services| > 0 {
      ServicesAreLeaves(services[..|services| - 1], domain);
      var es := ServiceEntries(services);
      assert es[..|es| - 1] == ServiceEntries(services[..|services| - 1]);
    }
  }

  /** Whatever services are claimed, a name the devices alone give an address keeps it, and exactly the
      names the devices allow have resolving labels below them. */
  lemma DeviceNamesWin(ds: seq<Device>, services: seq<Service>, domain: Option<string>, k: string)
    ensures k in Built(ds, [], domain).names ==>
      Get(Built(ds, services, domain).names, k) == Get(Built(ds, [], domain).names, k)
    ensures Built(ds, services, domain).wildcard == Built(ds, [], domain).wildcard
  {
    ServicesAreLeaves(services, domain);
    ServicesAreLeaves([], domain);
    AddAllMerges(AddAll(Empty(domain), ServiceEntries(services)), DeviceEntries(ds));
    AddAllMerges(AddAll(Empty(domain), ServiceEntries([])), DeviceEntries(ds));
    assert AddAll(Empty(domain), ServiceEntries([])) == Empty(domain);
  }

  /** Nothing below a bare user alias resolves through it: a name of two labels resolves only if it is
      itself an entry. */
  lemma NothingBelowUserAlias(ds: seq<Device>, services: seq<Service>, domain: Option<string>, l: string, user: string)
    requires domain.Some? ==> Issuable(domain.value)
    requires '.' !in l && '.' !in user
    ensures
      var z, q := Built(ds, services, domain), l + "." + user + DOT_SUFFIX;
      Lookup(z, q) == Get(z.names, q)
  {
    var z, alias := Built(ds, services, domain), user + DOT_SUFFIX;
    BuiltIsShaped(ds, services, domain);
    assert l + "." + user + DOT_SUFFIX == l + "." + alias;
    FirstDotOf(l, alias);
    if alias in z.wildcard {
      var stem :| '.' in stem && Names(alias, stem, domain);
      if alias == stem + DOT_SUFFIX {
        CancelTail(stem, user, DOT_SUFFIX);
      } else {
        SuffixesClash(domain.value, stem, user);
      }
    }
  }

  // ---- What resolves, and to what ----

  predicate IsSuffix(tail: string, domain: Option<string>) {
    tail == ".unity.internal" || (domain.Some? && tail == "." + domain.value)
  }

  /** The device's name, without the suffix. */
  function Host(d: Device): string {
    Lower(d.device + "." + d.user)
  }

  /** The name, given without a suffix, is a device's, a primary's bare user name, or a service's. */
  ghost predicate Listed(ds: seq<Device>, services: seq<Service>, stem: string) {
    || (exists i :: 0 <= i < |ds| && stem == Host(ds[i]))
    || (exists i :: 0 <= i < |ds| && ds[i].primary && stem == Lower(ds[i].user))
    || (exists i :: 0 <= i < |services| && stem == Lower(services[i].name + "." + services[i].user))
  }

  /** The name is one dot-free label below a device's. */
  ghost predicate BelowHost(ds: seq<Device>, stem: string) {
    exists front, i :: 0 <= i < |ds| && '.' !in front && stem == front + "." + Host(ds[i])
  }

  /** The address of the last entry under this name, given without a suffix. */
  function LastIp(es: seq<Entry>, stem: string): Option<Ip> {
    if |es| == 0 then None
    else if Lower(es[|es| - 1].name) == stem + DOT_SUFFIX then Some(es[|es| - 1].ip)
    else LastIp(es[..|es| - 1], stem)
  }

  function LastHostIp(es: seq<Entry>, stem: string): Option<Ip> {
    if |es| == 0 then None
    else if es[|es| - 1].sub && Lower(es[|es| - 1].name) == stem + DOT_SUFFIX then Some(es[|es| - 1].ip)
    else LastHostIp(es[..|es| - 1], stem)
  }

  lemma UpdatedAt(m: map<string, Ip>, d: string, stem: string, ip: Ip, t: string)
    requires Issuable(d)
    ensures
      var u := m[stem + "." + d := ip][stem + DOT_SUFFIX := ip];
      Get(u, t + DOT_SUFFIX) == if t == stem then Some(ip) else Get(m, t + DOT_SUFFIX)
  {
    SuffixesClash(d, stem, t);
    if t + DOT_SUFFIX == stem + DOT_SUFFIX {
      CancelTail(t, stem, DOT_SUFFIX);
    }
  }

  lemma AddedAt(z: Zone, e: Entry, t: string)
    requires Below(e) && (z.certDomain.Some? ==> Issuable(z.certDomain.value))
    ensures
      var named, y := Lower(e.name) == t + DOT_SUFFIX, Add(z, e);
      && Get(y.names, t + DOT_SUFFIX) == (if named then Some(e.ip) else Get(z.names, t + DOT_SUFFIX))
      && Get(y.wildcard, t + DOT_SUFFIX) == (if named && e.sub then Some(e.ip) else Get(z.wildcard, t + DOT_SUFFIX))
  {
    var stem :| e.name == stem + DOT_SUFFIX && (e.sub ==> '.' in stem);
    AddedKeys(z, e, stem);
    NormBelow(stem);
    if t + DOT_SUFFIX == Lower(stem) + DOT_SUFFIX {
      CancelTail(t, Lower(stem), DOT_SUFFIX);
    }
    if z.certDomain.Some? {
      UpdatedAt(z.names, z.certDomain.value, Lower(stem), e.ip, t);
      UpdatedAt(z.wildcard, z.certDomain.value, Lower(stem), e.ip, t);
    }
  }

  lemma {:induction false} AddAllAt(domain: Option<string>, es: seq<Entry>, t: string)
    requires (domain.Some? ==> Issuable(domain.value)) && forall e :: e in es ==> Below(e)
    ensures
      var z := AddAll(Empty(domain), es);
      z.certDomain == domain && Get(z.names, t + DOT_SUFFIX) == LastIp(es, t)
      && Get(z.wildcard, t + DOT_SUFFIX) == LastHostIp(es, t)
  {
    if |es| > 0 {
      AddAllAt(domain, es[..|es| - 1], t);
      AddedAt(AddAll(Empty(domain), es[..|es| - 1]), es[|es| - 1], t);
    }
  }

  lemma {:induction false} AddAllTwice(z: Zone, a: seq<Entry>, b: seq<Entry>)
    ensures AddAll(AddAll(z, a), b) == AddAll(z, a + b)
    decreases |b|
  {
    if |b| == 0 {
      assert a + b == a;
    } else {
      assert (a + b)[..|a + b| - 1] == a + b[..|b| - 1];
      AddAllTwice(z, a, b[..|b| - 1]);
    }
  }

  function AllEntries(ds: seq<Device>, services: seq<Service>): seq<Entry> {
    ServiceEntries(services) + DeviceEntries(ds)
  }

  lemma BareNameHasNoBase(z: Zone, stem: string)
    requires HostKeys(z.wildcard, z.certDomain) && '.' !in stem && (z.certDomain.Some? ==> Issuable(z.certDomain.value))
    ensures ByWildcard(z, stem + DOT_SUFFIX) == None
  {
    BaseBelow(stem, DOT_SUFFIX, "unity.internal");
    if "unity.internal" in z.wildcard {
      var t :| '.' in t && Names("unity.internal", t, z.certDomain);
      assert |t + DOT_SUFFIX| > 14;
      if z.certDomain.Some? {
        SuffixIsNoName(t, z.certDomain.value);
      }
    }
  }

  /** What the entries say of a name: the last one listed under it, and failing that the last device listed under
      what follows its first label. */
  function Said(es: seq<Entry>, stem: string): Option<Ip> {
    if LastIp(es, stem).Some? then LastIp(es, stem)
    else
      match AfterFirstDot(stem)
      case None => None
      case Some(base) => LastHostIp(es, base)
  }

  lemma ZoneAt(ds: seq<Device>, services: seq<Service>, domain: Option<string>, t: string)
    requires domain.Some? ==> Issuable(domain.value)
    ensures Get(Built(ds, services, domain).names, t + DOT_SUFFIX) == LastIp(AllEntries(ds, services), t)
    ensures Get(Built(ds, services, domain).wildcard, t + DOT_SUFFIX) == LastHostIp(AllEntries(ds, services), t)
  {
    EntriesAreBelow(ds, services);
    AddAllTwice(Empty(domain), ServiceEntries(services), DeviceEntries(ds));
    AddAllAt(domain, AllEntries(ds, services), t);
  }

  lemma LookupByStem(z: Zone, stem: string)
    requires HostKeys(z.wildcard, z.certDomain) && (z.certDomain.Some? ==> Issuable(z.certDomain.value))
    ensures Lookup(z, stem + DOT_SUFFIX) ==
      if stem + DOT_SUFFIX in z.names then Some(z.names[stem + DOT_SUFFIX])
      else
        match AfterFirstDot(stem)
        case None => None
        case Some(base) => Get(z.wildcard, base + DOT_SUFFIX)
  {
    BaseBelow(stem, DOT_SUFFIX, "unity.internal");
    if '.' !in stem {
      BareNameHasNoBase(z, stem);
    }
  }

  lemma LookupInternal(ds: seq<Device>, services: seq<Service>, domain: Option<string>, stem: string)
    requires domain.Some? ==> Issuable(domain.value)
    ensures Lookup(Built(ds, services, domain), stem + DOT_SUFFIX) == Said(AllEntries(ds, services), stem)
  {
    BuiltIsShaped(ds, services, domain);
    LookupByStem(Built(ds, services, domain), stem);
    ZoneAt(ds, services, domain, stem);
    if AfterFirstDot(stem).Some? {
      ZoneAt(ds, services, domain, AfterFirstDot(stem).value);
    }
  }

  /** Under either suffix a name resolves to exactly that. */
  lemma LookupAt(ds: seq<Device>, services: seq<Service>, domain: Option<string>, stem: string, tail: string)
    requires (domain.Some? ==> Issuable(domain.value)) && IsSuffix(tail, domain)
    ensures Lookup(Built(ds, services, domain), stem + tail) == Said(AllEntries(ds, services), stem)
  {
    LookupInternal(ds, services, domain, stem);
    if tail != DOT_SUFFIX {
      BuiltIsShaped(ds, services, domain);
      ShapedLookup(Built(ds, services, domain), domain.value, stem);
      assert stem + tail == stem + "." + domain.value;
    }
  }

  // ---- In the terms of devices and services ----

  lemma {:induction false} LastIpSplits(a: seq<Entry>, b: seq<Entry>, t: string)
    ensures LastIp(a + b, t) == (if LastIp(b, t).Some? then LastIp(b, t) else LastIp(a, t))
    ensures LastHostIp(a + b, t) == (if LastHostIp(b, t).Some? then LastHostIp(b, t) else LastHostIp(a, t))
    decreases |b|
  {
    if |b| == 0 {
      assert a + b == a;
    } else {
      assert (a + b)[..|a + b| - 1] == a + b[..|b| - 1];
      LastIpSplits(a, b[..|b| - 1], t);
    }
  }

  lemma LastOfOne(e: Entry, t: string)
    ensures LastIp([e], t) == if Lower(e.name) == t + DOT_SUFFIX then Some(e.ip) else None
    ensures LastHostIp([e], t) == if e.sub && Lower(e.name) == t + DOT_SUFFIX then Some(e.ip) else None
  {
    assert [e][..0] == [];
  }

  lemma HostNamed(d: Device, t: string)
    ensures LastHostIp(EntriesOf(d), t) == if t == Host(d) then Some(d.ip) else None
    ensures LastIp(EntriesOf(d), t) == if Gives(d, t) then Some(d.ip) else None
  {
    var host, alias := Entry(Hostname(d.device, d.user), d.ip, true), Entry(UserAlias(d.user), d.ip, false);
    NormBelow(d.device + "." + d.user);
    NormBelow(d.user);
    assert Hostname(d.device, d.user) == d.device + "." + d.user + DOT_SUFFIX;
    if t + DOT_SUFFIX == Host(d) + DOT_SUFFIX {
      CancelTail(t, Host(d), DOT_SUFFIX);
    }
    if t + DOT_SUFFIX == Lower(d.user) + DOT_SUFFIX {
      CancelTail(t, Lower(d.user), DOT_SUFFIX);
    }
    LastOfOne(host, t);
    LastOfOne(alias, t);
    LastIpSplits([host], [alias], t);
    assert EntriesOf(d) == if d.primary then [host] + [alias] else [host];
  }

  /** The device gives the name, given without a suffix. */
  predicate Gives(d: Device, t: string) {
    t == Host(d) || (d.primary && t == Lower(d.user))
  }

  lemma LastDeviceOn(ds: seq<Device>, d: Device, t: string)
    ensures LastIp(DeviceEntries(ds + [d]), t) == if Gives(d, t) then Some(d.ip) else LastIp(DeviceEntries(ds), t)
    ensures LastHostIp(DeviceEntries(ds + [d]), t) ==
      if t == Host(d) then Some(d.ip) else LastHostIp(DeviceEntries(ds), t)
  {
    assert (ds + [d])[..|ds|] == ds;
    LastIpSplits(DeviceEntries(ds), EntriesOf(d), t);
    HostNamed(d, t);
  }

  lemma {:induction false} LastDevice(ds: seq<Device>, t: string)
    ensures LastIp(DeviceEntries(ds), t).Some? <==> exists i :: 0 <= i < |ds| && Gives(ds[i], t)
    ensures LastHostIp(DeviceEntries(ds), t).Some? <==> exists i :: 0 <= i < |ds| && t == Host(ds[i])
  {
    if |ds| > 0 {
      var n := |ds| - 1;
      LastDevice(ds[..n], t);
      LastDeviceOn(ds[..n], ds[n], t);
      assert ds[..n] + [ds[n]] == ds;
      assert forall i :: 0 <= i < n ==> ds[..n][i] == ds[i];
    }
  }

  /** Devices that give a name the same address settle it. */
  lemma {:induction false} LastDeviceIp(ds: seq<Device>, t: string, ip: Ip)
    ensures (forall i :: 0 <= i < |ds| && Gives(ds[i], t) ==> ds[i].ip == ip) ==>
      LastIp(DeviceEntries(ds), t).None? || LastIp(DeviceEntries(ds), t) == Some(ip)
    ensures (forall i :: 0 <= i < |ds| && t == Host(ds[i]) ==> ds[i].ip == ip) ==>
      LastHostIp(DeviceEntries(ds), t).None? || LastHostIp(DeviceEntries(ds), t) == Some(ip)
  {
    if |ds| > 0 {
      var n := |ds| - 1;
      LastDeviceIp(ds[..n], t, ip);
      LastDeviceOn(ds[..n], ds[n], t);
      assert ds[..n] + [ds[n]] == ds;
      assert forall i :: 0 <= i < n ==> ds[..n][i] == ds[i];
    }
  }

  lemma {:induction false} LastService(services: seq<Service>, t: string)
    ensures LastHostIp(ServiceEntries(services), t) == None
    ensures LastIp(ServiceEntries(services), t).Some? <==>
      exists i :: 0 <= i < |services| && t == Lower(services[i].name + "." + services[i].user)
  {
    if |services| > 0 {
      var n := |services| - 1;
      var s := services[n];
      LastService(services[..n], t);
      ServiceNamed(s, t);
      LastIpSplits(ServiceEntries(services[..n]), [Entry(Lower(Hostname(s.name, s.user)), s.ip, false)], t);
      assert forall i :: 0 <= i < n ==> services[..n][i] == services[i];
    }
  }

  lemma SaidOfDevices(ds: seq<Device>, services: seq<Service>, t: string)
    ensures LastHostIp(AllEntries(ds, services), t) == LastHostIp(DeviceEntries(ds), t)
    ensures LastIp(DeviceEntries(ds), t).Some? ==> LastIp(AllEntries(ds, services), t) == LastIp(DeviceEntries(ds), t)
    ensures LastIp(AllEntries(ds, services), t).Some? <==> Listed(ds, services, t)
  {
    LastIpSplits(ServiceEntries(services), DeviceEntries(ds), t);
    LastDevice(ds, t);
    LastService(services, t);
    if i :| 0 <= i < |ds| && ds[i].primary && t == Lower(ds[i].user) {
      assert Gives(ds[i], t);
    }
    if i :| 0 <= i < |ds| && t == Host(ds[i]) {
      assert Gives(ds[i], t);
    }
  }

  /** No other device gives this device's name. */
  predicate Unshared(ds: seq<Device>, i: nat)
    requires i < |ds|
  {
    forall j :: 0 <= j < |ds| && j != i ==> !Gives(ds[j], Host(ds[i]))
  }

  /** Labels have no dots, so a bare user name is no device's name: a device shares its name exactly if another has
      the same one. */
  lemma UnsharedExactly(ds: seq<Device>, i: nat)
    requires i < |ds| && forall j :: 0 <= j < |ds| ==> '.' !in ds[j].user
    ensures Unshared(ds, i) <==>
      forall j :: 0 <= j < |ds| && j != i ==>
        Lower(ds[j].device + "." + ds[j].user) != Lower(ds[i].device + "." + ds[i].user)
  {
    LowerKeepsDot(ds[i].device + "." + ds[i].user) by {
      assert (ds[i].device + "." + ds[i].user)[|ds[i].device|] == '.';
    }
    forall j | 0 <= j < |ds| ensures Lower(ds[j].user) != Host(ds[i]) {
      assert forall k :: 0 <= k < |ds[j].user| ==> ds[j].user[k] in ds[j].user;
    }
  }

  /** A device whose name no other gives resolves to its address under either suffix; and so does every name one
      dot-free label below it, unless that is listed itself. */
  lemma DeviceResolves(ds: seq<Device>, services: seq<Service>, domain: Option<string>, i: nat, tail: string,
                       front: string)
    requires (domain.Some? ==> Issuable(domain.value)) && IsSuffix(tail, domain)
    requires i < |ds| && Unshared(ds, i) && '.' !in front
    ensures
      var z, host := Built(ds, services, domain), Lower(ds[i].device + "." + ds[i].user);
      && Lookup(z, host + tail) == Some(ds[i].ip)
      && (!Listed(ds, services, front + "." + host) ==> Lookup(z, front + "." + host + tail) == Some(ds[i].ip))
  {
    var host, es := Host(ds[i]), AllEntries(ds, services);
    LastDevice(ds, host);
    LastDeviceIp(ds, host, ds[i].ip);
    assert Gives(ds[i], host);
    SaidOfDevices(ds, services, host);
    LookupAt(ds, services, domain, host, tail);
    var below := front + "." + host;
    FirstDotOf(front, host);
    SaidOfDevices(ds, services, below);
    LookupAt(ds, services, domain, below, tail);
  }

  /** So does the bare name of a user, to the primary that alone gives it. */
  lemma UserNameResolves(ds: seq<Device>, services: seq<Service>, domain: Option<string>, i: nat, tail: string)
    requires (domain.Some? ==> Issuable(domain.value)) && IsSuffix(tail, domain)
    requires i < |ds| && ds[i].primary
    requires forall j :: 0 <= j < |ds| && j != i ==> !Gives(ds[j], Lower(ds[i].user))
    ensures Lookup(Built(ds, services, domain), Lower(ds[i].user) + tail) == Some(ds[i].ip)
  {
    var name := Lower(ds[i].user);
    assert Gives(ds[i], name);
    LastDevice(ds, name);
    LastDeviceIp(ds, name, ds[i].ip);
    SaidOfDevices(ds, services, name);
    LookupAt(ds, services, domain, name, tail);
  }

  /** The service's name, without the suffix. */
  function ServiceName(s: Service): string {
    Lower(s.name + "." + s.user)
  }

  lemma {:induction false} LastServiceIp(services: seq<Service>, t: string, ip: Ip)
    requires forall i :: 0 <= i < |services| && t == ServiceName(services[i]) ==> services[i].ip == ip
    ensures LastIp(ServiceEntries(services), t).None? || LastIp(ServiceEntries(services), t) == Some(ip)
  {
    if |services| > 0 {
      var n := |services| - 1;
      var s := services[n];
      forall i | 0 <= i < n && t == ServiceName(services[..n][i]) ensures services[..n][i].ip == ip {
        assert services[..n][i] == services[i];
      }
      LastServiceIp(services[..n], t, ip);
      ServiceNamed(s, t);
      LastIpSplits(ServiceEntries(services[..n]), [Entry(Lower(Hostname(s.name, s.user)), s.ip, false)], t);
    }
  }

  lemma ServiceNamed(s: Service, t: string)
    ensures LastIp([Entry(Lower(Hostname(s.name, s.user)), s.ip, false)], t) ==
      if t == ServiceName(s) then Some(s.ip) else None
    ensures LastHostIp([Entry(Lower(Hostname(s.name, s.user)), s.ip, false)], t) == None
  {
    LastOfOne(Entry(Lower(Hostname(s.name, s.user)), s.ip, false), t);
    NormBelow(s.name + "." + s.user);
    assert Hostname(s.name, s.user) == s.name + "." + s.user + DOT_SUFFIX;
    assert Lower(Lower(Hostname(s.name, s.user))) == Lower(Hostname(s.name, s.user));
    if t + DOT_SUFFIX == ServiceName(s) + DOT_SUFFIX {
      CancelTail(t, ServiceName(s), DOT_SUFFIX);
    }
  }

  /** A service resolves, under either suffix, to the address that won its name, unless a device gives the name. */
  lemma ServiceResolves(ds: seq<Device>, services: seq<Service>, domain: Option<string>, i: nat, tail: string)
    requires (domain.Some? ==> Issuable(domain.value)) && IsSuffix(tail, domain) && i < |services|
    requires forall j :: 0 <= j < |services| && j != i ==> ServiceName(services[j]) != ServiceName(services[i])
    requires forall j :: 0 <= j < |ds| ==> !Gives(ds[j], ServiceName(services[i]))
    ensures Lookup(Built(ds, services, domain), Lower(services[i].name + "." + services[i].user) + tail) ==
      Some(services[i].ip)
  {
    var name := ServiceName(services[i]);
    LastDevice(ds, name);
    LastService(services, name);
    LastServiceIp(services, name, services[i].ip);
    LastIpSplits(ServiceEntries(services), DeviceEntries(ds), name);
    LookupAt(ds, services, domain, name, tail);
  }

  ghost predicate SuffixKeys(m: map<string, Ip>, domain: Option<string>) {
    forall k :: k in m ==> exists stem :: Names(k, stem, domain)
  }

  lemma AddKeepsSuffixKeys(z: Zone, e: Entry)
    requires SuffixKeys(z.names, z.certDomain) && Below(e) && (z.certDomain.Some? ==> Issuable(z.certDomain.value))
    ensures SuffixKeys(Add(z, e).names, z.certDomain)
  {
    var stem :| e.name == stem + DOT_SUFFIX && (e.sub ==> '.' in stem);
    AddedKeys(z, e, stem);
    forall k | k in Add(z, e).names ensures exists t :: Names(k, t, z.certDomain) {
      if k !in z.names {
        assert Names(k, Lower(stem), z.certDomain);
      }
    }
  }

  lemma {:induction false} AllSuffixKeys(domain: Option<string>, es: seq<Entry>)
    requires (domain.Some? ==> Issuable(domain.value)) && forall e :: e in es ==> Below(e)
    ensures SuffixKeys(AddAll(Empty(domain), es).names, domain) && AddAll(Empty(domain), es).certDomain == domain
  {
    if |es| > 0 {
      AllSuffixKeys(domain, es[..|es| - 1]);
      AddKeepsSuffixKeys(AddAll(Empty(domain), es[..|es| - 1]), es[|es| - 1]);
    }
  }

  lemma {:induction false} SplitAtDot(q: string)
    requires AfterFirstDot(q).Some?
    ensures exists front :: '.' !in front && q == front + "." + AfterFirstDot(q).value
  {
    if q[0] == '.' {
      assert q == "" + "." + q[1..];
    } else {
      SplitAtDot(q[1..]);
      var front :| '.' !in front && q[1..] == front + "." + AfterFirstDot(q).value;
      assert q == ([q[0]] + front) + "." + AfterFirstDot(q).value;
      assert '.' !in [q[0]] + front;
    }
  }

  ghost predicate Suffixed(q: string, domain: Option<string>) {
    exists stem, tail :: IsSuffix(tail, domain) && q == stem + tail
  }

  lemma NamesAreSuffixed(k: string, stem: string, domain: Option<string>, front: string)
    requires Names(k, stem, domain)
    ensures Suffixed(k, domain) && Suffixed(front + k, domain)
  {
    if k == stem + DOT_SUFFIX {
      SuffixedBy(stem, DOT_SUFFIX, domain, front);
    } else {
      SuffixedBy(stem, "." + domain.value, domain, front);
      assert k == stem + ("." + domain.value);
    }
  }

  lemma SuffixedBy(stem: string, tail: string, domain: Option<string>, front: string)
    requires IsSuffix(tail, domain)
    ensures Suffixed(stem + tail, domain) && Suffixed(front + (stem + tail), domain)
  {
    assert front + (stem + tail) == (front + stem) + tail;
  }

  /** What resolves at all is a name under one of the two suffixes. */
  lemma OnlySuffixedResolve(ds: seq<Device>, services: seq<Service>, domain: Option<string>, q: string)
    requires domain.Some? ==> Issuable(domain.value)
    requires Lookup(Built(ds, services, domain), q).Some?
    ensures Suffixed(q, domain)
  {
    var z := Built(ds, services, domain);
    BuiltIsShaped(ds, services, domain);
    EntriesAreBelow(ds, services);
    AddAllTwice(Empty(domain), ServiceEntries(services), DeviceEntries(ds));
    AllSuffixKeys(domain, AllEntries(ds, services));
    if q in z.names {
      var stem :| Names(q, stem, domain);
      NamesAreSuffixed(q, stem, domain, "");
    } else {
      var base := AfterFirstDot(q).value;
      SplitAtDot(q);
      var front :| '.' !in front && q == front + "." + base;
      var stem :| '.' in stem && Names(base, stem, domain);
      NamesAreSuffixed(base, stem, domain, front + ".");
    }
  }

  lemma BelowHostExactly(ds: seq<Device>, stem: string)
    ensures BelowHost(ds, stem) <==>
      AfterFirstDot(stem).Some? && LastHostIp(DeviceEntries(ds), AfterFirstDot(stem).value).Some?
  {
    if AfterFirstDot(stem).Some? {
      LastDevice(ds, AfterFirstDot(stem).value);
      SplitAtDot(stem);
    }
    if front, i :| 0 <= i < |ds| && '.' !in front && stem == front + "." + Host(ds[i]) {
      FirstDotOf(front, Host(ds[i]));
    }
  }

  /** A name resolves exactly if, under one of the two suffixes, it is listed or one dot-free label below a device's
      name. */
  lemma ResolvesExactly(ds: seq<Device>, services: seq<Service>, domain: Option<string>, q: string)
    requires domain.Some? ==> Issuable(domain.value)
    ensures Lookup(Built(ds, services, domain), q).Some? <==>
      exists stem, tail ::
        IsSuffix(tail, domain) && q == stem + tail && (Listed(ds, services, stem) || BelowHost(ds, stem))
  {
    if Lookup(Built(ds, services, domain), q).Some? {
      OnlySuffixedResolve(ds, services, domain, q);
    }
    forall stem, tail | IsSuffix(tail, domain) && q == stem + tail
      ensures Lookup(Built(ds, services, domain), q).Some? <==> Listed(ds, services, stem) || BelowHost(ds, stem)
    {
      LookupAt(ds, services, domain, stem, tail);
      SaidOfDevices(ds, services, stem);
      BelowHostExactly(ds, stem);
      if AfterFirstDot(stem).Some? {
        SaidOfDevices(ds, services, AfterFirstDot(stem).value);
      }
    }
  }

  // ---- Answering ----

  /** The answer to one question for an address: the address, a denial in our own name, or nothing. */
  datatype Reply = Address(ip: Ip) | NoSuchName | Silent

  function Answered(z: Zone, query: string): Reply {
    var name := Norm(query);
    if !Ours(z, name) then Silent
    else
      match Lookup(z, name)
      case Some(ip) => Address(ip)
      case None => if EndsWith(name, DOT_SUFFIX) then NoSuchName else Silent
  }

  const UPPER: string := "ABCDEFGHIJKLMNOPQRSTUVWXYZ"
  const LOWER: string := "abcdefghijklmnopqrstuvwxyz"

  ghost predicate SameLetter(c: char, d: char) {
    c == d || exists i :: 0 <= i < 26 && ((c == UPPER[i] && d == LOWER[i]) || (c == LOWER[i] && d == UPPER[i]))
  }

  function Dots(n: nat): string {
    if n == 0 then "" else Dots(n - 1) + "."
  }

  /** The name as typed: `bare`, which does not end in a dot, and then any number of dots. */
  ghost predicate Typed(query: string, bare: string) {
    (bare == "" || bare[|bare| - 1] != '.') && exists n: nat :: query == bare + Dots(n)
  }

  ghost predicate SameLetters(a: string, b: string) {
    |a| == |b| && forall i :: 0 <= i < |a| ==> SameLetter(a[i], b[i])
  }

  /** Two spellings of one name: the same letters but for their case and the dots at the end. */
  ghost predicate SameName(q: string, p: string) {
    exists a, b :: Typed(q, a) && Typed(p, b) && SameLetters(a, b)
  }

  lemma LettersInOrder(i: nat)
    requires i < 26
    ensures UPPER[i] as int == 65 + i && LOWER[i] as int == 97 + i
  {
  }

  lemma LowerCharExactly(c: char, d: char)
    ensures LowerChar(c) == LowerChar(d) <==> SameLetter(c, d)
  {
    forall i: nat | i < 26 ensures LowerChar(UPPER[i]) == LOWER[i] == LowerChar(LOWER[i]) {
      LettersInOrder(i);
    }
    if LowerChar(c) == LowerChar(d) && c != d {
      var i := (if 'A' <= c <= 'Z' then c as int else d as int) - 65;
      LettersInOrder(i);
    }
  }

  lemma {:induction false} TrimmedIs(query: string, bare: string)
    ensures Typed(query, bare) <==> TrimDots(query) == bare
  {
    TrimmedIsTyped(query);
    if Typed(query, bare) {
      var n: nat :| query == bare + Dots(n);
      TrimTyped(bare, n);
    }
  }

  lemma OneMoreDot(bare: string, before: string, n: nat)
    requires before == bare + Dots(n)
    ensures before + "." == bare + Dots(n + 1)
  {
    assert Dots(n + 1) == Dots(n) + ".";
  }

  /** A text is what is left of it without the dots at its end, and those dots. */
  lemma {:induction false} TrimmedIsTyped(query: string)
    ensures Typed(query, TrimDots(query))
  {
    if |query| > 0 && query[|query| - 1] == '.' {
      var before := query[..|query| - 1];
      var bare := TrimDots(before);
      TrimmedIsTyped(before);
      var n: nat :| before == bare + Dots(n);
      OneMoreDot(bare, before, n);
      assert query == before + "." && TrimDots(query) == bare;
    } else {
      assert query == query + Dots(0);
    }
  }

  lemma TrimOne(s: string)
    ensures TrimDots(s + ".") == TrimDots(s)
  {
    assert (s + ".")[..|s|] == s;
  }

  lemma {:induction false} TrimTyped(bare: string, n: nat)
    requires bare == "" || bare[|bare| - 1] != '.'
    ensures TrimDots(bare + Dots(n)) == bare
  {
    if n == 0 {
      assert bare + Dots(0) == bare;
    } else {
      TrimTyped(bare, n - 1);
      TrimOne(bare + Dots(n - 1));
      OneMoreDot(bare, bare + Dots(n - 1), n - 1);
    }
  }

  /** Queries are told apart by their letters alone, whatever their case, and not by dots at the end. */
  lemma NormExactly(q: string, p: string)
    ensures Norm(q) == Norm(p) <==> SameName(q, p)
  {
    var a, b := TrimDots(q), TrimDots(p);
    TrimmedIs(q, a);
    TrimmedIs(p, b);
    forall x, y | Typed(q, x) && Typed(p, y) ensures x == a && y == b {
      TrimmedIs(q, x);
      TrimmedIs(p, y);
    }
    assert SameName(q, p) <==> SameLetters(a, b);
    forall i | 0 <= i < |a| && i < |b| ensures Norm(q)[i] == Norm(p)[i] <==> SameLetter(a[i], b[i]) {
      LowerCharExactly(a[i], b[i]);
    }
    if |a| == |b| && SameLetters(a, b) {
      assert Norm(q) == Norm(p);
    }
  }

  lemma OursExactly(z: Zone, q: string)
    ensures Ours(z, q) <==> Suffixed(q, z.certDomain)
  {
    if EndsWith(q, DOT_SUFFIX) {
      assert IsSuffix(DOT_SUFFIX, z.certDomain) && q == q[..|q| - 15] + DOT_SUFFIX;
    }
    if z.certDomain.Some? && EndsWith(q, "." + z.certDomain.value) {
      var tail := "." + z.certDomain.value;
      assert IsSuffix(tail, z.certDomain) && q == q[..|q| - |tail|] + tail;
    }
    if stem, tail :| IsSuffix(tail, z.certDomain) && q == stem + tail {
      EndsWithConcat(stem, tail);
    }
  }

  /** Every spelling of a name is answered alike: with its address exactly if the name resolves, so that asking
      whether it is ours hides nothing; else with a denial exactly if it is an internal name. */
  lemma AnsweredExactly(ds: seq<Device>, services: seq<Service>, domain: Option<string>, q: string, name: string)
    requires domain.Some? ==> Issuable(domain.value)
    requires Norm(name) == name && SameName(q, name)
    ensures
      var (z, reply) := (Built(ds, services, domain), Answered(Built(ds, services, domain), q));
      && (forall ip: Ip :: reply == Address(ip) <==> Lookup(z, name) == Some(ip))
      && (reply == NoSuchName <==> Lookup(z, name).None? && exists stem :: name == stem + DOT_SUFFIX)
  {
    var z := Built(ds, services, domain);
    NormExactly(q, name);
    OursExactly(z, name);
    BuiltIsShaped(ds, services, domain);
    if Lookup(z, name).Some? {
      OnlySuffixedResolve(ds, services, domain, name);
    }
    if EndsWith(name, DOT_SUFFIX) {
      assert name == name[..|name| - 15] + DOT_SUFFIX;
    }
    if stem :| name == stem + DOT_SUFFIX {
      EndsWithConcat(stem, DOT_SUFFIX);
    }
  }

  // ---- The resolver's zone as the source updates it ----

  class Resolver {
    var zone: Zone

    constructor ()
      ensures zone == Empty(None)
    {
      zone := Empty(None);
    }

    /** Rebuilds the zone; `changed` tells whether anything is different. */
    method Update(me: Device, seeds: seq<Device>, services: seq<Service>, domain: Option<string>)
      returns (changed: bool)
      modifies this
      ensures zone == Built([me] + seeds, services, domain)
      ensures changed <==> zone != old(zone)
    {
      var next := AddServices(Empty(domain), services);
      next := AddDevices(next, [me] + seeds);
      changed := zone != next;
      zone := next;
    }
  }

  method AddServices(z: Zone, services: seq<Service>) returns (next: Zone)
    ensures next == AddAll(z, ServiceEntries(services))
  {
    next := z;
    for i := 0 to |services|
      invariant next == AddAll(z, ServiceEntries(services[..i]))
    {
      assert services[..i + 1][..i] == services[..i];
      ghost var es := ServiceEntries(services[..i + 1]);
      assert es[..|es| - 1] == ServiceEntries(services[..i]);
      next := Add(next, Entry(Lower(Hostname(services[i].name, services[i].user)), services[i].ip, false));
    }
    assert services[..|services|] == services;
  }

  method AddDevices(z: Zone, ds: seq<Device>) returns (next: Zone)
    ensures next == AddAll(z, DeviceEntries(ds))
  {
    next := z;
    for i := 0 to |ds|
      invariant next == AddAll(z, DeviceEntries(ds[..i]))
    {
      assert ds[..i + 1][..i] == ds[..i];
      AddDevice(z, DeviceEntries(ds[..i]), ds[i]);
      next := Add(next, Entry(Hostname(ds[i].device, ds[i].user), ds[i].ip, true));
      if ds[i].primary {
        next := Add(next, Entry(UserAlias(ds[i].user), ds[i].ip, false));
      }
    }
    assert ds[..|ds|] == ds;
  }

  lemma AddDevice(z: Zone, es: seq<Entry>, d: Device)
    ensures AddAll(z, es + EntriesOf(d)) ==
      var y := Add(AddAll(z, es), Entry(Hostname(d.device, d.user), d.ip, true));
      if d.primary then Add(y, Entry(UserAlias(d.user), d.ip, false)) else y
  {
    var host := [Entry(Hostname(d.device, d.user), d.ip, true)];
    assert (es + host)[..|es|] == es;
    if d.primary {
      assert es + EntriesOf(d) == es + host + [Entry(UserAlias(d.user), d.ip, false)];
      assert (es + EntriesOf(d))[..|es| + 1] == es + host;
    } else {
      assert es + EntriesOf(d) == es + host;
    }
  }
}
