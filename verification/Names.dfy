/**
 Names people type: sanitised labels (crates/common/src/netid.rs), suffixed device names and user labels
 (crates/coordinator/src/store.rs).
 */
module Names {
  import opened Prelude

  const MAX_LABEL_LEN: nat := 63
  const MAX_LABEL_SUFFIX: nat := 32

  // ---- Decimal suffixes ----

  function Digit(d: nat): (c: char)
    requires d < 10
    ensures c != '-'
  {
    ['0', '1', '2', '3', '4', '5', '6', '7', '8', '9'][d]
  }

  function Decimal(n: nat): (s: string)
    ensures |s| >= 1 && '-' !in s
  {
    if n < 10 then [Digit(n)] else Decimal(n / 10) + [Digit(n % 10)]
  }

  lemma DigitInjective(a: nat, b: nat)
    requires a < 10 && b < 10 && Digit(a) == Digit(b)
    ensures a == b
  {
  }

  lemma {:induction false} DecimalInjective(m: nat, n: nat)
    requires Decimal(m) == Decimal(n)
    ensures m == n
  {
    var s := Decimal(m);
    if m < 10 && n < 10 {
      assert s[0] == Digit(m) == Digit(n);
      DigitInjective(m, n);
    } else if m >= 10 && n >= 10 {
      assert s[|s| - 1] == Digit(m % 10) == Digit(n % 10);
      DigitInjective(m % 10, n % 10);
      assert Decimal(m / 10) == s[..|s| - 1] == Decimal(n / 10);
      DecimalInjective(m / 10, n / 10);
    }
  }

  /** `desired` with a `-n` suffix, the stem trimmed so that the whole fits a DNS label. */
  function Suffixed(desired: string, n: nat): string {
    var suffix := "-" + Decimal(n);
    var keep := if |suffix| <= MAX_LABEL_LEN then MAX_LABEL_LEN - |suffix| else 0;
    desired[..Min(keep, |desired|)] + suffix
  }

  /** Whatever the stems, the text after the last dash tells the suffix. */
  lemma LastDash(stem: string, tail: string, stem': string, tail': string)
    requires stem + "-" + tail == stem' + "-" + tail'
    requires '-' !in tail && '-' !in tail'
    ensures tail == tail'
  {
    var whole := stem + "-" + tail;
    assert whole == stem' + "-" + tail';
    assert whole[|whole| - |tail|..] == tail && whole[|whole| - |tail'|..] == tail';
    assert whole[|whole| - |tail| - 1] == '-' && whole[|whole| - |tail'| - 1] == '-';
    assert forall i :: |whole| - |tail| <= i < |whole| ==> whole[i] == tail[i - (|whole| - |tail|)];
    assert forall i :: |whole| - |tail'| <= i < |whole| ==> whole[i] == tail'[i - (|whole| - |tail'|)];
    assert |tail| == |tail'|;
  }

  /** Trimming never merges two suffixed candidates, even of different names. */
  lemma SuffixedInjective(desired: string, m: nat, desired': string, n: nat)
    requires Suffixed(desired, m) == Suffixed(desired', n)
    ensures m == n
  {
    var stem := Suffixed(desired, m)[..|Suffixed(desired, m)| - 1 - |Decimal(m)|];
    var stem' := Suffixed(desired', n)[..|Suffixed(desired', n)| - 1 - |Decimal(n)|];
    assert Suffixed(desired, m) == stem + "-" + Decimal(m);
    assert Suffixed(desired', n) == stem' + "-" + Decimal(n);
    LastDash(stem, Decimal(m), stem', Decimal(n));
    DecimalInjective(m, n);
  }

  /** The suffix fits as long as it leaves room for its dash, up to 62 digits. */
  lemma SuffixedFits(desired: string, n: nat)
    requires |Decimal(n)| < MAX_LABEL_LEN
    ensures |Suffixed(desired, n)| <= MAX_LABEL_LEN
  {
  }

  /** The number a text of digits reads as. */
  function Reading(s: string): nat
    requires forall c :: c in s ==> '0' <= c <= '9'
  {
    if |s| == 0 then 0
    else
      var before, last := s[..|s| - 1], s[|s| - 1];
      assert last in s && forall c :: c in before ==> c in s;
      10 * Reading(before) + (last - '0') as nat
  }

  lemma {:induction false} DecimalReadsBack(n: nat)
    ensures forall c :: c in Decimal(n) ==> '0' <= c <= '9'
    ensures Reading(Decimal(n)) == n && (Decimal(n)[0] == '0' <==> n == 0)
  {
    var s := Decimal(n);
    if n >= 10 {
      DecimalReadsBack(n / 10);
      assert s[..|s| - 1] == Decimal(n / 10) && s[|s| - 1] == Digit(n % 10);
    } else {
      assert s[..0] == [] && Reading([]) == 0;
    }
  }

  /** A candidate is as much of the stem as leaves room for the dash and the digits, then these: the whole stem if
      the label holds it, a full label if not, and no stem at all if the digits alone fill it. The digits are the
      number's, without leading zeros. */
  lemma SuffixedExactly(desired: string, n: nat)
    ensures
      var name, digits := Suffixed(desired, n), Decimal(n);
      && |name| == Max(Min(MAX_LABEL_LEN, |desired| + 1 + |digits|), 1 + |digits|)
      && exists stem :: stem <= desired && name == stem + "-" + digits
    ensures
      && (forall c :: c in Decimal(n) ==> '0' <= c <= '9') && Reading(Decimal(n)) == n
      && (Decimal(n)[0] == '0' <==> n == 0)
  {
    DecimalReadsBack(n);
    var name, digits := Suffixed(desired, n), Decimal(n);
    var room := if |digits| < MAX_LABEL_LEN then MAX_LABEL_LEN - 1 - |digits| else 0;
    var stem := desired[..Min(room, |desired|)];
    assert stem <= desired && name == stem + "-" + digits;
  }

  lemma {:induction false} DigitsGrow(m: nat, n: nat)
    requires m <= n
    ensures |Decimal(m)| <= |Decimal(n)|
  {
    if m >= 10 {
      DigitsGrow(m / 10, n / 10);
    }
  }

  // ---- Device names ----

  /** The name tried as the k-th choice: the desired one, then suffixes 2, 3, ... */
  function DeviceCandidate(desired: string, k: nat): string {
    if k == 0 then desired else Suffixed(desired, k + 1)
  }

  /** Pigeonhole: the suffixed candidates 2 .. |taken|+2 cannot all be taken. */
  lemma FreeSuffixExists(taken: set<string>, desired: string)
    ensures exists n :: 2 <= n <= |taken| + 2 && Suffixed(desired, n) !in taken
  {
    var tried := seq(|taken| + 1, (i: nat) => Suffixed(desired, i + 2));
    if forall n :: 2 <= n <= |taken| + 2 ==> Suffixed(desired, n) in taken {
      forall i, j | 0 <= i < j < |tried| ensures tried[i] != tried[j] {
        if tried[i] == tried[j] {
          SuffixedInjective(desired, i + 2, desired, j + 2);
        }
      }
      DistinctFits(tried, taken);
    }
  }

  /** The first free choice comes no later than the names in its way allow. */
  lemma FirstFreeIsEarly(taken: set<string>, desired: string, k: nat)
    requires forall earlier: nat :: earlier < k ==> DeviceCandidate(desired, earlier) in taken
    ensures k <= |taken| + 1
  {
    if k > 1 {
      var tried := seq(k - 1, (i: nat) => Suffixed(desired, i + 2));
      forall i | 0 <= i < k - 1 ensures tried[i] in taken {
        assert tried[i] == DeviceCandidate(desired, i + 1);
      }
      forall i, j | 0 <= i < j < |tried| ensures tried[i] != tried[j] {
        if tried[i] == tried[j] {
          SuffixedInjective(desired, i + 2, desired, j + 2);
        }
      }
      DistinctFits(tried, taken);
    }
  }

  /** So a short enough name gets a short enough choice. */
  lemma FirstFreeFits(taken: set<string>, desired: string, k: nat)
    requires forall earlier: nat :: earlier < k ==> DeviceCandidate(desired, earlier) in taken
    requires |desired| <= MAX_LABEL_LEN && |Decimal(|taken| + 2)| < MAX_LABEL_LEN
    ensures |DeviceCandidate(desired, k)| <= MAX_LABEL_LEN
  {
    FirstFreeIsEarly(taken, desired, k);
    if k > 0 {
      DigitsGrow(k + 1, |taken| + 2);
      SuffixedFits(desired, k + 1);
    }
  }

  ghost predicate FirstFreeSuffix(taken: set<string>, desired: string, n: nat, name: string) {
    name == Suffixed(desired, n) && name !in taken && forall m :: 2 <= m < n ==> Suffixed(desired, m) in taken
  }

  /** The first free choice: the name itself, or else the lowest suffix that is free. The search never runs out: its
      last line is not reachable. */
  method UniqueDeviceName(taken: set<string>, desired: string) returns (name: string)
    ensures name !in taken && (desired !in taken ==> name == desired)
    ensures desired in taken ==> exists n :: 2 <= n <= |taken| + 2 && FirstFreeSuffix(taken, desired, n, name)
    ensures exists k: nat ::
      && k <= |taken| + 1
      && name == DeviceCandidate(desired, k)
      && forall earlier: nat :: earlier < k ==> DeviceCandidate(desired, earlier) in taken
    ensures |desired| <= MAX_LABEL_LEN && |Decimal(|taken| + 2)| < MAX_LABEL_LEN ==> |name| <= MAX_LABEL_LEN
  {
    if desired !in taken {
      assert DeviceCandidate(desired, 0) == desired;
      return desired;
    }
    FreeSuffixExists(taken, desired);
    ghost var free :| 2 <= free <= |taken| + 2 && Suffixed(desired, free) !in taken;
    assert DeviceCandidate(desired, free - 1) !in taken;
    for n := 2 to |taken| + 3
      invariant forall earlier: nat :: earlier + 1 < n ==> DeviceCandidate(desired, earlier) in taken
    {
      var candidate := Suffixed(desired, n);
      assert candidate == DeviceCandidate(desired, n - 1);
      if candidate !in taken {
        forall m | 2 <= m < n ensures Suffixed(desired, m) in taken {
          assert DeviceCandidate(desired, m - 1) in taken;
        }
        assert FirstFreeSuffix(taken, desired, n, candidate);
        if |Decimal(|taken| + 2)| < MAX_LABEL_LEN {
          DigitsGrow(n, |taken| + 2);
          SuffixedFits(desired, n);
        }
        return candidate;
      }
    }
    assert false;
    name := "";
  }

  // ---- Sanitised labels ----

  predicate Alphanumeric(c: char) {
    'a' <= c <= 'z' || '0' <= c <= '9'
  }

  function Lower(c: char): char {
    if 'A' <= c <= 'Z' then (c as int + 32) as char else c
  }

  predicate LabelChar(c: char) {
    Alphanumeric(c) || c == '-'
  }

  /** No dash in front and never two in a row. */
  predicate SingleDashes(s: string) {
    && (forall i :: 0 <= i < |s| ==> LabelChar(s[i]))
    && (|s| > 0 ==> s[0] != '-')
    && (forall i :: 0 < i < |s| ==> !(s[i - 1] == '-' && s[i] == '-'))
  }

  /** The text after the characters were collapsed to letters, digits and single dashes. */
  function Collapsed(s: string): string {
    if |s| == 0 then ""
    else
      var out, c := Collapsed(s[..|s| - 1]), Lower(s[|s| - 1]);
      if Alphanumeric(c) then out + [c]
      else if |out| > 0 && out[|out| - 1] != '-' then out + ['-']
      else out
  }

  function TrimDash(s: string): string {
    if |s| > 0 && s[|s| - 1] == '-' then TrimDash(s[..|s| - 1]) else s
  }

  function Defaulted(s: string): string {
    if |s| == 0 then "device" else s
  }

  function Sanitized(s: string): string {
    var full := Defaulted(TrimDash(Collapsed(s)));
    full[..Min(MAX_LABEL_LEN, |full|)]
  }

  lemma {:induction false} CollapsedIsClean(s: string)
    ensures SingleDashes(Collapsed(s))
  {
    if |s| > 0 {
      CollapsedIsClean(s[..|s| - 1]);
    }
  }

  /** A clean text loses at most one trailing dash. */
  lemma TrimCleans(s: string)
    requires SingleDashes(s)
    ensures SingleDashes(TrimDash(s))
    ensures |TrimDash(s)| > 0 ==> TrimDash(s)[|TrimDash(s)| - 1] != '-'
  {
    if |s| > 0 && s[|s| - 1] == '-' {
      TrimCleans(s[..|s| - 1]);
    }
  }

  lemma DefaultedIsClean(t: string)
    requires SingleDashes(t) && (|t| > 0 ==> t[|t| - 1] != '-')
    ensures SingleDashes(Defaulted(t)) && |Defaulted(t)| > 0 && Defaulted(t)[|Defaulted(t)| - 1] != '-'
    ensures |Defaulted(t)| > MAX_LABEL_LEN ==> Defaulted(t) == t
    ensures |t| > MAX_LABEL_LEN ==> Defaulted(t) == t
  {
    if |t| == 0 {
      assert Defaulted(t) == "device" && |"device"| == 6;
    }
  }

  lemma PrefixIsClean(full: string, n: nat)
    requires SingleDashes(full) && n <= |full|
    ensures SingleDashes(full[..n])
  {
  }

  /** What every sanitised label satisfies. It may still end in a dash: the cap is applied after the
      dashes were trimmed, so this happens exactly when the cut falls right behind one. */
  lemma SanitizedIsLabel(s: string)
    ensures 1 <= |Sanitized(s)| <= MAX_LABEL_LEN && SingleDashes(Sanitized(s))
    ensures Sanitized(s)[|Sanitized(s)| - 1] == '-' <==>
      |TrimDash(Collapsed(s))| > MAX_LABEL_LEN && TrimDash(Collapsed(s))[MAX_LABEL_LEN - 1] == '-'
  {
    CollapsedIsClean(s);
    TrimCleans(Collapsed(s));
    DefaultedIsClean(TrimDash(Collapsed(s)));
    var full := Defaulted(TrimDash(Collapsed(s)));
    PrefixIsClean(full, Min(MAX_LABEL_LEN, |full|));
  }

  lemma {:induction false} CollapsedKeepsClean(s: string)
    requires SingleDashes(s)
    ensures Collapsed(s) == s
  {
    if |s| > 0 {
      assert s == s[..|s| - 1] + [s[|s| - 1]];
      CollapsedKeepsClean(s[..|s| - 1]);
    }
  }

  /** Sanitising again changes nothing exactly when the label does not end in a dash. */
  lemma SanitizedTwice(s: string)
    ensures Sanitized(Sanitized(s)) == Sanitized(s) <==> Sanitized(s)[|Sanitized(s)| - 1] != '-'
  {
    SanitizedIsLabel(s);
    var t := Sanitized(s);
    CollapsedKeepsClean(t);
    TrimCleans(t);
    TrimKeepsHead(t);
    assert Sanitized(t) == TrimDash(t);
  }

  lemma {:induction false} TrimKeepsHead(s: string)
    requires |s| > 0 && s[0] != '-'
    ensures 0 < |TrimDash(s)| <= |s|
  {
    if s[|s| - 1] == '-' {
      TrimKeepsHead(s[..|s| - 1]);
    }
  }

  /** The cut can indeed leave a dash at the end. */
  lemma CutLeavesDash()
    ensures exists s :: Sanitized(s)[|Sanitized(s)| - 1] == '-'
  {
    var s := seq(64, i => if i == 62 then '-' else 'a');
    CollapsedKeepsClean(s);
    SanitizedIsLabel(s);
    assert TrimDash(Collapsed(s)) == s;
  }

  // ---- Labels are their words ----

  /** A letter or digit in lower case; nothing for any other character. */
  function Folded(c: char): Option<char> {
    if 'a' <= c <= 'z' || '0' <= c <= '9' then Some(c)
    else if 'A' <= c <= 'Z' then Some('a' + (c - 'A'))
    else None
  }

  /** The longest stretches of letters and digits, in lower case. */
  function Words(s: string): seq<string> {
    if |s| == 0 then []
    else
      var ws, n := Words(s[..|s| - 1]), |s| - 1;
      match Folded(s[n])
      case None => ws
      case Some(c) =>
        if n > 0 && Folded(s[n - 1]).Some? && |ws| > 0 then ws[|ws| - 1 := ws[|ws| - 1] + [c]] else ws + [[c]]
  }

  function Joined(ws: seq<string>): string {
    if |ws| == 0 then "" else if |ws| == 1 then ws[0] else Joined(ws[..|ws| - 1]) + "-" + ws[|ws| - 1]
  }

  lemma JoinedGrows(ws: seq<string>, c: char)
    requires |ws| > 0
    ensures Joined(ws[|ws| - 1 := ws[|ws| - 1] + [c]]) == Joined(ws) + [c]
  {
    var last := |ws| - 1;
    var longer := ws[last := ws[last] + [c]];
    assert longer[..last] == ws[..last];
    if last > 0 {
      assert Joined(longer) == Joined(ws[..last]) + "-" + (ws[last] + [c]);
    }
  }

  lemma JoinedEnds(ws: seq<string>, w: string)
    ensures Joined(ws + [w]) == Joined(ws) + (if |ws| > 0 then "-" else "") + w
  {
    assert (ws + [w])[..|ws|] == ws;
  }

  lemma FoldedIsLowered(c: char)
    ensures Folded(c).Some? <==> Alphanumeric(Lower(c))
    ensures Folded(c).Some? ==> Folded(c).value == Lower(c) && Lower(c) != '-'
  {
  }

  /** What ends a text that has words: a letter or digit, or a separator. */
  predicate Open(s: string) {
    |s| > 0 && Folded(s[|s| - 1]).None?
  }

  lemma WordGoesOn(s: string)
    requires |s| > 1 && Folded(s[|s| - 1]).Some? && !Open(s[..|s| - 1])
    requires |Words(s[..|s| - 1])| > 0 && Collapsed(s[..|s| - 1]) == Joined(Words(s[..|s| - 1]))
    ensures |Words(s)| > 0 && Collapsed(s) == Joined(Words(s)) == Joined(Words(s[..|s| - 1])) + [Lower(s[|s| - 1])]
  {
    var ws, c := Words(s[..|s| - 1]), s[|s| - 1];
    FoldedIsLowered(c);
    JoinedGrows(ws, Lower(c));
    assert s[..|s| - 1][|s| - 2] == s[|s| - 2];
  }

  lemma WordBegins(s: string)
    requires |s| > 0 && Folded(s[|s| - 1]).Some? && (|s| > 1 ==> Open(s[..|s| - 1]))
    requires
      var ws := Words(s[..|s| - 1]);
      Collapsed(s[..|s| - 1]) == Joined(ws) + (if |ws| > 0 then "-" else "")
    ensures |Words(s)| > 0 && Collapsed(s) == Joined(Words(s)) == Collapsed(s[..|s| - 1]) + [Lower(s[|s| - 1])]
  {
    var ws, c := Words(s[..|s| - 1]), s[|s| - 1];
    FoldedIsLowered(c);
    JoinedEnds(ws, [Lower(c)]);
    if |s| > 1 {
      assert s[..|s| - 1][|s| - 2] == s[|s| - 2];
    }
    assert Words(s) == ws + [[Lower(c)]];
  }

  lemma {:induction false} CollapsedIsWords(s: string)
    ensures
      var ws := Words(s);
      && Collapsed(s) == Joined(ws) + (if |ws| > 0 && Open(s) then "-" else "")
      && (|ws| > 0 ==> |Joined(ws)| > 0 && Joined(ws)[|Joined(ws)| - 1] != '-')
      && (|s| > 0 && !Open(s) ==> |ws| > 0)
  {
    if |s| > 0 {
      var before, c := s[..|s| - 1], s[|s| - 1];
      CollapsedIsWords(before);
      FoldedIsLowered(c);
      var ws := Words(before);
      if Folded(c).None? {
        assert Words(s) == ws && Open(s);
      } else if |before| > 0 && !Open(before) {
        WordGoesOn(s);
      } else {
        WordBegins(s);
      }
    }
  }

  /** A sanitised label is the words of the text in lower case, joined by single dashes, or `device` if it has none;
      cut after 63 characters. */
  lemma SanitizedIsItsWords(s: string)
    ensures
      var full := if Words(s) == [] then "device" else Joined(Words(s));
      Sanitized(s) == full[..Min(MAX_LABEL_LEN, |full|)]
  {
    CollapsedIsWords(s);
    var ws, out := Words(s), Collapsed(s);
    if |ws| > 0 && Open(s) {
      assert out[..|out| - 1] == Joined(ws);
    }
    assert TrimDash(out) == Joined(ws);
  }

  method SanitizeLabel(s: string) returns (out: string)
    ensures out == Sanitized(s)
  {
    out := "";
    var prevDash := false;
    for i := 0 to |s|
      invariant out == Collapsed(s[..i])
      invariant prevDash <==> |out| > 0 && out[|out| - 1] == '-'
    {
      assert s[..i + 1][..i] == s[..i];
      var lc := Lower(s[i]);
      if Alphanumeric(lc) {
        out, prevDash := out + [lc], false;
      } else if out != "" && !prevDash {
        out, prevDash := out + ['-'], true;
      }
    }
    assert s[..|s|] == s;
    ghost var collapsed := out;
    while |out| > 0 && out[|out| - 1] == '-'
      invariant TrimDash(out) == TrimDash(collapsed)
    {
      out := out[..|out| - 1];
    }
    if out == "" {
      out := out + "device";
    }
    out := out[..Min(MAX_LABEL_LEN, |out|)];
  }

  // ---- User labels ----

  type User = nat

  /** The k-th of the labels `user_label` is willing to try: the seed, its suffixes 2 to 32, the fallback. */
  function LabelCandidate(user: User, seed: string, k: nat): string {
    if k == 0 then Sanitized(seed)
    else if k < MAX_LABEL_SUFFIX then Suffixed(Sanitized(seed), k + 1)
    else "user-" + Decimal(user)
  }

  ghost predicate Injective(labels: map<User, string>) {
    forall u, v :: u in labels && v in labels && labels[u] == labels[v] ==> u == v
  }

  /** Allocated labels stay as they are. */
  ghost predicate Extends(before: map<User, string>, after: map<User, string>) {
    forall u :: u in before ==> u in after && after[u] == before[u]
  }

  datatype Insert = Insert(user: User, name: string)

  predicate Conflicts(labels: map<User, string>, i: Insert) {
    i.user in labels || i.name in labels.Values
  }

  /** The table after a series of INSERTs, each refused by the two UNIQUE constraints if it conflicts. */
  function Committed(labels: map<User, string>, batch: seq<Insert>): map<User, string>
    decreases |batch|
  {
    if |batch| == 0 then labels
    else Committed(if Conflicts(labels, batch[0]) then labels else labels[batch[0].user := batch[0].name], batch[1..])
  }

  /** However registrations interleave, labels stay unique and never change. */
  lemma {:induction false} CommittedIsSound(labels: map<User, string>, batch: seq<Insert>)
    requires Injective(labels)
    ensures Injective(Committed(labels, batch)) && Extends(labels, Committed(labels, batch))
    decreases |batch|
  {
    if |batch| > 0 {
      var i := batch[0];
      if !Conflicts(labels, i) {
        OneInsertIsSound(labels, i);
        CommittedIsSound(labels[i.user := i.name], batch[1..]);
      } else {
        CommittedIsSound(labels, batch[1..]);
      }
    }
  }

  lemma OneInsertIsSound(labels: map<User, string>, i: Insert)
    requires Injective(labels) && !Conflicts(labels, i)
    ensures Injective(labels[i.user := i.name]) && Extends(labels, labels[i.user := i.name])
  {
    assert forall u :: u in labels ==> labels[u] in labels.Values;
  }

  /** Nobody else commits anything. */
  predicate Alone(batches: seq<seq<Insert>>) {
    forall i :: 0 <= i < |batches| ==> batches[i] == []
  }

  /** The label a user is given when nobody interferes: its own, or its lowest free suffix up to 32, or the one made
      of its id; and none if all of these are taken. */
  ghost predicate Given(taken: set<string>, user: User, seed: string, r: Result<string, ()>) {
    var stem, last := Sanitized(seed), "user-" + Decimal(user);
    var none := stem in taken && forall n :: 2 <= n <= 32 ==> Suffixed(stem, n) in taken;
    && (stem !in taken ==> r == Ok(stem))
    && (stem in taken && !none ==> r.Ok? && exists n :: 2 <= n <= 32 && FirstFreeSuffix(taken, stem, n, r.value))
    && (none ==> r == if last in taken then Err(()) else Ok(last))
  }

  lemma GivenOk(taken: set<string>, user: User, seed: string, k: nat)
    requires k <= MAX_LABEL_SUFFIX && LabelCandidate(user, seed, k) !in taken
    requires forall earlier: nat :: earlier < k ==> LabelCandidate(user, seed, earlier) in taken
    ensures Given(taken, user, seed, Ok(LabelCandidate(user, seed, k)))
  {
    var stem := Sanitized(seed);
    forall n | 2 <= n <= k && n <= 32 ensures Suffixed(stem, n) in taken {
      assert LabelCandidate(user, seed, n - 1) in taken;
    }
    if k > 0 {
      assert LabelCandidate(user, seed, 0) in taken;
    }
    if 0 < k < MAX_LABEL_SUFFIX {
      assert FirstFreeSuffix(taken, stem, k + 1, LabelCandidate(user, seed, k));
    }
  }

  lemma GivenErr(taken: set<string>, user: User, seed: string)
    requires forall k: nat :: k <= MAX_LABEL_SUFFIX ==> LabelCandidate(user, seed, k) in taken
    ensures Given(taken, user, seed, Err(()))
  {
    assert LabelCandidate(user, seed, 0) in taken && LabelCandidate(user, seed, MAX_LABEL_SUFFIX) in taken;
    forall n | 2 <= n <= 32 ensures Suffixed(Sanitized(seed), n) in taken {
      assert LabelCandidate(user, seed, n - 1) in taken;
    }
  }

  class UserLabels {
    var labels: map<User, string>

    constructor ()
      ensures labels == map[]
    {
      labels := map[];
    }

    /** What other tasks commit while this one awaits the database. */
    method Interleave(batch: seq<Insert>)
      modifies this
      ensures labels == Committed(old(labels), batch)
      ensures old(Injective(labels)) ==> Injective(labels) && Extends(old(labels), labels)
    {
      if Injective(labels) {
        CommittedIsSound(labels, batch);
      }
      for i := 0 to |batch|
        invariant Committed(labels, batch[i..]) == Committed(old(labels), batch)
      {
        assert batch[i..][1..] == batch[i + 1..];
        if !Conflicts(labels, batch[i]) {
          labels := labels[batch[i].user := batch[i].name];
        }
      }
    }

    method TryInsert(user: User, name: string) returns (ok: bool)
      modifies this
      ensures ok <==> !Conflicts(old(labels), Insert(user, name))
      ensures labels == if ok then old(labels)[user := name] else old(labels)
      ensures old(Injective(labels)) ==> Injective(labels) && Extends(old(labels), labels)
    {
      ok := !Conflicts(labels, Insert(user, name));
      if ok {
        if Injective(labels) {
          OneInsertIsSound(labels, Insert(user, name));
        }
        labels := labels[user := name];
      }
    }

    /** `others[k]` is what other tasks commit before the k-th attempt, `after[k]` what they commit between its
        failure and the lookup that follows. A label that is returned is this user's from then on. Without
        interference the call takes the first free candidate, and fails exactly when all 33 belong to others. */
    method UserLabel(user: User, seed: string, others: seq<seq<Insert>>, after: seq<seq<Insert>>)
      returns (r: Result<string, ()>)
      requires Injective(labels) && |others| == MAX_LABEL_SUFFIX + 1 && |after| == MAX_LABEL_SUFFIX
      modifies this
      ensures Injective(labels) && Extends(old(labels), labels)
      ensures r.Ok? ==> user in labels && labels[user] == r.value
      ensures user in old(labels) ==> r == Ok(old(labels)[user])
      ensures Alone(others) && Alone(after) && user !in old(labels) ==>
        && (r.Err? <==> forall k: nat :: k <= MAX_LABEL_SUFFIX ==> LabelCandidate(user, seed, k) in old(labels).Values)
        && (r.Ok? ==> labels == old(labels)[user := r.value] && exists k: nat ::
              && k <= MAX_LABEL_SUFFIX && r.value == LabelCandidate(user, seed, k)
              && forall earlier: nat :: earlier < k ==> LabelCandidate(user, seed, earlier) in old(labels).Values)
      ensures Alone(others) && Alone(after) && user !in old(labels) ==> Given(old(labels).Values, user, seed, r)
    {
      if user in labels {
        return Ok(labels[user]);
      }
      for n := 0 to MAX_LABEL_SUFFIX
        invariant Injective(labels) && Extends(old(labels), labels)
        invariant Alone(others) && Alone(after) ==> labels == old(labels)
        invariant Alone(others) && Alone(after) ==>
          forall k: nat :: k < n ==> LabelCandidate(user, seed, k) in old(labels).Values
      {
        Interleave(others[n]);
        assert Alone(others) ==> others[n] == [];
        var candidate := LabelCandidate(user, seed, n);
        var ok := TryInsert(user, candidate);
        if ok {
          if Alone(others) && Alone(after) {
            GivenOk(old(labels).Values, user, seed, n);
          }
          return Ok(candidate);
        }
        Interleave(after[n]);
        assert Alone(after) ==> after[n] == [];
        if user in labels {
          return Ok(labels[user]);
        }
      }
      Interleave(others[MAX_LABEL_SUFFIX]);
      assert Alone(others) ==> others[MAX_LABEL_SUFFIX] == [];
      var fallback := LabelCandidate(user, seed, MAX_LABEL_SUFFIX);
      var ok := TryInsert(user, fallback);
      r := if ok then Ok(fallback) else Err(());
      if Alone(others) && Alone(after) {
        if ok {
          GivenOk(old(labels).Values, user, seed, MAX_LABEL_SUFFIX);
        } else {
          GivenErr(old(labels).Values, user, seed);
        }
      }
    }
  }

  // ---- Running out of labels ----

  lemma CleanStays(s: string)
    requires SingleDashes(s) && 0 < |s| <= MAX_LABEL_LEN && s[|s| - 1] != '-'
    ensures Sanitized(s) == s
  {
    CollapsedKeepsClean(s);
  }

  lemma NumberedStays(stem: string, n: nat)
    requires SingleDashes(stem) && |stem| > 0 && stem[|stem| - 1] != '-'
    requires |stem| + 1 + |Decimal(n)| <= MAX_LABEL_LEN
    ensures Sanitized(stem + "-" + Decimal(n)) == stem + "-" + Decimal(n)
  {
    var digits := Decimal(n);
    DecimalReadsBack(n);
    forall i | 0 <= i < |digits| ensures '0' <= digits[i] <= '9' {
      assert digits[i] in digits;
    }
    DashedIsClean(stem, digits);
    CleanStays(stem + "-" + digits);
  }

  lemma DashedIsClean(stem: string, digits: string)
    requires SingleDashes(stem) && |stem| > 0 && stem[|stem| - 1] != '-'
    requires |digits| > 0 && forall i :: 0 <= i < |digits| ==> '0' <= digits[i] <= '9'
    ensures
      var name := stem + "-" + digits;
      SingleDashes(name) && name[|name| - 1] != '-'
  {
    var name := stem + "-" + digits;
    forall i | 0 <= i < |name| ensures LabelChar(name[i]) && (i != |stem| && i + 1 >= |stem| ==> name[i] != '-') {
      if i > |stem| {
        assert name[i] == digits[i - |stem| - 1];
      }
    }
  }

  /** The fallback is no reserved name: it is exactly what a user called `user-<id>` is given first.
      (A 64-bit id has at most 20 digits.) */
  lemma FallbackIsAnOrdinaryLabel(user: User, seed: string, other: User)
    requires |Decimal(user)| <= 20
    ensures LabelCandidate(user, seed, MAX_LABEL_SUFFIX) == LabelCandidate(other, "user-" + Decimal(user), 0)
  {
    NumberedStays("user", user);
    assert "user" + "-" + Decimal(user) == "user-" + Decimal(user);
  }

  /** The seed leaves room for any suffix tried and does not end in a dash. */
  predicate Roomy(seed: string) {
    |Sanitized(seed)| + 3 <= MAX_LABEL_LEN && Sanitized(seed)[|Sanitized(seed)| - 1] != '-'
  }

  /** So is every candidate: some name is given it first. */
  lemma CandidatesAreOrdinary(user: User, seed: string, k: nat)
    requires Roomy(seed) && |Decimal(user)| <= 20 && k <= MAX_LABEL_SUFFIX
    ensures Sanitized(LabelCandidate(user, seed, k)) == LabelCandidate(user, seed, k)
  {
    SanitizedIsLabel(seed);
    if k == 0 {
      CleanStays(Sanitized(seed));
    } else if k < MAX_LABEL_SUFFIX {
      TwoDigits(k + 1);
      assert Suffixed(Sanitized(seed), k + 1) == Sanitized(seed) + "-" + Decimal(k + 1);
      NumberedStays(Sanitized(seed), k + 1);
    } else {
      FallbackIsAnOrdinaryLabel(user, seed, user);
    }
  }

  lemma TwoDigits(n: nat)
    requires n < 100
    ensures |Decimal(n)| <= 2
  {
  }

  /** Thirty-three other users, each registering the label that its own name is given first. */
  function Rivals(user: User, seed: string, n: nat): (batch: seq<Insert>)
    ensures |batch| == n
    ensures forall i :: 0 <= i < n ==>
      batch[i] == Insert(user + 1 + i, LabelCandidate(user + 1 + i, LabelCandidate(user, seed, i), 0))
  {
    if n == 0 then []
    else Rivals(user, seed, n - 1) + [Insert(user + n, LabelCandidate(user + n, LabelCandidate(user, seed, n - 1), 0))]
  }

  /** Whoever inserts for the first time ends with the name, or finds it somebody's. */
  lemma {:induction false} NewcomersNamesAreTaken(labels: map<User, string>, batch: seq<Insert>, user: User)
    requires Injective(labels) && user !in labels
    requires forall i :: 0 <= i < |batch| ==> batch[i].user !in labels && batch[i].user != user
    requires forall i, j :: 0 <= i < j < |batch| ==> batch[i].user != batch[j].user
    ensures user !in Committed(labels, batch)
    ensures forall i :: 0 <= i < |batch| ==> batch[i].name in Committed(labels, batch).Values
    decreases |batch|
  {
    if |batch| > 0 {
      var first, rest := batch[0], batch[1..];
      var next := if Conflicts(labels, first) then labels else labels[first.user := first.name];
      if !Conflicts(labels, first) {
        OneInsertIsSound(labels, first);
        assert next[first.user] == first.name;
      }
      assert first.name in next.Values;
      NewcomersNamesAreTaken(next, rest, user);
      CommittedIsSound(next, rest);
      var u :| u in next && next[u] == first.name;
      assert Committed(next, rest)[u] == first.name;
      forall i | 0 <= i < |batch| ensures batch[i].name in Committed(labels, batch).Values {
        if i > 0 {
          assert batch[i] == rest[i - 1];
        }
      }
    }
  }

  /** Starting from no labels at all, they leave a user none of its 33 candidates. */
  lemma RivalsTakeAll(user: User, seed: string)
    requires Roomy(seed) && |Decimal(user)| <= 20
    ensures
      var labels := Committed(map[], Rivals(user, seed, MAX_LABEL_SUFFIX + 1));
      user !in labels && Injective(labels) && AllTaken(labels, user, seed)
  {
    var batch := Rivals(user, seed, MAX_LABEL_SUFFIX + 1);
    CommittedIsSound(map[], batch);
    NewcomersNamesAreTaken(map[], batch, user);
    forall k: nat | k <= MAX_LABEL_SUFFIX ensures LabelCandidate(user, seed, k) in Committed(map[], batch).Values {
      CandidatesAreOrdinary(user, seed, k);
      assert batch[k].name == LabelCandidate(user, seed, k);
    }
  }

  ghost predicate AllTaken(labels: map<User, string>, user: User, seed: string) {
    forall k: nat :: k <= MAX_LABEL_SUFFIX ==> LabelCandidate(user, seed, k) in labels.Values
  }

  method LabelAlone(table: UserLabels, user: User, seed: string) returns (r: Result<string, ()>)
    requires Injective(table.labels) && user !in table.labels && AllTaken(table.labels, user, seed)
    modifies table
    ensures r.Err?
  {
    var others, after := seq(MAX_LABEL_SUFFIX + 1, _ => []), seq(MAX_LABEL_SUFFIX, _ => []);
    r := table.UserLabel(user, seed, others, after);
  }

  /** And then the call fails, with nobody interfering. */
  method LabelsRunOut(user: User, seed: string) returns (r: Result<string, ()>)
    requires Roomy(seed) && |Decimal(user)| <= 20
    ensures r.Err?
  {
    var table := new UserLabels();
    var rivals := Rivals(user, seed, MAX_LABEL_SUFFIX + 1);
    RivalsTakeAll(user, seed);
    table.Interleave(rivals);
    r := LabelAlone(table, user, seed);
  }
}
