/** `/api/login`: scan every category in order for the first live record whose username and
    password both equal the submitted ones, removing (and writing out) every expired record passed
    on the way, and tell an expired credential apart from a wrong one. */
module Login {
  import opened Wrappers
  import opened Seqs
  import opened Expiration
  import opened CredStore
  import opened Sessions

  /** The loop only looks at records with a truthy username and password. */
  predicate Complete(c: Cred) {
    c.username != "" && c.password != ""
  }

  /** A record the scan removes when it reaches it. */
  predicate Removable(c: Cred, now: int) {
    Complete(c) && IsExpired(c, now)
  }

  predicate Matches(c: Cred, u: string, p: string) {
    c.username == u && c.password == p
  }

  /** A record that logs the user in. */
  predicate LiveMatch(c: Cred, u: string, p: string, now: int) {
    Complete(c) && !IsExpired(c, now) && Matches(c, u, p)
  }

  /** A record that would have matched but is removed as expired. */
  predicate ExpiredMatch(c: Cred, u: string, p: string, now: int) {
    Removable(c, now) && Matches(c, u, p)
  }

  function NotRemovableAt(now: int): Cred -> bool {
    c => !Removable(c, now)
  }

  predicate HasLiveMatch(cs: seq<Cred>, u: string, p: string, now: int) {
    exists j :: 0 <= j < |cs| && LiveMatch(cs[j], u, p, now)
  }

  predicate HasExpiredMatch(cs: seq<Cred>, u: string, p: string, now: int) {
    exists j :: 0 <= j < |cs| && ExpiredMatch(cs[j], u, p, now)
  }

  /** The result of scanning one category: where the match is (if any), whether an expired
      record matching both fields was removed, the list afterwards, and how many were removed. */
  datatype CredScan = CredScan(at: Option<nat>, hit: bool, kept: seq<Cred>, removed: nat)

  function Shift(at: Option<nat>): Option<nat> {
    match at
    case Some(i) => Some(i + 1)
    case None => None
  }

  /** Where the scan of a list stops: at the match, or past the end. */
  function Stop(at: Option<nat>, n: nat): nat {
    match at
    case Some(i) => i
    case None => n
  }

  /** What the scan of one list must produce: the match is the first live matching record, every
      removable record before it is removed and nothing else changes, the expired flag says
      whether a removed record matched both fields, and the removal count is exact. */
  predicate ScanSpec(cs: seq<Cred>, u: string, p: string, now: int, r: CredScan) {
    && (r.at.Some? ==> r.at.value < |cs| && LiveMatch(cs[r.at.value], u, p, now))
    && (r.at.Some? ==> forall i :: 0 <= i < r.at.value ==> !LiveMatch(cs[i], u, p, now))
    && (r.at.None? ==> !HasLiveMatch(cs, u, p, now))
    && Stop(r.at, |cs|) <= |cs|
    && r.kept == Filter(NotRemovableAt(now), cs[..Stop(r.at, |cs|)]) + cs[Stop(r.at, |cs|)..]
    && (r.hit <==> HasExpiredMatch(cs[..Stop(r.at, |cs|)], u, p, now))
    && r.removed + |r.kept| == |cs|
  }

  /** The inner loop of the login handler over one category's list. */
  function ScanCreds(cs: seq<Cred>, u: string, p: string, now: int): (r: CredScan)
    ensures ScanSpec(cs, u, p, now, r)
    decreases |cs|
  {
    if cs == [] then CredScan(None, false, [], 0)
    else
      var c := cs[0];
      if Removable(c, now) then
        var rest := ScanCreds(cs[1..], u, p, now);
        ScanStepRemoved(cs, u, p, now, rest);
        CredScan(Shift(rest.at), rest.hit || Matches(c, u, p), rest.kept, rest.removed + 1)
      else if Complete(c) && Matches(c, u, p) then
        assert cs[..0] == [] && cs[0..] == cs;
        CredScan(Some(0), false, cs, 0)
      else
        var rest := ScanCreds(cs[1..], u, p, now);
        ScanStepKept(cs, u, p, now, rest);
        CredScan(Shift(rest.at), rest.hit, [c] + rest.kept, rest.removed)
  }

  /** Reaching an expired record: it is removed and the rest of the list is scanned. */
  lemma ScanStepRemoved(cs: seq<Cred>, u: string, p: string, now: int, rest: CredScan)
    requires cs != [] && Removable(cs[0], now)
    requires ScanSpec(cs[1..], u, p, now, rest)
    ensures ScanSpec(cs, u, p, now, CredScan(Shift(rest.at), rest.hit || Matches(cs[0], u, p), rest.kept, rest.removed + 1))
  {
    ScanStepLemma(cs, u, p, now, rest.at);
    ShiftFirstLive(cs, u, p, now, rest.at);
  }

  /** Passing a record that is neither removed nor a match: it stays where it is. */
  lemma ScanStepKept(cs: seq<Cred>, u: string, p: string, now: int, rest: CredScan)
    requires cs != [] && !Removable(cs[0], now) && !(Complete(cs[0]) && Matches(cs[0], u, p))
    requires ScanSpec(cs[1..], u, p, now, rest)
    ensures ScanSpec(cs, u, p, now, CredScan(Shift(rest.at), rest.hit, [cs[0]] + rest.kept, rest.removed))
  {
    ScanStepLemma(cs, u, p, now, rest.at);
    ShiftFirstLive(cs, u, p, now, rest.at);
    var n := Stop(rest.at, |cs| - 1);
    ConsConcat(cs[0], Filter(NotRemovableAt(now), cs[1..][..n]), cs[1..][n..]);
  }

  lemma ConsConcat<T>(x: T, a: seq<T>, b: seq<T>)
    ensures [x] + (a + b) == ([x] + a) + b
  {
  }

  /** A first live match in the tail is a first live match of the whole list when the head is not one. */
  lemma ShiftFirstLive(cs: seq<Cred>, u: string, p: string, now: int, at: Option<nat>)
    requires cs != [] && !LiveMatch(cs[0], u, p, now)
    requires at.Some? ==> at.value < |cs| - 1 && LiveMatch(cs[1..][at.value], u, p, now)
    requires at.Some? ==> forall i :: 0 <= i < at.value ==> !LiveMatch(cs[1..][i], u, p, now)
    requires at.None? ==> !HasLiveMatch(cs[1..], u, p, now)
    ensures Shift(at).Some? ==> Shift(at).value < |cs| && LiveMatch(cs[Shift(at).value], u, p, now)
    ensures Shift(at).Some? ==> forall i :: 0 <= i < Shift(at).value ==> !LiveMatch(cs[i], u, p, now)
    ensures Shift(at).None? ==> !HasLiveMatch(cs, u, p, now)
  {
    if at.Some? {
      forall i | 0 <= i < at.value + 1 ensures !LiveMatch(cs[i], u, p, now) {
        if i > 0 { assert cs[i] == cs[1..][i - 1]; }
      }
    }
  }

  /** How the stopping prefix of a list relates to that of its tail. */
  lemma ScanStepLemma(cs: seq<Cred>, u: string, p: string, now: int, at: Option<nat>)
    requires cs != []
    requires Stop(at, |cs| - 1) <= |cs| - 1
    ensures Stop(Shift(at), |cs|) == Stop(at, |cs| - 1) + 1
    ensures cs[..Stop(Shift(at), |cs|)] == [cs[0]] + cs[1..][..Stop(at, |cs| - 1)]
    ensures cs[Stop(Shift(at), |cs|)..] == cs[1..][Stop(at, |cs| - 1)..]
    ensures Filter(NotRemovableAt(now), cs[..Stop(Shift(at), |cs|)])
         == (if Removable(cs[0], now) then [] else [cs[0]]) + Filter(NotRemovableAt(now), cs[1..][..Stop(at, |cs| - 1)])
    ensures HasExpiredMatch(cs[..Stop(Shift(at), |cs|)], u, p, now)
        <==> ExpiredMatch(cs[0], u, p, now) || HasExpiredMatch(cs[1..][..Stop(at, |cs| - 1)], u, p, now)
  {
    var n := Stop(at, |cs| - 1);
    var pre := cs[..n + 1];
    assert pre == [cs[0]] + cs[1..][..n];
    assert pre[0] == cs[0] && pre[1..] == cs[1..][..n];
    if HasExpiredMatch(cs[1..][..n], u, p, now) {
      var j :| 0 <= j < n && ExpiredMatch(cs[1..][..n][j], u, p, now);
      assert pre[j + 1] == cs[1..][..n][j];
    }
    if HasExpiredMatch(pre, u, p, now) {
      var j :| 0 <= j < |pre| && ExpiredMatch(pre[j], u, p, now);
      if j > 0 {
        assert pre[j] == cs[1..][..n][j - 1];
      }
    }
  }

  /** Category k is the first category, in store order, holding a live match. */
  predicate FirstLiveCategory(s: Store, k: nat, u: string, p: string, now: int) {
    && k < |s|
    && HasLiveMatch(s[k].creds, u, p, now)
    && forall k' :: 0 <= k' < k ==> !HasLiveMatch(s[k'].creds, u, p, now)
  }

  predicate NoLiveMatch(s: Store, u: string, p: string, now: int) {
    forall k :: 0 <= k < |s| ==> !HasLiveMatch(s[k].creds, u, p, now)
  }

  predicate AnyExpiredMatch(s: Store, u: string, p: string, now: int) {
    exists k :: 0 <= k < |s| && HasExpiredMatch(s[k].creds, u, p, now)
  }

  /** The result of the outer loop: the index of the category holding the match, whether an
      expired record matching both fields was removed, the store afterwards, the removal count. */
  datatype StoreScan = StoreScan(at: Option<nat>, hit: bool, store: Store, removed: nat)

  /** What the outer loop must produce: it stops in the first category holding a live match;
      categories before it are swept of removable records, the stopping category is scanned up
      to the match, later categories are untouched, and no category is added or dropped. */
  predicate StoreScanSpec(s: Store, u: string, p: string, now: int, r: StoreScan) {
    && |r.store| == |s|
    && (forall k :: 0 <= k < |s| ==> r.store[k].tipo == s[k].tipo)
    && (r.at.Some? ==> FirstLiveCategory(s, r.at.value, u, p, now))
    && (r.at.None? ==> NoLiveMatch(s, u, p, now))
    && (forall k :: 0 <= k < Stop(r.at, |s|) ==> r.store[k].creds == Filter(NotRemovableAt(now), s[k].creds))
    && (r.at.Some? ==> r.store[r.at.value].creds == ScanCreds(s[r.at.value].creds, u, p, now).kept)
    && (forall k :: Stop(r.at, |s|) < k < |s| ==> r.store[k] == s[k])
    && (r.at.None? ==> (r.hit <==> AnyExpiredMatch(s, u, p, now)))
    && r.removed + TotalSize(r.store) == TotalSize(s)
  }

  /** The outer loop of the login handler over the categories, in store order. */
  function ScanStore(s: Store, u: string, p: string, now: int): (r: StoreScan)
    ensures StoreScanSpec(s, u, p, now, r)
    decreases |s|
  {
    if s == [] then StoreScan(None, false, [], 0)
    else
      var c := ScanCreds(s[0].creds, u, p, now);
      var head := Entry(s[0].tipo, c.kept);
      if c.at.Some? then
        StoreStepFound(s, u, p, now, c);
        StoreScan(Some(0), c.hit, [head] + s[1..], c.removed)
      else
        var rest := ScanStore(s[1..], u, p, now);
        ScanWhole(s[0].creds, u, p, now, c);
        StoreStepNext(s, u, p, now, c.kept, c.hit, c.removed, rest);
        StoreScan(Shift(rest.at), c.hit || rest.hit, [head] + rest.store, c.removed + rest.removed)
  }

  lemma TotalSizeCons(e: Entry, s: Store)
    ensures TotalSize([e] + s) == |e.creds| + TotalSize(s)
  {
    assert ([e] + s)[1..] == s;
  }

  /** The first category holds a live match: the scan stops there. */
  lemma StoreStepFound(s: Store, u: string, p: string, now: int, c: CredScan)
    requires s != [] && c == ScanCreds(s[0].creds, u, p, now) && c.at.Some?
    ensures StoreScanSpec(s, u, p, now, StoreScan(Some(0), c.hit, [Entry(s[0].tipo, c.kept)] + s[1..], c.removed))
  {
    var r := StoreScan(Some(0), c.hit, [Entry(s[0].tipo, c.kept)] + s[1..], c.removed);
    TotalSizeCons(Entry(s[0].tipo, c.kept), s[1..]);
    TotalSizeCons(s[0], s[1..]);
    assert s == [s[0]] + s[1..];
    assert forall k :: 0 < k < |s| ==> r.store[k] == s[k];
  }

  /** A scan that found nothing went through the whole list. */
  lemma ScanWhole(cs: seq<Cred>, u: string, p: string, now: int, c: CredScan)
    requires ScanSpec(cs, u, p, now, c) && c.at.None?
    ensures c.kept == Filter(NotRemovableAt(now), cs)
    ensures !HasLiveMatch(cs, u, p, now)
    ensures c.hit <==> HasExpiredMatch(cs, u, p, now)
    ensures c.removed + |c.kept| == |cs|
  {
    assert cs[..|cs|] == cs && cs[|cs|..] == [];
  }

  /** The first category holds no live match: it is swept whole and the scan moves on. */
  lemma StoreStepNext(s: Store, u: string, p: string, now: int, kept: seq<Cred>, hit: bool, removed: nat, rest: StoreScan)
    requires s != []
    requires kept == Filter(NotRemovableAt(now), s[0].creds)
    requires !HasLiveMatch(s[0].creds, u, p, now)
    requires hit <==> HasExpiredMatch(s[0].creds, u, p, now)
    requires removed + |kept| == |s[0].creds|
    requires StoreScanSpec(s[1..], u, p, now, rest)
    ensures StoreScanSpec(s, u, p, now,
      StoreScan(Shift(rest.at), hit || rest.hit, [Entry(s[0].tipo, kept)] + rest.store, removed + rest.removed))
  {
    var r := StoreScan(Shift(rest.at), hit || rest.hit, [Entry(s[0].tipo, kept)] + rest.store, removed + rest.removed);
    NextShape(s, u, p, now, kept, rest, r);
    NextMatch(s, u, p, now, hit, rest, r);
    TotalSizeCons(Entry(s[0].tipo, kept), rest.store);
    assert TotalSize(s) == |s[0].creds| + TotalSize(s[1..]);
  }

  lemma NextShape(s: Store, u: string, p: string, now: int, kept: seq<Cred>, rest: StoreScan, r: StoreScan)
    requires s != [] && kept == Filter(NotRemovableAt(now), s[0].creds)
    requires |rest.store| == |s| - 1
    requires forall k :: 0 <= k < |s| - 1 ==> rest.store[k].tipo == s[1..][k].tipo
    requires rest.at.Some? ==> rest.at.value < |s| - 1
    requires forall k :: 0 <= k < Stop(rest.at, |s| - 1) ==>
               rest.store[k].creds == Filter(NotRemovableAt(now), s[1..][k].creds)
    requires rest.at.Some? ==> rest.store[rest.at.value].creds == ScanCreds(s[1..][rest.at.value].creds, u, p, now).kept
    requires forall k :: Stop(rest.at, |s| - 1) < k < |s| - 1 ==> rest.store[k] == s[1..][k]
    requires r.store == [Entry(s[0].tipo, kept)] + rest.store && r.at == Shift(rest.at)
    ensures |r.store| == |s|
    ensures forall k :: 0 <= k < |s| ==> r.store[k].tipo == s[k].tipo
    ensures forall k :: 0 <= k < Stop(r.at, |s|) ==> r.store[k].creds == Filter(NotRemovableAt(now), s[k].creds)
    ensures r.at.Some? ==> r.store[r.at.value].creds == ScanCreds(s[r.at.value].creds, u, p, now).kept
    ensures forall k :: Stop(r.at, |s|) < k < |s| ==> r.store[k] == s[k]
  {
    forall k | 0 < k < |s| ensures r.store[k] == rest.store[k - 1] && s[k] == s[1..][k - 1] {
    }
  }

  lemma NextMatch(s: Store, u: string, p: string, now: int, hit: bool, rest: StoreScan, r: StoreScan)
    requires s != [] && !HasLiveMatch(s[0].creds, u, p, now)
    requires hit <==> HasExpiredMatch(s[0].creds, u, p, now)
    requires rest.at.Some? ==> FirstLiveCategory(s[1..], rest.at.value, u, p, now)
    requires rest.at.None? ==> NoLiveMatch(s[1..], u, p, now)
    requires rest.at.None? ==> (rest.hit <==> AnyExpiredMatch(s[1..], u, p, now))
    requires r.at == Shift(rest.at) && r.hit == (hit || rest.hit)
    ensures r.at.Some? ==> FirstLiveCategory(s, r.at.value, u, p, now)
    ensures r.at.None? ==> NoLiveMatch(s, u, p, now)
    ensures r.at.None? ==> (r.hit <==> AnyExpiredMatch(s, u, p, now))
  {
    forall k | 0 < k < |s| ensures s[k] == s[1..][k - 1] {
    }
    if rest.at.None? {
      if AnyExpiredMatch(s, u, p, now) {
        var k :| 0 <= k < |s| && HasExpiredMatch(s[k].creds, u, p, now);
        if k > 0 { assert s[k] == s[1..][k - 1]; }
      }
      if rest.hit {
        var k :| 0 <= k < |s| - 1 && HasExpiredMatch(s[1..][k].creds, u, p, now);
        assert s[k + 1] == s[1..][k];
      }
    }
  }

  datatype LoginOutcome =
    | LoggedIn(tipo: string, redirect: string)
    | CredentialExpired
    | WrongCredentials

  /** The response, the store afterwards, the session afterwards and the number of file writes
      (one per removed record). */
  datatype LoginResult = LoginResult(outcome: LoginOutcome, store: Store, session: Session, saves: nat)

  /** The `/api/login` handler. */
  function LoginAttempt(s: Store, session: Session, u: string, p: string, now: int): (r: LoginResult)
    ensures r.outcome.LoggedIn? <==> exists k: nat :: FirstLiveCategory(s, k, u, p, now) && s[k].tipo != ""
    ensures r.outcome.LoggedIn? ==> exists k: nat :: FirstLiveCategory(s, k, u, p, now) && r.outcome.tipo == s[k].tipo
    ensures r.outcome.LoggedIn? ==> r.outcome.redirect == PagePath(RedirectFor(r.outcome.tipo))
    ensures r.outcome.LoggedIn? ==> r.session == Session(true, r.outcome.tipo, u, None)
    ensures !r.outcome.LoggedIn? ==> r.session == session
    ensures r.outcome.CredentialExpired? <==> NoLiveMatch(s, u, p, now) && AnyExpiredMatch(s, u, p, now)
    ensures Keys(r.store) == Keys(s)
    ensures r.saves + TotalSize(r.store) == TotalSize(s)
    ensures NoLiveMatch(s, u, p, now) ==>
      forall k :: 0 <= k < |s| ==> r.store[k].creds == Filter(NotRemovableAt(now), s[k].creds)
  {
    var scan := ScanStore(s, u, p, now);
    SameTiposSameKeys(scan.store, s);
    if scan.hit && scan.at.None? then
      LoginResult(CredentialExpired, scan.store, session, scan.removed)
    else if scan.at.Some? && s[scan.at.value].tipo != "" then
      var t := s[scan.at.value].tipo;
      LoginResult(LoggedIn(t, PagePath(RedirectFor(t))), scan.store, Session(true, t, u, None), scan.removed)
    else
      assert scan.at.Some? ==> forall k: nat :: FirstLiveCategory(s, k, u, p, now) ==> k == scan.at.value;
      LoginResult(WrongCredentials, scan.store, session, scan.removed)
  }

  lemma SameTiposSameKeys(a: Store, b: Store)
    requires |a| == |b| && forall k :: 0 <= k < |a| ==> a[k].tipo == b[k].tipo
    ensures Keys(a) == Keys(b)
  {
  }

  /** A list scanned up to position j keeps every record that is not removable, and adds none. */
  lemma KeptMembership(cs: seq<Cred>, j: nat, now: int)
    requires j <= |cs|
    ensures var kept := Filter(NotRemovableAt(now), cs[..j]) + cs[j..];
      && (forall i :: 0 <= i < |cs| && !Removable(cs[i], now) ==> cs[i] in kept)
      && (forall i :: 0 <= i < |kept| ==> kept[i] in cs)
  {
    var pre := cs[..j];
    var kept := Filter(NotRemovableAt(now), pre) + cs[j..];
    FilterProperties(NotRemovableAt(now), pre);
    forall i | 0 <= i < |cs| && !Removable(cs[i], now) ensures cs[i] in kept {
      if i < j {
        assert cs[i] == pre[i];
      } else {
        assert cs[i] == cs[j..][i - j];
      }
    }
    forall i | 0 <= i < |kept| ensures kept[i] in cs {
      var f := Filter(NotRemovableAt(now), pre);
      if i < |f| {
        assert kept[i] == f[i];
        assert f[i] in pre;
      } else {
        assert kept[i] == cs[j..][i - |f|];
      }
    }
  }

  /** A list swept whole is a list swept up to its end. */
  lemma SweptWhole(cs: seq<Cred>, now: int)
    ensures Filter(NotRemovableAt(now), cs) == Filter(NotRemovableAt(now), cs[..|cs|]) + cs[|cs|..]
  {
    assert cs[..|cs|] == cs && cs[|cs|..] == [];
  }

  /** A list left alone is a list swept up to its start. */
  lemma SweptNone(cs: seq<Cred>, now: int)
    ensures cs == Filter(NotRemovableAt(now), cs[..0]) + cs[0..]
  {
    assert cs[..0] == [] && cs[0..] == cs;
  }

  /** Every category after the store scan is its old list with a prefix swept. */
  lemma ScanEntryShape(s: Store, u: string, p: string, now: int, k: nat) returns (stop: nat)
    requires k < |s|
    ensures stop <= |s[k].creds|
    ensures ScanStore(s, u, p, now).store[k].creds
      == Filter(NotRemovableAt(now), s[k].creds[..stop]) + s[k].creds[stop..]
  {
    var scan := ScanStore(s, u, p, now);
    var cs := s[k].creds;
    var n := Stop(scan.at, |s|);
    if k < n {
      stop := |cs|;
      SweptWhole(cs, now);
    } else if k == n {
      stop := Stop(ScanCreds(cs, u, p, now).at, |cs|);
    } else {
      stop := 0;
      SweptNone(cs, now);
    }
  }

  /** One category after the store scan: records that are not removable survive, and nothing is added. */
  lemma ScanEntryKeepsLive(s: Store, u: string, p: string, now: int, k: nat)
    requires k < |s|
    ensures var e := ScanStore(s, u, p, now).store[k];
      && (forall j :: 0 <= j < |s[k].creds| && !Removable(s[k].creds[j], now) ==> s[k].creds[j] in e.creds)
      && (forall j :: 0 <= j < |e.creds| ==> e.creds[j] in s[k].creds)
  {
    var stop := ScanEntryShape(s, u, p, now, k);
    KeptMembership(s[k].creds, stop, now);
  }

  /** The login scan removes only expired records with a truthy username and password: every
      other record survives in its category, and no record is added anywhere. */
  lemma LoginKeepsLiveRecords(s: Store, session: Session, u: string, p: string, now: int)
    ensures var r := LoginAttempt(s, session, u, p, now).store;
      forall k, j :: 0 <= k < |s| && 0 <= j < |s[k].creds| && !Removable(s[k].creds[j], now)
        ==> s[k].creds[j] in r[k].creds
    ensures var r := LoginAttempt(s, session, u, p, now).store;
      forall k, j :: 0 <= k < |s| && 0 <= j < |r[k].creds| ==> r[k].creds[j] in s[k].creds
  {
    assert LoginAttempt(s, session, u, p, now).store == ScanStore(s, u, p, now).store;
    forall k | 0 <= k < |s| {
      ScanEntryKeepsLive(s, u, p, now, k);
    }
  }

  /** After an "expired" answer no record with the submitted username and password (and both
      fields truthy) is left anywhere in the store. */
  lemma ExpiredAnswerPurgesCredential(s: Store, session: Session, u: string, p: string, now: int)
    requires LoginAttempt(s, session, u, p, now).outcome.CredentialExpired?
    ensures var r := LoginAttempt(s, session, u, p, now).store;
      forall k, j :: 0 <= k < |r| && 0 <= j < |r[k].creds| ==> !(Complete(r[k].creds[j]) && Matches(r[k].creds[j], u, p))
  {
    var r := LoginAttempt(s, session, u, p, now).store;
    LoginKeepsLiveRecords(s, session, u, p, now);
    forall k, j | 0 <= k < |r| && 0 <= j < |r[k].creds|
      ensures !(Complete(r[k].creds[j]) && Matches(r[k].creds[j], u, p))
    {
      var c := r[k].creds[j];
      FilterProperties(NotRemovableAt(now), s[k].creds);
      assert !Removable(c, now);
      assert c in s[k].creds;
      var i :| 0 <= i < |s[k].creds| && s[k].creds[i] == c;
      assert !HasLiveMatch(s[k].creds, u, p, now);
      assert !LiveMatch(s[k].creds[i], u, p, now);
    }
  }
}
