/** How the handlers compose over one visitor's journey: pay, log in, open the page the login
    redirects to, come back later. */
module Journeys {
  import opened Wrappers
  import opened Seqs
  import opened Expiration
  import opened CredStore
  import opened Sessions
  import opened Login
  import opened Gate
  import opened Generator
  import opened Payment
  import opened Text

  /** Every record of the store has a truthy username and password, as every record the payment
      route creates does. */
  predicate AllComplete(s: Store) {
    forall k, j :: 0 <= k < |s| && 0 <= j < |s[k].creds| ==> Complete(s[k].creds[j])
  }

  /** Sweeping the records before a live one with name u leaves the first record named u live:
      the complete records that survive the sweep are not expired. */
  lemma SweptPrefixFirstUsernameLive(cs: seq<Cred>, a: nat, u: string, now: int) returns (i: nat)
    requires a < |cs|
    requires forall j :: 0 <= j < a ==> Complete(cs[j])
    requires cs[a].username == u && !IsExpired(cs[a], now)
    ensures var kept := Filter(NotRemovableAt(now), cs[..a]) + cs[a..];
      FirstWithUsername(kept, u, i) && !IsExpired(kept[i], now)
  {
    var pre := cs[..a];
    var f := Filter(NotRemovableAt(now), pre);
    var kept := f + cs[a..];
    assert kept[|f|] == cs[a];
    i := FindByUsername(kept, u).value;
    if i < |f| {
      FilterProperties(NotRemovableAt(now), pre);
      assert kept[i] == f[i];
      assert f[i] in pre;
      var j :| 0 <= j < |pre| && pre[j] == f[i];
      assert Complete(pre[j]);
      assert NotRemovableAt(now)(f[i]);
      assert !Removable(kept[i], now);
    } else {
      assert i == |f|;
    }
  }

  /** After the login scan stops at a live match in a list of complete records, the first record
      left there with the user's name is not expired. */
  lemma KeptFirstUsernameLive(cs: seq<Cred>, u: string, p: string, now: int) returns (i: nat)
    requires forall j :: 0 <= j < |cs| ==> Complete(cs[j])
    requires HasLiveMatch(cs, u, p, now)
    ensures var kept := ScanCreds(cs, u, p, now).kept;
      FirstWithUsername(kept, u, i) && !IsExpired(kept[i], now)
  {
    var c := ScanCreds(cs, u, p, now);
    assert ScanSpec(cs, u, p, now, c);
    assert c.at.Some?;
    var a := c.at.value;
    assert Stop(c.at, |cs|) == a;
    assert c.kept == Filter(NotRemovableAt(now), cs[..a]) + cs[a..];
    i := SweptPrefixFirstUsernameLive(cs, a, u, now);
  }

  /** What a successful login leaves behind: the category index k it stopped at, whose list in
      the new store is the scanned list, a store that still has distinct keys, and the session. */
  lemma LoginSuccessShape(s: Store, session: Session, u: string, p: string, now: int) returns (k: nat)
    requires DistinctKeys(s)
    requires LoginAttempt(s, session, u, p, now).outcome.LoggedIn?
    ensures var r := LoginAttempt(s, session, u, p, now);
      && k < |s| && k < |r.store|
      && HasLiveMatch(s[k].creds, u, p, now)
      && r.outcome.tipo == s[k].tipo == r.store[k].tipo
      && r.store[k].creds == ScanCreds(s[k].creds, u, p, now).kept
      && DistinctKeys(r.store)
      && r.session == Session(true, s[k].tipo, u, None)
  {
    var r := LoginAttempt(s, session, u, p, now);
    var scan := ScanStore(s, u, p, now);
    assert r.store == scan.store;
    k := scan.at.value;
    assert forall i :: 0 <= i < |s| ==> r.store[i].tipo == s[i].tipo;
  }

  /** A logged-in session whose category holds, first under its username, a live record passes
      the gate and opens its redirect page. */
  lemma LiveFirstRecordOpensPage(store: Store, k: nat, u: string, now: int, i: nat)
    requires DistinctKeys(store) && k < |store| && store[k].tipo != "" && u != ""
    requires FirstWithUsername(store[k].creds, u, i) && !IsExpired(store[k].creds[i], now)
    ensures var session := Session(true, store[k].tipo, u, None);
      IsAuthenticated(store, session, now).verdict == Pass
    ensures var session := Session(true, store[k].tipo, u, None);
      var page := RedirectFor(store[k].tipo);
      ServePage(page, store, session, now).response == Served(page)
  {
    assert Get(store, store[k].tipo) == Some(store[k].creds);
  }

  /** On a store of complete records, a successful login opens the page it redirects to at the
      same instant: the gate passes and the page is served. */
  lemma LoginThenGate(s: Store, session: Session, u: string, p: string, now: int)
    requires DistinctKeys(s) && AllComplete(s)
    requires LoginAttempt(s, session, u, p, now).outcome.LoggedIn?
    ensures var r := LoginAttempt(s, session, u, p, now);
      IsAuthenticated(r.store, r.session, now).verdict == Pass
    ensures var r := LoginAttempt(s, session, u, p, now);
      var page := RedirectFor(r.outcome.tipo);
      ServePage(page, r.store, r.session, now).response == Served(page)
  {
    var r := LoginAttempt(s, session, u, p, now);
    var k := LoginSuccessShape(s, session, u, p, now);
    var i := KeptFirstUsernameLive(s[k].creds, u, p, now);
    var j :| 0 <= j < |s[k].creds| && LiveMatch(s[k].creds[j], u, p, now);
    LiveFirstRecordOpensPage(r.store, k, u, now, i);
  }

  /** No category is named by the empty string (a login into such a category is refused). */
  predicate NamedCategories(s: Store) {
    forall k :: 0 <= k < |s| ==> s[k].tipo != ""
  }

  /** A key of the store is the category of some entry. */
  lemma KeyIndex(s: Store, tipo: string) returns (k: nat)
    requires tipo in Keys(s)
    ensures k < |s| && s[k].tipo == tipo
  {
    var ks := Keys(s);
    k :| 0 <= k < |ks| && ks[k] == tipo;
  }

  /** A confirmed payment's credential is in the new store, live until twelve hours have passed. */
  lemma PaidCredentialLive(s: Store, req: PaymentRequest, d: Draws, t0: int, now: int) returns (k: nat)
    requires ValidDraws(d) && DistinctKeys(s)
    requires ConfirmPayment(s, req, d, t0).response.Confirmed?
    requires now - t0 <= EXPIRATION_TIME_MS
    ensures var pay := ConfirmPayment(s, req, d, t0);
      var c := pay.response.issued;
      k < |pay.store| && HasLiveMatch(pay.store[k].creds, c.username, c.password, now)
  {
    var pay := ConfirmPayment(s, req, d, t0);
    var tipo, c, st := pay.response.tipo, pay.response.issued, pay.store;
    assert |c.username| > 0 && |c.password| > 0;
    k := KeyIndex(st, tipo);
    var cs := st[k].creds;
    assert cs == Get(s, tipo).GetOr([]) + [c];
    assert cs[|cs| - 1] == c;
    assert LiveMatch(cs[|cs| - 1], c.username, c.password, now);
  }

  /** A confirmed payment keeps every category named. */
  lemma PaymentKeepsCategoriesNamed(s: Store, req: PaymentRequest, d: Draws, t0: int)
    requires ValidDraws(d) && NamedCategories(s)
    ensures NamedCategories(ConfirmPayment(s, req, d, t0).store)
  {
    var pay := ConfirmPayment(s, req, d, t0);
    if pay.response.Confirmed? {
      var st := pay.store;
      forall k | 0 <= k < |st| ensures st[k].tipo != "" {
        assert Keys(st)[k] == st[k].tipo;
        if st[k].tipo in Keys(s) {
          var ks := Keys(s);
          var j :| 0 <= j < |ks| && ks[j] == st[k].tipo;
          assert s[j].tipo == st[k].tipo;
        }
      }
    }
  }

  /** A credential just paid for logs its holder in for twelve hours. (The category it logs into is
      the first one holding a live record with the same username and password, which is the
      credential's own category unless the generator repeated an existing pair.) */
  lemma PaymentThenLogin(s: Store, req: PaymentRequest, d: Draws, t0: int, session: Session, now: int)
    requires ValidDraws(d) && DistinctKeys(s) && NamedCategories(s)
    requires ConfirmPayment(s, req, d, t0).response.Confirmed?
    requires now - t0 <= EXPIRATION_TIME_MS
    ensures var pay := ConfirmPayment(s, req, d, t0);
      var c := pay.response.issued;
      LoginAttempt(pay.store, session, c.username, c.password, now).outcome.LoggedIn?
  {
    var pay := ConfirmPayment(s, req, d, t0);
    var c := pay.response.issued;
    var k := PaidCredentialLive(s, req, d, t0, now);
    PaymentKeepsCategoriesNamed(s, req, d, t0);
    var scan := ScanStore(pay.store, c.username, c.password, now);
    assert !NoLiveMatch(pay.store, c.username, c.password, now);
    assert FirstLiveCategory(pay.store, scan.at.value, c.username, c.password, now);
  }

  /** The product "CasinoBot" buys a casino credential. */
  lemma CasinoBotBuysCasino()
    ensures ProductCategory("CasinoBot") == "casino"
  {
    var u := ToUpper("CasinoBot");
    assert u == "CASINOBOT";
    assert OccursAt(u, "CASINOBOT", 0);
    forall i: nat | i <= |u| ensures !OccursAt(u, "PACK", i) {
      if i + 4 <= |u| {
        assert u[i..i + 4][0] == u[i] != 'P';
      }
    }
  }

  /** The request a buyer of the casino bot sends. */
  const CasinoOrder := PaymentRequest("Ana", "5511900000000", "CasinoBot")

  /** A casino bot bought on an empty store creates the casino category with its one record. */
  lemma CasinoPurchase(d: Draws, t0: int)
    requires ValidDraws(d)
    ensures var pay := ConfirmPayment([], CasinoOrder, d, t0);
      && pay.response == Confirmed("casino", pay.response.issued)
      && pay.store == [Entry("casino", [pay.response.issued])]
      && pay.response.issued.createdAt == Some(t0)
      && Complete(pay.response.issued)
  {
    CasinoBotBuysCasino();
    var pay := ConfirmPayment([], CasinoOrder, d, t0);
    var c := pay.response.issued;
    assert pay.store == Append([], "casino", c);
    assert Get([], "casino").GetOr([]) + [c] == [c];
    assert Append([], "casino", c) == Put([], "casino", [c]);
    assert IndexOf([], "casino") == None;
    assert Put([], "casino", [c]) == [Entry("casino", [c])];
    assert |c.username| > 0 && |c.password| > 0;
  }

  lemma OneLiveRecordLogin(tipo: string, c: Cred, session: Session, now: int)
    requires Complete(c) && tipo != "" && !IsExpired(c, now)
    ensures var r := LoginAttempt([Entry(tipo, [c])], session, c.username, c.password, now);
      r.outcome == LoggedIn(tipo, PagePath(RedirectFor(tipo))) && r.saves == 0
  {
    var st := [Entry(tipo, [c])];
    assert LiveMatch(st[0].creds[0], c.username, c.password, now);
    assert FirstLiveCategory(st, 0, c.username, c.password, now);
    assert TotalSize(st) == 1;
  }

  /** The scan of a one-record list whose record is removable and matches. */
  lemma ScanOneExpired(c: Cred, u: string, p: string, now: int)
    requires Removable(c, now) && Matches(c, u, p)
    ensures ScanCreds([c], u, p, now) == CredScan(None, true, [], 1)
  {
    assert [c][1..] == [];
  }

  /** The scan of a one-category store whose list holds no live match. */
  lemma ScanOneCategory(e: Entry, u: string, p: string, now: int)
    requires ScanCreds(e.creds, u, p, now).at.None?
    ensures var c := ScanCreds(e.creds, u, p, now);
      ScanStore([e], u, p, now) == StoreScan(None, c.hit, [Entry(e.tipo, c.kept)], c.removed)
  {
    assert [e][1..] == [];
  }

  lemma OneExpiredRecordLogin(tipo: string, c: Cred, session: Session, now: int)
    requires Complete(c) && IsExpired(c, now)
    ensures var r := LoginAttempt([Entry(tipo, [c])], session, c.username, c.password, now);
      r.outcome == CredentialExpired && r.store == [Entry(tipo, [])] && r.saves == 1
  {
    ScanOneExpired(c, c.username, c.password, now);
    ScanOneCategory(Entry(tipo, [c]), c.username, c.password, now);
  }

  /** Logging in with the fields of the only record of a one-category store: it succeeds while the
      record is live, and once it is expired the answer is "expired" and the record is gone. */
  lemma OneRecordLogin(tipo: string, c: Cred, session: Session, now: int)
    requires Complete(c) && tipo != ""
    ensures var r := LoginAttempt([Entry(tipo, [c])], session, c.username, c.password, now);
      !IsExpired(c, now) ==> r.outcome == LoggedIn(tipo, PagePath(RedirectFor(tipo))) && r.saves == 0
    ensures var r := LoginAttempt([Entry(tipo, [c])], session, c.username, c.password, now);
      IsExpired(c, now) ==> r.outcome == CredentialExpired && r.store == [Entry(tipo, [])] && r.saves == 1
  {
    if IsExpired(c, now) {
      OneExpiredRecordLogin(tipo, c, session, now);
    } else {
      OneLiveRecordLogin(tipo, c, session, now);
    }
  }

  /** A casino bot bought at t0 on an empty store: its credential logs in to the casino page at
      exactly twelve hours, and one millisecond later the login answers "expired", removes the
      record and writes the file once. */
  lemma CasinoJourney(d: Draws, t0: int, session: Session)
    requires ValidDraws(d) && t0 != 0
    ensures var pay := ConfirmPayment([], CasinoOrder, d, t0);
      var c := pay.response.issued;
      LoginAttempt(pay.store, session, c.username, c.password, t0 + EXPIRATION_TIME_MS).outcome
        == LoggedIn("casino", "/casino-page.html")
    ensures var pay := ConfirmPayment([], CasinoOrder, d, t0);
      var c := pay.response.issued;
      var late := LoginAttempt(pay.store, session, c.username, c.password, t0 + EXPIRATION_TIME_MS + 1);
      late.outcome == CredentialExpired && late.store == [Entry("casino", [])] && late.saves == 1
  {
    CasinoPurchase(d, t0);
    var c := ConfirmPayment([], CasinoOrder, d, t0).response.issued;
    OneLiveRecordLogin("casino", c, session, t0 + EXPIRATION_TIME_MS);
    OneExpiredRecordLogin("casino", c, session, t0 + EXPIRATION_TIME_MS + 1);
  }

  /** A pack holder opens the pack page at t, the casino page four minutes later and the pack page
      again at six minutes: the first two are served on one shared timer, the third ends the
      session. */
  lemma PackVipJourney(store: Store, u: string, t: int)
    requires t != 0 && u != ""
    requires CredentialValid(store, "pack", u, t)
    requires CredentialValid(store, "pack", u, t + 240_000)
    requires CredentialValid(store, "pack", u, t + 360_000)
    ensures var reqs := [Request(PackVipPage, t), Request(CasinoPage, t + 240_000), Request(PackVipPage, t + 360_000)];
      Browse(store, Session(true, "pack", u, None), reqs).responses
        == [Served(PackVipPage), Served(CasinoPage), ToLogin(VipSessionExpired)]
  {
    var s0 := Session(true, "pack", u, None);
    var s1 := s0.(vipEntry := Some(t));
    var reqs := [Request(PackVipPage, t), Request(CasinoPage, t + 240_000), Request(PackVipPage, t + 360_000)];
    assert ServePage(PackVipPage, store, s0, t) == PageResult(Served(PackVipPage), s1);
    assert ServePage(CasinoPage, store, s1, t + 240_000) == PageResult(Served(CasinoPage), s1);
    assert ServePage(PackVipPage, store, s1, t + 360_000) == PageResult(ToLogin(VipSessionExpired), FreshSession);
    var last := [Request(PackVipPage, t + 360_000)];
    assert reqs[1..] == [Request(CasinoPage, t + 240_000)] + last;
    assert reqs[1..][1..] == last;
    var b3 := Browse(store, s1, last);
    assert b3.responses == [ToLogin(VipSessionExpired)] + Browse(store, FreshSession, []).responses;
    var b2 := Browse(store, s1, reqs[1..]);
    assert b2.responses == [Served(CasinoPage)] + b3.responses;
    assert Browse(store, s0, reqs).responses == [Served(PackVipPage)] + b2.responses;
  }

  /** The gate identifies a session by username alone. Two records share a username (the generator
      can repeat its five-digit draw); the older one has expired, the newer one is live. Until the
      sweep runs the gate ends such a session, whichever of the two passwords opened it; after the
      sweep it lets the same session through, again whichever password opened it. */
  lemma GateUsesFirstRecordOfUsername(t1: int, t2: int, now: int)
    requires t1 != 0 && t2 != 0
    requires now - t1 > EXPIRATION_TIME_MS && now - t2 <= EXPIRATION_TIME_MS
    ensures var older := Cred("MGLCasino12345", "csab123", Some(t1));
      var newer := Cred("MGLCasino12345", "csxy456", Some(t2));
      var session := Session(true, "casino", "MGLCasino12345", None);
      var store := [Entry("casino", [older, newer])];
      && IsAuthenticated(store, session, now).verdict == Invalidated
      && SweepStore(store, now) == [Entry("casino", [newer])]
      && IsAuthenticated(SweepStore(store, now), session, now).verdict == Pass
  {
    var older := Cred("MGLCasino12345", "csab123", Some(t1));
    var newer := Cred("MGLCasino12345", "csxy456", Some(t2));
    var session := Session(true, "casino", "MGLCasino12345", None);
    var store := [Entry("casino", [older, newer])];
    assert Get(store, "casino") == Some([older, newer]);
    assert FirstWithUsername([older, newer], "MGLCasino12345", 0);
    assert Filter(NotExpiredAt(now), [older, newer]) == [newer] by {
      assert [older, newer][1..] == [newer];
    }
    var swept := SweepStore(store, now);
    assert swept == [Entry("casino", [newer])];
    assert Get(swept, "casino") == Some([newer]);
    assert FirstWithUsername([newer], "MGLCasino12345", 0);
  }

  /** The scan of a password-less expired record followed by a live match: it stops at the match
      and removes nothing, since the first record is not complete. */
  lemma ScanBlankThenLive(blank: Cred, good: Cred, u: string, p: string, now: int)
    requires !Complete(blank) && LiveMatch(good, u, p, now)
    ensures var c := ScanCreds([blank, good], u, p, now);
      c.at == Some(1) && c.kept == [blank, good]
  {
    var cs := [blank, good];
    var c := ScanCreds(cs, u, p, now);
    assert ScanSpec(cs, u, p, now, c);
    assert !LiveMatch(cs[0], u, p, now) && LiveMatch(cs[1], u, p, now);
    assert c.at == Some(1);
    assert Filter(NotRemovableAt(now), cs[..1]) == [blank] by {
      assert cs[..1] == [blank];
      assert Filter(NotRemovableAt(now), [blank][1..]) == [];
    }
  }

  /** Logging in to a one-category store whose list is a password-less record and then a live
      match: it succeeds and leaves the store as it was. */
  lemma LoginPastBlank(tipo: string, blank: Cred, good: Cred, u: string, p: string, now: int)
    requires tipo != "" && !Complete(blank) && LiveMatch(good, u, p, now)
    ensures var r := LoginAttempt([Entry(tipo, [blank, good])], FreshSession, u, p, now);
      && r.outcome == LoggedIn(tipo, PagePath(RedirectFor(tipo)))
      && r.store == [Entry(tipo, [blank, good])]
      && r.session == Session(true, tipo, u, None)
  {
    var cs := [blank, good];
    var store := [Entry(tipo, cs)];
    ScanBlankThenLive(blank, good, u, p, now);
    assert LiveMatch(cs[1], u, p, now);
    assert FirstLiveCategory(store, 0, u, p, now);
    var scan := ScanStore(store, u, p, now);
    assert scan.at == Some(0);
    assert scan.store[0].creds == cs;
    assert scan.store == store;
  }

  /** The gate ends a session whose category's list starts with an expired record carrying the
      session's username, whatever follows it. */
  lemma GateStopsAtExpiredFirst(tipo: string, cs: seq<Cred>, u: string, now: int)
    requires tipo != "" && u != "" && |cs| > 0 && cs[0].username == u && IsExpired(cs[0], now)
    ensures IsAuthenticated([Entry(tipo, cs)], Session(true, tipo, u, None), now).verdict == Invalidated
  {
    assert Get([Entry(tipo, cs)], tipo) == Some(cs);
    assert FirstWithUsername(cs, u, 0);
  }

  /** Why `LoginThenGate` needs complete records: the login loop skips a record whose password is
      falsy, the gate's `find` does not. An expired password-less record ahead of a live one with
      the same username lets the login succeed, and the very next gate check ends the session. */
  lemma PasswordlessRecordBlocksGate(tipo: string, u: string, p: string, t1: int, now: int)
    requires tipo != "" && u != "" && p != ""
    requires t1 != 0 && now != 0 && now - t1 > EXPIRATION_TIME_MS
    ensures var r := LoginAttempt([Entry(tipo, [Cred(u, "", Some(t1)), Cred(u, p, Some(now))])], FreshSession, u, p, now);
      && r.outcome == LoggedIn(tipo, PagePath(RedirectFor(tipo)))
      && IsAuthenticated(r.store, r.session, now).verdict == Invalidated
  {
    var blank := Cred(u, "", Some(t1));
    var good := Cred(u, p, Some(now));
    LoginPastBlank(tipo, blank, good, u, p, now);
    GateStopsAtExpiredFirst(tipo, [blank, good], u, now);
  }
}
