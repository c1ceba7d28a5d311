/** The session gate in front of the protected pages (`isAuthenticated`), the five-minute VIP
    timer (`handleVipSectionAccess`) and the four page routes that combine them. */
module Gate {
  import opened Wrappers
  import opened Expiration
  import opened CredStore
  import opened Sessions

  /** Position i holds the first record of the list carrying username u. */
  predicate FirstWithUsername(cs: seq<Cred>, u: string, i: nat) {
    && i < |cs|
    && cs[i].username == u
    && forall j :: 0 <= j < i ==> cs[j].username != u
  }

  /** `Array.prototype.find` on the username alone: the password plays no part. */
  function FindByUsername(cs: seq<Cred>, u: string): (r: Option<nat>)
    ensures r.Some? ==> FirstWithUsername(cs, u, r.value)
    ensures r.None? ==> forall i :: 0 <= i < |cs| ==> cs[i].username != u
  {
    if cs == [] then None
    else if cs[0].username == u then Some(0)
    else match FindByUsername(cs[1..], u)
      case Some(i) => Some(i + 1)
      case None => None
  }

  /** The session claims a login: `loggedIn`, `username` and `userType` are all truthy. */
  predicate HasLoginFields(s: Session) {
    s.loggedIn && s.username != "" && s.userType != ""
  }

  /** The session's credential still stands: its category exists, and the first record there
      carrying the session's username is not expired. */
  predicate CredentialValid(store: Store, tipo: string, u: string, now: int) {
    match Get(store, tipo)
    case None => false
    case Some(cs) => exists i :: 0 <= i < |cs| && FirstWithUsername(cs, u, i) && !IsExpired(cs[i], now)
  }

  datatype GateVerdict = Pass | NotLoggedIn | Invalidated

  datatype GateResult = GateResult(verdict: GateVerdict, session: Session)

  /** `isAuthenticated`: lets the request through, sends an anonymous visitor to the login page
      with the session untouched, or destroys the session of a user whose credential is gone. */
  function IsAuthenticated(store: Store, s: Session, now: int): (r: GateResult)
    ensures r.verdict.NotLoggedIn? <==> !HasLoginFields(s)
    ensures r.verdict.Pass? <==> HasLoginFields(s) && CredentialValid(store, s.userType, s.username, now)
    ensures !r.verdict.Invalidated? ==> r.session == s
    ensures r.verdict.Invalidated? ==> r.session == FreshSession
  {
    if !HasLoginFields(s) then GateResult(NotLoggedIn, s)
    else match Get(store, s.userType)
      case None => GateResult(Invalidated, FreshSession)
      case Some(cs) =>
        match FindByUsername(cs, s.username)
        case None => GateResult(Invalidated, FreshSession)
        case Some(i) =>
          assert forall j: nat :: FirstWithUsername(cs, s.username, j) ==> j == i;
          if IsExpired(cs[i], now) then GateResult(Invalidated, FreshSession)
          else GateResult(Pass, s)
  }

  /** Why a request was sent back to the login page; each reason stands for the `message` query
      parameter of the redirect to /login.html (not_logged_in_DEBUG, session_invalidated_DEBUG,
      vip_session_expired_DEBUG). */
  datatype Reason = SessionMissing | SessionInvalidated | VipSessionExpired

  datatype Response = Served(page: Page) | ToLogin(reason: Reason)

  datatype PageResult = PageResult(response: Response, session: Session)

  /** `handleVipSectionAccess`: the first timed visit starts the timer; a visit strictly more than
      five minutes after the start destroys the session. */
  function HandleVipSectionAccess(s: Session, page: Page, now: int): (r: PageResult)
    ensures r.response.Served? <==> !IsSet(s.vipEntry) || !VipOverdue(s.vipEntry.value, now)
    ensures r.response.Served? ==> r.response.page == page
    ensures r.response.Served? && IsSet(s.vipEntry) ==> r.session == s
    ensures r.response.Served? && !IsSet(s.vipEntry) ==> r.session == s.(vipEntry := Some(now))
    ensures !r.response.Served? ==> r.response == ToLogin(VipSessionExpired) && r.session == FreshSession
  {
    var entry := if IsSet(s.vipEntry) then s.vipEntry.value else now;
    if VipOverdue(entry, now) then PageResult(ToLogin(VipSessionExpired), FreshSession)
    else PageResult(Served(page), s.(vipEntry := Some(entry)))
  }

  /** One GET of a protected page: the gate first, then the VIP timer on the three timed pages. */
  function ServePage(page: Page, store: Store, s: Session, now: int): (r: PageResult)
    ensures r.response.Served? <==>
      && HasLoginFields(s)
      && CredentialValid(store, s.userType, s.username, now)
      && (RunsVipTimer(page) && IsSet(s.vipEntry) ==> !VipOverdue(s.vipEntry.value, now))
    ensures r.response.Served? ==> r.response.page == page
    ensures r.response == ToLogin(SessionMissing) <==> !HasLoginFields(s)
    ensures !HasLoginFields(s) ==> r.session == s
    ensures HasLoginFields(s) && r.response.ToLogin? ==> r.session == FreshSession
    ensures !RunsVipTimer(page) && r.response.Served? ==> r.session == s
  {
    var gate := IsAuthenticated(store, s, now);
    match gate.verdict
    case NotLoggedIn => PageResult(ToLogin(SessionMissing), gate.session)
    case Invalidated => PageResult(ToLogin(SessionInvalidated), gate.session)
    case Pass =>
      if RunsVipTimer(page) then HandleVipSectionAccess(gate.session, page, now)
      else PageResult(Served(page), gate.session)
  }

  /** A request for a page at a given time. */
  datatype Request = Request(page: Page, now: int)

  datatype Browsing = Browsing(responses: seq<Response>, session: Session)

  /** A series of page requests on one session, each seeing the session the previous one left. */
  function Browse(store: Store, s: Session, reqs: seq<Request>): (r: Browsing)
    ensures |r.responses| == |reqs|
    decreases |reqs|
  {
    if reqs == [] then Browsing([], s)
    else
      var first := ServePage(reqs[0].page, store, s, reqs[0].now);
      var rest := Browse(store, first.session, reqs[1..]);
      Browsing([first.response] + rest.responses, rest.session)
  }

  /** A session without the login fields (a fresh or destroyed one among them) is sent to the
      login page on every request, whatever the pages, and keeps its fields. */
  lemma {:induction false} FreshSessionLocked(store: Store, s: Session, reqs: seq<Request>)
    requires !HasLoginFields(s)
    ensures forall k :: 0 <= k < |reqs| ==> Browse(store, s, reqs).responses[k] == ToLogin(SessionMissing)
    ensures Browse(store, s, reqs).session == s
    decreases |reqs|
  {
    if reqs != [] {
      FreshSessionLocked(store, s, reqs[1..]);
      var r := Browse(store, s, reqs);
      var rest := Browse(store, s, reqs[1..]);
      assert r.responses == [ToLogin(SessionMissing)] + rest.responses;
      forall k | 0 < k < |reqs| ensures r.responses[k] == ToLogin(SessionMissing) {
        assert r.responses[k] == rest.responses[k - 1];
      }
    }
  }

  /** Timed requests while the credential stays good, with the timer already started at t0: a
      request is served exactly when it and every earlier one fall within five minutes of t0. */
  lemma {:induction false} VipTimerRunning(store: Store, s: Session, t0: int, reqs: seq<Request>)
    requires HasLoginFields(s) && s.vipEntry == Some(t0) && t0 != 0
    requires forall i :: 0 <= i < |reqs| ==> RunsVipTimer(reqs[i].page)
    requires forall i :: 0 <= i < |reqs| ==> CredentialValid(store, s.userType, s.username, reqs[i].now)
    ensures forall k :: 0 <= k < |reqs| ==>
      (Browse(store, s, reqs).responses[k].Served? <==>
        forall i :: 0 <= i <= k ==> reqs[i].now - t0 <= VIP_SECTION_TIMEOUT_MS)
    decreases |reqs|
  {
    if reqs != [] {
      var first := ServePage(reqs[0].page, store, s, reqs[0].now);
      var r := Browse(store, s, reqs);
      var rest := Browse(store, first.session, reqs[1..]);
      assert r.responses == [first.response] + rest.responses;
      if first.response.Served? {
        assert first.session == s;
        VipTimerRunning(store, s, t0, reqs[1..]);
        forall k | 0 < k < |reqs|
          ensures r.responses[k].Served? <==> forall i :: 0 <= i <= k ==> reqs[i].now - t0 <= VIP_SECTION_TIMEOUT_MS
        {
          assert r.responses[k] == rest.responses[k - 1];
          assert forall i :: 1 <= i <= k ==> reqs[i] == reqs[1..][i - 1];
        }
      } else {
        assert first.session == FreshSession;
        FreshSessionLocked(store, FreshSession, reqs[1..]);
        forall k | 0 < k < |reqs| ensures !r.responses[k].Served? {
          assert r.responses[k] == rest.responses[k - 1];
        }
      }
    }
  }

  /** The five-minute deadline is hard: on a logged-in session with no timer yet, the first timed
      request starts it, and from then on a timed request is served exactly when it and all
      earlier ones came within five minutes of that first one. Navigating between timed pages
      never resets it. */
  lemma VipHardDeadline(store: Store, s: Session, reqs: seq<Request>)
    requires HasLoginFields(s) && !IsSet(s.vipEntry)
    requires |reqs| > 0 && reqs[0].now != 0
    requires forall i :: 0 <= i < |reqs| ==> RunsVipTimer(reqs[i].page)
    requires forall i :: 0 <= i < |reqs| ==> CredentialValid(store, s.userType, s.username, reqs[i].now)
    ensures forall k :: 0 <= k < |reqs| ==>
      (Browse(store, s, reqs).responses[k].Served? <==>
        forall i :: 0 <= i <= k ==> reqs[i].now - reqs[0].now <= VIP_SECTION_TIMEOUT_MS)
  {
    var t0 := reqs[0].now;
    var first := ServePage(reqs[0].page, store, s, t0);
    var r := Browse(store, s, reqs);
    var rest := Browse(store, first.session, reqs[1..]);
    assert r.responses == [first.response] + rest.responses;
    assert first.session == s.(vipEntry := Some(t0));
    VipTimerRunning(store, first.session, t0, reqs[1..]);
    forall k | 0 < k < |reqs|
      ensures r.responses[k].Served? <==> forall i :: 0 <= i <= k ==> reqs[i].now - t0 <= VIP_SECTION_TIMEOUT_MS
    {
      assert r.responses[k] == rest.responses[k - 1];
      assert forall i :: 1 <= i <= k ==> reqs[i] == reqs[1..][i - 1];
    }
  }

  /** The gate checks the session's own category only: a logged-in user of any category passes it
      for every page, so the timed pages differ from one another only in the file served. */
  lemma GateIgnoresPageCategory(store: Store, s: Session, now: int, p1: Page, p2: Page)
    requires RunsVipTimer(p1) && RunsVipTimer(p2)
    ensures ServePage(p1, store, s, now).response.Served? <==> ServePage(p2, store, s, now).response.Served?
    ensures ServePage(p1, store, s, now).session == ServePage(p2, store, s, now).session
  {
  }
}
