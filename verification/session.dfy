/** Per-visitor session state and the protected pages it can be sent to. */
module Sessions {
  import opened Wrappers

  /** The session fields the core reads and writes. The empty string stands for an unset
      `userType` or `username`; `vipEntry` is `vipSectionEntryTimestamp` (None or Some(0) both read
      as unset). */
  datatype Session = Session(loggedIn: bool, userType: string, username: string, vipEntry: Option<int>)

  /** The state of a session after `req.session.destroy()`: the next request starts with nothing. */
  const FreshSession: Session := Session(false, "", "", None)

  /** The four protected pages. */
  datatype Page = CasinoPage | PackVipPage | BetPage | GenericDashboard

  /** The casino, packvip and bet pages run the 5-minute VIP timer; the generic dashboard only
      checks the credential. */
  predicate RunsVipTimer(p: Page) {
    p != GenericDashboard
  }

  function PagePath(p: Page): string {
    match p
    case CasinoPage => "/casino-page.html"
    case PackVipPage => "/packvip-page.html"
    case BetPage => "/bet-page.html"
    case GenericDashboard => "/generic-dashboard.html"
  }

  /** The page a successful login redirects to, by category; unknown categories get the dashboard. */
  function RedirectFor(tipo: string): Page {
    if tipo == "packvip" || tipo == "pack" then PackVipPage
    else if tipo == "casino" then CasinoPage
    else if tipo == "bet" then BetPage
    else GenericDashboard
  }

  /** Exactly the pack (and packvip), casino and bet credentials land on a timed VIP page. */
  lemma RedirectTimedIffPaidCategory(tipo: string)
    ensures RunsVipTimer(RedirectFor(tipo)) <==> tipo in {"pack", "packvip", "casino", "bet"}
    ensures tipo == "temp" ==> PagePath(RedirectFor(tipo)) == "/generic-dashboard.html"
  {
  }
}
