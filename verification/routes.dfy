/** The access guards of the client dashboard (src/pages/Dashboard.tsx) and
    the admin panel (src/pages/Admin.tsx): once authentication has settled,
    each page sends away the visitors it is not for, and fetches its data
    only for those it is for. */
module Routes {

  datatype Route = LoginPage | DashboardPage | AdminPage

  /** What the authentication context reports. */
  datatype Session = Session(loading: bool, signedIn: bool, isAdmin: bool)

  /** The navigations the dashboard's effects issue, in effect order:
      to /login without a user, to /admin for an admin. */
  function DashboardRedirects(s: Session): (r: seq<Route>)
    ensures s.loading ==> r == []
    ensures LoginPage in r <==> !s.loading && !s.signedIn
    ensures AdminPage in r <==> !s.loading && s.isAdmin
    ensures DashboardPage !in r
  {
    (if !s.loading && !s.signedIn then [LoginPage] else [])
    + (if !s.loading && s.isAdmin then [AdminPage] else [])
  }

  /** The navigations the admin panel's effects issue, in effect order:
      to /login without a user, to /dashboard for a signed-in non-admin. */
  function AdminRedirects(s: Session): (r: seq<Route>)
    ensures s.loading ==> r == []
    ensures LoginPage in r <==> !s.loading && !s.signedIn
    ensures DashboardPage in r <==> !s.loading && s.signedIn && !s.isAdmin
    ensures AdminPage !in r
    ensures |r| <= 1
  {
    if s.loading then []
    else if !s.signedIn then [LoginPage]
    else if !s.isAdmin then [DashboardPage]
    else []
  }

  /** Where a visitor ends up: the last navigation issued, or the page itself. */
  function Settle(here: Route, navigations: seq<Route>): (r: Route)
    ensures navigations == [] ==> r == here
    ensures navigations != [] ==> r in navigations
  {
    if navigations == [] then here else navigations[|navigations| - 1]
  }

  function Redirects(page: Route, s: Session): seq<Route> {
    match page
    case DashboardPage => DashboardRedirects(s)
    case AdminPage => AdminRedirects(s)
    case LoginPage => []
  }

  /** The dashboard fetches appointments whenever there is a user; the panel
      fetches its tables whenever the user is an admin. */
  predicate Fetches(page: Route, s: Session) {
    match page
    case DashboardPage => s.signedIn
    case AdminPage => s.isAdmin
    case LoginPage => false
  }

  /** Once authentication has settled, a signed-in client who opens either
      page ends on the dashboard, a signed-in admin on the panel, and a
      signed-out visitor (who holds no admin role) on the login page; the
      page reached issues no further navigation, and fetches its data. */
  lemma GuardsSettle(page: Route, s: Session)
    requires page == DashboardPage || page == AdminPage
    requires !s.loading
    requires s.isAdmin ==> s.signedIn
    ensures var dest := Settle(page, Redirects(page, s));
      && dest == (if !s.signedIn then LoginPage else if s.isAdmin then AdminPage else DashboardPage)
      && Redirects(dest, s) == []
      && (dest != LoginPage ==> Fetches(dest, s))
  {
  }

  /** The guards do not wait for each other: an admin flag without a user
      makes the dashboard issue both navigations, and the panel is where it
      ends. */
  lemma DashboardIssuesBoth()
    ensures DashboardRedirects(Session(false, false, true)) == [LoginPage, AdminPage]
    ensures Settle(DashboardPage, DashboardRedirects(Session(false, false, true))) == AdminPage
  {
  }

  /** While authentication is loading nobody is sent anywhere, but the admin
      panel may already fetch for a session that reports the admin role. */
  lemma NoRedirectWhileLoading(page: Route, s: Session)
    requires s.loading
    ensures Redirects(page, s) == []
    ensures Fetches(AdminPage, s) <==> s.isAdmin
  {
  }
}
