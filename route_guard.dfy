/** The front end's route guard, `libreria-front/src/middleware.ts`: the
    dashboard is for signed-in users, the login page for everybody else.
    A request is signed in when it carries a `token` cookie, whatever its
    value. */
module RouteGuard {
  import opened Store

  datatype Decision = Next | Redirect(to: string)

  const DASHBOARD: string := "/dashboard"
  const LOGIN: string := "/login"

  /** `pathname.startsWith(prefix)` */
  predicate StartsWith(path: string, prefix: string)
  {
    prefix <= path
  }

  /** `middleware(request)`: a dashboard path without a token goes to the
      login page, the login page with a token goes to the dashboard, anything
      else passes. */
  function Middleware(path: string, token: Option<string>): (d: Decision)
    ensures StartsWith(path, DASHBOARD) ==> (d == Redirect(LOGIN) <==> token.None?)
    ensures path == LOGIN ==> (d == Redirect(DASHBOARD) <==> token.Some?)
    ensures !StartsWith(path, DASHBOARD) && path != LOGIN ==> d == Next
    ensures d.Redirect? ==> d.to in {LOGIN, DASHBOARD}
  {
    if StartsWith(path, DASHBOARD) && token.None? then Redirect(LOGIN)
    else if path == LOGIN && token.Some? then Redirect(DASHBOARD)
    else Next
  }

  /** `config.matcher`: `/dashboard/:path*` (the dashboard and everything
      below it) and `/login`. */
  predicate Matcher(path: string)
  {
    path == DASHBOARD || StartsWith(path, DASHBOARD + "/") || path == LOGIN
  }

  /** What a request meets: the middleware on matched paths, nothing elsewhere. */
  function Route(path: string, token: Option<string>): (d: Decision)
    ensures !Matcher(path) ==> d == Next
    ensures Matcher(path) ==> d == Middleware(path, token)
  {
    if Matcher(path) then Middleware(path, token) else Next
  }

  /** The two redirects never chain: following one lands on a page that lets
      the same request through. */
  lemma NoRedirectLoop(path: string, token: Option<string>)
    requires Route(path, token).Redirect?
    ensures Route(Route(path, token).to, token) == Next
  {
  }

  /** The dashboard and every page below it are closed without a token and
      open with one. */
  lemma DashboardGuarded(path: string, token: Option<string>)
    requires path == DASHBOARD || StartsWith(path, DASHBOARD + "/")
    ensures Route(path, token) == (if token.None? then Redirect(LOGIN) else Next)
  {
  }

  /** The middleware itself would guard `/dashboardx`, which only shares the
      prefix, but the matcher never hands it that path. */
  lemma {:induction false} PrefixSiblingNotGuarded()
    ensures Middleware("/dashboardx", None) == Redirect(LOGIN)
    ensures Route("/dashboardx", None) == Next
  {
    assert StartsWith("/dashboardx", DASHBOARD) by {
      assert "/dashboardx"[..|DASHBOARD|] == DASHBOARD;
    }
    assert !StartsWith("/dashboardx", DASHBOARD + "/") by {
      assert "/dashboardx"[10] != (DASHBOARD + "/")[10];
    }
    assert "/dashboardx" != LOGIN by {
      assert "/dashboardx"[1] != LOGIN[1];
    }
  }
}
