/** The web client's request guard (`proxy.ts`): chat pages need a session
    cookie, and a visitor without one is sent to the home page with the page
    they asked for as `callbackUrl`. */
module Proxy {
  import opened Common

  const ProtectedRoutes: seq<string> := ["/chat"]
  const SessionCookieName := "better-auth.session_token"
  const HomePath := "/"

  /** `NextResponse.next()`, or a redirect to `path` carrying the
      `callbackUrl` search parameter. */
  datatype Decision = Next | Redirect(path: string, callbackUrl: string)

  /** A path is under `route`: the route itself or anything below it. */
  predicate Under(pathname: string, route: string) {
    pathname == route || StartsWith(pathname, route + "/")
  }

  predicate IsProtected(pathname: string) {
    exists i :: 0 <= i < |ProtectedRoutes| && Under(pathname, ProtectedRoutes[i])
  }

  /** `proxy`, given the request's pathname and cookies (name to value). */
  function Decide(pathname: string, cookies: map<string, string>): (d: Decision)
    ensures d.Redirect? ==> d.path == HomePath && d.callbackUrl == pathname
  {
    if !IsProtected(pathname) then Next
    else if SessionCookieName !in cookies || !Truthy(cookies[SessionCookieName]) then Redirect(HomePath, pathname)
    else Next
  }

  /** Protection is exactly `/chat` and the paths below it. */
  lemma ProtectedIff(pathname: string)
    ensures IsProtected(pathname) <==> pathname == "/chat" || StartsWith(pathname, "/chat/")
  {
    assert ProtectedRoutes[0] == "/chat";
    assert "/chat" + "/" == "/chat/";
  }

  /** `/chatroom` shares a prefix with `/chat` but is not below it. */
  lemma SiblingNotProtected()
    ensures !IsProtected("/chatroom")
    ensures IsProtected("/chat/42")
  {
    ProtectedIff("/chatroom");
    ProtectedIff("/chat/42");
    assert "/chatroom"[..6] != "/chat/" by {
      assert "/chatroom"[..6][5] == 'r';
    }
    assert "/chat/42"[..6] == "/chat/";
  }

  /** A request passes exactly when its path is unprotected or it carries a
      non-empty session token; otherwise it is redirected home, remembering
      the path. */
  lemma PassesIff(pathname: string, cookies: map<string, string>)
    ensures Decide(pathname, cookies) == Next <==>
              !IsProtected(pathname) || (SessionCookieName in cookies && cookies[SessionCookieName] != "")
    ensures Decide(pathname, cookies) != Next ==> Decide(pathname, cookies) == Redirect(HomePath, pathname)
  {
  }

  /** Cookies never matter on an unprotected path. */
  lemma UnprotectedIgnoresCookies(pathname: string, a: map<string, string>, b: map<string, string>)
    requires !IsProtected(pathname)
    ensures Decide(pathname, a) == Decide(pathname, b) == Next
  {
  }
}
