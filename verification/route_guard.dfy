/** The client's Next.js middleware: exact-match route classification, the session redirects, and
    the stripping of the `_rsc` query parameter. The Content-Security-Policy text it builds is not
    modelled; the response it finally returns does not carry it. */
module RouteGuard {
  import opened Strings
  import opened Seqs

  const ProtectedRoutes: seq<string> := ["/dashboard", "/files"]
  const PublicRoutes: seq<string> := ["/login", "/onetimelink"]
  const RscParameter := "_rsc"

  datatype Param = Param(key: string, value: string)

  /** The request URL: path and query parameters in order. */
  datatype Url = Url(path: string, query: seq<Param>)

  datatype Header = Header(name: string, value: string)

  datatype Decision =
    | RedirectTo(target: string)   // redirect to a fixed route of this origin
    | RedirectToUrl(url: Url)      // redirect to a rewritten request URL
    | PassThrough(headers: seq<Header>)
    | Throws                       // `NextResponse.redirect` refused a relative URL

  predicate HasParam(url: Url, key: string) {
    exists i :: 0 <= i < |url.query| && url.query[i].key == key
  }

  /** `searchParams.delete(key)`: every parameter with that key removed, the rest in order. */
  function DeleteParam(url: Url, key: string): (u: Url)
    ensures u.path == url.path && !HasParam(u, key)
    ensures forall p :: p in url.query && p.key != key ==> p in u.query
    ensures forall p :: p in url.query && p.key != key ==> multiset(u.query)[p] == multiset(url.query)[p]
    ensures IsSubsequence(u.query, url.query)
  {
    var kept := Filter(url.query, (p: Param) => p.key != key);
    assert forall i :: 0 <= i < |kept| ==> kept[i] in kept;
    Url(url.path, kept)
  }

  /** `NextResponse.redirect(target)`: the target must parse as an absolute URL. A bare path such
      as "/login" does not, and the call throws instead of redirecting. */
  function Redirect(target: string, absolute: bool): (d: Decision)
    ensures d.RedirectTo? <==> absolute
    ensures d.RedirectTo? ==> d.target == target
    ensures !absolute ==> d == Throws
  {
    if absolute then RedirectTo(target) else Throws
  }

  /** The middleware's decision for a request with the given URL, and whether the decrypted session
      carries a user id. The /login redirect passes the bare path and throws; the /dashboard
      redirect is built against the request URL and is absolute. */
  function Middleware(url: Url, hasUserId: bool): (d: Decision)
    ensures url.path in ProtectedRoutes && !hasUserId ==> d == Throws
    ensures url.path in PublicRoutes && hasUserId ==> d == RedirectTo("/dashboard")
    ensures d.Throws? <==> url.path in ProtectedRoutes && !hasUserId
    ensures d.RedirectTo? <==> url.path in PublicRoutes && hasUserId
    ensures d.RedirectToUrl? <==> !d.RedirectTo? && !d.Throws? && HasParam(url, RscParameter)
    ensures d.RedirectToUrl? ==> d.url == DeleteParam(url, RscParameter)
    ensures d.PassThrough? ==> d.headers == []
  {
    var isProtected := url.path in ProtectedRoutes;
    var isPublic := url.path in PublicRoutes;
    assert isPublic ==> !StartsWith(url.path, "/dashboard") by {
      if isPublic { assert url.path[1] != "/dashboard"[1]; }
    }
    assert !(isProtected && isPublic);
    if isProtected && !hasUserId then Redirect("/login", false)
    else if isPublic && hasUserId && !StartsWith(url.path, "/dashboard") then Redirect("/dashboard", true)
    else if HasParam(url, RscParameter) then RedirectToUrl(DeleteParam(url, RscParameter))
    else PassThrough([])
  }

  /** A protected page requested without a session makes the middleware throw: the visitor is
      never sent to /login. */
  lemma ProtectedWithoutSessionThrows(query: seq<Param>)
    ensures Middleware(Url("/dashboard", query), false) == Throws
    ensures Middleware(Url("/files", query), false) == Throws
  {
  }

  /** Corrected middleware: the /login redirect is built against the request URL, as the
      /dashboard one is, so it is absolute. */
  function MiddlewareAbsolute(url: Url, hasUserId: bool): (d: Decision)
    ensures !d.Throws?
    ensures url.path in ProtectedRoutes && !hasUserId ==> d == RedirectTo("/login")
    ensures url.path in PublicRoutes && hasUserId ==> d == RedirectTo("/dashboard")
    ensures d.RedirectTo? <==> (url.path in ProtectedRoutes && !hasUserId) || (url.path in PublicRoutes && hasUserId)
    ensures d.RedirectToUrl? <==> !d.RedirectTo? && HasParam(url, RscParameter)
    ensures d.RedirectToUrl? ==> d.url == DeleteParam(url, RscParameter)
    ensures d.PassThrough? ==> d.headers == []
  {
    var isProtected := url.path in ProtectedRoutes;
    var isPublic := url.path in PublicRoutes;
    assert isPublic ==> !StartsWith(url.path, "/dashboard") by {
      if isPublic { assert url.path[1] != "/dashboard"[1]; }
    }
    if isProtected && !hasUserId then Redirect("/login", true)
    else if isPublic && hasUserId && !StartsWith(url.path, "/dashboard") then Redirect("/dashboard", true)
    else if HasParam(url, RscParameter) then RedirectToUrl(DeleteParam(url, RscParameter))
    else PassThrough([])
  }

  /** The correction only touches the throwing branch: everywhere else both decide alike, and
      with it no protected page is ever shown without a session. */
  lemma CorrectionOnlyFixesLoginRedirect(url: Url, hasUserId: bool)
    ensures !(url.path in ProtectedRoutes && !hasUserId) ==> MiddlewareAbsolute(url, hasUserId) == Middleware(url, hasUserId)
    ensures url.path in ProtectedRoutes && !hasUserId ==>
      Middleware(url, hasUserId) == Throws && MiddlewareAbsolute(url, hasUserId) == RedirectTo("/login")
  {
  }

  /** Classification is by exact path: a sub-path of a protected route is neither protected nor
      public, so it is passed through with or without a session. */
  lemma SubPathsAreUnguarded(id: string, hasUserId: bool)
    requires |id| > 0
    ensures Middleware(Url("/files/" + id, []), hasUserId) == PassThrough([])
    ensures MiddlewareAbsolute(Url("/files/" + id, []), hasUserId) == PassThrough([])
  {
    var path := "/files/" + id;
    assert path !in ProtectedRoutes && path !in PublicRoutes by {
      assert |path| > 7 && path[1] == 'f';
      assert forall r :: r in ProtectedRoutes + PublicRoutes ==> |r| < 8 || r[1] != 'f';
    }
    assert !HasParam(Url(path, []), RscParameter);
  }
}
