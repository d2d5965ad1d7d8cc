/** The files page (`openFile`): a guard chain on the id, the token cookie and the stored server
    URL, then one request whose outcome replaces the listing on success. */
module FilesPage {
  import opened Wrappers
  import opened Drive

  const RootEndpoint := "/api/v1/file/root"

  datatype FilesState = FilesState(files: seq<FileEntry>, loading: bool)

  /** What `openFile(id)` does before its `await`. */
  datatype Opened =
    | Skipped                  // empty id: returns at once
    | RedirectToLogin          // token or server URL missing: no request
    | Issued(request: Request)

  /** The guard chain of `openFile(id)`: an empty id returns; then a missing token redirects; then
      a missing server URL redirects; otherwise the root listing is requested, whatever the id. */
  function OpenFile(id: string, token: Option<string>, storedServer: Option<string>): (o: Opened)
    ensures o.Skipped? <==> id == ""
    ensures o.RedirectToLogin? <==> id != "" && (!Truthy(token) || !Truthy(storedServer))
    ensures o.Issued? ==> o.request == Request(Get, storedServer.value + RootEndpoint, BearerHeader(token))
  {
    if id == "" then Skipped
    else if !Truthy(token) then RedirectToLogin
    else if !Truthy(storedServer) then RedirectToLogin
    else Issued(Request(Get, storedServer.value + RootEndpoint, BearerHeader(token)))
  }

  /** The rest of `openFile` after an issued request: 401 redirects and keeps `files`, a 2xx outcome
      replaces them, anything else keeps them; `finally` lowers `loading` on every path. Returns the
      new state and whether the router was sent to /login. */
  function ApplyOpen(s: FilesState, outcome: Response<seq<FileEntry>>): (r: (FilesState, bool))
    ensures !r.0.loading
    ensures r.1 <==> IsUnauthorized(outcome)
    ensures Succeeded(outcome) ==> r.0.files == outcome.body
    ensures !Succeeded(outcome) ==> r.0.files == s.files
  {
    if IsUnauthorized(outcome) then (s.(loading := false), true)
    else if Succeeded(outcome) then (FilesState(outcome.body, false), false)
    else (s.(loading := false), false)
  }

  /** The requested URL never depends on the id: any two non-empty ids issue the same request. */
  lemma RequestIgnoresId(a: string, b: string, token: Option<string>, storedServer: Option<string>)
    requires a != "" && b != ""
    ensures OpenFile(a, token, storedServer) == OpenFile(b, token, storedServer)
  {
  }

  /** A token without a server URL and a server URL without a token both redirect without a
      request; the token is consulted first. */
  lemma GuardOrder(id: string, server: string)
    requires id != "" && server != ""
    ensures OpenFile(id, None, Some(server)) == RedirectToLogin
    ensures OpenFile(id, Some("t"), None) == RedirectToLogin
    ensures OpenFile(id, Some("t"), Some(server)).Issued?
  {
  }

  /** The page as first rendered: no files, `loading` raised. */
  const Initial := FilesState([], true)

  /** The mount effect: `openFile("root")` from the initial state, with the outcome of the request
      when one is issued. Returns the state after the call and whether the router was sent to
      /login. */
  function InitialLoad(token: Option<string>, storedServer: Option<string>, outcome: Response<seq<FileEntry>>): (r: (FilesState, bool))
  {
    match OpenFile("root", token, storedServer)
    case Issued(_) => ApplyOpen(Initial, outcome)
    case _ => (Initial, true)
  }

  /** The mount effect always either requests or redirects, and the progress bar stops exactly when
      a request was issued: a visit without a token or a stored server URL redirects and leaves
      `loading` raised, since the guards return before the `try` whose `finally` lowers it. */
  lemma InitialLoadEndsLoadingIffIssued(token: Option<string>, storedServer: Option<string>, outcome: Response<seq<FileEntry>>)
    ensures !OpenFile("root", token, storedServer).Skipped?
    ensures !InitialLoad(token, storedServer, outcome).0.loading <==> OpenFile("root", token, storedServer).Issued?
    ensures InitialLoad(token, storedServer, outcome).1 <==>
      !Truthy(token) || !Truthy(storedServer) || IsUnauthorized(outcome)
    ensures InitialLoad(token, storedServer, outcome).0.files ==
      if OpenFile("root", token, storedServer).Issued? && Succeeded(outcome) then outcome.body else []
  {
  }
}
