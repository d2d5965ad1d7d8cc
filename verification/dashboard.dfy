/** The dashboard page (`currentFiles`, `goBack`): a listing loaded per folder, a loading flag,
    the current folder id, the server URL held in page state, and the ancestor stack.

    The stack (`PARENT_LIST`) is a plain array re-created on every render of the page, so it is
    modelled as an explicit value the caller passes in and receives back. A load is split at its
    one suspension point: `StartLoad` is what runs before `fetch` is awaited, `ApplyLoad` what runs
    when its outcome is applied. Nothing orders the outcomes of overlapping loads. */
module Dashboard {
  import opened Wrappers
  import opened Strings
  import opened Drive

  const RootEndpoint := "/api/v1/file/root"
  const ChildrenEndpoint := "/api/v1/files/children?id="

  /** Page state: `files`, `loading`, `currentFolderId` and the held `SERVER` URL. */
  datatype Page = Page(files: seq<FileEntry>, loading: bool, currentFolderId: string, server: string)

  /** State of a freshly mounted page. */
  const InitialPage := Page([], true, "", "")

  /** What the synchronous part of `currentFiles` produces. */
  datatype Started = Started(page: Page, redirectToLogin: bool, request: Request)

  /** The request URL for folder `id`, built from the server URL captured by the running render:
      the root endpoint only for the empty id with a non-empty server URL, otherwise the children
      endpoint with the id appended. */
  function ListingUrl(server: string, id: string): (url: string)
    ensures StartsWith(url, server)
    ensures url == server + RootEndpoint <==> id == "" && server != ""
    ensures url != server + RootEndpoint ==> url == server + ChildrenEndpoint + id
  {
    var url := if id == "" && server != "" then server + RootEndpoint else server + ChildrenEndpoint + id;
    assert url[..|server|] == server;
    assert !(id == "" && server != "") ==> url != server + RootEndpoint by {
      if !(id == "" && server != "") {
        assert url[|server| + 12] == 's';
        assert (server + RootEndpoint)[|server| + 12] == '/';
      }
    }
    url
  }

  /** `currentFiles(id)` up to its `await`: reads the stored server URL (redirecting to /login
      when it is missing, without aborting), raises the loading flag, empties the listing and
      issues the request with the server URL the page held before this call. */
  function StartLoad(p: Page, id: string, storedServer: Option<string>, token: Option<string>): (st: Started)
    ensures st.page.loading && st.page.files == []
    ensures st.page.currentFolderId == p.currentFolderId
    ensures st.redirectToLogin <==> !Truthy(storedServer)
    ensures st.page.server == (if Truthy(storedServer) then storedServer.value else p.server)
    ensures st.request.verb == Get && st.request.url == ListingUrl(p.server, id)
    ensures st.request.authorization == BearerHeader(token)
  {
    var held := if Truthy(storedServer) then storedServer.value else p.server;
    Started(
      Page([], true, p.currentFolderId, held),
      !Truthy(storedServer),
      Request(Get, ListingUrl(p.server, id), BearerHeader(token)))
  }

  /** What applying the outcome of a load produces: new page state, new stack, and whether the
      router was sent to /login. */
  datatype Applied = Applied(page: Page, stack: seq<string>, redirectToLogin: bool)

  /** The rest of `currentFiles(id)`: 401 redirects to /login; a 2xx outcome installs the payload
      wholesale, lowers the loading flag, records `id` as the current folder and pushes it on the
      stack; any other status and any thrown error change nothing. */
  function ApplyLoad(p: Page, stack: seq<string>, id: string, outcome: Response<seq<FileEntry>>): (a: Applied)
    ensures a.redirectToLogin <==> IsUnauthorized(outcome)
    ensures Succeeded(outcome) ==>
      a.page == Page(outcome.body, false, id, p.server) && a.stack == stack + [id]
    ensures !Succeeded(outcome) ==> a.page == p && a.stack == stack
  {
    if IsUnauthorized(outcome) then Applied(p, stack, true)
    else if Succeeded(outcome) then
      Applied(p.(files := outcome.body, loading := false, currentFolderId := id), stack + [id], false)
    else Applied(p, stack, false)
  }

  /** A load that fails (401, another non-2xx status, or a thrown error) leaves the page empty and
      loading, with the current folder and the stack as they were before the load started. */
  lemma FailedLoadLeavesPageEmpty(p: Page, stack: seq<string>, id: string, stored: Option<string>,
                                  token: Option<string>, outcome: Response<seq<FileEntry>>)
    requires !Succeeded(outcome)
    ensures var a := ApplyLoad(StartLoad(p, id, stored, token).page, stack, id, outcome);
      a.page.files == [] && a.page.loading && a.page.currentFolderId == p.currentFolderId && a.stack == stack
  {
  }

  /** Overlapping loads: whichever success is applied last decides the listing, the current folder
      and the top of the stack, whatever order the requests were issued in. */
  lemma LastAppliedWins(p: Page, stack: seq<string>, first: string, second: string,
                        r1: Response<seq<FileEntry>>, r2: Response<seq<FileEntry>>)
    requires Succeeded(r1) && Succeeded(r2)
    ensures var a := ApplyLoad(p, stack, first, r1);
      var b := ApplyLoad(a.page, a.stack, second, r2);
      b.page.files == r2.body && b.page.currentFolderId == second && b.stack == stack + [first, second]
  {
  }

  /** The initial load runs before the held server URL is set, so it asks for the children of the
      empty id at a relative URL rather than for the root endpoint. */
  lemma InitialLoadMissesRootEndpoint(stored: Option<string>, token: Option<string>)
    ensures StartLoad(InitialPage, "", stored, token).request.url == ChildrenEndpoint
  {
  }

  /** Result of `goBack`: the folder to load and the stack left behind. */
  datatype Back = Back(target: string, stack: seq<string>)

  /** `goBack`: with more than one entry, load the second-to-last entry and pop the top; otherwise
      load the root and clear the stack. */
  function GoBack(stack: seq<string>): (b: Back)
    ensures |stack| > 1 ==> b.target == stack[|stack| - 2] && b.stack == stack[..|stack| - 1]
    ensures |stack| <= 1 ==> b.target == "" && b.stack == []
  {
    if |stack| > 1 then Back(stack[|stack| - 2], stack[..|stack| - 1])
    else Back("", [])
  }

  /** `goBack` only ever shortens the stack: what is left is a prefix of it. */
  lemma GoBackShrinks(stack: seq<string>)
    ensures var b := GoBack(stack);
      |b.stack| < |stack| || (stack == [] && b.stack == [])
    ensures var b := GoBack(stack); b.stack <= stack
  {
  }

  /** `goBack` pops before the load it starts succeeds, and that success pushes the target again:
      from depth d > 1 the folder shown is `stack[d-2]` and the stack ends with it twice. */
  lemma GoBackThenSuccessDuplicatesTarget(p: Page, stack: seq<string>, stored: Option<string>,
                                          token: Option<string>, outcome: Response<seq<FileEntry>>)
    requires |stack| > 1 && Succeeded(outcome)
    ensures var b := GoBack(stack);
      var a := ApplyLoad(StartLoad(p, b.target, stored, token).page, b.stack, b.target, outcome);
      && a.page.currentFolderId == stack[|stack| - 2]
      && a.page.files == outcome.body
      && |a.stack| == |stack|
      && a.stack[|a.stack| - 1] == a.stack[|a.stack| - 2] == stack[|stack| - 2]
  {
  }

  /** From a stack of depth one the success of the root load that `goBack` starts leaves the stack
      holding the root id once. */
  lemma GoBackFromRootRestartsHistory(p: Page, root: string, stored: Option<string>,
                                      token: Option<string>, outcome: Response<seq<FileEntry>>)
    requires Succeeded(outcome)
    ensures var b := GoBack([root]);
      ApplyLoad(StartLoad(p, b.target, stored, token).page, b.stack, b.target, outcome).stack == [""]
  {
  }

  /** What the user sees and clicks: the page state and the `PARENT_LIST` of the render that drew
      it. Every render starts that array afresh, empty. */
  datatype Screen = Screen(page: Page, parentList: seq<string>)

  const MountedScreen := Screen(InitialPage, [])

  /** The effect of one load started from the screen: the screen drawn afterwards, the request
      sent, and whether the router was sent to /login. */
  datatype Loaded = Loaded(screen: Screen, request: Request, redirectToLogin: bool)

  /** `currentFiles(id)` started from the screen, whose closure pushes onto `closureList`. Its
      `setFiles([])` always schedules a render, a fresh array never being the old one, so the page
      is redrawn with an empty `PARENT_LIST` before the response arrives. A success then pushes
      the id onto the closure's array, which no later render reads. */
  function LoadOnScreen(sc: Screen, closureList: seq<string>, id: string, stored: Option<string>,
                        token: Option<string>, outcome: Response<seq<FileEntry>>): (l: Loaded)
    ensures l.screen.parentList == []
    ensures l.request == StartLoad(sc.page, id, stored, token).request
    ensures Succeeded(outcome) ==> l.screen.page.currentFolderId == id && l.screen.page.files == outcome.body
    ensures !Succeeded(outcome) ==> l.screen.page == StartLoad(sc.page, id, stored, token).page
  {
    var st := StartLoad(sc.page, id, stored, token);
    var a := ApplyLoad(st.page, closureList, id, outcome);
    Loaded(Screen(a.page, []), st.request, st.redirectToLogin || a.redirectToLogin)
  }

  /** A click on the back button of the screen: `goBack` on that render's `PARENT_LIST`. */
  function ClickBack(sc: Screen, stored: Option<string>, token: Option<string>,
                     outcome: Response<seq<FileEntry>>): Loaded
  {
    var b := GoBack(sc.parentList);
    LoadOnScreen(sc, b.stack, b.target, stored, token, outcome)
  }

  /** What can happen to the dashboard: a load (the initial one, or a reload), a click on the back
      button, or typing in the search box, which re-renders the page. */
  datatype Event =
    | Reload(id: string, stored: Option<string>, token: Option<string>, outcome: Response<seq<FileEntry>>)
    | BackClick(stored: Option<string>, token: Option<string>, outcome: Response<seq<FileEntry>>)
    | Typing

  function Step(sc: Screen, e: Event): Screen {
    match e
    case Reload(id, stored, token, outcome) => LoadOnScreen(sc, sc.parentList, id, stored, token, outcome).screen
    case BackClick(stored, token, outcome) => ClickBack(sc, stored, token, outcome).screen
    case Typing => Screen(sc.page, [])
  }

  function Run(sc: Screen, events: seq<Event>): Screen
    decreases |events|
  {
    if |events| == 0 then sc else Run(Step(sc, events[0]), events[1..])
  }

  /** Whatever has happened since the page mounted, the screen's `PARENT_LIST` is empty. */
  lemma {:induction false} RenderedListIsEmpty(sc: Screen, events: seq<Event>)
    requires sc.parentList == []
    ensures Run(sc, events).parentList == []
    decreases |events|
  {
    if |events| > 0 {
      RenderedListIsEmpty(Step(sc, events[0]), events[1..]);
    }
  }

  /** So the back button on screen always reloads the root: it requests the root listing, and on
      success the current folder is the root, whatever folder was shown before. */
  lemma BackAlwaysReloadsRoot(events: seq<Event>, stored: Option<string>, token: Option<string>,
                              outcome: Response<seq<FileEntry>>)
    ensures var sc := Run(MountedScreen, events);
      var l := ClickBack(sc, stored, token, outcome);
      && l.request.url == ListingUrl(sc.page.server, "")
      && (Succeeded(outcome) ==> l.screen.page.currentFolderId == "")
  {
    RenderedListIsEmpty(MountedScreen, events);
  }
}
