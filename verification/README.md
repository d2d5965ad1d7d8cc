# notanas drive browser — a Dafny model of its core rules

notanas is a small self-hosted drive: a Go (gin) server keeps an in-memory index of the files
under `/drive`, hands out session tokens and one-time download links, and a Next.js client
browses, searches, downloads and shares those files. This project models the sequential rules
underneath both halves and proves properties about them.

What is modelled, module by module:

- `Drive`: the shared vocabulary. This covers the file entry exchanged as JSON, the requests the client issues, and the outcome of awaiting one (a status with a decoded body, or a thrown error).
- `Dashboard`, `FilesPage`, `SearchPage`: the client pages as pure transitions.
  - Each asynchronous handler is split at its one `await`. A `Start…`/`Fire…`/`Open…` function covers the guards and the request; an `Apply…` function covers the response.
  - The dashboard's `PARENT_LIST` is a fresh empty array in every render. `goBack` and a successful load act on the array of the render their closure was made in, so that array is an explicit stack value passed in and returned. `Screen` pairs the page state with the array the current render holds, which is always empty.
  - Nothing orders overlapping loads: the last response applied wins.
- `SearchPage` also holds the debounce, modelled over a timestamped keystroke sequence and compared with a reference description (the keystrokes whose 300 ms timer survives).
- `Listing`: the search filter copied into all three pages, the extension badges (distinct labels in first-occurrence order), and the split of the listing into a directory grid and a file grid.
- `Progress`: the two loading-indicator step functions. The dashboard's bounces between 0 and 100; the search and files pages' wraps to 0. Each is compared with a closed-form periodic description.
- `DashboardItem`: the file tile's actions. These are one-time-link generation and copying, deletion, the download with its `Content-Disposition` file-name resolution, and the display label.
- `ButtonWithIcon`: `getTruncatedName`, with JavaScript's negative `slice` bound.
- `RouteGuard`: the client middleware's exact-match route classification, session redirects and `_rsc` stripping. The file sits in `client/app/`; Next.js loads `middleware.ts` only from the project root or `src/`, so as placed it never runs, and the model describes what it would decide.
- `Service`: the server's `files`, `OTLs` and `SESSION_TOKENS` as sequences.
  - The handlers are pure functions: delete, rename, the root/children/search listings, mounting the walk's new entries, one-time-link generation and validation, the upload unique-name loop and login.
  - Filesystem outcomes, fresh UUIDs and the clock (integer seconds) are parameters.
- `AuthMiddleware`: the server's `Authorization: Bearer` check (section 2.1 of RFC 6750, but matched case-sensitively) against the session tokens.
- `Utils`: the UUID shape check (sections 4.1.1 and 4.1.3 of RFC 4122) and the generic last-wins `Map`.
- `Strings`, `Seqs`, `Wrappers`: the JavaScript and Go string and sequence primitives the rest relies on, with their semantics:
  - `split`, `lastIndexOf` and negative `slice`;
  - `strings.Split`, `strings.Contains` and `strconv.ParseInt(s, 10, 64)`;
  - `%d`.

## Model

| member | source | states |
|---|---|---|
| Dashboard.ListingUrl | client/app/dashboard/page.tsx:78-98 | The root endpoint is requested exactly when the id is empty and the held server URL is non-empty; every other call asks for `children?id=` followed by the id |
| Dashboard.StartLoad | client/app/dashboard/page.tsx:61-98 | Starting a load raises `loading` and empties the listing. A missing stored server URL redirects to /login without aborting. The request uses the server URL held before the call, with the `Bearer` header |
| Dashboard.ApplyLoad | client/app/dashboard/page.tsx:100-121 | 401 redirects to /login. A 2xx payload replaces the listing wholesale, lowers `loading`, sets the current folder and pushes the id. Any other status or a thrown error changes nothing |
| Dashboard.FailedLoadLeavesPageEmpty | client/app/dashboard/page.tsx:72-121 | After a failed load (401, other status, thrown) the listing stays empty and `loading` stays true; the current folder and the stack are unchanged |
| Dashboard.LastAppliedWins | client/app/dashboard/page.tsx:106-115 | Of two successful overlapping loads, the one applied last decides listing, current folder and stack top, whatever the issue order |
| Dashboard.InitialLoadMissesRootEndpoint | client/app/dashboard/page.tsx:52-89 | The first load runs while the held server URL is still "", so it requests the relative `children?id=` URL, not the root endpoint |
| Dashboard.GoBack | client/app/dashboard/page.tsx:171-181 | With more than one entry it targets the second-to-last and pops the top; otherwise it targets "" and empties the stack |
| Dashboard.GoBackShrinks | client/app/dashboard/page.tsx:171-181 | What `goBack` leaves is a prefix of the stack, strictly shorter unless the stack was already empty |
| Dashboard.GoBackThenSuccessDuplicatesTarget | client/app/dashboard/page.tsx:171-181 | On a closure's array of depth d > 1, going back and then succeeding shows `stack[d-2]` and ends the stack with it twice (pop, then push again). The rendered page never holds such an array (Dashboard.RenderedListIsEmpty) |
| Dashboard.GoBackFromRootRestartsHistory | client/app/dashboard/page.tsx:176-178 | Going back from depth one and succeeding leaves the stack holding "" once |
| Dashboard.LoadOnScreen | client/app/dashboard/page.tsx:57-121 | Every load redraws the page with an empty `PARENT_LIST`: `setFiles([])` always re-renders and each render makes a fresh array. The request is the one `StartLoad` issues; a success shows the payload at the loaded id, and a failure leaves the page as `StartLoad` left it |
| Dashboard.RenderedListIsEmpty | client/app/dashboard/page.tsx:57 | After any sequence of loads, back clicks and typing, the `PARENT_LIST` of the rendered page is empty |
| Dashboard.BackAlwaysReloadsRoot | client/app/dashboard/page.tsx:171-181 | Whatever happened since mount, the rendered back button requests the root-level listing and, on success, shows the root as the current folder |
| Listing.FilterListing | client/app/dashboard/page.tsx:164-168 | Keeps exactly the entries whose lower-cased name contains the lower-cased query, or whose `ext` is "" when the query lower-cases to "folder". Each kept entry appears as often as in the listing and each dropped one not at all, in listing order (same predicate in the search and files pages) |
| Listing.FilterListingIdempotent | client/app/dashboard/page.tsx:164-168 | Filtering the filtered listing again with the same query changes nothing |
| Listing.EmptyQueryKeepsAll | client/app/dashboard/page.tsx:164-168 | The empty query keeps every entry in order |
| Listing.FolderQueryKeepsExtensionless | client/app/dashboard/page.tsx:166 | The query "folder" in any ASCII case keeps every extension-less entry whatever its name |
| Listing.IsDirNotConsulted | client/app/dashboard/page.tsx:164-168 | Flipping every entry's `isDir` leaves the number of kept entries unchanged: the filter never reads it |
| Listing.Labels | client/app/dashboard/page.tsx:236 | One label per entry, in order: the extension, or "Folder" for "" |
| Listing.Badges | client/app/dashboard/page.tsx:235-238 | The badges have no duplicates and include every filtered entry's label. Each badge is some entry's label, and they appear in first-occurrence order |
| Listing.DirectoryClickOpensUnguardedPage | client/app/dashboard/page.tsx:299-301 | A directory tile pushes `files/` and its id relative to /dashboard, which resolves to `/files/{id}`; the middleware classifies that path as neither protected nor public and lets it through with or without a session |
| Listing.FileItemClick | client/app/dashboard/page.tsx:331-336 | The in-place handler opens only a directory, by its id |
| Listing.DrillInIsDead | client/app/dashboard/page.tsx:321-336 | Every tile carrying the in-place handler is a non-directory, so the handler never opens anything |
| Listing.GridsPartition | client/app/dashboard/page.tsx:289-321 | Every filtered entry lands in exactly one of the directory grid and the file grid |
| Progress.BounceStepAdvancesWave | client/app/dashboard/page.tsx:147-151 | One tick of the bouncing indicator advances the 40-tick triangle wave by one phase |
| Progress.BounceFollowsWave | client/app/dashboard/page.tsx:141-156 | For the first 40 ticks the bouncing indicator equals the triangle wave (up by 5 to 100, down by 5 to 0) |
| Progress.BounceIsPeriodic | client/app/dashboard/page.tsx:141-156 | The bouncing indicator repeats every 40 ticks |
| Progress.BounceStaysInBounds | client/app/dashboard/page.tsx:141-156 | The value is always a multiple of 5 in [0, 100]; the direction is +1 only below 100 and -1 only above 0 |
| Progress.WrapFirstLap | client/app/search/page.tsx:53-68 | For the first 20 ticks the wrapping indicator counts up by 5 from 0 (same step in client/app/files/page.tsx:96-111) |
| Progress.WrapIsPeriodic | client/app/search/page.tsx:53-68 | The wrapping indicator repeats every 20 ticks |
| Progress.WrapStaysInBounds | client/app/files/page.tsx:96-111 | The wrapping value is always one of 0, 5, ..., 95 |
| SearchPage.DebouncePendingSpec | client/app/search/page.tsx:117-123 | With a timer pending, the debounced function fires that call iff the next keystroke comes no earlier than its deadline, then exactly the surviving calls |
| SearchPage.DebounceFiresSurvivors | client/app/search/page.tsx:117-123 | The debounced function fires exactly the calls of keystrokes not followed by another within 300 ms, in order |
| SearchPage.FinalKeystrokeFires | client/app/search/page.tsx:111-123 | The final keystroke's call always fires, and fires last |
| SearchPage.BurstFiresOnce | client/app/search/page.tsx:111-123 | A burst whose gaps are all shorter than 300 ms fires exactly one call, with the final query |
| SearchPage.FireSearch | client/app/search/page.tsx:70-88 | As written: a missing server URL or token redirects with no request. Otherwise a request is issued iff the text the callback captured is non-empty, raising `loading` and going to `search/` plus the query argument, whatever that argument is |
| SearchPage.LoadServer | client/app/search/page.tsx:126-136 | A stored server URL is set, and when it differs from the held one the callback is rebuilt around the search text of that render. A missing one redirects to /login. `loading` is lowered either way, and the listing and the input text are untouched |
| SearchPage.TypeAll | client/app/search/page.tsx:108-115 | Typing leaves the input text at the last query. Neither callback dependency changes, so the server URL and the captured text stay as they were |
| SearchPage.MountedSearchNeverIssues | client/app/search/page.tsx:70-136 | After mounting and any typing the captured text is "". So with a stored server URL and a token every fired call does nothing, and without either it redirects: the page never searches |
| SearchPage.FireSearchByQuery | client/app/search/page.tsx:70-88 | Corrected call: the same redirect, and a request is issued iff the query argument is non-empty, to the same URL |
| SearchPage.CorrectedSearchIssuesQuery | client/app/search/page.tsx:70-136 | With the correction, after mounting with a server URL and typing with a token, the last keystroke's call searches for the typed text iff it is non-empty |
| SearchPage.ApplySearch | client/app/search/page.tsx:89-105 | 401 redirects and keeps `files`; 2xx replaces them; anything else keeps them; `loading` is lowered on every path |
| SearchPage.IssuedSearchEndsNotLoading | client/app/search/page.tsx:80-105 | Every search the corrected call issues raises `loading`, and its outcome, including 401, lowers it |
| FilesPage.OpenFile | client/app/files/page.tsx:42-69 | An empty id is skipped. A missing token, then a missing server URL, redirects. Otherwise the root listing is requested |
| FilesPage.ApplyOpen | client/app/files/page.tsx:71-87 | 401 redirects and keeps `files`; 2xx replaces them; anything else keeps them; `loading` is lowered on every path |
| FilesPage.RequestIgnoresId | client/app/files/page.tsx:63 | Any two non-empty ids issue the same request |
| FilesPage.GuardOrder | client/app/files/page.tsx:48-60 | A missing token and a missing server URL each redirect; the token is consulted first |
| FilesPage.InitialLoadEndsLoadingIffIssued | client/app/files/page.tsx:42-126 | The mount's `openFile("root")` is never skipped. `loading` ends iff a request was issued, so a visit without a token or server URL redirects with the progress bar still running. The router goes to /login iff a token or server URL is missing or the answer is 401. The listing is the payload after an issued 2xx, else empty |
| DashboardItem.GenerateOtl | client/components/dashboard-item.tsx:55-64 | No request for an empty id or a missing token. Otherwise a GET to the OTL endpoint with `expires=60&maxdownloads=5` and the bearer token |
| DashboardItem.LinkToken | client/components/dashboard-item.tsx:68 | `Token` when non-empty, otherwise `token`, "undefined" when both are absent |
| DashboardItem.ApplyOtl | client/components/dashboard-item.tsx:66-72 | On 2xx the link is the server URL, `/onetimelink/` and the token; any failure keeps the previous link |
| DashboardItem.ServerShapedBodyGivesToken | client/components/dashboard-item.tsx:68-69 | The server's lower-case `token` field ends up in the link |
| DashboardItem.CopyOtl | client/components/dashboard-item.tsx:75-79 | The current link, even "", goes to the clipboard and is then reset to ""; a rejected write leaves it |
| DashboardItem.CopyBeforeGenerationWritesEmpty | client/components/dashboard-item.tsx:75-78 | Copying before any generation writes "" to the clipboard |
| DashboardItem.GenerateThenCopy | client/components/dashboard-item.tsx:55-79 | Generating then copying puts the full link on the clipboard and empties the link again |
| DashboardItem.DeleteRequest | client/components/dashboard-item.tsx:81-86 | The DELETE is always issued, with no guard, to the delete endpoint followed by exactly the id, and carries the cookie's token as a bearer header ("Bearer undefined" without a cookie) |
| DashboardItem.DeleteAuthorizedBySession | client/components/dashboard-item.tsx:81-86 | The server's bearer middleware lets the DELETE through iff the cookie's token, or "undefined" without one, is a session token. A missing cookie is refused as an invalid token unless "undefined" is a session token |
| DashboardItem.ResolveFilename | client/components/dashboard-item.tsx:123-129 | An absent or empty header gives "downloaded-file-" + id. Otherwise the name is the text after the first "filename=" up to the next one, and it is undefined iff the marker is missing. The result never holds '"' |
| DashboardItem.MarkerThenText | client/components/dashboard-item.tsx:124-129 | A header holding the marker once yields the text after it with its quotes removed |
| DashboardItem.QuotedFilenameRecovered | client/components/dashboard-item.tsx:123-129 | `attachment; filename="name"` yields the bare name |
| DashboardItem.DownloadFile | client/components/dashboard-item.tsx:92-133 | A missing server URL redirects with no request, and a non-2xx outcome creates no object URL. Otherwise one URL is created, and it is revoked exactly when the name resolves |
| DashboardItem.DownloadLeaksWithoutFilename | client/components/dashboard-item.tsx:115-133 | A 2xx download whose header lacks "filename=" creates an object URL and never revokes it |
| DashboardItem.DownloadFileReleasing | client/components/dashboard-item.tsx:118-133 | Corrected download, with revocation in a `finally` block: every object URL created is revoked. The redirect decision is the original's, and a saved name holds no '"' |
| DashboardItem.ReleasingAgreesUnlessLeak | client/components/dashboard-item.tsx:92-133 | Where the original releases every object URL it creates, both downloads agree on every effect. Where it leaks, the correction differs only in revoking |
| DashboardItem.DisplayLabel | client/components/dashboard-item.tsx:159 | The label is a prefix of the name: the whole name without '.', else the text before the last '.' |
| ButtonWithIcon.TruncatedName | client/components/button-with-icon.tsx:21-31 | Names of at most 30 characters are unchanged. With the last '.' absent or at index 0, the name is the first 27 characters plus "...", 30 long. A suffix of at most 27 gives head, "..." and suffix, 30 long and ending in the suffix. A longer suffix gives length \|name\|+30 |
| ButtonWithIcon.TruncatedNameKeepsHead | client/components/button-with-icon.tsx:21-31 | A truncated name starts with a prefix of the name directly followed by "..." |
| ButtonWithIcon.LongExtensionOverflows | client/components/button-with-icon.tsx:28-30 | A 40-character name whose only '.' is at index 1 is shown with 70 characters: the 30-character bound fails |
| RouteGuard.DeleteParam | client/app/middleware.ts:42-43 | Every `_rsc` parameter is removed. The path is kept, and every other parameter is kept as often as it occurred, in order |
| RouteGuard.Middleware | client/app/middleware.ts:6-70 | A protected path without a session throws: `NextResponse.redirect` is given the relative "/login". A public path with a session redirects to /dashboard (the `startsWith` test never blocks it). These are exactly the two cases. Otherwise `_rsc` is stripped by redirect, and otherwise it is a plain pass-through with no CSP headers |
| RouteGuard.Redirect | client/app/middleware.ts:17-23 | `NextResponse.redirect` redirects iff its target is an absolute URL; a relative one throws |
| RouteGuard.ProtectedWithoutSessionThrows | client/app/middleware.ts:17-19 | /dashboard and /files without a session throw, whatever the query: the visitor is never sent to /login |
| RouteGuard.MiddlewareAbsolute | client/app/middleware.ts:6-70 | Corrected middleware, with the /login redirect built against the request URL: it never throws. It redirects to /login iff protected without a session, and to /dashboard iff public with one. Otherwise it strips `_rsc` or passes through |
| RouteGuard.CorrectionOnlyFixesLoginRedirect | client/app/middleware.ts:17-19 | Outside the protected-without-session case both middlewares decide alike; in it the original throws and the correction redirects to /login |
| RouteGuard.SubPathsAreUnguarded | client/app/middleware.ts:6-12 | Classification is by exact path: `/files/<id>` passes through even without a session, both as written and corrected |
| Service.FirstWithId | server/service/main.go:215-220 | The first index holding the id, or none iff no entry holds it |
| Service.DeleteFile | server/service/main.go:212-252 | 404 iff the id is unknown, 403 for `/drive`, 500 when removal failed, each leaving the index unchanged. On 200 exactly the first entry with the id is removed and the others keep their order |
| Service.DeleteRemovesOneEntry | server/service/main.go:243-245 | A successful delete removes one copy of that entry (as multisets); with unique ids the id is gone |
| Service.RenamedPath | server/service/main.go:187-188 | The new path is the directory part up to the last '/', then '/', then the new name; a path without '/' gives the new name |
| Service.RenameKeepsDirectory | server/service/main.go:187-188 | The new path's '/'-segments are the old ones with the last replaced by the new name |
| Service.ChangeFileName | server/service/main.go:183-210 | 404 for an unknown id and 500 for a failed rename, each changing nothing. On 200 only the first entry with the id changes, and only its name and path |
| Service.GetRootFile | server/service/main.go:273-286 | At most one entry, the first whose parent is "", and none iff there is no such entry |
| Service.ParentNameOf | server/service/main.go:291-297 | The name of the last entry with the id, or "" when none has it |
| Service.GetChildrenFiles | server/service/main.go:288-308 | Exactly the entries whose parent is that name, each as often as in the index, in index order |
| Service.ChildrenByName | server/service/main.go:291-303 | Two ids whose last entries share a name get the same listing |
| Service.UnknownIdListsRootLevel | server/service/main.go:291-303 | An unknown id lists the entries whose parent is "" |
| Service.SearchFiles | server/service/main.go:310-325 | Exactly the projections of entries whose name contains the query case-sensitively, each hit as often as among the projected index, in index order |
| Service.GoExt | server/service/main.go:87 | The extension is "" or a suffix starting at a '.' with no further '.' or '/'; "" only when the last element has no '.' |
| Service.BaseName | server/service/main.go:86 | The last '/'-segment holds no '/' |
| Service.ParentSegment | server/service/main.go:91 | The second-to-last '/'-segment, which holds no '/' |
| Service.ParentIsDirectoryName | server/service/main.go:91 | An entry directly inside a directory has that directory's base name as parent |
| Service.DriveRootHasNoParent | server/service/main.go:91 | `/drive` gets parent "", which makes it the root listing's entry |
| Service.Mounted | server/service/main.go:84-92 | The built entry keeps the walked path, gets the fresh id and the second-to-last segment as parent |
| Service.NewEntries | server/service/main.go:71-96 | The built entries of the walked paths absent from the index, in both directions, as a subsequence of the walk's built entries (walk order) |
| Service.NewEntriesFromWalk | server/service/main.go:71-96 | Each new entry is the one built, with its fresh id and parent segment, for some walked path the index did not hold |
| Service.NewEntriesCoverWalk | server/service/main.go:71-96 | Every walked path absent from the index is among the new entries |
| Service.MountFiles | server/service/main.go:67-105 | Append-only: existing entries keep index and contents. Each appended entry is the one built for some walked path not in the index, and afterwards every walked path is present |
| Service.RemountAddsNothing | server/service/main.go:72-83 | Walking a tree whose paths are all indexed adds nothing |
| Service.MountedChildIsListed | server/service/main.go:84-92 | A freshly mounted entry directly inside an indexed directory is listed among that directory's children |
| Service.LinkTokenShape | server/service/main.go:358-359 | Three well-formed UUIDs with '-' removed give a 96-hex-digit token |
| Service.GenerateOTL | server/service/main.go:327-375 | The checks run in order: UUID-shaped id, integer expire, integer maxdownloads > 0, known file. Any failure appends nothing. Success appends one link expiring `expire` minutes from now, with that download count and the stripped token |
| Service.ClientLinkParameters | server/service/main.go:333-365 | The client's `expires=60&maxdownloads=5` creates a link living 3600 s with 5 downloads |
| Service.FirstWithToken | server/service/main.go:404-405 | The first link with the token, or none iff no link has it |
| Service.ValidateOTL | server/service/main.go:402-418 | The first link with the token decides: unknown, expired iff now is strictly after its expiry, exhausted iff its count is at most 0, else valid |
| Service.LinkNeverExhausted | server/service/main.go:409-414 | As written, a live link with a positive count validates on every presentation before expiry |
| Service.FiveDownloadLinkServesSix | server/service/main.go:409-414 | A link created for five downloads serves six |
| Service.ConsumeOTL | server/service/main.go:402-418 | Corrected validation: the same verdict, and a valid one lowers the deciding link's count by one, nothing else changing |
| Service.ConsumeKeepsLink | server/service/main.go:404-414 | Consuming keeps the deciding link and its expiry, and lowers the remaining downloads by one |
| Service.ConsumingRespectsLimit | server/service/main.go:409-414 | With consumption, a link serves at most the downloads it allows |
| Service.ConsumingServesUntilExhausted | server/service/main.go:406-414 | Before expiry, with consumption it serves exactly min(presentations, allowed downloads) |
| Service.UploadCandidate | server/service/main.go:166 | The retry name is base, "(", the decimal counter, ")", extension |
| Service.Stem | server/service/main.go:156-157 | The base name followed by the extension is the original file name |
| Service.CandidateBound | server/service/main.go:160-168 | A counter of at least 10^L gives a name longer than L, which bounds the loop |
| Service.UniqueUploadName | server/service/main.go:155-168 | The chosen name is free. It is the original name if that was free, else base(k)ext for the smallest k ≥ 1 whose name is free |
| Service.HandleAuth | server/service/main.go:420-454 | An unbindable body gets 400. The request is accepted iff username followed by password is "admin123456"; success appends exactly the new token and failure leaves the tokens |
| Service.SplitCredentialsAccepted | server/service/main.go:430-437 | Only the concatenation is compared: "admin1"/"23456" logs in |
| AuthMiddleware.ParseBearer | server/middleware/main.go:23-30 | No token iff the header is empty or lacks the exact "Bearer " prefix; otherwise the header is "Bearer " followed by the token |
| AuthMiddleware.DoubledPrefixStaysInToken | server/middleware/main.go:30 | Only one prefix is trimmed |
| AuthMiddleware.LowerCaseSchemeRefused | server/middleware/main.go:23 | "bearer " is refused: the scheme is case-sensitive |
| AuthMiddleware.IsValidToken | server/middleware/main.go:64-72 | The scan answers true iff the token is among the session tokens |
| AuthMiddleware.Authorize | server/middleware/main.go:23-37 | Malformed iff empty or unprefixed; proceeds iff prefixed and the token is known; otherwise invalid |
| AuthMiddleware.Middleware | server/middleware/main.go:18-37 | The handler's parse-then-scan agrees with the decision for every header and token list |
| AuthMiddleware.LoginTokenPersists | server/middleware/main.go:64-72 | The token of a successful login is accepted right after it, and no login removes an accepted token |
| Utils.IsValidUUID | server/utils/main.go:19-23 | Accepted iff 36 characters with '-' at 8, 13, 18, 23, '1'..'5' at 14, one of 89abAB at 19, hex elsewhere |
| Utils.UUIDIsAnchored | server/utils/main.go:20 | Anchored pattern: an extra leading or trailing character, or the empty string, is rejected |
| Utils.UUIDCharacters | server/utils/main.go:20 | Every character of a valid UUID is '-' or hex |
| Utils.UUIDHyphenCount | server/utils/main.go:20 | A valid UUID holds exactly four hyphens |
| Utils.StrippedUUID | server/utils/main.go:20 | Removing the hyphens of a valid UUID leaves 32 hex digits |
| Utils.MapBy | server/utils/main.go:11-17 | The key set is exactly the keys of the source elements |
| Utils.MapByLastWins | server/utils/main.go:13-15 | Each key maps to the last element carrying it |
| Utils.MapByValues | server/utils/main.go:11-17 | Every mapped value is an element of the source carrying that key |
| Strings.ContainsSpec | server/service/main.go:313 | `strings.Contains` holds iff the query occurs at some index |
| Strings.Lower | client/app/dashboard/page.tsx:165 | Character-wise ASCII lower-casing, length preserved |
| Strings.SplitSecond | client/components/dashboard-item.tsx:125 | `split(sep)[1]` is undefined iff sep never occurs. Otherwise it is the piece starting right after the first occurrence and running to the next occurrence or the end, and it holds no occurrence of sep |
| Strings.SplitSecondIs | client/components/dashboard-item.tsx:125 | The description pins the result down: a piece that starts right after the first occurrence and runs to the next occurrence or the end is exactly `split(sep)[1]` |
| Strings.RemoveChar | client/components/dashboard-item.tsx:129 | The character is gone, only those occurrences are dropped (length), and nothing new appears |
| Strings.Split | server/service/main.go:91 | At least one piece, none holding the separator |
| Strings.JoinSplit | server/service/main.go:91 | Joining the pieces with the separator restores the text |
| Strings.SplitAppend | server/service/main.go:91 | Appending a separator and a separator-free piece appends exactly that piece |
| Strings.LastIndexOf | client/components/button-with-icon.tsx:25 | The last index of the character, -1 iff absent |
| Strings.JsIndex | client/components/button-with-icon.tsx:28-29 | A `slice` bound in range is kept. A negative one counts from the end and is clamped at 0, and one past the end is clamped to the length |
| Strings.JsSlice | client/components/button-with-icon.tsx:26-29 | The slice is the prefix of the text from the normalised start whose length is the normalised end minus the normalised start when positive, else empty |
| Strings.ParseInt64 | server/service/main.go:333-343 | Accepted iff an optional sign followed by one or more decimal digits whose value fits a signed 64-bit integer, and then the result is that value; "" is an error |
| Strings.FractionAndUnitRejected | server/service/main.go:333-343 | "1.5" and "60m" are refused: no fractions and no units |
| Strings.ParseInt64RoundTrip | server/service/main.go:333-339 | Every in-range natural number parses back from its decimal rendering |
| Strings.ParseInt64NegativeRoundTrip | server/service/main.go:333-339 | Every in-range negative number parses back from '-' and its rendering |
| Strings.NatToStringInjective | server/service/main.go:166 | Distinct counters render differently, so retry names differ |
| Seqs.Filter | server/service/main.go:299-303 | Exactly the elements satisfying the predicate, each as often as in the input, as an order-preserving subsequence |
| Seqs.Distinct | client/app/dashboard/page.tsx:235-238 | `Array.from(new Set(...))`: no duplicates, the same members, first-occurrence order |

## Left out

- JSX rendering, dialogs, toasts, breadcrumbs and sidebars: presentation only.
- Real `fetch`, cookies, `sessionStorage`, clipboard, `Blob` and object URLs, and the router. These become inputs (`Option<string>`, a status with a decoded body, or a thrown error) and outputs (a request descriptor, a redirect flag, counters of created and revoked object URLs).
- `setInterval`/`setTimeout`, React effect scheduling and the reset of the progress value when loading ends. Only the step functions and the timestamped debounce are modelled. A debounced callback re-created when `SERVER` changes, which starts with a fresh timer, is not modelled.
- `parentfiles.push()` in the dashboard: it pushes nothing.
- A JSON `null` listing, which the Go server sends for an empty result. The pages' `?.filter(...) || []` turns it into the empty listing; the model takes the payload to be a sequence, so null is the empty sequence.
- Case folding outside ASCII: `toLowerCase` is modelled on ASCII letters only.
- UTF-16: JavaScript's `length`, `slice`, `lastIndexOf` and `toLowerCase` work on UTF-16 code units, and the model works on characters. Names outside the Basic Multilingual Plane count differently.
- `router.refresh` after a successful delete: the handler names it without calling it, so there is no effect to model.
- React's ordering: the model assumes the search page's mount effect has run before the first input event, as React flushes it before handling input.
- The session decryption in the client middleware (`decrypt`) is a boolean "has user id" input. The CSP and nonce text is left out. So is the `matcher` configuration that decides on which paths the middleware runs.
- Filesystem effects and the walk: `filepath.Walk`, `os.RemoveAll`, `os.Rename`, `os.Stat`, `MkdirAll` and `SaveUploadedFile` become booleans, a walk sequence or a set of taken names. The walk error path and archiving are out.
- `uuid.NewString`, `time.Now` and `generateNonce` are parameters; time is integer seconds.
- Service.RenamedPath: `filepath.Dir`/`Join` normalisation (`..`, doubled or trailing '/') is not modelled; the contract is the clean-path case.
- Service.MountFiles: requires every walked path to contain '/'. A walk rooted at `/drive` only yields such paths, and the Go code would panic on any other.
- Service.GenerateOTL: `time.Minute * time.Duration(expires)` is an int64 nanosecond product that wraps for expiries beyond about 1.5·10^8 minutes. The model uses unbounded integers.
- Service.UniqueUploadName: the existence check is membership of the name in a set of names taken in the target directory. Joining with the target path and the filesystem race between check and save are out.
- `HandleUploadFile` apart from its naming loop: the form parsing, the directory creation, the save and the remount call. `GetFile`, `DownloadOTL`, `HandleFolderDownload` and the login cookie are not part of this model either.
- Logging (`fmt.Println`, `console.error`) and `ACCEPTING_LOGINS`, which is never read.

## Findings

| source | as written | input that shows it | evidently intended | confidence | as-written member | corrected member |
|---|---|---|---|---|---|---|
| server/service/main.go:404-414 | `otl.MAX_DOWNLOADS--` decrements the `range` loop's copy of the link, so the stored count never changes | a link created with `maxdownloads=5`, presented six times before it expires: all six validate | decrement the stored link's count, so a link serves at most its allowed downloads | not executed | Service.FiveDownloadLinkServesSix | Service.ConsumingRespectsLimit |
| client/components/dashboard-item.tsx:118-133 | the object URL is created before the file name is resolved. When the header lacks "filename=", `split(...)[1]` is `undefined`, so `.replace` throws and `revokeObjectURL` never runs | a 2xx download answered with `Content-Disposition: attachment`. gin writes `filename*=UTF-8''…` for non-ASCII names, which lacks "filename=". The server's CORS settings expose only `Content-Length` (server/api/main.go:25), so a cross-origin client reads the header as null and takes the default name; the leak needs the header to be readable | revoke the object URL on every path after creating it | not executed | DashboardItem.DownloadLeaksWithoutFilename | DashboardItem.DownloadFileReleasing |
| client/app/search/page.tsx:70-109 | the emptiness check reads `searching` as captured when the callback was built, in the render that set `SERVER`, while the input was still empty | any typing after mounting with a stored server URL and a token cookie: every fired call finds "" and no search is sent | check the `query` argument the call was fired with | not executed | SearchPage.MountedSearchNeverIssues | SearchPage.CorrectedSearchIssuesQuery |
| client/app/middleware.ts:17-19 | `NextResponse.redirect('/login')` passes a relative URL, which it refuses by throwing | a request for /dashboard without a session cookie: the middleware throws instead of redirecting | build the URL against the request, as line 22 does for /dashboard | not executed | RouteGuard.ProtectedWithoutSessionThrows | RouteGuard.CorrectionOnlyFixesLoginRedirect |
