/** The search page: a debounced remote search (`debounce`, `debouncedFetchFiles`) over a
    timestamped keystroke sequence, and the handling of the call that fires.

    Time is an integer number of milliseconds. A keystroke's timer is cancelled by the next
    keystroke if that keystroke arrives strictly before the timer expires; a keystroke arriving at
    the very instant of expiry finds the timer already run. */
module SearchPage {
  import opened Wrappers
  import opened Strings
  import opened Drive

  const Wait: int := 300

  const SearchEndpoint := "/api/v1/files/search/"

  datatype Keystroke = Keystroke(time: int, query: string)

  /** The single pending timer of a debounced function. */
  datatype Timer = NoTimer | Pending(deadline: int, query: string)

  /** Operational model of `debounce(func, 300)`: each keystroke first lets an expired pending
      timer run, then cancels whatever is pending and arms a new timer; at the end of the input the
      last pending timer runs. The result is the queries passed to the fired calls, in order. */
  function Debounce(keys: seq<Keystroke>, timer: Timer): (fired: seq<string>)
    decreases |keys|
  {
    if |keys| == 0 then
      (if timer.Pending? then [timer.query] else [])
    else
      var k := keys[0];
      var expired := if timer.Pending? && timer.deadline <= k.time then [timer.query] else [];
      expired + Debounce(keys[1..], Pending(k.time + Wait, k.query))
  }

  /** Keystroke `i`'s timer survives: it is the last keystroke, or the next one comes at least
      300 ms later. */
  predicate Survives(keys: seq<Keystroke>, i: nat)
    requires i < |keys|
  {
    i == |keys| - 1 || keys[i + 1].time >= keys[i].time + Wait
  }

  /** Reference description: the queries of the surviving keystrokes, in keystroke order. */
  function SurvivingQueries(keys: seq<Keystroke>): seq<string>
    decreases |keys|
  {
    if |keys| == 0 then []
    else (if Survives(keys, 0) then [keys[0].query] else []) + SurvivingQueries(keys[1..])
  }

  /** With a timer pending for the keystroke just before `keys`, the debounced function fires
      that keystroke's call iff it survives, then exactly the surviving calls of `keys`. */
  lemma {:induction false} DebouncePendingSpec(keys: seq<Keystroke>, deadline: int, query: string)
    ensures Debounce(keys, Pending(deadline, query)) ==
      (if |keys| == 0 || deadline <= keys[0].time then [query] else []) + SurvivingQueries(keys)
    decreases |keys|
  {
    if |keys| > 0 {
      var k := keys[0];
      DebouncePendingSpec(keys[1..], k.time + Wait, k.query);
      var rest := keys[1..];
      assert Survives(keys, 0) <==> (|rest| == 0 || k.time + Wait <= rest[0].time);
    }
  }

  /** The debounced function fires exactly the calls of the keystrokes whose timer survives. */
  lemma DebounceFiresSurvivors(keys: seq<Keystroke>)
    ensures Debounce(keys, NoTimer) == SurvivingQueries(keys)
  {
    if |keys| > 0 {
      DebouncePendingSpec(keys[1..], keys[0].time + Wait, keys[0].query);
      assert Survives(keys, 0) <==> (|keys[1..]| == 0 || keys[0].time + Wait <= keys[1..][0].time);
    }
  }

  /** The final keystroke's call always fires, and it is the last call to fire. */
  lemma {:induction false} FinalKeystrokeFires(keys: seq<Keystroke>)
    requires |keys| > 0
    ensures var fired := Debounce(keys, NoTimer);
      |fired| > 0 && fired[|fired| - 1] == keys[|keys| - 1].query
  {
    DebounceFiresSurvivors(keys);
    SurvivorsEndWithLast(keys);
  }

  lemma {:induction false} SurvivorsEndWithLast(keys: seq<Keystroke>)
    requires |keys| > 0
    ensures var s := SurvivingQueries(keys); |s| > 0 && s[|s| - 1] == keys[|keys| - 1].query
    decreases |keys|
  {
    if |keys| > 1 {
      SurvivorsEndWithLast(keys[1..]);
    }
  }

  /** Every gap between consecutive keystrokes is shorter than the wait. */
  predicate Burst(keys: seq<Keystroke>) {
    forall i :: 0 <= i < |keys| - 1 ==> keys[i + 1].time < keys[i].time + Wait
  }

  /** A burst fires exactly one call, with the final query. */
  lemma BurstFiresOnce(keys: seq<Keystroke>)
    requires |keys| > 0 && Burst(keys)
    ensures Debounce(keys, NoTimer) == [keys[|keys| - 1].query]
  {
    DebounceFiresSurvivors(keys);
    BurstSurvivors(keys);
  }

  lemma {:induction false} BurstSurvivors(keys: seq<Keystroke>)
    requires |keys| > 0 && Burst(keys)
    ensures SurvivingQueries(keys) == [keys[|keys| - 1].query]
    decreases |keys|
  {
    if |keys| > 1 {
      assert !Survives(keys, 0);
      var rest := keys[1..];
      assert forall i :: 0 <= i < |rest| ==> rest[i] == keys[i + 1];
      BurstSurvivors(rest);
    }
  }

  /** Search page state: `files`, `loading`, the input's `searching` text, and the closure of the
      debounced callback. `useCallback` rebuilds that callback only when one of its dependencies
      (`SERVER`, `router`) changes, so the closure holds the `SERVER` URL and the `searching` text
      of the render in which it was last rebuilt (`server`, `captured`). */
  datatype SearchState = SearchState(files: seq<FileEntry>, loading: bool, searching: string,
                                     server: string, captured: string)

  /** The first render: empty input, no server URL yet, and a callback built in that render. */
  const Mounted := SearchState([], false, "", "", "")

  /** The mount effect: a stored server URL is set, which re-renders with a new `SERVER` and so
      rebuilds the callback around the `searching` text of that render; a missing one redirects to
      /login. The effect ends by lowering `loading`. Returns the new state and the redirect flag. */
  function LoadServer(s: SearchState, stored: Option<string>): (r: (SearchState, bool))
    ensures r.1 <==> !Truthy(stored)
    ensures !r.0.loading && r.0.files == s.files && r.0.searching == s.searching
    ensures Truthy(stored) && stored.value != s.server ==>
      r.0.server == stored.value && r.0.captured == s.searching
    ensures !Truthy(stored) || stored.value == s.server ==>
      r.0.server == s.server && r.0.captured == s.captured
  {
    var rebuilt := Truthy(stored) && stored.value != s.server;
    var server := if rebuilt then stored.value else s.server;
    var captured := if rebuilt then s.searching else s.captured;
    (SearchState(s.files, false, s.searching, server, captured), !Truthy(stored))
  }

  /** `handleSearchChange` for each query in turn: the input text changes, and since neither
      dependency of the callback changes, the callback and its closure stay as they are. */
  function TypeAll(s: SearchState, queries: seq<string>): (r: SearchState)
    ensures queries != [] ==> r.searching == queries[|queries| - 1]
    ensures queries == [] ==> r.searching == s.searching
    ensures r.server == s.server && r.captured == s.captured
    ensures r.files == s.files && r.loading == s.loading
    decreases |queries|
  {
    if |queries| == 0 then s
    else TypeAll(s.(searching := queries[0]), queries[1..])
  }

  /** What a fired call does before its `await`. */
  datatype FiredCall =
    | RedirectToLogin          // server URL or token missing: no request
    | NoSearch                 // the captured search text is empty: nothing happens
    | Issued(request: Request) // loading raised, request sent

  /** `debouncedFetchFiles(query)` up to its `await`, as written. The emptiness check reads
      `searching` as the closure captured it, not the `query` argument that goes into the URL. */
  function FireSearch(s: SearchState, query: string, token: Option<string>): (r: (SearchState, FiredCall))
    ensures r.1.RedirectToLogin? <==> s.server == "" || !Truthy(token)
    ensures r.1.Issued? <==> s.server != "" && Truthy(token) && s.captured != ""
    ensures r.1.Issued? ==>
      && r.0 == s.(loading := true)
      && r.1.request == Request(Get, s.server + SearchEndpoint + query, BearerHeader(token))
    ensures !r.1.Issued? ==> r.0 == s
  {
    if s.server == "" || !Truthy(token) then (s, RedirectToLogin)
    else if s.captured != "" then
      (s.(loading := true), Issued(Request(Get, s.server + SearchEndpoint + query, BearerHeader(token))))
    else (s, NoSearch)
  }

  /** The page after mounting, running the mount effect, and any typing. */
  function AfterTyping(stored: Option<string>, typed: seq<string>): SearchState {
    TypeAll(LoadServer(Mounted, stored).0, typed)
  }

  /** As written the page never searches: the callback was rebuilt in the render that set `SERVER`,
      while the input was still empty, so every call it fires finds its captured text empty. With
      a server URL and a token every fired call does nothing; without, it redirects. */
  lemma MountedSearchNeverIssues(stored: Option<string>, typed: seq<string>, query: string, token: Option<string>)
    ensures AfterTyping(stored, typed).captured == ""
    ensures Truthy(stored) && Truthy(token) ==> FireSearch(AfterTyping(stored, typed), query, token).1 == NoSearch
    ensures !Truthy(stored) || !Truthy(token) ==> FireSearch(AfterTyping(stored, typed), query, token).1 == RedirectToLogin
  {
  }

  /** Corrected call: the emptiness check reads the `query` argument the call was fired with. */
  function FireSearchByQuery(s: SearchState, query: string, token: Option<string>): (r: (SearchState, FiredCall))
    ensures r.1.RedirectToLogin? <==> s.server == "" || !Truthy(token)
    ensures r.1.Issued? <==> s.server != "" && Truthy(token) && query != ""
    ensures r.1.Issued? ==>
      && r.0 == s.(loading := true)
      && r.1.request == Request(Get, s.server + SearchEndpoint + query, BearerHeader(token))
    ensures !r.1.Issued? ==> r.0 == s
  {
    if s.server == "" || !Truthy(token) then (s, RedirectToLogin)
    else if query != "" then
      (s.(loading := true), Issued(Request(Get, s.server + SearchEndpoint + query, BearerHeader(token))))
    else (s, NoSearch)
  }

  /** With the correction, once the page has its server URL and a token, the call fired for the
      last keystroke searches for the typed text exactly when it is non-empty. */
  lemma CorrectedSearchIssuesQuery(stored: Option<string>, typed: seq<string>, token: Option<string>)
    requires Truthy(stored) && Truthy(token) && typed != []
    ensures var s := AfterTyping(stored, typed);
      var q := typed[|typed| - 1];
      var r := FireSearchByQuery(s, q, token);
      && (r.1.Issued? <==> q != "")
      && (r.1.Issued? ==> r.1.request.url == stored.value + SearchEndpoint + q)
  {
  }

  /** The rest of an issued search: 401 redirects to /login and keeps `files`; a 2xx outcome
      replaces `files`; anything else keeps them. The `finally` block lowers `loading` on every
      path. Returns the new state and whether the router was sent to /login. */
  function ApplySearch(s: SearchState, outcome: Response<seq<FileEntry>>): (r: (SearchState, bool))
    ensures !r.0.loading && r.0.server == s.server && r.0.captured == s.captured
    ensures r.1 <==> IsUnauthorized(outcome)
    ensures r.0.files == (if Succeeded(outcome) then outcome.body else s.files)
  {
    var files := if !IsUnauthorized(outcome) && Succeeded(outcome) then outcome.body else s.files;
    (s.(files := files, loading := false), IsUnauthorized(outcome))
  }

  /** Every search the corrected call issues raises `loading`, and its outcome, including 401,
      lowers it again. */
  lemma IssuedSearchEndsNotLoading(s: SearchState, query: string, token: Option<string>,
                                   outcome: Response<seq<FileEntry>>)
    requires FireSearchByQuery(s, query, token).1.Issued?
    ensures FireSearchByQuery(s, query, token).0.loading
    ensures !ApplySearch(FireSearchByQuery(s, query, token).0, outcome).0.loading
  {
  }
}
