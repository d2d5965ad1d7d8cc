/** The browsing pages' local view of a listing: the search filter (copied verbatim into the
    dashboard, files and search pages), the extension badges, and the split of the filtered
    listing into a directory grid and a file grid with their click handlers. */
module Listing {
  import opened Wrappers
  import opened Seqs
  import opened Strings
  import opened Drive
  import RouteGuard

  const FolderQuery := "folder"

  /** The filter predicate: the lower-cased name contains the lower-cased query, or the
      lower-cased query is "folder" and the entry has no extension. `isDir` is not consulted. */
  predicate Matches(query: string, f: FileEntry) {
    Contains(Lower(f.name), Lower(query)) || (Lower(query) == FolderQuery && f.ext == "")
  }

  /** `filteredFiles`: the entries of the loaded listing that the query selects, in listing order. */
  function FilterListing(files: seq<FileEntry>, query: string): (r: seq<FileEntry>)
    ensures forall f :: f in r ==> f in files && Matches(query, f)
    ensures forall f :: f in files && Matches(query, f) ==> f in r
    ensures forall f :: f in files ==> multiset(r)[f] == if Matches(query, f) then multiset(files)[f] else 0
    ensures IsSubsequence(r, files)
  {
    Filter(files, f => Matches(query, f))
  }

  /** Filtering an already filtered listing with the same query changes nothing. */
  lemma FilterListingIdempotent(files: seq<FileEntry>, query: string)
    ensures FilterListing(FilterListing(files, query), query) == FilterListing(files, query)
  {
    FilterIdempotent(files, f => Matches(query, f));
  }

  /** The empty query keeps every entry, in order. */
  lemma EmptyQueryKeepsAll(files: seq<FileEntry>)
    ensures FilterListing(files, "") == files
  {
    forall i | 0 <= i < |files|
      ensures Matches("", files[i])
    {
      ContainsEmpty(Lower(files[i].name));
    }
    FilterKeepsAll(files, f => Matches("", f));
  }

  /** The query "folder" (in any ASCII case) keeps every extension-less entry whatever its name. */
  lemma FolderQueryKeepsExtensionless(files: seq<FileEntry>, query: string, f: FileEntry)
    requires Lower(query) == FolderQuery
    requires f in files && f.ext == ""
    ensures f in FilterListing(files, query)
  {
  }

  /** The verdict never depends on `isDir`: the entry with the flag flipped gets the same verdict,
      so the query "folder" also keeps extension-less plain files. */
  lemma IsDirNotConsulted(files: seq<FileEntry>, query: string)
    ensures var flipped := seq(|files|, i requires 0 <= i < |files| => files[i].(isDir := !files[i].isDir));
            |FilterListing(flipped, query)| == |FilterListing(files, query)|
  {
    var flipped := seq(|files|, i requires 0 <= i < |files| => files[i].(isDir := !files[i].isDir));
    FlippedFilterLength(files, flipped, query);
  }

  lemma {:induction false} FlippedFilterLength(files: seq<FileEntry>, flipped: seq<FileEntry>, query: string)
    requires |flipped| == |files|
    requires forall i :: 0 <= i < |files| ==> flipped[i] == files[i].(isDir := !files[i].isDir)
    ensures |FilterListing(flipped, query)| == |FilterListing(files, query)|
    decreases |files|
  {
    if |files| > 0 {
      FlippedFilterLength(files[1..], flipped[1..], query);
      assert Matches(query, files[0]) == Matches(query, flipped[0]);
    }
  }

  /** The text of an entry's badge: its extension, or "Folder" for the empty extension. */
  function BadgeLabel(f: FileEntry): string {
    if f.ext == "" then "Folder" else f.ext
  }

  /** The badge label of every entry, in listing order. */
  function Labels(files: seq<FileEntry>): (r: seq<string>)
    ensures |r| == |files|
    ensures forall i :: 0 <= i < |files| ==> r[i] == BadgeLabel(files[i])
  {
    seq(|files|, i requires 0 <= i < |files| => BadgeLabel(files[i]))
  }

  /** The badges shown above the filtered listing: its distinct labels, each once, in the order in
      which they first occur (a `Set` of labels turned back into an array). */
  function Badges(filtered: seq<FileEntry>): (r: seq<string>)
    ensures NoDuplicates(r)
    ensures forall i :: 0 <= i < |filtered| ==> BadgeLabel(filtered[i]) in r
    ensures forall l :: l in r ==> l in Labels(filtered)
    ensures forall i, j :: 0 <= i < j < |r| ==>
      IndexOf(Labels(filtered), r[i]) < IndexOf(Labels(filtered), r[j])
  {
    var labels := Labels(filtered);
    var r := Distinct(labels);
    assert forall i :: 0 <= i < |filtered| ==> labels[i] in r;
    r
  }

  /** The directory grid: the filtered entries with `isDir` set. */
  function DirectoryGrid(filtered: seq<FileEntry>): seq<FileEntry> {
    Filter(filtered, (f: FileEntry) => f.isDir)
  }

  /** The file grid: the filtered entries without `isDir`. */
  function FileGrid(filtered: seq<FileEntry>): seq<FileEntry> {
    Filter(filtered, (f: FileEntry) => !f.isDir)
  }

  /** Clicking a directory tile pushes the route `files/{id}` (relative to the current page). */
  function DirectoryClickRoute(f: FileEntry): (route: string)
    ensures StartsWith(route, "files/") && route[|"files/"|..] == f.id
  {
    "files/" + f.id
  }

  /** A relative route resolved against the current path: it replaces the last path segment. */
  function ResolveRelative(current: string, route: string): string {
    current[..LastIndexOf(current, '/') + 1] + route
  }

  /** Pushed from the dashboard, a directory tile's route is `/files/{id}`, a path the client
      middleware classifies as neither protected nor public, so the middleware lets it through
      with or without a session (which page answers that path is routing, outside this model). */
  lemma DirectoryClickOpensUnguardedPage(f: FileEntry, hasUserId: bool)
    requires f.id != ""
    ensures ResolveRelative("/dashboard", DirectoryClickRoute(f)) == "/files/" + f.id
    ensures RouteGuard.MiddlewareAbsolute(RouteGuard.Url("/files/" + f.id, []), hasUserId) == RouteGuard.PassThrough([])
  {
    assert LastIndexOf("/dashboard", '/') == 0 by {
      assert "/dashboard"[0] == '/';
      assert forall k :: 0 < k < |"/dashboard"| ==> "/dashboard"[k] != '/';
    }
    assert "/dashboard"[..1] == "/";
    RouteGuard.SubPathsAreUnguarded(f.id, hasUserId);
  }

  /** The click handler attached to tiles of the file grid: it would open the entry in place
      (returning the id to load and push) only for a directory other than the current folder. */
  function FileItemClick(f: FileEntry, currentFolderId: string): (open: Option<string>)
    ensures open.Some? ==> open.value == f.id && f.isDir
  {
    if f.isDir && f.id != currentFolderId then Some(f.id) else None
  }

  /** The in-place drill-in is dead code: every tile carrying that handler is a non-directory, so
      the handler never opens anything. */
  lemma DrillInIsDead(filtered: seq<FileEntry>, currentFolderId: string)
    ensures forall f :: f in FileGrid(filtered) ==> FileItemClick(f, currentFolderId) == None
  {
  }

  /** Every filtered entry lands in exactly one of the two grids. */
  lemma GridsPartition(filtered: seq<FileEntry>, f: FileEntry)
    requires f in filtered
    ensures f in DirectoryGrid(filtered) <==> f !in FileGrid(filtered)
  {
  }
}
