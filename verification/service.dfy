/** The server's in-memory drive index (`files`), its one-time links (`OTLs`) and session tokens
    (`SESSION_TOKENS`), as sequences threaded through pure request handlers. Filesystem outcomes,
    fresh UUIDs and the clock are parameters. */
module Service {
  import opened Wrappers
  import opened Seqs
  import opened Strings
  import opened Drive
  import opened Utils

  const DriveFolder := "/drive"

  // ---------------------------------------------------------------- index updates

  /** The index after a handler ran, with the HTTP status it answered. */
  datatype Indexed = Indexed(status: int, files: seq<FileEntry>)

  /** The index of the first entry with the id: the `for i, f := range files` scan that stops at
      the first hit. */
  function FirstWithId(files: seq<FileEntry>, id: string): (r: Option<nat>)
    ensures r.None? <==> forall j :: 0 <= j < |files| ==> files[j].id != id
    ensures r.Some? ==> r.value < |files| && files[r.value].id == id
    ensures r.Some? ==> forall j :: 0 <= j < r.value ==> files[j].id != id
  {
    FindFirst(files, (f: FileEntry) => f.id == id)
  }

  /** `DeleteFile`: 404 for an unknown id, 403 for the drive root, 500 when the removal from disk
      (`removed`) failed; otherwise the first entry with the id leaves the index. */
  function DeleteFile(files: seq<FileEntry>, id: string, removed: bool): (o: Indexed)
    ensures o.status == 200 || o.status == 403 || o.status == 404 || o.status == 500
    ensures o.status == 404 <==> forall j :: 0 <= j < |files| ==> files[j].id != id
    ensures o.status != 200 ==> o.files == files
    ensures FirstWithId(files, id).Some? ==>
      var k := FirstWithId(files, id).value;
      && (o.status == 403 <==> files[k].path == DriveFolder)
      && (o.status == 500 <==> files[k].path != DriveFolder && !removed)
    ensures o.status == 200 ==>
      && FirstWithId(files, id).Some?
      && var k := FirstWithId(files, id).value;
      && |o.files| == |files| - 1
      && (forall j :: 0 <= j < k ==> o.files[j] == files[j])
      && (forall j :: k <= j < |o.files| ==> o.files[j] == files[j + 1])
  {
    match FirstWithId(files, id)
    case None => Indexed(404, files)
    case Some(k) =>
      if files[k].path == DriveFolder then Indexed(403, files)
      else if !removed then Indexed(500, files)
      else Indexed(200, files[..k] + files[k + 1..])
  }

  predicate UniqueIds(files: seq<FileEntry>) {
    forall i, j :: 0 <= i < j < |files| ==> files[i].id != files[j].id
  }

  /** A successful delete removes exactly one entry, the first with the id, and nothing else; when
      ids are unique the id is gone from the index. */
  lemma DeleteRemovesOneEntry(files: seq<FileEntry>, id: string)
    requires DeleteFile(files, id, true).status == 200
    ensures var k := FirstWithId(files, id).value;
      multiset(DeleteFile(files, id, true).files) + multiset{files[k]} == multiset(files)
    ensures UniqueIds(files) ==> forall j :: 0 <= j < |DeleteFile(files, id, true).files| ==>
      DeleteFile(files, id, true).files[j].id != id
  {
    var k := FirstWithId(files, id).value;
    var rest := DeleteFile(files, id, true).files;
    assert rest == files[..k] + files[k + 1..];
    assert files == files[..k] + [files[k]] + files[k + 1..];
  }

  /** `filepath.Join(filepath.Dir(path), newName)` for a clean path: the text up to the last '/',
      then the new name; a path without '/' has directory "." and yields the new name alone. */
  function RenamedPath(path: string, newName: string): (p: string)
    ensures '/' !in path ==> p == newName
    ensures '/' in path ==> |p| == LastIndexOf(path, '/') + 1 + |newName|
  {
    var k := LastIndexOf(path, '/');
    if k < 0 then newName else path[..k] + "/" + newName
  }

  /** Renaming keeps the directory: the '/'-segments of the new path are those of the old path
      with the last one replaced by the new name. */
  lemma RenameKeepsDirectory(path: string, newName: string)
    requires '/' !in newName
    ensures var before := Split(path, '/');
      Split(RenamedPath(path, newName), '/') == before[..|before| - 1] + [newName]
  {
    var k := LastIndexOf(path, '/');
    if k < 0 {
      assert LastIndexOf(newName, '/') == -1;
    } else {
      var dir, last := path[..k], path[k + 1..];
      assert '/' !in last by {
        assert forall j :: 0 <= j < |last| ==> last[j] == path[k + 1 + j];
      }
      assert path == dir + "/" + last;
      SplitAppend(dir, '/', last);
      SplitAppend(dir, '/', newName);
      assert Split(path, '/')[..|Split(path, '/')| - 1] == Split(dir, '/');
    }
  }

  /** `ChangeFileName`: the first entry with the id gets the new name and the renamed path when
      the rename on disk (`renamed`) succeeded; 404 for an unknown id, 500 on a failed rename. */
  function ChangeFileName(files: seq<FileEntry>, id: string, newName: string, renamed: bool): (o: Indexed)
    ensures o.status == 200 || o.status == 404 || o.status == 500
    ensures o.status == 404 <==> forall j :: 0 <= j < |files| ==> files[j].id != id
    ensures o.status == 500 <==> FirstWithId(files, id).Some? && !renamed
    ensures o.status != 200 ==> o.files == files
    ensures o.status == 200 ==>
      && FirstWithId(files, id).Some?
      && var k := FirstWithId(files, id).value;
      && |o.files| == |files|
      && (forall j :: 0 <= j < |files| && j != k ==> o.files[j] == files[j])
      && o.files[k].name == newName
      && o.files[k].path == RenamedPath(files[k].path, newName)
      && o.files[k].(name := files[k].name, path := files[k].path) == files[k]
  {
    match FirstWithId(files, id)
    case None => Indexed(404, files)
    case Some(k) =>
      if !renamed then Indexed(500, files)
      else Indexed(200, files[k := files[k].(name := newName, path := RenamedPath(files[k].path, newName))])
  }

  // ---------------------------------------------------------------- listing queries

  /** `GetRootFile`: at most one entry, the first whose parent is "". */
  function GetRootFile(files: seq<FileEntry>): (r: seq<FileEntry>)
    ensures |r| <= 1
    ensures r == [] <==> forall j :: 0 <= j < |files| ==> files[j].parent != ""
    ensures |r| == 1 ==> exists k ::
      && 0 <= k < |files| && r[0] == files[k] && files[k].parent == ""
      && forall j :: 0 <= j < k ==> files[j].parent != ""
  {
    match FindFirst(files, (f: FileEntry) => f.parent == "")
    case None => []
    case Some(k) => [files[k]]
  }

  /** The parent name `GetChildrenFiles` looks for: the name of the LAST entry with the id (the
      scan does not stop), or "" when no entry has it. */
  function ParentNameOf(files: seq<FileEntry>, id: string): (n: string)
    ensures (forall j :: 0 <= j < |files| ==> files[j].id != id) ==> n == ""
    ensures (exists j :: 0 <= j < |files| && files[j].id == id) ==>
      exists k ::
        && 0 <= k < |files| && files[k].id == id && n == files[k].name
        && forall j :: k < j < |files| ==> files[j].id != id
  {
    match FindLast(files, (f: FileEntry) => f.id == id)
    case None => ""
    case Some(k) => files[k].name
  }

  /** `GetChildrenFiles`: every entry, in index order, whose parent equals that name. */
  function GetChildrenFiles(files: seq<FileEntry>, id: string): (r: seq<FileEntry>)
    ensures forall f :: f in r ==> f in files && f.parent == ParentNameOf(files, id)
    ensures forall f :: f in files && f.parent == ParentNameOf(files, id) ==> f in r
    ensures forall f :: f in files ==>
      multiset(r)[f] == if f.parent == ParentNameOf(files, id) then multiset(files)[f] else 0
    ensures IsSubsequence(r, files)
  {
    var parent := ParentNameOf(files, id);
    Filter(files, (f: FileEntry) => f.parent == parent)
  }

  /** Children are looked up by name, not by id: two ids whose last entries share a name get the
      same listing, and an unknown id lists the root-level entries (parent ""). */
  lemma ChildrenByName(files: seq<FileEntry>, a: string, b: string)
    requires ParentNameOf(files, a) == ParentNameOf(files, b)
    ensures GetChildrenFiles(files, a) == GetChildrenFiles(files, b)
  {
  }

  lemma UnknownIdListsRootLevel(files: seq<FileEntry>, id: string)
    requires forall j :: 0 <= j < |files| ==> files[j].id != id
    ensures forall f :: f in GetChildrenFiles(files, id) <==> f in files && f.parent == ""
  {
  }

  /** The projection `SearchFiles` answers with. */
  datatype SearchHit = SearchHit(id: string, name: string, isDir: bool, ext: string)

  function Hit(f: FileEntry): SearchHit {
    SearchHit(f.id, f.name, f.isDir, f.ext)
  }

  function Hits(files: seq<FileEntry>): (r: seq<SearchHit>)
    ensures |r| == |files| && forall i :: 0 <= i < |files| ==> r[i] == Hit(files[i])
    ensures forall h :: h in r ==> exists f :: f in files && h == Hit(f)
    ensures forall f :: f in files ==> Hit(f) in r
  {
    var hits := seq(|files|, i requires 0 <= i < |files| => Hit(files[i]));
    forall h | h in hits ensures exists f :: f in files && h == Hit(f) {
      var i :| 0 <= i < |hits| && hits[i] == h;
      assert files[i] in files;
    }
    forall f | f in files ensures Hit(f) in hits {
      var i :| 0 <= i < |files| && files[i] == f;
      assert hits[i] == Hit(f);
    }
    hits
  }

  /** `SearchFiles`: the entries whose name contains the query (case-sensitive), projected, in
      index order. */
  function SearchFiles(files: seq<FileEntry>, query: string): (r: seq<SearchHit>)
    ensures forall h :: h in r ==> Contains(h.name, query)
    ensures forall h :: h in r ==> exists f :: f in files && h == Hit(f)
    ensures forall f :: f in files && Contains(f.name, query) ==> Hit(f) in r
    ensures forall h :: h in Hits(files) ==>
      multiset(r)[h] == if Contains(h.name, query) then multiset(Hits(files))[h] else 0
    ensures IsSubsequence(r, Hits(files))
  {
    Filter(Hits(files), (h: SearchHit) => Contains(h.name, query))
  }

  // ---------------------------------------------------------------- mounting the drive

  /** `filepath.Ext` scanning down from index `i`: the suffix from the last '.' that follows the
      last '/', or "" when the last path element has no '.'. */
  function ExtFrom(path: string, i: int): (e: string)
    requires -1 <= i < |path|
    requires forall j :: i < j < |path| ==> path[j] != '.' && path[j] != '/'
    ensures e == "" || (|e| <= |path| && e == path[|path| - |e|..] && e[0] == '.')
    ensures forall j :: 1 <= j < |e| ==> e[j] != '.' && e[j] != '/'
    ensures e == "" ==> forall j :: LastIndexOf(path, '/') < j < |path| ==> path[j] != '.'
    decreases i + 1
  {
    if i < 0 || path[i] == '/' then ""
    else if path[i] == '.' then
      assert forall j :: 1 <= j < |path[i..]| ==> path[i..][j] == path[i + j];
      path[i..]
    else ExtFrom(path, i - 1)
  }

  function GoExt(path: string): (e: string)
    ensures e == "" || (|e| <= |path| && e == path[|path| - |e|..] && e[0] == '.')
    ensures forall j :: 1 <= j < |e| ==> e[j] != '.' && e[j] != '/'
    ensures e == "" ==> forall j :: LastIndexOf(path, '/') < j < |path| ==> path[j] != '.'
  {
    ExtFrom(path, |path| - 1)
  }

  /** The last '/'-segment of a path: the walk's base name of the entry. */
  function BaseName(path: string): (n: string)
    ensures '/' !in n
  {
    var parts := Split(path, '/');
    parts[|parts| - 1]
  }

  /** The `Parent` of a mounted entry: the second-to-last '/'-segment of its path. */
  function ParentSegment(path: string): (p: string)
    requires '/' in path
    ensures '/' !in p
  {
    SplitAtSeparator(path, '/');
    var parts := Split(path, '/');
    parts[|parts| - 2]
  }

  /** An entry directly inside a directory has that directory's base name as parent. */
  lemma ParentIsDirectoryName(dir: string, name: string)
    requires '/' !in name
    ensures ParentSegment(dir + "/" + name) == BaseName(dir)
  {
    SplitAppend(dir, '/', name);
    var parts := Split(dir, '/');
    assert Split(dir + "/" + name, '/') == parts + [name];
    assert (parts + [name])[|parts| - 1] == parts[|parts| - 1];
  }

  /** The drive root itself has parent "", which makes it the root listing's entry. */
  lemma DriveRootHasNoParent()
    ensures ParentSegment(DriveFolder) == ""
  {
    var name := "drive";
    assert '/' !in name by {
      assert forall j :: 0 <= j < |name| ==> name[j] != '/';
    }
    assert DriveFolder == "" + "/" + name;
    SplitAppend("", '/', name);
    assert LastIndexOf("", '/') == -1;
    assert Split("", '/') == [""];
  }

  /** One entry reported by the directory walk. */
  datatype Walked = Walked(path: string, name: string, isDir: bool, modTime: int)

  /** The index entry the walk callback builds, with a fresh id. */
  function Mounted(w: Walked, id: string): (f: FileEntry)
    requires '/' in w.path
    ensures f.path == w.path && f.id == id && f.parent == ParentSegment(w.path)
  {
    FileEntry(id, w.name, GoExt(w.path), w.isDir, w.path, w.modTime, ParentSegment(w.path))
  }

  predicate HasPath(files: seq<FileEntry>, path: string) {
    exists j :: 0 <= j < |files| && files[j].path == path
  }

  /** The entry the walk callback would build for every walked path, in walk order. */
  function MountedAll(walk: seq<Walked>, ids: seq<string>): (r: seq<FileEntry>)
    requires |ids| == |walk|
    requires forall i :: 0 <= i < |walk| ==> '/' in walk[i].path
    ensures |r| == |walk| && forall i :: 0 <= i < |walk| ==> r[i] == Mounted(walk[i], ids[i])
  {
    seq(|walk|, i requires 0 <= i < |walk| => Mounted(walk[i], ids[i]))
  }

  /** The entries of the walk whose path the index does not hold yet, in walk order: the walk
      callback appends `Mounted(walk[i], ids[i])` exactly when no indexed entry has that path.
      `ids[i]` is the fresh UUID for `walk[i]`. */
  function NewEntries(files: seq<FileEntry>, walk: seq<Walked>, ids: seq<string>): (r: seq<FileEntry>)
    requires |ids| == |walk|
    requires forall i :: 0 <= i < |walk| ==> '/' in walk[i].path
    ensures |r| <= |walk|
    ensures IsSubsequence(r, MountedAll(walk, ids))
    ensures forall f :: f in r ==> f in MountedAll(walk, ids) && !HasPath(files, f.path)
    ensures forall f :: f in MountedAll(walk, ids) && !HasPath(files, f.path) ==> f in r
  {
    Filter(MountedAll(walk, ids), (f: FileEntry) => !HasPath(files, f.path))
  }

  /** `f` is the entry the walk callback built for some walked path the index did not hold. */
  predicate BuiltForNewPath(files: seq<FileEntry>, walk: seq<Walked>, ids: seq<string>, f: FileEntry)
    requires |ids| == |walk|
    requires forall i :: 0 <= i < |walk| ==> '/' in walk[i].path
  {
    exists i :: 0 <= i < |walk| && f == Mounted(walk[i], ids[i]) && !HasPath(files, walk[i].path)
  }

  /** Every new entry is the one built for some walked path the index did not hold. */
  lemma NewEntriesFromWalk(files: seq<FileEntry>, walk: seq<Walked>, ids: seq<string>)
    requires |ids| == |walk|
    requires forall i :: 0 <= i < |walk| ==> '/' in walk[i].path
    ensures forall f :: f in NewEntries(files, walk, ids) ==> BuiltForNewPath(files, walk, ids, f)
  {
    PickedFromWalk(files, walk, ids, MountedAll(walk, ids), NewEntries(files, walk, ids));
  }

  /** Entries picked from the walk's built entries, none of whose paths the index holds, were each
      built for a walked path the index did not hold. */
  lemma PickedFromWalk(files: seq<FileEntry>, walk: seq<Walked>, ids: seq<string>, all: seq<FileEntry>, r: seq<FileEntry>)
    requires |ids| == |walk|
    requires forall i :: 0 <= i < |walk| ==> '/' in walk[i].path
    requires |all| == |walk| && forall i :: 0 <= i < |walk| ==> all[i] == Mounted(walk[i], ids[i])
    requires forall f :: f in r ==> f in all && !HasPath(files, f.path)
    ensures forall f :: f in r ==> BuiltForNewPath(files, walk, ids, f)
  {
    forall f | f in r ensures BuiltForNewPath(files, walk, ids, f) {
      var i :| 0 <= i < |all| && all[i] == f;
      assert f.path == walk[i].path;
    }
  }

  /** Every walked path the index did not hold is among the new entries. */
  lemma NewEntriesCoverWalk(files: seq<FileEntry>, walk: seq<Walked>, ids: seq<string>)
    requires |ids| == |walk|
    requires forall i :: 0 <= i < |walk| ==> '/' in walk[i].path
    ensures forall i :: 0 <= i < |walk| && !HasPath(files, walk[i].path) ==>
      HasPath(NewEntries(files, walk, ids), walk[i].path)
  {
    var all := MountedAll(walk, ids);
    var r := NewEntries(files, walk, ids);
    forall i | 0 <= i < |walk| && !HasPath(files, walk[i].path) ensures HasPath(r, walk[i].path) {
      assert all[i] in all;
      var j :| 0 <= j < |r| && r[j] == all[i];
    }
  }

  /** `MountFiles`: the index followed by the walk's entries whose path it did not hold. */
  function MountFiles(files: seq<FileEntry>, walk: seq<Walked>, ids: seq<string>): (r: seq<FileEntry>)
    requires |ids| == |walk|
    requires forall i :: 0 <= i < |walk| ==> '/' in walk[i].path
    ensures |files| <= |r| && r[..|files|] == files
    ensures forall j :: |files| <= j < |r| ==> BuiltForNewPath(files, walk, ids, r[j])
    ensures forall i :: 0 <= i < |walk| ==> HasPath(r, walk[i].path)
  {
    var added := NewEntries(files, walk, ids);
    NewEntriesFromWalk(files, walk, ids);
    NewEntriesCoverWalk(files, walk, ids);
    AppendKeepsPaths(files, added);
    files + added
  }

  /** Appending keeps every path of both halves and puts the second half's entries after the first. */
  lemma AppendKeepsPaths(files: seq<FileEntry>, added: seq<FileEntry>)
    ensures forall p :: HasPath(files, p) || HasPath(added, p) ==> HasPath(files + added, p)
    ensures forall j :: |files| <= j < |files + added| ==> (files + added)[j] in added
  {
    var r := files + added;
    forall p | HasPath(files, p) || HasPath(added, p) ensures HasPath(r, p) {
      if HasPath(files, p) {
        var j :| 0 <= j < |files| && files[j].path == p;
        assert r[j].path == p;
      } else {
        var j :| 0 <= j < |added| && added[j].path == p;
        assert r[|files| + j].path == p;
      }
    }
    forall j | |files| <= j < |r| ensures r[j] in added {
      assert r[j] == added[j - |files|];
    }
  }

  /** Mounting is idempotent: walking the same tree again adds nothing. */
  lemma RemountAddsNothing(files: seq<FileEntry>, walk: seq<Walked>, ids: seq<string>)
    requires |ids| == |walk|
    requires forall i :: 0 <= i < |walk| ==> '/' in walk[i].path
    requires forall i :: 0 <= i < |walk| ==> HasPath(files, walk[i].path)
    ensures NewEntries(files, walk, ids) == []
  {
    var all := MountedAll(walk, ids);
    forall f | f in all ensures HasPath(files, f.path) {
      var i :| 0 <= i < |all| && all[i] == f;
    }
    var r := NewEntries(files, walk, ids);
    if |r| > 0 {
      assert false;
    }
  }

  /** A freshly mounted entry directly inside a directory shows up in that directory's children
      listing, provided the directory's entry carries its base name and is the last with its id. */
  lemma MountedChildIsListed(files: seq<FileEntry>, walk: seq<Walked>, ids: seq<string>, k: nat, i: nat, name: string)
    requires |ids| == |walk|
    requires forall j :: 0 <= j < |walk| ==> '/' in walk[j].path
    requires k < |MountFiles(files, walk, ids)|
    requires var d := MountFiles(files, walk, ids)[k];
      && d.name == BaseName(d.path)
      && forall j :: k < j < |MountFiles(files, walk, ids)| ==> MountFiles(files, walk, ids)[j].id != d.id
    requires i < |walk| && !HasPath(files, walk[i].path) && '/' !in name
    requires walk[i].path == MountFiles(files, walk, ids)[k].path + "/" + name
    ensures exists f ::
      && f in GetChildrenFiles(MountFiles(files, walk, ids), MountFiles(files, walk, ids)[k].id)
      && f.path == walk[i].path
  {
    var r := MountFiles(files, walk, ids);
    var d := r[k];
    LastWithIdNamesParent(r, k);
    var j := NewPathIsMounted(files, walk, ids, i);
    ParentIsDirectoryName(d.path, name);
    assert r[j].parent == d.name;
    assert r[j] in r;
  }

  /** The entry that is the last with its id gives the parent name looked up by that id. */
  lemma LastWithIdNamesParent(files: seq<FileEntry>, k: nat)
    requires k < |files|
    requires forall j :: k < j < |files| ==> files[j].id != files[k].id
    ensures ParentNameOf(files, files[k].id) == files[k].name
  {
  }

  /** A walked path the index did not hold lands among the appended entries. */
  lemma NewPathIsMounted(files: seq<FileEntry>, walk: seq<Walked>, ids: seq<string>, i: nat) returns (j: nat)
    requires |ids| == |walk|
    requires forall j :: 0 <= j < |walk| ==> '/' in walk[j].path
    requires i < |walk| && !HasPath(files, walk[i].path)
    ensures |files| <= j < |MountFiles(files, walk, ids)|
    ensures MountFiles(files, walk, ids)[j].path == walk[i].path
  {
    var r := MountFiles(files, walk, ids);
    assert HasPath(r, walk[i].path);
    j :| 0 <= j < |r| && r[j].path == walk[i].path;
  }

  // ---------------------------------------------------------------- one-time links

  /** A one-time link: the file it serves, its token, expiry and creation time (integer seconds)
      and the downloads it allows. */
  datatype Otl = Otl(fileId: string, token: string, expire: int, created: int, maxDownloads: int)

  /** The answer of `GenerateOTL`, in the order its checks run. */
  datatype OtlStatus = Created | BadUuid | BadExpire | BadDownloads | FileNotFound

  function HttpStatus(s: OtlStatus): int {
    match s
    case Created => 200
    case FileNotFound => 404
    case _ => 400
  }

  datatype Generated = Generated(status: OtlStatus, otls: seq<Otl>, token: string)

  const SecondsPerMinute: int := 60

  /** The link token: three fresh UUIDs concatenated with every '-' removed. */
  function LinkToken(u1: string, u2: string, u3: string): string {
    RemoveChar(u1 + u2 + u3, '-')
  }

  /** Built from three well-formed UUIDs, the token is 96 hex digits. */
  lemma LinkTokenShape(u1: string, u2: string, u3: string)
    requires IsValidUUID(u1) && IsValidUUID(u2) && IsValidUUID(u3)
    ensures |LinkToken(u1, u2, u3)| == 96 && AllHex(LinkToken(u1, u2, u3))
  {
    RemoveCharAppend(u1 + u2, u3, '-');
    RemoveCharAppend(u1, u2, '-');
    StrippedUUID(u1);
    StrippedUUID(u2);
    StrippedUUID(u3);
    var a, b, c := RemoveChar(u1, '-'), RemoveChar(u2, '-'), RemoveChar(u3, '-');
    assert LinkToken(u1, u2, u3) == a + b + c;
    assert forall i :: 0 <= i < 96 ==> (a + b + c)[i] == if i < 32 then a[i] else if i < 64 then b[i - 32] else c[i - 64];
  }

  /** `GenerateOTL(id, expire, maxdownloads)` at time `now` with fresh UUIDs `u1`..`u3`. */
  function GenerateOTL(files: seq<FileEntry>, otls: seq<Otl>, id: string, expire: string, maxDownloads: string,
                       now: int, u1: string, u2: string, u3: string): (g: Generated)
    ensures g.status == BadUuid <==> !IsValidUUID(id)
    ensures g.status == BadExpire <==> IsValidUUID(id) && ParseInt64(expire).None?
    ensures g.status == BadDownloads <==>
      && IsValidUUID(id) && ParseInt64(expire).Some?
      && (ParseInt64(maxDownloads).None? || ParseInt64(maxDownloads).value <= 0)
    ensures g.status == FileNotFound <==>
      && IsValidUUID(id) && ParseInt64(expire).Some?
      && ParseInt64(maxDownloads).Some? && ParseInt64(maxDownloads).value > 0
      && forall j :: 0 <= j < |files| ==> files[j].id != id
    ensures g.status != Created ==> g.otls == otls && g.token == ""
    ensures g.status == Created ==>
      && g.token == LinkToken(u1, u2, u3)
      && g.otls == otls + [Otl(id, g.token, now + SecondsPerMinute * ParseInt64(expire).value, now,
                               ParseInt64(maxDownloads).value)]
  {
    if !IsValidUUID(id) then Generated(BadUuid, otls, "")
    else match ParseInt64(expire)
      case None => Generated(BadExpire, otls, "")
      case Some(expires) =>
        match ParseInt64(maxDownloads)
        case None => Generated(BadDownloads, otls, "")
        case Some(max) =>
          if max <= 0 then Generated(BadDownloads, otls, "")
          else
            var fileId := match FirstWithId(files, id) case Some(k) => files[k].id case None => "";
            if fileId == "" then Generated(FileNotFound, otls, "")
            else
              var token := LinkToken(u1, u2, u3);
              Generated(Created, otls + [Otl(fileId, token, now + SecondsPerMinute * expires, now, max)], token)
  }

  /** The link the dashboard requests (`expires=60&maxdownloads=5`) lives one hour and allows
      five downloads. */
  lemma ClientLinkParameters(files: seq<FileEntry>, otls: seq<Otl>, id: string, now: int, u1: string, u2: string, u3: string)
    requires IsValidUUID(id) && exists j :: 0 <= j < |files| && files[j].id == id
    ensures var g := GenerateOTL(files, otls, id, "60", "5", now, u1, u2, u3);
      && g.status == Created
      && g.otls[|otls|].expire == now + 3600
      && g.otls[|otls|].maxDownloads == 5
  {
    ParseInt64RoundTrip(60);
    ParseInt64RoundTrip(5);
    assert NatToString(6) == "6" && NatToString(60) == "60" && NatToString(5) == "5";
  }

  /** The index of the first link with the token. */
  function FirstWithToken(otls: seq<Otl>, token: string): (r: Option<nat>)
    ensures r.None? <==> forall j :: 0 <= j < |otls| ==> otls[j].token != token
    ensures r.Some? ==> r.value < |otls| && otls[r.value].token == token
    ensures r.Some? ==> forall j :: 0 <= j < r.value ==> otls[j].token != token
  {
    FindFirst(otls, (o: Otl) => o.token == token)
  }

  datatype Validation = Valid | Expired | Exhausted | UnknownLink

  /** `ValidateOTL` as written: the first link with the token decides; it is expired when `now`
      is strictly after its expiry and exhausted when it allows no more downloads. The decrement
      in the source hits the loop's copy of the link, so the links are returned untouched. */
  function ValidateOTL(otls: seq<Otl>, token: string, now: int): (v: Validation)
    ensures v == UnknownLink <==> forall j :: 0 <= j < |otls| ==> otls[j].token != token
    ensures v != UnknownLink ==>
      && FirstWithToken(otls, token).Some?
      && var o := otls[FirstWithToken(otls, token).value];
      && (v == Expired <==> now > o.expire)
      && (v == Exhausted <==> now <= o.expire && o.maxDownloads <= 0)
  {
    match FirstWithToken(otls, token)
    case None => UnknownLink
    case Some(k) =>
      if now > otls[k].expire then Expired
      else if otls[k].maxDownloads <= 0 then Exhausted
      else Valid
  }

  /** The number of successful validations when the token is presented at each of `times`. */
  function DownloadsAsWritten(otls: seq<Otl>, token: string, times: seq<int>): (n: nat)
    ensures n <= |times|
    decreases |times|
  {
    if |times| == 0 then 0
    else (if ValidateOTL(otls, token, times[0]) == Valid then 1 else 0) + DownloadsAsWritten(otls, token, times[1..])
  }

  /** As written, a live link never runs out: every presentation before expiry succeeds, however
      many downloads it was created with. */
  lemma {:induction false} LinkNeverExhausted(otls: seq<Otl>, token: string, times: seq<int>)
    requires FirstWithToken(otls, token).Some?
    requires var o := otls[FirstWithToken(otls, token).value];
      && o.maxDownloads > 0
      && forall i :: 0 <= i < |times| ==> times[i] <= o.expire
    ensures DownloadsAsWritten(otls, token, times) == |times|
    decreases |times|
  {
    if |times| > 0 {
      LinkNeverExhausted(otls, token, times[1..]);
    }
  }

  /** A link created for five downloads serves six. */
  lemma FiveDownloadLinkServesSix(fileId: string, token: string)
    ensures DownloadsAsWritten([Otl(fileId, token, 100, 0, 5)], token, [0, 0, 0, 0, 0, 0]) == 6
  {
    LinkNeverExhausted([Otl(fileId, token, 100, 0, 5)], token, [0, 0, 0, 0, 0, 0]);
  }

  /** The evidently intended validation: the same verdict, and a successful one consumes a download
      of the first link with the token. */
  function ConsumeOTL(otls: seq<Otl>, token: string, now: int): (r: (Validation, seq<Otl>))
    ensures r.0 == ValidateOTL(otls, token, now)
    ensures |r.1| == |otls|
    ensures r.0 != Valid ==> r.1 == otls
    ensures r.0 == Valid ==>
      && var k := FirstWithToken(otls, token).value;
      && r.1[k] == otls[k].(maxDownloads := otls[k].maxDownloads - 1)
      && forall j :: 0 <= j < |otls| && j != k ==> r.1[j] == otls[j]
  {
    var v := ValidateOTL(otls, token, now);
    if v == Valid then
      var k := FirstWithToken(otls, token).value;
      (v, otls[k := otls[k].(maxDownloads := otls[k].maxDownloads - 1)])
    else (v, otls)
  }

  /** Downloads the first link with the token still allows (0 when it has none left or is
      unknown). */
  function Remaining(otls: seq<Otl>, token: string): nat {
    match FirstWithToken(otls, token)
    case None => 0
    case Some(k) => if otls[k].maxDownloads > 0 then otls[k].maxDownloads else 0
  }

  /** Consuming keeps the deciding link in place and lowers what it allows by one. */
  lemma ConsumeKeepsLink(otls: seq<Otl>, token: string, now: int)
    requires ConsumeOTL(otls, token, now).0 == Valid
    ensures var after := ConsumeOTL(otls, token, now).1;
      && FirstWithToken(after, token) == FirstWithToken(otls, token)
      && after[FirstWithToken(otls, token).value].expire == otls[FirstWithToken(otls, token).value].expire
      && Remaining(after, token) == Remaining(otls, token) - 1
  {
    var after := ConsumeOTL(otls, token, now).1;
    var k := FirstWithToken(otls, token).value;
    assert forall j :: 0 <= j < |otls| ==> after[j].token == otls[j].token;
    assert after[k].token == token;
  }

  /** The number of successful validations when each success consumes a download. */
  function DownloadsConsuming(otls: seq<Otl>, token: string, times: seq<int>): (n: nat)
    ensures n <= |times|
    decreases |times|
  {
    if |times| == 0 then 0
    else
      var (v, after) := ConsumeOTL(otls, token, times[0]);
      (if v == Valid then 1 else 0) + DownloadsConsuming(after, token, times[1..])
  }

  /** With consumption, a link serves at most the downloads it allows. */
  lemma {:induction false} ConsumingRespectsLimit(otls: seq<Otl>, token: string, times: seq<int>)
    ensures DownloadsConsuming(otls, token, times) <= Remaining(otls, token)
    decreases |times|
  {
    if |times| > 0 {
      var (v, after) := ConsumeOTL(otls, token, times[0]);
      ConsumingRespectsLimit(after, token, times[1..]);
      if v == Valid {
        ConsumeKeepsLink(otls, token, times[0]);
      }
    }
  }

  /** ... and before expiry it serves exactly that many (or as many as are asked for). */
  lemma {:induction false} ConsumingServesUntilExhausted(otls: seq<Otl>, token: string, times: seq<int>)
    requires FirstWithToken(otls, token).Some?
    requires forall i :: 0 <= i < |times| ==> times[i] <= otls[FirstWithToken(otls, token).value].expire
    ensures DownloadsConsuming(otls, token, times) ==
      if |times| <= Remaining(otls, token) then |times| else Remaining(otls, token)
    decreases |times|
  {
    if |times| > 0 {
      var (v, after) := ConsumeOTL(otls, token, times[0]);
      if v == Valid {
        ConsumeKeepsLink(otls, token, times[0]);
      }
      ConsumingServesUntilExhausted(after, token, times[1..]);
    }
  }

  // ---------------------------------------------------------------- upload naming

  /** The name tried on the k-th retry: `%s(%d)%s` of base name, counter and extension. */
  function UploadCandidate(base: string, ext: string, k: nat): (c: string)
    ensures |c| == |base| + |NatToString(k)| + 2 + |ext|
  {
    base + "(" + NatToString(k) + ")" + ext
  }

  /** The file name without its extension. */
  function Stem(filename: string): (b: string)
    ensures b + GoExt(filename) == filename
  {
    filename[..|filename| - |GoExt(filename)|]
  }

  /** The name tried on the k-th retry for an upload called `filename`. */
  function Retry(filename: string, k: nat): string {
    UploadCandidate(Stem(filename), GoExt(filename), k)
  }

  /** Retries past 10^L produce names longer than L. */
  lemma CandidateBound(base: string, ext: string, k: nat, L: nat)
    ensures |UploadCandidate(base, ext, k)| <= L ==> k < Pow10(L)
  {
    if k >= Pow10(L) {
      NatToStringLength(k, L);
    }
  }

  /** A bound on the length of the names in a finite set. */
  ghost function MaxLength(names: set<string>): (m: nat)
    ensures forall x :: x in names ==> |x| <= m
    decreases names
  {
    if names == {} then 0
    else
      var x :| x in names;
      var rest := MaxLength(names - {x});
      if |x| > rest then |x| else rest
  }

  /** The upload handler's unique-name loop over the names already present in the target
      directory: keep the name if it is free, else try base(1)ext, base(2)ext, ... */
  method UniqueUploadName(filename: string, taken: set<string>) returns (chosen: string)
    ensures chosen !in taken
    ensures filename !in taken ==> chosen == filename
    ensures filename in taken ==> exists k: nat ::
      && k >= 1
      && chosen == Retry(filename, k)
      && forall j: nat :: 1 <= j < k ==> Retry(filename, j) in taken
  {
    var ext := GoExt(filename);
    var base := Stem(filename);
    chosen := filename;
    var counter: nat := 1;
    ghost var bound := MaxLength(taken);
    while chosen in taken
      invariant counter >= 1
      invariant counter == 1 ==> chosen == filename
      invariant counter > 1 ==> filename in taken && chosen == Retry(filename, counter - 1)
      invariant forall j: nat :: 1 <= j < counter - 1 ==> Retry(filename, j) in taken
      decreases Pow10(bound) + 1 - counter
    {
      if counter > 1 {
        CandidateBound(base, ext, counter - 1, bound);
      }
      chosen := Retry(filename, counter);
      counter := counter + 1;
    }
    if counter > 1 {
      assert chosen == Retry(filename, counter - 1);
    }
  }

  // ---------------------------------------------------------------- login

  /** The decoded login body; a body that does not bind is `None`. */
  datatype AuthRequest = AuthRequest(username: string, password: string)

  datatype Login = Login(status: int, tokens: seq<string>, token: Option<string>)

  const AdminUsername := "admin"
  const AdminPassword := "123456"
  const Salt := "salt"

  /** `HandleAuth` with fresh UUIDs `u1`, `u2` for the session token. */
  function HandleAuth(body: Option<AuthRequest>, tokens: seq<string>, u1: string, u2: string): (r: Login)
    ensures r.status == 200 || r.status == 400 || r.status == 401
    ensures r.status == 400 <==> body.None?
    ensures r.status == 200 <==> body.Some? && body.value.username + body.value.password == "admin123456"
    ensures r.status == 200 ==> r.token == Some(u1 + u2) && r.tokens == tokens + [u1 + u2]
    ensures r.status != 200 ==> r.token == None && r.tokens == tokens
  {
    match body
    case None => Login(400, tokens, None)
    case Some(req) =>
      var given := req.username + req.password;
      assert given + Salt == AdminUsername + AdminPassword + Salt <==> given == "admin123456" by {
        if given + Salt == AdminUsername + AdminPassword + Salt {
          assert given == (given + Salt)[..|given|];
        }
      }
      if given + Salt != AdminUsername + AdminPassword + Salt then Login(401, tokens, None)
      else
        var token := u1 + u2;
        Login(200, tokens + [token], Some(token))
  }

  /** Only the concatenation is compared: the split "admin1" / "23456" logs in as well. */
  lemma SplitCredentialsAccepted(tokens: seq<string>, u1: string, u2: string)
    ensures HandleAuth(Some(AuthRequest("admin1", "23456")), tokens, u1, u2).status == 200
  {
    assert "admin1" + "23456" == "admin123456";
  }
}
