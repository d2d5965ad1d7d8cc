/** The file tile's actions (`DashboardItem`): one-time-link generation and copying, deletion,
    authenticated download with file-name resolution, and the tile's display label. */
module DashboardItem {
  import opened Wrappers
  import opened Strings
  import opened Drive
  import AuthMiddleware

  const OtlEndpoint := "/api/v1/files/otl?id="
  const OtlParameters := "&expires=60&maxdownloads=5"
  const OneTimeLinkRoute := "/onetimelink/"
  const DeleteEndpoint := "/api/v1/files?id="
  const DownloadEndpoint := "/api/v1/download?id="
  const FilenameMarker := "filename="
  const DefaultNamePrefix := "downloaded-file-"

  /** `generateOTL(id)` before its `await`: no request for an empty id or a missing token cookie;
      otherwise a GET to the generation endpoint with fixed parameters. */
  function GenerateOtl(id: string, token: Option<string>, server: string): (r: Option<Request>)
    ensures r.None? <==> id == "" || !Truthy(token)
    ensures r.Some? ==> r.value.verb == Get && r.value.authorization == "Bearer " + token.value
    ensures r.Some? ==> r.value.url == server + OtlEndpoint + id + OtlParameters
  {
    if id == "" || !Truthy(token) then None
    else Some(Request(Get, server + OtlEndpoint + id + OtlParameters, BearerHeader(token)))
  }

  /** The decoded generation response: its `Token` and `token` fields, each possibly absent. */
  datatype OtlBody = OtlBody(upper: Option<string>, lower: Option<string>)

  /** `data.Token || data.token` as it ends up in a template string: `Token` when non-empty,
      otherwise `token`, and "undefined" when that is absent too. */
  function LinkToken(body: OtlBody): (t: string)
    ensures Truthy(body.upper) ==> t == body.upper.value
    ensures !Truthy(body.upper) ==> t == body.lower.GetOr("undefined")
  {
    if Truthy(body.upper) then body.upper.value else body.lower.GetOr("undefined")
  }

  /** The rest of `generateOTL`: on a 2xx outcome `otl` becomes the shareable link; a non-2xx
      status is thrown and caught, and so is any other error, leaving `otl` as it was. */
  function ApplyOtl(otl: string, server: string, outcome: Response<OtlBody>): (r: string)
    ensures Succeeded(outcome) ==>
      && StartsWith(r, server + OneTimeLinkRoute)
      && r[|server + OneTimeLinkRoute|..] == LinkToken(outcome.body)
    ensures !Succeeded(outcome) ==> r == otl
  {
    if Succeeded(outcome) then
      var r := server + OneTimeLinkRoute + LinkToken(outcome.body);
      assert r[..|server + OneTimeLinkRoute|] == server + OneTimeLinkRoute;
      r
    else otl
  }

  /** The server answers with a lower-case `token` field only, so the link carries that token. */
  lemma ServerShapedBodyGivesToken(otl: string, server: string, status: int, token: string)
    requires IsOk(status)
    ensures ApplyOtl(otl, server, Answered(status, OtlBody(None, Some(token)))) == server + OneTimeLinkRoute + token
  {
  }

  /** What `copyOTL` produces: the text written to the clipboard (if the write succeeded) and the
      new `otl`. */
  datatype Copied = Copied(clipboard: Option<string>, otl: string)

  /** `copyOTL`: writes the current `otl` to the clipboard, even the empty string, then resets it
      to ""; if the clipboard write rejects, nothing after it runs. */
  function CopyOtl(otl: string, clipboardAccepts: bool): (c: Copied)
    ensures clipboardAccepts ==> c.clipboard == Some(otl) && c.otl == ""
    ensures !clipboardAccepts ==> c.clipboard == None && c.otl == otl
  {
    if clipboardAccepts then Copied(Some(otl), "") else Copied(None, otl)
  }

  /** Copying is not gated on a generated link: before any generation the clipboard receives "". */
  lemma CopyBeforeGenerationWritesEmpty()
    ensures CopyOtl("", true).clipboard == Some("")
  {
  }

  /** Generating and then copying puts the link on the clipboard and leaves `otl` empty again. */
  lemma GenerateThenCopy(server: string, status: int, body: OtlBody)
    requires IsOk(status)
    ensures var link := ApplyOtl("", server, Answered(status, body));
      CopyOtl(link, true) == Copied(Some(server + OneTimeLinkRoute + LinkToken(body)), "")
  {
  }

  /** `deleteFile(id)`: always issues the DELETE, with no guard on the token or the server URL;
      a missing token cookie is sent as "Bearer undefined". */
  function DeleteRequest(id: string, token: Option<string>, server: string): (r: Request)
    ensures r.verb == Delete && StartsWith(r.url, server + DeleteEndpoint)
    ensures r.url[|server + DeleteEndpoint|..] == id
    ensures r.authorization == BearerHeader(token)
  {
    var url := server + DeleteEndpoint + id;
    assert url[..|server + DeleteEndpoint|] == server + DeleteEndpoint;
    Request(Delete, url, BearerHeader(token))
  }

  /** The server's bearer middleware lets the DELETE through exactly when the cookie's token is a
      session token. Without a cookie the request carries "undefined", which is refused unless some
      session token is literally "undefined": the missing client-side guard only costs a 401. */
  lemma DeleteAuthorizedBySession(id: string, token: Option<string>, server: string, sessionTokens: seq<string>)
    ensures var v := AuthMiddleware.Authorize(DeleteRequest(id, token, server).authorization, sessionTokens);
      && (v.Proceed? <==> token.GetOr("undefined") in sessionTokens)
      && (v.Proceed? ==> v.token == token.GetOr("undefined"))
      && (token.None? && "undefined" !in sessionTokens ==> v == AuthMiddleware.InvalidToken)
  {
    var h := DeleteRequest(id, token, server).authorization;
    assert h[..|AuthMiddleware.BearerPrefix|] == AuthMiddleware.BearerPrefix;
    assert h[|AuthMiddleware.BearerPrefix|..] == token.GetOr("undefined");
  }

  /** The observable effects of one `downloadFile(id)`. `created` and `revoked` count object
      URLs; `saved` is the name the download link was clicked with. */
  datatype Download = Download(
    redirectToLogin: bool,
    request: Option<Request>,
    created: nat,
    revoked: nat,
    saved: Option<string>)

  /** The download name: with an absent or empty `Content-Disposition` header,
      "downloaded-file-" + id; otherwise element 1 of `header.split("filename=")`, which is
      `undefined` (`None`, a thrown TypeError) when the header lacks "filename="; in both cases
      every '"' is then removed. */
  function ResolveFilename(id: string, header: Option<string>): (r: Option<string>)
    ensures !Truthy(header) ==> r == Some(RemoveChar(DefaultNamePrefix + id, '"'))
    ensures Truthy(header) ==> (r.None? <==> forall j :: !OccursAt(header.value, FilenameMarker, j))
    ensures r.Some? ==> '"' !in r.value
  {
    if !Truthy(header) then Some(RemoveChar(DefaultNamePrefix + id, '"'))
    else
      match SplitSecond(header.value, FilenameMarker)
      case None => None
      case Some(piece) => Some(RemoveChar(piece, '"'))
  }

  /** A header holding the marker once yields the text after it, with its quotes removed. */
  lemma MarkerThenText(id: string, prefix: string, rest: string)
    requires forall j :: !OccursAt(prefix, FilenameMarker, j)
    requires forall j :: !OccursAt(rest, FilenameMarker, j)
    ensures ResolveFilename(id, Some(prefix + FilenameMarker + rest)) == Some(RemoveChar(rest, '"'))
  {
    var header := prefix + FilenameMarker + rest;
    var m := |FilenameMarker|;
    FirstMarkerAfter(prefix, rest);
    var start := |prefix| + m;
    assert header[start..|header|] == rest;
    forall j | start <= j < |header|
      ensures !OccursAt(header, FilenameMarker, j)
    {
      if j + m <= |header| {
        var a, b := header[j..j + m], rest[j - start..j - start + m];
        assert forall k :: 0 <= k < m ==> a[k] == b[k];
        assert !OccursAt(rest, FilenameMarker, j - start);
      }
    }
    PieceUpTo(header, FilenameMarker, start, |header|);
    SplitSecondIs(header, FilenameMarker, |prefix|, rest);
  }

  /** The usual `attachment; filename="name"` shape gives back the bare name. */
  lemma QuotedFilenameRecovered(id: string, name: string)
    requires '"' !in name
    requires forall j :: !OccursAt(Quoted(name), FilenameMarker, j)
    ensures ResolveFilename(id, Some(AttachmentPrefix + FilenameMarker + Quoted(name))) == Some(name)
  {
    AttachmentPrefixHasNoMarker();
    MarkerThenText(id, AttachmentPrefix, Quoted(name));
    UnquoteQuoted(name);
  }

  const AttachmentPrefix := "attachment; "

  function Quoted(name: string): string {
    "\"" + name + "\""
  }

  lemma AttachmentPrefixHasNoMarker()
    ensures forall j :: !OccursAt(AttachmentPrefix, FilenameMarker, j)
  {
    forall j ensures !OccursAt(AttachmentPrefix, FilenameMarker, j) {
      if 0 <= j && j + |FilenameMarker| <= |AttachmentPrefix| {
        assert AttachmentPrefix[j..j + |FilenameMarker|][0] == AttachmentPrefix[j] != 'f';
      }
    }
  }

  lemma UnquoteQuoted(name: string)
    requires '"' !in name
    ensures RemoveChar(Quoted(name), '"') == name
  {
    RemoveCharAppend("\"" + name, "\"", '"');
    RemoveCharAppend("\"", name, '"');
  }

  /** The first occurrence of the marker in `prefix + marker + rest` is right after `prefix`
      when `prefix` itself does not contain it. */
  lemma FirstMarkerAfter(prefix: string, rest: string)
    requires forall j :: !OccursAt(prefix, FilenameMarker, j)
    ensures FindFrom(prefix + FilenameMarker + rest, FilenameMarker, 0) == Some(|prefix|)
  {
    var s := prefix + FilenameMarker + rest;
    assert OccursAt(s, FilenameMarker, |prefix|) by {
      assert s[|prefix|..|prefix| + |FilenameMarker|] == FilenameMarker;
    }
    forall j | 0 <= j < |prefix|
      ensures !OccursAt(s, FilenameMarker, j)
    {
      if OccursAt(s, FilenameMarker, j) {
        MarkerStraddles(prefix, rest, j);
      }
    }
  }

  /** An occurrence starting inside `prefix` lies within `prefix`: it cannot run into the marker
      that follows, because no position after 0 of "filename=" holds its first character 'f'. */
  lemma MarkerStraddles(prefix: string, rest: string, j: nat)
    requires j < |prefix|
    requires OccursAt(prefix + FilenameMarker + rest, FilenameMarker, j)
    ensures OccursAt(prefix, FilenameMarker, j)
  {
    var s := prefix + FilenameMarker + rest;
    var m := FilenameMarker;
    assert forall d :: 0 < d < |m| ==> m[d] != 'f';
    assert forall k :: 0 <= k < |m| ==> s[j + k] == s[j..j + |m|][k] == m[k];
    assert s[|prefix|] == 'f';
    assert j + |m| <= |prefix|;
    assert prefix[j..j + |m|] == s[j..j + |m|];
  }

  /** `downloadFile(id)` with the outcome of its one request. A missing server URL redirects with
      no request. A non-2xx outcome returns before any object URL exists. Otherwise one object URL
      is created; if the name resolves the link is clicked and the URL revoked, and if the header
      lacks "filename=" the resolution throws and the URL is never revoked. */
  function DownloadFile(id: string, token: Option<string>, storedServer: Option<string>,
                        outcome: Response<Option<string>>): (d: Download)
    ensures d.redirectToLogin <==> !Truthy(storedServer)
    ensures d.redirectToLogin ==> d.request.None? && d.created == 0
    ensures !d.redirectToLogin ==> d.request == Some(Request(Get, storedServer.value + DownloadEndpoint + id, BearerHeader(token)))
    ensures !Succeeded(outcome) ==> d.created == 0 && d.saved.None?
    ensures d.saved.Some? ==> d.created == 1 && d.revoked == 1 && '"' !in d.saved.value
    ensures d.revoked <= d.created <= 1
  {
    if !Truthy(storedServer) then Download(true, None, 0, 0, None)
    else
      var request := Some(Request(Get, storedServer.value + DownloadEndpoint + id, BearerHeader(token)));
      if !Succeeded(outcome) then Download(false, request, 0, 0, None)
      else
        match ResolveFilename(id, outcome.body)
        case Some(name) => Download(false, request, 1, 1, Some(name))
        case None => Download(false, request, 1, 0, None)
  }

  /** A successful download whose header names no file leaks its object URL. */
  lemma DownloadLeaksWithoutFilename(id: string, token: Option<string>, server: string, status: int)
    requires server != "" && IsOk(status)
    ensures var d := DownloadFile(id, token, Some(server), Answered(status, Some("attachment")));
      d.created == 1 && d.revoked == 0
  {
    var header := "attachment";
    forall j ensures !OccursAt(header, FilenameMarker, j) {
      if 0 <= j && j + |FilenameMarker| <= |header| {
        assert header[j..j + |FilenameMarker|][0] == header[j] != 'f';
      }
    }
  }

  /** Corrected download: name resolution and the click sit in a `try` block whose `finally` part
      revokes the object URL. The guards and the request are as in `DownloadFile`. */
  function DownloadFileReleasing(id: string, token: Option<string>, storedServer: Option<string>,
                                 outcome: Response<Option<string>>): (d: Download)
    ensures d.created == d.revoked
    ensures d.redirectToLogin <==> !Truthy(storedServer)
    ensures d.saved.Some? ==> d.created == 1 && '"' !in d.saved.value
  {
    if !Truthy(storedServer) then Download(true, None, 0, 0, None)
    else
      var request := Some(Request(Get, storedServer.value + DownloadEndpoint + id, BearerHeader(token)));
      if !Succeeded(outcome) then Download(false, request, 0, 0, None)
      else
        // One object URL is created. The `try` block resolves the name and clicks the link; the
        // resolution throws (`None`) when the header lacks "filename=". The `finally` block
        // revokes the URL whether or not the `try` block threw.
        var saved := ResolveFilename(id, outcome.body);
        Download(false, request, 1, 1, saved)
  }

  /** The correction changes nothing where the original does not leak: whenever the original
      releases what it creates, both agree on every effect. Where it leaks, the corrected download
      differs only in revoking the object URL. */
  lemma ReleasingAgreesUnlessLeak(id: string, token: Option<string>, storedServer: Option<string>,
                                  outcome: Response<Option<string>>)
    ensures var d, c := DownloadFile(id, token, storedServer, outcome), DownloadFileReleasing(id, token, storedServer, outcome);
      && (d.created == d.revoked ==> c == d)
      && (d.created != d.revoked ==> c == d.(revoked := d.created))
  {
  }

  /** The tile's label: the name up to its last '.', or the whole name when it has none. */
  function DisplayLabel(name: string): (r: string)
    ensures StartsWith(name, r)
    ensures '.' !in name ==> r == name
    ensures '.' in name ==> |r| < |name| && name[|r|] == '.' && '.' !in name[|r| + 1..]
  {
    if '.' in name then name[..LastIndexOf(name, '.')] else name
  }
}
