/** Types shared by the client and the server: the file entry exchanged as JSON, the requests the
    client issues, and the outcome of awaiting one. */
module Drive {
  import opened Wrappers

  /** One entry of the drive index (server `File`, client `File` interface). `ext` is the
      extension including its dot, or "" for directories and extension-less files. */
  datatype FileEntry = FileEntry(
    id: string,
    name: string,
    ext: string,
    isDir: bool,
    path: string,
    lastMod: int,
    parent: string)

  datatype Method = Get | Delete

  /** An outbound HTTP request: method, absolute or relative URL and `Authorization` header. */
  datatype Request = Request(verb: Method, url: string, authorization: string)

  /** The outcome of awaiting `fetch` and decoding its body: a status with the decoded body, or a
      thrown error (transport failure, undecodable JSON). */
  datatype Response<T> = Answered(status: int, body: T) | Thrown

  const Unauthorized: int := 401

  /** `response.ok`: a 2xx status. */
  predicate IsOk(status: int) {
    200 <= status <= 299
  }

  /** The response was answered with a 2xx status. */
  predicate Succeeded<T>(r: Response<T>) {
    r.Answered? && IsOk(r.status)
  }

  /** The response was answered with 401. */
  predicate IsUnauthorized<T>(r: Response<T>) {
    r.Answered? && r.status == Unauthorized
  }

  /** JavaScript truthiness of a possibly missing string: present and non-empty. */
  predicate Truthy(v: Option<string>) {
    v.Some? && v.value != ""
  }

  /** The header value `Bearer ${token}`; a missing cookie renders as "undefined". */
  function BearerHeader(token: Option<string>): string {
    "Bearer " + token.GetOr("undefined")
  }

  const LoginRoute := "/login"
}
