/** The remote file server (remote-server-2/file_server.py): `GET /file/<name>`
    answers with the content of a file of one directory, `GET /health` with a
    liveness record, and the response is formatted after one of two server
    styles.

    A response is returned as a record instead of being written to a socket.
    The directory is a map from path to file; `json.dumps` in its two
    configurations, `unquote` and the clock are parameters. */
module FileServer {
  import opened Strings
  import opened Decimal
  import opened Utf8
  import opened JsonValues
  import opened Envelopes
  import opened PosixPath

  /** The two settings a handler takes from the environment when it is
      created, and never changes. */
  datatype Handler = Handler(filesDir: string, windowsMode: bool)

  /** A regular file: the text `open(..., errors='replace').read()` returns,
      or Unreadable when opening or reading it raises. */
  datatype FileEntry = Readable(content: string) | Unreadable

  /** The regular files the server can see, keyed by the exact path string
      that is looked up (no normalisation of `.` or repeated `/`). */
  type FileSystem = map<string, FileEntry>

  /** `os.path.isfile(path)`: a path whose last component is empty, "." or
      ".." names a directory, never a regular file. */
  predicate IsFile(fs: FileSystem, path: string)
    ensures IsFile(fs, path) ==> path in fs && |path| > 0 && path[|path| - 1] != '/'
  {
    var name := Basename(path);
    name != "" && name != "." && name != ".." && path in fs
  }

  /** `json.dumps` with compact separators, and with `indent=2`. */
  datatype Serializer = Serializer(compact: Json -> string, indented: Json -> string)

  /** What the handler sends: status code, headers in order, body bytes. */
  datatype Response = Response(status: int, headers: seq<(string, string)>, body: seq<byte>)

  /** Python's `s.replace('\n', '\r\n')`. */
  function LfToCrLf(s: string): (r: string)
    ensures forall i :: 0 <= i < |r| && r[i] == '\n' ==> 0 < i && r[i - 1] == '\r'
    ensures (forall i :: 0 <= i < |s| ==> s[i] != '\n') ==> r == s
  {
    if s == [] then []
    else
      var piece := if s[0] == '\n' then "\r\n" else [s[0]];
      var rest := LfToCrLf(s[1..]);
      assert forall i :: |piece| <= i < |piece + rest| ==> (piece + rest)[i] == rest[i - |piece|];
      piece + rest
  }

  /** The reverse rewrite, as a reader of Windows-style text would apply it. */
  function CrLfToLf(s: string): string {
    if |s| >= 2 && s[0] == '\r' && s[1] == '\n' then "\n" + CrLfToLf(s[2..])
    else if s == [] then []
    else [s[0]] + CrLfToLf(s[1..])
  }

  /** The Windows-mode rewrite loses nothing: undoing it gives back the
      text that was serialised. */
  lemma {:induction false} LfToCrLfRoundTrip(s: string)
    ensures CrLfToLf(LfToCrLf(s)) == s
  {
    if s != [] {
      var rest := LfToCrLf(s[1..]);
      LfToCrLfRoundTrip(s[1..]);
      if s[0] == '\n' {
        assert LfToCrLf(s) == "\r\n" + rest;
        assert ("\r\n" + rest)[2..] == rest;
      } else {
        assert LfToCrLf(s) == [s[0]] + rest;
        assert rest != [] ==> rest[0] != '\n';
        assert ([s[0]] + rest)[1..] == rest;
      }
    }
  }

  function ServerHeader(h: Handler): string {
    if h.windowsMode then "Microsoft-IIS/10.0" else "Python/HTTP-Server"
  }

  /** The body text for `data` in the handler's mode. */
  function RenderBody(h: Handler, data: Json, ser: Serializer): string {
    if h.windowsMode then LfToCrLf(ser.compact(data)) else ser.indented(data)
  }

  /** `r` is a response whose body is `data` rendered in the handler's mode. */
  predicate Carries(h: Handler, ser: Serializer, r: Response, data: Json) {
    r.body == Encode(RenderBody(h, data, ser))
  }

  /** `json_response`: the body is the encoded rendering of `data`, the
      Server header follows the mode, and Content-Length reads back as the
      number of body bytes. */
  function JsonResponse(h: Handler, data: Json, status: int, ser: Serializer): (r: Response)
    ensures r.status == status
    ensures Carries(h, ser, r, data)
    ensures Lookup(r.headers, "Content-Type") == Some("application/json")
    ensures Lookup(r.headers, "Server")
         == Some(if h.windowsMode then "Microsoft-IIS/10.0" else "Python/HTTP-Server")
    ensures var length := Lookup(r.headers, "Content-Length");
      length.Some? && ParseInt(length.value) == Some(|r.body|)
  {
    var bytes := Encode(RenderBody(h, data, ser));
    IntToStringRoundTrip(|bytes|);
    var headers := [
      ("Content-Type", "application/json"),
      ("Server", ServerHeader(h)),
      ("Content-Length", IntToString(|bytes|))
    ];
    assert Lookup(headers[1..], "Server") == Some(ServerHeader(h));
    assert Lookup(headers[1..][1..], "Content-Length") == Some(IntToString(|bytes|));
    Response(status, headers, bytes)
  }

  /** `error_response`: an envelope with status "error", no data and the
      given message, sent with the given status code. */
  function ErrorResponse(h: Handler, message: string, status: int, ser: Serializer): (r: Response)
    ensures r.status == status
    ensures Carries(h, ser, r, Envelope("error", "", message).ToJson())
  {
    JsonResponse(h, Envelope("error", "", message).ToJson(), status, ser)
  }

  /** The path `serve_file` looks up for a requested name. */
  function LookupPath(h: Handler, filename: string): (path: string)
    ensures path == DirPrefix(h.filesDir) + Basename(filename)
    ensures Basename(path) == Basename(filename)
  {
    JoinBasenameStaysInDirectory(h.filesDir, filename);
    JoinKeepsBasename(h.filesDir, Basename(filename));
    Join(h.filesDir, Basename(filename))
  }

  /** The envelope `serve_file` answers with: the content of the file the
      basename names, or the error naming the request as it was received. */
  function FileEnvelope(h: Handler, fs: FileSystem, filename: string): (env: Envelope)
    ensures var path := LookupPath(h, filename);
      env.status == "success" <==> IsFile(fs, path) && fs[path].Readable?
    ensures var path := LookupPath(h, filename);
      env.status == "success" ==> env.data == fs[path].content && env.msg == "data returned"
    ensures env.status != "success" ==>
      ReportsFailureOf(env, filename) && env.msg == ErrorPrefix + filename
  {
    var path := LookupPath(h, filename);
    if IsFile(fs, path) && fs[path].Readable? then Envelope("success", fs[path].content, "data returned")
    else Envelope("error", "", ErrorPrefix + filename)
  }

  /** Only a file directly inside the configured directory can be served:
      the served content is that of the directory joined with one path
      component, which has no '/' and is neither "." nor "..". */
  lemma ServedFileIsInDirectory(h: Handler, fs: FileSystem, filename: string)
    requires FileEnvelope(h, fs, filename).status == "success"
    ensures var name := Basename(filename);
      && IsComponent(name) && name != "" && name != "." && name != ".."
      && DirPrefix(h.filesDir) + name in fs
      && fs[DirPrefix(h.filesDir) + name] == Readable(FileEnvelope(h, fs, filename).data)
  {
    var name := Basename(filename);
    JoinBasenameStaysInDirectory(h.filesDir, filename);
    JoinKeepsBasename(h.filesDir, name);
  }

  /** Directory components in a request do not change what is served: only
      the error message, which repeats the request, can differ. */
  lemma DirectoryComponentsIgnored(h: Handler, fs: FileSystem, dir: string, name: string)
    ensures var e1 := FileEnvelope(h, fs, dir + "/" + name);
      var e2 := FileEnvelope(h, fs, name);
      e1.status == e2.status && e1.data == e2.data
  {
    BasenameIgnoresDirectories(dir, name);
  }

  /** `serve_file`: HTTP 200 whether or not the file could be read. */
  function ServeFile(h: Handler, fs: FileSystem, filename: string, ser: Serializer): (r: Response)
    ensures r.status == 200
    ensures Carries(h, ser, r, FileEnvelope(h, fs, filename).ToJson())
  {
    JsonResponse(h, FileEnvelope(h, fs, filename).ToJson(), 200, ser)
  }

  /** The liveness record, naming the mode the handler formats for. */
  function HealthRecord(h: Handler, timestamp: string): (j: Json)
    ensures Get(j, "status") == Some(JString("healthy"))
    ensures Get(j, "service") == Some(JString("remote-server-2"))
    ensures Get(j, "mode") == Some(JString(if h.windowsMode then "Windows" else "Unix"))
  {
    var members := [
      ("status", JString("healthy")),
      ("service", JString("remote-server-2")),
      ("timestamp", JString(timestamp)),
      ("mode", JString(if h.windowsMode then "Windows" else "Unix"))
    ];
    assert Lookup(members[1..], "service") == Some(JString("remote-server-2"));
    assert Lookup(members[1..][1..][1..], "mode") == Some(members[3].1);
    assert Lookup(members[1..][1..], "mode") == Some(members[3].1);
    assert Lookup(members[1..], "mode") == Some(members[3].1);
    JObject(members)
  }

  /** `health_check`: the liveness record with HTTP 200. */
  function HealthCheck(h: Handler, timestamp: string, ser: Serializer): (r: Response)
    ensures r.status == 200
    ensures Carries(h, ser, r, HealthRecord(h, timestamp))
  {
    JsonResponse(h, HealthRecord(h, timestamp), 200, ser)
  }

  /** `do_GET` on the path of the request URL: "/file/" prefixed paths are
      file requests for the unquoted remainder, "/health" is the liveness
      probe, and anything else is answered 404 with "Invalid endpoint". */
  function DoGet(h: Handler, fs: FileSystem, path: string, unquote: string -> string,
                 timestamp: string, ser: Serializer): (r: Response)
    ensures r.status == 404 <==> !("/file/" <= path) && path != "/health"
    ensures "/file/" <= path ==> r == ServeFile(h, fs, unquote(path[6..]), ser)
    ensures path == "/health" ==> r == HealthCheck(h, timestamp, ser)
    ensures !("/file/" <= path) && path != "/health" ==>
      r == ErrorResponse(h, "Invalid endpoint", 404, ser)
  {
    assert !("/file/" <= "/health") by {
      assert "/file/"[1] != "/health"[1];
    }
    if "/file/" <= path then ServeFile(h, fs, unquote(path[6..]), ser)
    else if path == "/health" then HealthCheck(h, timestamp, ser)
    else ErrorResponse(h, "Invalid endpoint", 404, ser)
  }
}
