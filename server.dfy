/**
 * The request-handling decisions of the gateway's web server: the POST
 * validators, the body check that guards them, the file-upload state
 * machine with its persistent file name, the reply chosen after each upload
 * step, and the fallback order of the not-found handler.
 *
 * The web server, the WiFi manager, the clock and the file system are not
 * modelled; what a handler asks of them is recorded as a sequence of
 * `Action`s next to the `Response` it sends.
 */
module Server {
  import opened Wrappers
  import opened Bytes

  // ---------------------------------------------------------------------------
  // Responses

  datatype Response = Response(code: int, contentType: string, body: string)

  /** A 400 reply carrying the message as plain text. */
  function RaiseError(message: string): Response
  {
    Response(400, "text/plain", message)
  }

  /** A 200 reply carrying a JSON body. */
  function RaiseSuccess(body: string): Response
  {
    Response(200, "application/json", body)
  }

  const MISSING_CONTENT := "Conteúdo ausente."
  const PARSE_FAILURE := "Falha ao analisar JSON: "
  const INVALID_STATUS := "Status inválido."
  const MISSING_SSID := "SSID ausente."
  const SSID_LENGTH := "SSID deve ter entre 3 e 16 caracteres."
  const PASSWORD_LENGTH := "Senha deve ter entre 8 e 16 caracteres."
  const MISSING_DATE_TIME := "Data ou hora ausente."
  const UPLOAD_FAILED := "Erro ao salvar arquivo."
  const UPLOAD_RECEIVED := "Arquivo recebido: "
  const FILE_NOT_FOUND := "Arquivo não encontrado."

  // ---------------------------------------------------------------------------
  // Lengths as the Arduino String class counts them

  /** Number of bytes of the UTF-8 encoding of c. */
  function Utf8Width(c: char): nat
  {
    if c as int < 0x80 then 1
    else if c as int < 0x800 then 2
    else if c as int < 0x1_0000 then 3
    else 4
  }

  /** `String::length()`: the byte length of the UTF-8 encoding, one to four bytes per character. */
  function Utf8Length(s: string): (n: nat)
    ensures |s| <= n <= 4 * |s|
  {
    if s == [] then 0 else Utf8Length(s[..|s| - 1]) + Utf8Width(s[|s| - 1])
  }

  predicate IsAscii(s: string)
  {
    forall i :: 0 <= i < |s| ==> s[i] as int < 0x80
  }

  /** An ASCII string has one byte per character. */
  lemma {:induction false} AsciiLength(s: string)
    requires IsAscii(s)
    ensures Utf8Length(s) == |s|
  {
    if s != [] {
      var init := s[..|s| - 1];
      assert IsAscii(init) by {
        forall i | 0 <= i < |init| ensures init[i] as int < 0x80 {
          assert init[i] == s[i];
        }
      }
      AsciiLength(init);
      assert s[|s| - 1] as int < 0x80;
    }
  }

  // ---------------------------------------------------------------------------
  // The POST body

  /**
   * The JSON fields the handlers read, after ArduinoJson has converted them
   * (`status` with `as<int>()`, the others with `as<String>()`).
   */
  datatype Doc = Doc(status: int, ssid: string, password: string, pass: string, date: string, time: string)

  /** The "plain" argument of a request: absent, not valid JSON, or parsed. */
  datatype Body = Missing | Malformed(error: string) | Parsed(doc: Doc)

  /** Whether a handler may go on, and the error it sends otherwise. */
  function HandlePostPayload(body: Body): (r: Result<Doc, Response>)
    ensures r.Success? <==> body.Parsed?
    ensures r.Success? ==> r.value == body.doc
    ensures body.Missing? ==> r == Failure(RaiseError(MISSING_CONTENT))
    ensures body.Malformed? ==> r == Failure(RaiseError(PARSE_FAILURE + body.error))
  {
    match body
    case Missing => Failure(RaiseError(MISSING_CONTENT))
    case Malformed(error) => Failure(RaiseError(PARSE_FAILURE + error))
    case Parsed(doc) => Success(doc)
  }

  // ---------------------------------------------------------------------------
  // Handlers

  /** The calls a handler makes into the WiFi manager, the clock and the network store. */
  datatype Action =
    | AutoConnectWiFi
    | DisconnectWiFi
    | StartAccessPoint
    | StopAccessPoint
    | SetAccessPoint(ssid: string, password: string)
    | RestartAccessPoint
    | AddSavedNetwork(ssid: string, password: string)
    | SetClockByString(date: string, time: string)

  datatype Outcome = Outcome(actions: seq<Action>, response: Response)

  /** The JSON echo of an accepted status, 0 or 1. */
  function StatusBody(status: int): string
    requires status == 0 || status == 1
  {
    "{\"status\": " + (if status == 1 then "1" else "0") + "}"
  }

  /** Shared shape of the two toggles: status 1 does `on`, status 0 does `off`. */
  function Toggle(body: Body, on: Action, off: Action): (o: Outcome)
    ensures !body.Parsed? ==> o == Outcome([], HandlePostPayload(body).error)
    ensures body.Parsed? && body.doc.status == 1 ==> o == Outcome([on], RaiseSuccess(StatusBody(1)))
    ensures body.Parsed? && body.doc.status == 0 ==> o == Outcome([off], RaiseSuccess(StatusBody(0)))
    ensures body.Parsed? && body.doc.status != 0 && body.doc.status != 1 ==>
      o == Outcome([], RaiseError(INVALID_STATUS))
  {
    match HandlePostPayload(body)
    case Failure(e) => Outcome([], e)
    case Success(doc) =>
      if doc.status == 1 then Outcome([on], RaiseSuccess(StatusBody(1)))
      else if doc.status == 0 then Outcome([off], RaiseSuccess(StatusBody(0)))
      else Outcome([], RaiseError(INVALID_STATUS))
  }

  /** POST /wifi/toggle. */
  function PostWifiToggle(body: Body): (o: Outcome)
    ensures o.actions == [AutoConnectWiFi] <==> body.Parsed? && body.doc.status == 1
    ensures o.actions == [DisconnectWiFi] <==> body.Parsed? && body.doc.status == 0
    ensures o.actions == [] <==> !body.Parsed? || (body.doc.status != 0 && body.doc.status != 1)
    ensures o.response.code == 200 <==> o.actions != []
  {
    Toggle(body, AutoConnectWiFi, DisconnectWiFi)
  }

  /** POST /webserver/toggle. */
  function PostWebserverToggle(body: Body): (o: Outcome)
    ensures o.actions == [StartAccessPoint] <==> body.Parsed? && body.doc.status == 1
    ensures o.actions == [StopAccessPoint] <==> body.Parsed? && body.doc.status == 0
    ensures o.actions == [] <==> !body.Parsed? || (body.doc.status != 0 && body.doc.status != 1)
    ensures o.response.code == 200 <==> o.actions != []
  {
    Toggle(body, StartAccessPoint, StopAccessPoint)
  }

  /** POST /wifi/add: an empty ssid is refused; the password is not checked. */
  function PostWifiAdd(body: Body): (o: Outcome)
    ensures o.actions != [] <==> body.Parsed? && body.doc.ssid != ""
    ensures o.actions != [] ==>
      o.actions == [AddSavedNetwork(body.doc.ssid, body.doc.password)] &&
      o.response == RaiseSuccess("{\"ssid\": \"" + body.doc.ssid + "\"}")
    ensures body.Parsed? && body.doc.ssid == "" ==> o.response == RaiseError(MISSING_SSID)
    ensures o.response.code == 200 <==> o.actions != []
  {
    match HandlePostPayload(body)
    case Failure(e) => Outcome([], e)
    case Success(doc) =>
      if doc.ssid == "" then Outcome([], RaiseError(MISSING_SSID))
      else Outcome([AddSavedNetwork(doc.ssid, doc.password)], RaiseSuccess("{\"ssid\": \"" + doc.ssid + "\"}"))
  }

  /** POST /config/time: both date and time must be non-empty. */
  function PostConfigTime(body: Body): (o: Outcome)
    ensures o.actions != [] <==> body.Parsed? && body.doc.date != "" && body.doc.time != ""
    ensures o.actions != [] ==>
      o.actions == [SetClockByString(body.doc.date, body.doc.time)] &&
      o.response == RaiseSuccess("{\"date\": \"" + body.doc.date + "\", \"time\": \"" + body.doc.time + "\"}")
    ensures body.Parsed? && (body.doc.date == "" || body.doc.time == "") ==>
      o.response == RaiseError(MISSING_DATE_TIME)
    ensures o.response.code == 200 <==> o.actions != []
  {
    match HandlePostPayload(body)
    case Failure(e) => Outcome([], e)
    case Success(doc) =>
      if doc.date == "" || doc.time == "" then Outcome([], RaiseError(MISSING_DATE_TIME))
      else
        Outcome([SetClockByString(doc.date, doc.time)],
                RaiseSuccess("{\"date\": \"" + doc.date + "\", \"time\": \"" + doc.time + "\"}"))
  }

  /** The access point accepts an ssid of 3 to 16 bytes and a password of 8 to 16 bytes. */
  predicate ValidAccessPoint(ssid: string, pass: string)
  {
    3 <= Utf8Length(ssid) <= 16 && 8 <= Utf8Length(pass) <= 16
  }

  /**
   * For ASCII text the length checks count characters; whatever the text,
   * an ssid or a password of more than 16 characters is refused.
   */
  lemma AccessPointLengths(ssid: string, pass: string)
    ensures IsAscii(ssid) && IsAscii(pass) ==>
      (ValidAccessPoint(ssid, pass) <==> 3 <= |ssid| <= 16 && 8 <= |pass| <= 16)
    ensures |ssid| > 16 || |pass| > 16 ==> !ValidAccessPoint(ssid, pass)
  {
    if IsAscii(ssid) && IsAscii(pass) {
      AsciiLength(ssid);
      AsciiLength(pass);
    }
  }

  /** POST /webserver/config: three checks in order, then configure and restart the access point. */
  function PostWebserverConfig(body: Body): (o: Outcome)
    ensures o.actions != [] <==> body.Parsed? && ValidAccessPoint(body.doc.ssid, body.doc.pass)
    ensures o.actions != [] ==>
      o.actions == [SetAccessPoint(body.doc.ssid, body.doc.pass), RestartAccessPoint] &&
      o.response == RaiseSuccess("{\"ssid\": \"" + body.doc.ssid + "\", \"pass\": \"" + body.doc.pass + "\"}")
    ensures o.response.code == 200 <==> o.actions != []
  {
    match HandlePostPayload(body)
    case Failure(e) => Outcome([], e)
    case Success(doc) =>
      if doc.ssid == "" then Outcome([], RaiseError(MISSING_SSID))
      else if Utf8Length(doc.ssid) < 3 || Utf8Length(doc.ssid) > 16 then Outcome([], RaiseError(SSID_LENGTH))
      else if Utf8Length(doc.pass) < 8 || Utf8Length(doc.pass) > 16 then Outcome([], RaiseError(PASSWORD_LENGTH))
      else
        Outcome([SetAccessPoint(doc.ssid, doc.pass), RestartAccessPoint],
                RaiseSuccess("{\"ssid\": \"" + doc.ssid + "\", \"pass\": \"" + doc.pass + "\"}"))
  }

  /** The checks of the access-point configuration, in the order they are made. */
  function AccessPointChecks(doc: Doc): seq<(bool, string)>
  {
    [ (doc.ssid != "", MISSING_SSID),
      (3 <= Utf8Length(doc.ssid) <= 16, SSID_LENGTH),
      (8 <= Utf8Length(doc.pass) <= 16, PASSWORD_LENGTH) ]
  }

  /** The message of the first check that fails, if any. */
  function FirstFailure(checks: seq<(bool, string)>): (r: Option<string>)
    ensures r.None? <==> forall i :: 0 <= i < |checks| ==> checks[i].0
  {
    if checks == [] then None
    else if !checks[0].0 then Some(checks[0].1)
    else FirstFailure(checks[1..])
  }

  /** The configuration handler reports exactly the first failing check, and acts only when none fails. */
  lemma WebserverConfigFirstFailure(doc: Doc)
    ensures FirstFailure(AccessPointChecks(doc)).Some? ==>
      PostWebserverConfig(Parsed(doc)) == Outcome([], RaiseError(FirstFailure(AccessPointChecks(doc)).value))
    ensures FirstFailure(AccessPointChecks(doc)).None? ==> PostWebserverConfig(Parsed(doc)).actions != []
  {
    var c := AccessPointChecks(doc);
    if doc.ssid == "" {
      assert FirstFailure(c) == Some(MISSING_SSID);
    } else if !(3 <= Utf8Length(doc.ssid) <= 16) {
      assert FirstFailure(c) == FirstFailure(c[1..]);
      assert FirstFailure(c) == Some(SSID_LENGTH);
    } else {
      assert FirstFailure(c) == FirstFailure(c[1..]) == FirstFailure(c[2..]);
    }
  }

  /** A non-empty ssid shorter than 3 bytes is refused for its length, whatever the password. */
  lemma ShortSsidReportedBeforePassword(doc: Doc)
    requires doc.ssid != "" && Utf8Length(doc.ssid) < 3
    ensures PostWebserverConfig(Parsed(doc)).response == RaiseError(SSID_LENGTH)
  {
  }

  /**
   * The routes registered for POST requests with a JSON handler. The sixth
   * POST route, "/upload", takes a multipart body and is served by
   * UploadHandler and UploadReply instead.
   */
  datatype PostRoute = WifiToggle | WebserverToggle | WifiAdd | ConfigTime | WebserverConfig

  function RouteOf(path: string): (r: Option<PostRoute>)
    ensures r.Some? <==> path in {"/wifi/toggle", "/webserver/toggle", "/wifi/add", "/config/time", "/webserver/config"}
  {
    if path == "/wifi/toggle" then Some(WifiToggle)
    else if path == "/webserver/toggle" then Some(WebserverToggle)
    else if path == "/wifi/add" then Some(WifiAdd)
    else if path == "/config/time" then Some(ConfigTime)
    else if path == "/webserver/config" then Some(WebserverConfig)
    else None
  }

  function HandlePost(route: PostRoute, body: Body): Outcome
  {
    match route
    case WifiToggle => PostWifiToggle(body)
    case WebserverToggle => PostWebserverToggle(body)
    case WifiAdd => PostWifiAdd(body)
    case ConfigTime => PostConfigTime(body)
    case WebserverConfig => PostWebserverConfig(body)
  }

  /** No handler acts on a missing or unparsable body; it sends the payload error instead. */
  lemma NoActionWithoutPayload(route: PostRoute, body: Body)
    requires !body.Parsed?
    ensures HandlePost(route, body) == Outcome([], HandlePostPayload(body).error)
    ensures HandlePost(route, body).response.code == 400
  {
    match route
    case WifiToggle =>
    case WebserverToggle =>
    case WifiAdd =>
    case ConfigTime =>
    case WebserverConfig =>
  }

  /** Every handler either acts and answers 200, or does nothing and answers 400. */
  lemma ActsIffSucceeds(route: PostRoute, body: Body)
    ensures HandlePost(route, body).actions != [] <==> HandlePost(route, body).response.code == 200
    ensures HandlePost(route, body).response.code in {200, 400}
  {
    match route
    case WifiToggle =>
    case WebserverToggle =>
    case WifiAdd =>
    case ConfigTime =>
    case WebserverConfig =>
  }

  // ---------------------------------------------------------------------------
  // File upload

  datatype UploadStatus = FileStart | FileWrite | FileEnd | FileAborted

  /** One callback of a multipart upload: its phase, the client's file name and the current chunk. */
  datatype Upload = Upload(status: UploadStatus, filename: string, buf: seq<Byte>)

  /** The file-system call an upload step makes. */
  datatype FsOp = NoFsOp | CreateFile(path: string) | WriteToFile(path: string, data: seq<Byte>)

  /** The remembered file name after a step, the step's result and its file-system call. */
  datatype UploadStep = UploadStep(filename: string, result: string, op: FsOp)

  /**
   * One call of the upload handler, given the remembered file name and the
   * outcome `fsOk` of the file-system call it makes (ignored when it makes none).
   */
  function Step(filename: string, upload: Upload, fsOk: bool): (s: UploadStep)
    ensures upload.status != FileStart ==> s.filename == filename
    ensures upload.status == FileStart ==>
      s.filename == "/" + upload.filename && s.op == CreateFile(s.filename) &&
      s.result == (if fsOk then "START" else "")
    ensures upload.status == FileWrite ==>
      s.op == WriteToFile(filename, upload.buf) && s.result == (if fsOk then "IN_PROGRESS" else "")
    ensures upload.status == FileEnd ==> s.op == NoFsOp && s.result == filename
    ensures upload.status == FileAborted ==> s.op == NoFsOp && s.result == "IN_PROGRESS"
  {
    match upload.status
    case FileStart =>
      var name := "/" + upload.filename;
      UploadStep(name, if fsOk then "START" else "", CreateFile(name))
    case FileWrite =>
      UploadStep(filename, if fsOk then "IN_PROGRESS" else "", WriteToFile(filename, upload.buf))
    case FileEnd =>
      UploadStep(filename, filename, NoFsOp)
    case FileAborted =>
      UploadStep(filename, "IN_PROGRESS", NoFsOp)
  }

  /** The upload handler; its file name lives from one call to the next. */
  class UploadHandler {
    var filename: string

    constructor()
      ensures filename == ""
    {
      filename := "";
    }

    method HandleFileUpload(upload: Upload, fsOk: bool) returns (result: string, op: FsOp)
      modifies this
      ensures UploadStep(filename, result, op) == Step(old(filename), upload, fsOk)
    {
      if upload.status == FileStart {
        filename := "/" + upload.filename;
        op := CreateFile(filename);
        if !fsOk {
          return "", op;
        }
        return "START", op;
      }
      op := NoFsOp;
      if upload.status == FileWrite {
        op := WriteToFile(filename, upload.buf);
        if !fsOk {
          return "", op;
        }
      }
      if upload.status == FileEnd {
        return filename, op;
      }
      return "IN_PROGRESS", op;
    }
  }

  /** The reply sent after an upload step: 500 on "", nothing while the upload goes on, else 200. */
  function UploadReply(result: string): (r: Option<Response>)
    ensures result == "" ==> r == Some(Response(500, "text/plain", UPLOAD_FAILED))
    ensures r.None? <==> result == "START" || result == "IN_PROGRESS"
    ensures r.Some? && result != "" ==> r.value == Response(200, "text/plain", UPLOAD_RECEIVED + result)
  {
    if result == "" then Some(Response(500, "text/plain", UPLOAD_FAILED))
    else if result != "START" && result != "IN_PROGRESS" then Some(Response(200, "text/plain", UPLOAD_RECEIVED + result))
    else None
  }

  /** The remembered file name and the replies after a sequence of steps with their file-system outcomes. */
  function Run(filename: string, steps: seq<(Upload, bool)>): (r: (string, seq<Option<Response>>))
    ensures |r.1| == |steps|
    decreases |steps|
  {
    if steps == [] then (filename, [])
    else
      var s := Step(filename, steps[0].0, steps[0].1);
      var rest := Run(s.filename, steps[1..]);
      (rest.0, [UploadReply(s.result)] + rest.1)
  }

  predicate NoStart(steps: seq<(Upload, bool)>)
  {
    forall i :: 0 <= i < |steps| ==> steps[i].0.status != FileStart
  }

  /** Without a new START, the remembered file name survives any number of steps. */
  lemma {:induction false} FileNamePersists(filename: string, steps: seq<(Upload, bool)>)
    requires NoStart(steps)
    ensures Run(filename, steps).0 == filename
    decreases |steps|
  {
    if steps != [] {
      assert NoStart(steps[1..]) by {
        forall i | 0 <= i < |steps| - 1 ensures steps[1..][i].0.status != FileStart {
          assert steps[1..][i] == steps[i + 1];
        }
      }
      FileNamePersists(filename, steps[1..]);
    }
  }

  /** The file name set by a START is never one of the reserved results, so END after it always answers 200. */
  lemma EndAfterStartAnswers(name: string, createOk: bool, middle: seq<(Upload, bool)>, end: Upload, endOk: bool)
    requires NoStart(middle) && end.status == FileEnd
    ensures
      var start := Step("", Upload(FileStart, name, []), createOk);
      var afterMiddle := Run(start.filename, middle).0;
      UploadReply(Step(afterMiddle, end, endOk).result) == Some(Response(200, "text/plain", UPLOAD_RECEIVED + "/" + name))
  {
    var path := "/" + name;
    FileNamePersists(path, middle);
    assert path[0] == '/' && "START"[0] == 'S' && "IN_PROGRESS"[0] == 'I';
    assert UPLOAD_RECEIVED + "/" + name == UPLOAD_RECEIVED + path;
  }

  /** An END with no START before it has an empty file name and answers 500. */
  lemma EndWithoutStartFails(end: Upload, ok: bool)
    requires end.status == FileEnd
    ensures UploadReply(Step("", end, ok).result) == Some(Response(500, "text/plain", UPLOAD_FAILED))
  {
  }

  /** A failed file creation still replaces the remembered name, so later chunks go to it. */
  lemma FailedStartKeepsName(old_name: string, name: string, chunk: seq<Byte>, ok: bool)
    ensures
      var start := Step(old_name, Upload(FileStart, name, []), false);
      UploadReply(start.result) == Some(Response(500, "text/plain", UPLOAD_FAILED)) &&
      Step(start.filename, Upload(FileWrite, name, chunk), ok).op == WriteToFile("/" + name, chunk)
  {
  }

  // ---------------------------------------------------------------------------
  // Static files

  predicate EndsWith(s: string, suffix: string)
  {
    |suffix| <= |s| && s[|s| - |suffix|..] == suffix
  }

  /** The path the content type is computed from: the file path without a trailing ".gz". */
  function TypeSource(path: string): (t: string)
    ensures EndsWith(path, ".gz") ==> t + ".gz" == path
    ensures !EndsWith(path, ".gz") ==> t == path
  {
    if EndsWith(path, ".gz") then path[..|path| - 3] else path
  }

  lemma TypeSourceOfGzip(path: string)
    ensures TypeSource(path + ".gz") == path
  {
    var p := path + ".gz";
    assert p[|p| - 3..] == ".gz";
    assert p[..|p| - 3] == path;
  }

  /** A file served: the path streamed and the path its content type is derived from. */
  datatype Served = Served(path: string, typeSource: string)

  /**
   * Serves `path` when the file system can open it (the paths in `openable`);
   * otherwise reports false and sends nothing.
   */
  function HandleFileRead(path: string, openable: set<string>): (r: Option<Served>)
    ensures r.Some? <==> path in openable
    ensures r.Some? ==> r.value == Served(path, TypeSource(path))
  {
    if path !in openable then None else Some(Served(path, TypeSource(path)))
  }

  datatype NotFoundOutcome = Streamed(served: Served) | NotFound(response: Response)

  /** The fallback for unrouted requests: the gzip variant, then the path itself, then 404. */
  function NotFoundHandler(path: string, openable: set<string>): NotFoundOutcome
  {
    if !EndsWith(path, ".ico") && !EndsWith(path, ".png") && HandleFileRead(path + ".gz", openable).Some? then
      Streamed(HandleFileRead(path + ".gz", openable).value)
    else if HandleFileRead(path, openable).Some? then
      Streamed(HandleFileRead(path, openable).value)
    else
      NotFound(Response(404, "text/plain", FILE_NOT_FOUND))
  }

  /** The paths the not-found handler tries, in order. */
  function Candidates(path: string): seq<string>
  {
    (if !EndsWith(path, ".ico") && !EndsWith(path, ".png") then [path + ".gz"] else []) + [path]
  }

  /**
   * The not-found handler streams the first candidate the file system can
   * open, with its content type taken from the uncompressed name, and
   * answers 404 exactly when none opens.
   */
  lemma NotFoundServesFirstCandidate(path: string, openable: set<string>)
    ensures NotFoundHandler(path, openable).NotFound? <==>
      forall i :: 0 <= i < |Candidates(path)| ==> Candidates(path)[i] !in openable
    ensures NotFoundHandler(path, openable).NotFound? ==>
      NotFoundHandler(path, openable).response == Response(404, "text/plain", FILE_NOT_FOUND)
    ensures NotFoundHandler(path, openable).Streamed? ==>
      exists i :: 0 <= i < |Candidates(path)| &&
        Candidates(path)[i] in openable &&
        (forall j :: 0 <= j < i ==> Candidates(path)[j] !in openable) &&
        NotFoundHandler(path, openable).served == Served(Candidates(path)[i], TypeSource(Candidates(path)[i]))
  {
    var c := Candidates(path);
    if !EndsWith(path, ".ico") && !EndsWith(path, ".png") {
      assert c == [path + ".gz", path];
      if path + ".gz" in openable {
        assert c[0] in openable;
      } else if path in openable {
        assert c[1] in openable;
      }
    } else {
      assert c == [path];
      if path in openable {
        assert c[0] in openable;
      }
    }
  }

  /** A compressed file is served with the content type of its uncompressed name. */
  lemma GzipServedAsOriginalType(path: string, openable: set<string>)
    requires !EndsWith(path, ".ico") && !EndsWith(path, ".png") && path + ".gz" in openable
    ensures NotFoundHandler(path, openable) == Streamed(Served(path + ".gz", path))
  {
    TypeSourceOfGzip(path);
  }

  /** Icons and images are never looked up in compressed form. */
  lemma ImagesSkipGzip(path: string, openable: set<string>)
    requires EndsWith(path, ".ico") || EndsWith(path, ".png")
    ensures NotFoundHandler(path, openable).Streamed? <==> path in openable
  {
  }
}
