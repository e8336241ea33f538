/** The request handler `fetch` of server.js (lines 104-265): an ordered chain of
    route tests, a public part, the session gate at line 173, and the protected
    part. `Route` is the decision table; `Server.Fetch` is the chain itself, with
    the handlers' effects on the session table and the two stores. */
module Router {
  import opened Strings
  import opened Sanitizer
  import opened Headers
  import opened Sessions
  import opened Texts
  import opened Uploads
  import opened Startup

  /** A request as the handlers see it, with its bodies already parsed. */
  datatype Request = Request(
    verb: string,
    path: string,
    headers: HeaderMap,
    password: Option<string>,   // `password` of the login JSON body
    text: Doc,                  // `{content, open}` of a text-save JSON body
    file: Option<FormFile>)     // the `file` field of an upload form

  datatype Body =
    | NoBody
    | Message(text: string)
    | IndexPage
    | Text(rendered: Rendered)
    | Html(html: string)
    | FileListing(files: set<FileInfo>)
    | TextListing(texts: set<TextInfo>)
    | FileBytes(bytes: seq<byte>)

  datatype Response = Response(status: int, body: Body, setCookie: Option<string>)

  /** The handler that answers a request. */
  datatype Handler =
    | Index | Login | SessionCheck | PublicTextRead | PublicHtmlRead
    | Unauthorized
    | UploadFile | FileList | FileDownload | FileDelete
    | TextSave | TextRead | TextList | TextDelete
    | NotFound

  /** The handlers that sit after the session gate, the final 404 included. */
  predicate BehindGate(h: Handler) {
    !(h.Index? || h.Login? || h.SessionCheck? || h.PublicTextRead? || h.PublicHtmlRead?)
  }

  /** `path.split('/')[2]`, the name in `/txt/<name>`, `/h/<name>` and `/files/<name>`. */
  function Segment(path: string): (segment: string)
    ensures '/' !in segment
  {
    var parts := Split(path, '/');
    if |parts| > 2 then parts[2] else ""
  }

  /** On a route path `/<word>/<rest>` the segment exists and is `rest` up to its
      first `/`. */
  lemma {:induction false} SegmentOfRoute(word: string, rest: string)
    requires '/' !in word
    ensures |Split("/" + word + "/" + rest, '/')| > 2
    ensures Segment("/" + word + "/" + rest) == Split(rest, '/')[0]
  {
    var path := "/" + word + "/" + rest;
    assert path == "" + ['/'] + (word + ['/'] + rest);
    SplitAfterWord("", '/', word + ['/'] + rest);
    SplitAfterWord(word, '/', rest);
  }

  /** The order of the tests in `fetch`. `publicHit` says that the public text read
      would answer (its name is open and its document exists); `authed` is the
      answer `auth` would give. The public text read falls through when it does
      not answer; the `/h/` read never does. */
  function Route(verb: string, path: string, publicHit: bool, authed: bool): (h: Handler)
    ensures h == PublicTextRead ==> publicHit
    ensures BehindGate(h) ==> (h == Unauthorized <==> !authed)
  {
    if path == "/" && verb == "GET" then Index
    else if path == "/login" && verb == "POST" then Login
    else if path == "/auth" && verb == "GET" then SessionCheck
    else if StartsWith(path, "/txt/") && verb == "GET" && publicHit then PublicTextRead
    else if StartsWith(path, "/h/") && verb == "GET" then PublicHtmlRead
    else if !authed then Unauthorized
    else ProtectedRoute(verb, path)
  }

  /** The tests after the gate (server.js lines 176-265), ending in the 404. */
  function ProtectedRoute(verb: string, path: string): (h: Handler)
    ensures BehindGate(h) && h != Unauthorized
  {
    if path == "/upload" && verb == "POST" then UploadFile
    else if path == "/files" && verb == "GET" then FileList
    else if StartsWith(path, "/files/") && verb == "GET" then FileDownload
    else if StartsWith(path, "/files/") && verb == "DELETE" then FileDelete
    else if StartsWith(path, "/txt/") && verb == "POST" then TextSave
    else if StartsWith(path, "/txt/") && verb == "GET" then TextRead
    else if path == "/txts" && verb == "GET" then TextList
    else if StartsWith(path, "/txt/") && verb == "DELETE" then TextDelete
    else NotFound
  }

  /** The route tests of `fetch` never overlap: a path with one of the prefixes
      is none of the exact paths, and the prefixes exclude one another. */
  lemma {:induction false} RoutePathsDisjoint(path: string)
    ensures StartsWith(path, "/txt/") ==>
              && path != "/" && path != "/login" && path != "/auth" && path != "/upload" && path != "/files" && path != "/txts"
              && !StartsWith(path, "/h/") && !StartsWith(path, "/files/")
    ensures StartsWith(path, "/h/") ==>
              && path != "/" && path != "/login" && path != "/auth" && path != "/upload" && path != "/files" && path != "/txts"
              && !StartsWith(path, "/files/")
    ensures StartsWith(path, "/files/") ==>
              path != "/" && path != "/login" && path != "/auth" && path != "/upload" && path != "/files" && path != "/txts"
  {
    if StartsWith(path, "/txt/") {
      assert path[..5][1] == 't' && path[..5][4] == '/';
    }
    if StartsWith(path, "/h/") {
      assert path[..3][1] == 'h' && path[..3][2] == '/';
    }
    if StartsWith(path, "/files/") {
      assert path[..7][1] == 'f' && path[..7][6] == '/';
    }
  }

  /** A `GET /txt/<name>` that the public read does not answer falls through: an
      anonymous caller gets the gate's refusal, an authenticated one the
      authenticated read. */
  lemma {:induction false} PrivateTextFallsThrough(path: string, authed: bool)
    requires StartsWith(path, "/txt/")
    ensures Route("GET", path, false, authed) == if authed then TextRead else Unauthorized
  {
    RoutePathsDisjoint(path);
  }

  /** An open text is answered by the public read even for an authenticated caller. */
  lemma {:induction false} OpenTextIsPublic(path: string, authed: bool)
    requires StartsWith(path, "/txt/")
    ensures Route("GET", path, true, authed) == PublicTextRead
  {
    RoutePathsDisjoint(path);
  }

  /** A `GET /h/<name>` is always answered by the HTML read (with the page or a 404),
      never by the gate. */
  lemma {:induction false} HtmlNeverGated(path: string, publicHit: bool, authed: bool)
    requires StartsWith(path, "/h/")
    ensures Route("GET", path, publicHit, authed) == PublicHtmlRead
  {
    RoutePathsDisjoint(path);
  }

  /** Everything a request can read or change: the session table, the text store
      (metadata in memory and on disk, documents) and the upload directory. */
  datatype State = State(
    sessions: SessionTable,
    meta: MetaMap,
    persisted: Option<MetaMap>,
    docs: DocMap,
    files: FileMap)

  /** The state after a request and the response sent. */
  datatype Outcome = Outcome(state: State, response: Response)

  const Ok := Response(200, Message("OK"), None)
  const Refused := Response(401, Message("Unauthorized"), None)
  const Missing := Response(404, Message("Not Found"), None)

  /** The handler that answers `req` on `st`. */
  function HandlerOf(st: State, req: Request): Handler {
    Route(req.verb, req.path, IsPublic(st.meta, st.docs, Sanitize(Segment(req.path))), Authenticates(st.sessions, req.headers))
  }

  /** What the route tests guarantee about the handler they pick: the public text
      read only for an open, existing text; past the gate, the refusal exactly when
      the session is not accepted. */
  predicate Reachable(st: State, h: Handler, req: Request) {
    && (h == PublicTextRead ==> IsPublic(st.meta, st.docs, Sanitize(Segment(req.path))))
    && (BehindGate(h) ==> (h == Unauthorized <==> !Authenticates(st.sessions, req.headers)))
  }

  /** One request against `st` (server.js lines 104-265), with `sid` the fresh id a
      successful login hands out, `now` the clock, `password` the configured
      password and `tls` whether the server speaks HTTPS. */
  function Serve(st: State, req: Request, sid: string, now: int, password: Option<string>, tls: bool): Outcome {
    Handle(st, HandlerOf(st, req), req, sid, now, password, tls)
  }

  /** Handler `h` answering `req` on `st`: each handler's effect and response. The
      handlers behind the gate run on the state the successful `auth` left. */
  function Handle(st: State, h: Handler, req: Request, sid: string, now: int, password: Option<string>, tls: bool): Outcome
    requires Reachable(st, h, req)
  {
    var segment := Segment(req.path);
    var authed := Authenticates(st.sessions, req.headers);
    match h
    case Index => Outcome(st, Response(200, IndexPage, None))
    case Login =>
      if req.password == password then
        Outcome(st.(sessions := st.sessions[sid := Session(ClientIp(req.headers), UserAgent(req.headers), now + SessionTtl)]),
                Response(200, NoBody, Some(SetCookie(sid, tls))))
      else Outcome(st, Refused)
    case SessionCheck =>
      if authed then Outcome(st.(sessions := Refreshed(st.sessions, req.headers, now)), Ok)
      else Outcome(st, Refused)
    case PublicTextRead =>
      Outcome(st, Response(200, Text(Negotiate(WantsJson(req.headers), st.docs[Sanitize(segment)])), None))
    case PublicHtmlRead =>
      Outcome(st, match PublicHtml(st.meta, st.docs, segment)
                  case Some(html) => Response(200, Html(html), None)
                  case None => Missing)
    case Unauthorized => Outcome(st, Refused)
    case _ => ServeAuthenticated(st.(sessions := Refreshed(st.sessions, req.headers, now)), h, req)
  }

  /** The handlers behind the gate, run on the state the successful `auth` left
      (server.js lines 176-265); any other handler is the final 404. */
  function ServeAuthenticated(st: State, h: Handler, req: Request): (o: Outcome)
    ensures o.state.sessions == st.sessions
  {
    var segment := Segment(req.path);
    var name := Sanitize(segment);
    match h
    case UploadFile =>
      if UploadAccepted(req.file) then
        Outcome(st.(files := st.files[Sanitize(req.file.value.name) := req.file.value.data]), Ok)
      else Outcome(st, Response(400, Message("Bad Request"), None))
    case FileList => Outcome(st, Response(200, FileListing(ListFiles(st.files)), None))
    case FileDownload =>
      Outcome(st, match Download(st.files, segment)
                  case Some(bytes) => Response(200, FileBytes(bytes), None)
                  case None => Missing)
    case FileDelete => Outcome(st.(files := st.files - {name}), Ok)
    case TextSave =>
      var meta := st.meta[name := FlagOf(req.text.open)];
      Outcome(st.(docs := st.docs[name := req.text], meta := meta, persisted := Some(meta)), Ok)
    case TextRead =>
      Outcome(st, match ReadText(st.docs, segment, WantsJson(req.headers))
                  case Some(r) => Response(200, Text(r), None)
                  case None => Missing)
    case TextList => Outcome(st, Response(200, TextListing(ListTexts(st.meta)), None))
    case TextDelete =>
      var meta := st.meta - {name};
      Outcome(st.(docs := st.docs - {name}, meta := meta, persisted := Some(meta)), Ok)
    case _ => Outcome(st, Missing)
  }

  /** Every handler keeps the metadata file in step with the metadata in memory. */
  lemma {:induction false} HandleKeepsMetaPersisted(st: State, h: Handler, req: Request, sid: string, now: int, password: Option<string>, tls: bool)
    requires Reachable(st, h, req)
    requires MetaPersisted(st.meta, st.persisted)
    ensures var o := Handle(st, h, req, sid, now, password, tls);
            MetaPersisted(o.state.meta, o.state.persisted)
  {
  }

  /** A successful login inserts the fresh id, bound to the request's fingerprint,
      with the full lifetime. */
  lemma {:induction false} LoginInsertsSession(st: State, h: Handler, req: Request, sid: string, now: int, password: Option<string>, tls: bool)
    requires Reachable(st, h, req)
    requires h == Login && req.password == password
    ensures Handle(st, h, req, sid, now, password, tls).state.sessions
         == st.sessions[sid := Session(ClientIp(req.headers), UserAgent(req.headers), now + SessionTtl)]
  {
  }

  /** An accepted `auth`, in the session check or before any handler behind the
      gate, slides the presented session's expiry and changes nothing else in the table. */
  lemma {:induction false} AcceptedAuthSlides(st: State, h: Handler, req: Request, sid: string, now: int, password: Option<string>, tls: bool)
    requires Reachable(st, h, req)
    requires (h == SessionCheck || BehindGate(h)) && Authenticates(st.sessions, req.headers)
    ensures Handle(st, h, req, sid, now, password, tls).state.sessions == Refreshed(st.sessions, req.headers, now)
  {
  }

  /** Nothing else touches the session table: the index, the public reads, a
      failed login, and every request without an accepted session other than a login. */
  lemma {:induction false} SessionsOtherwiseKept(st: State, h: Handler, req: Request, sid: string, now: int, password: Option<string>, tls: bool)
    requires Reachable(st, h, req)
    requires || h == Index || h == PublicTextRead || h == PublicHtmlRead
             || (h == Login && req.password != password)
             || (!Authenticates(st.sessions, req.headers) && h != Login)
    ensures Handle(st, h, req, sid, now, password, tls).state.sessions == st.sessions
  {
  }

  /** Behind the gate, the upload directory changes only by an accepted upload
      (under the file's sanitized name) or a file delete. */
  lemma {:induction false} AuthenticatedFiles(st: State, h: Handler, req: Request)
    ensures var o := ServeAuthenticated(st, h, req);
            && (h == UploadFile && UploadAccepted(req.file) ==>
                  o.state.files == st.files[Sanitize(req.file.value.name) := req.file.value.data])
            && (h == FileDelete ==> o.state.files == st.files - {Sanitize(Segment(req.path))})
            && ((h == UploadFile && !UploadAccepted(req.file)) || (h != UploadFile && h != FileDelete) ==>
                  o.state.files == st.files)
  {
  }

  /** Behind the gate, the text store changes only by a save or a delete, each of
      which rewrites the metadata file. */
  lemma {:induction false} AuthenticatedTexts(st: State, h: Handler, req: Request)
    ensures var o := ServeAuthenticated(st, h, req);
            var name := Sanitize(Segment(req.path));
            && (h == TextSave ==>
                  o.state.docs == st.docs[name := req.text] && o.state.meta == st.meta[name := FlagOf(req.text.open)])
            && (h == TextDelete ==> o.state.docs == st.docs - {name} && o.state.meta == st.meta - {name})
            && (h == TextSave || h == TextDelete ==> o.state.persisted == Some(o.state.meta))
            && (h != TextSave && h != TextDelete ==>
                  o.state.docs == st.docs && o.state.meta == st.meta && o.state.persisted == st.persisted)
  {
  }

  /** The upload directory changes only by an accepted upload or a file delete. */
  lemma {:induction false} HandleFiles(st: State, h: Handler, req: Request, sid: string, now: int, password: Option<string>, tls: bool)
    requires Reachable(st, h, req)
    ensures var o := Handle(st, h, req, sid, now, password, tls);
            && (h == UploadFile && UploadAccepted(req.file) ==>
                  o.state.files == st.files[Sanitize(req.file.value.name) := req.file.value.data])
            && (h == FileDelete ==> o.state.files == st.files - {Sanitize(Segment(req.path))})
            && ((h == UploadFile && !UploadAccepted(req.file)) || (h != UploadFile && h != FileDelete) ==>
                  o.state.files == st.files)
            && (h == UploadFile ==>
                  o.response == if UploadAccepted(req.file) then Ok else Response(400, Message("Bad Request"), None))
            && (h == FileDelete ==> o.response == Ok)
  {
    if BehindGate(h) && h != Unauthorized {
      AuthenticatedFiles(st.(sessions := Refreshed(st.sessions, req.headers, now)), h, req);
    }
  }

  /** The text store changes only by a save or a delete, each of which rewrites
      the metadata file. */
  lemma {:induction false} HandleTexts(st: State, h: Handler, req: Request, sid: string, now: int, password: Option<string>, tls: bool)
    requires Reachable(st, h, req)
    ensures var o := Handle(st, h, req, sid, now, password, tls);
            var name := Sanitize(Segment(req.path));
            && (h == TextSave ==>
                  o.state.docs == st.docs[name := req.text] && o.state.meta == st.meta[name := FlagOf(req.text.open)])
            && (h == TextDelete ==> o.state.docs == st.docs - {name} && o.state.meta == st.meta - {name})
            && (h == TextSave || h == TextDelete ==> o.state.persisted == Some(o.state.meta))
            && (h != TextSave && h != TextDelete ==>
                  o.state.docs == st.docs && o.state.meta == st.meta && o.state.persisted == st.persisted)
            && (h == TextSave || h == TextDelete ==> o.response == Ok)
  {
    if BehindGate(h) && h != Unauthorized {
      AuthenticatedTexts(st.(sessions := Refreshed(st.sessions, req.headers, now)), h, req);
    }
  }

  /** Every handler keeps each metadata key backed by a document: a save writes
      both, a delete removes both, and nothing else touches either. */
  lemma {:induction false} HandleKeepsMetaBacked(st: State, h: Handler, req: Request, sid: string, now: int, password: Option<string>, tls: bool)
    requires Reachable(st, h, req)
    requires st.meta.Keys <= st.docs.Keys
    ensures var o := Handle(st, h, req, sid, now, password, tls);
            o.state.meta.Keys <= o.state.docs.Keys
  {
    if BehindGate(h) && h != Unauthorized {
      AuthenticatedTexts(st.(sessions := Refreshed(st.sessions, req.headers, now)), h, req);
    }
  }

  /** The text delete is chosen only for a `DELETE`, so whether the public read
      would answer does not matter to it. */
  lemma {:induction false} TextDeleteRoute(verb: string, path: string, publicHit: bool, authed: bool, otherHit: bool)
    requires Route(verb, path, publicHit, authed) == TextDelete
    ensures authed && verb == "DELETE"
    ensures Route(verb, path, otherHit, true) == TextDelete
  {
  }

  /** Deleting a text is idempotent: repeating the request answers `OK` again and
      leaves the state exactly as the first delete left it. */
  lemma {:induction false} TextDeleteIdempotent(st: State, req: Request, sid: string, now: int, password: Option<string>, tls: bool)
    requires HandlerOf(st, req) == TextDelete
    ensures var first := Serve(st, req, sid, now, password, tls);
            && first.response == Ok
            && Serve(first.state, req, sid, now, password, tls) == first
  {
    var name := Sanitize(Segment(req.path));
    var hit := IsPublic(st.meta, st.docs, name);
    TextDeleteRoute(req.verb, req.path, hit, Authenticates(st.sessions, req.headers), hit);
    var refreshed := Refreshed(st.sessions, req.headers, now);
    var meta := st.meta - {name};
    var after := st.(sessions := refreshed, docs := st.docs - {name}, meta := meta, persisted := Some(meta));
    assert Serve(st, req, sid, now, password, tls) == Outcome(after, Ok);
    RefreshedStable(st.sessions, req.headers, now);
    TextDeleteRoute(req.verb, req.path, hit, true, IsPublic(after.meta, after.docs, name));
    assert HandlerOf(after, req) == TextDelete;
    assert after.docs - {name} == after.docs && after.meta - {name} == after.meta;
    assert Serve(after, req, sid, now, password, tls) == Outcome(after, Ok);
  }

  /** The responses of the handlers that read: each is the matching read of the
      state before the request, with a 404 where that read finds nothing. */
  lemma {:induction false} HandleReads(st: State, h: Handler, req: Request, sid: string, now: int, password: Option<string>, tls: bool)
    requires Reachable(st, h, req)
    ensures var r := Handle(st, h, req, sid, now, password, tls).response;
            var segment := Segment(req.path);
            && (h == PublicTextRead ==>
                  PublicText(st.meta, st.docs, segment, WantsJson(req.headers)) == Some(r.body.rendered) && r.status == 200)
            && (h == PublicHtmlRead ==>
                  r == match PublicHtml(st.meta, st.docs, segment)
                       case Some(html) => Response(200, Html(html), None)
                       case None => Missing)
            && (h == TextRead ==>
                  r == match ReadText(st.docs, segment, WantsJson(req.headers))
                       case Some(t) => Response(200, Text(t), None)
                       case None => Missing)
            && (h == FileDownload ==>
                  r == match Download(st.files, segment)
                       case Some(bytes) => Response(200, FileBytes(bytes), None)
                       case None => Missing)
            && (h == FileList ==> r.body == FileListing(ListFiles(st.files)))
            && (h == TextList ==> r.body == TextListing(ListTexts(st.meta)))
  {
  }

  /** The responses of the login and the session check, and the only Set-Cookie. */
  lemma {:induction false} HandleLoginAndCheck(st: State, h: Handler, req: Request, sid: string, now: int, password: Option<string>, tls: bool)
    requires Reachable(st, h, req)
    ensures var r := Handle(st, h, req, sid, now, password, tls).response;
            && (h == Login ==> (r.status == 200 <==> req.password == password))
            && (h == Login && req.password == password ==> r.setCookie == Some(SetCookie(sid, tls)))
            && (h == Login && req.password != password ==> r == Refused)
            && (h == SessionCheck ==> r == if Authenticates(st.sessions, req.headers) then Ok else Refused)
            && (r.setCookie.Some? ==> h == Login)
  {
  }

  /** Without a valid session a request changes nothing unless it is a login, and
      every request for a handler behind the gate is answered 401. */
  lemma {:induction false} AnonymousOnlyLogsIn(st: State, req: Request, sid: string, now: int, password: Option<string>, tls: bool)
    requires !Authenticates(st.sessions, req.headers)
    ensures var o, h := Serve(st, req, sid, now, password, tls), HandlerOf(st, req);
            && (h != Login ==> o.state == st)
            && (BehindGate(h) ==> h == Unauthorized && o.response == Refused)
  {
  }

  /** A `/txt/<segment>` path names `segment` when the segment has no `/`. */
  lemma {:induction false} TextPath(segment: string)
    requires '/' !in segment
    ensures StartsWith("/txt/" + segment, "/txt/")
    ensures Segment("/txt/" + segment) == segment
  {
    var path := "/txt/" + segment;
    assert path[..5] == "/txt/";
    assert path == "/" + "txt" + "/" + segment;
    SegmentOfRoute("txt", segment);
    SplitWithoutSeparator(segment, '/');
  }

  /** A successful login hands out the cookie and makes the same client, presenting
      that cookie, authenticated; the stores are untouched. */
  lemma {:induction false} LoginStep(st: State, h: HeaderMap, sid: string, now: int, password: Option<string>, tls: bool)
    requires CookieSid(h) == Some(sid)
    ensures var o := Serve(st, Request("POST", "/login", h, password, Doc("", false), None), sid, now, password, tls);
            && o.response.setCookie == Some(SetCookie(sid, tls))
            && Authenticates(o.state.sessions, h)
            && o.state.meta == st.meta && o.state.docs == st.docs
            && o.state.persisted == st.persisted && o.state.files == st.files
  {
    LoginThenAuthenticates(st.sessions, h, sid, now, h);
  }

  /** An authenticated save of `/txt/<segment>` stores the document under the
      sanitized name and leaves the client authenticated. */
  lemma {:induction false} SaveStep(st: State, h: HeaderMap, segment: string, doc: Doc, sid: string, now: int, password: Option<string>, tls: bool)
    requires '/' !in segment
    requires Authenticates(st.sessions, h)
    ensures var o := Serve(st, Request("POST", "/txt/" + segment, h, None, doc, None), sid, now, password, tls);
            var name := Sanitize(segment);
            && o.response == Ok
            && Authenticates(o.state.sessions, h)
            && o.state.docs == st.docs[name := doc] && o.state.meta == st.meta[name := FlagOf(doc.open)]
  {
    TextPath(segment);
    RoutePathsDisjoint("/txt/" + segment);
    RefreshedStable(st.sessions, h, now);
  }

  /** An anonymous `GET /txt/<segment>` shows an open text and is refused otherwise;
      it changes nothing. */
  lemma {:induction false} AnonymousReadStep(st: State, anon: HeaderMap, segment: string, sid: string, now: int, password: Option<string>, tls: bool)
    requires '/' !in segment
    requires CookieSid(anon) == None
    ensures var o := Serve(st, Request("GET", "/txt/" + segment, anon, None, Doc("", false), None), sid, now, password, tls);
            var name := Sanitize(segment);
            && o.state == st
            && o.response == if IsPublic(st.meta, st.docs, name)
                             then Response(200, Text(Negotiate(WantsJson(anon), st.docs[name])), None)
                             else Refused
  {
    TextPath(segment);
    RoutePathsDisjoint("/txt/" + segment);
  }

  /** The walk-through of a private note made public: log in, save a closed text,
      see an anonymous read refused, save it open, and see the anonymous read
      succeed. `h` carries the cookie the login handed out; `anon` carries none. */
  lemma {:induction false} PrivateThenPublic(st: State, h: HeaderMap, anon: HeaderMap, sid: string, now: int,
                                             password: Option<string>, tls: bool, segment: string, content: string)
    requires sid != "" && ';' !in sid
    requires "cookie" in h && h["cookie"] == "sid=" + sid
    requires CookieSid(anon) == None
    requires '/' !in segment
    ensures var path, blank := "/txt/" + segment, Doc("", false);
            var login := Serve(st, Request("POST", "/login", h, password, blank, None), sid, now, password, tls);
            var closed := Serve(login.state, Request("POST", path, h, None, Doc(content, false), None), sid, now, password, tls);
            var refused := Serve(closed.state, Request("GET", path, anon, None, blank, None), sid, now, password, tls);
            var published := Serve(refused.state, Request("POST", path, h, None, Doc(content, true), None), sid, now, password, tls);
            var shown := Serve(published.state, Request("GET", path, anon, None, blank, None), sid, now, password, tls);
            && login.response.setCookie == Some(SetCookie(sid, tls))
            && closed.response == Ok && refused.response == Refused && published.response == Ok
            && shown.response == Response(200, Text(Negotiate(WantsJson(anon), Doc(content, true))), None)
  {
    var name := Sanitize(segment);
    assert "sid=" + sid + "" == "sid=" + sid;
    ReturnedCookiePresentsSid(h, sid, "");
    var path, blank := "/txt/" + segment, Doc("", false);
    var login := Serve(st, Request("POST", "/login", h, password, blank, None), sid, now, password, tls);
    LoginStep(st, h, sid, now, password, tls);
    var closed := Serve(login.state, Request("POST", path, h, None, Doc(content, false), None), sid, now, password, tls);
    SaveStep(login.state, h, segment, Doc(content, false), sid, now, password, tls);
    var refused := Serve(closed.state, Request("GET", path, anon, None, blank, None), sid, now, password, tls);
    AnonymousReadStep(closed.state, anon, segment, sid, now, password, tls);
    assert !IsPublic(closed.state.meta, closed.state.docs, name);
    var published := Serve(refused.state, Request("POST", path, h, None, Doc(content, true), None), sid, now, password, tls);
    SaveStep(refused.state, h, segment, Doc(content, true), sid, now, password, tls);
    AnonymousReadStep(published.state, anon, segment, sid, now, password, tls);
    assert IsPublic(published.state.meta, published.state.docs, name);
  }

  class Server {
    const registry: SessionRegistry
    const texts: TextStore
    const uploads: UploadStore
    /** `process.env.PASSWORD`. */
    const password: Option<string>
    /** `finalSsl`. */
    const tls: bool

    ghost predicate Valid()
      reads this, texts
    {
      texts.Valid()
    }

    /** The server's state as a value. */
    ghost function Current(): State
      reads this, registry, texts, uploads
    {
      State(registry.sessions, texts.meta, texts.persisted, texts.docs, uploads.files)
    }

    /** The state at startup: no sessions, the metadata file and the files already on disk. */
    constructor (listener: Listener, password: Option<string>, metaFile: Option<MetaMap>, storedDocs: DocMap, storedFiles: FileMap)
      ensures Valid()
      ensures fresh(registry) && fresh(texts) && fresh(uploads)
      ensures this.password == password && tls == listener.tls
      ensures Current() == State(map[], if metaFile.Some? then metaFile.value else map[], metaFile, storedDocs, storedFiles)
    {
      registry := new SessionRegistry();
      texts := new TextStore.Load(metaFile, storedDocs);
      uploads := new UploadStore(storedFiles);
      this.password := password;
      tls := listener.tls;
    }

    /** `fetch(req)`, with `sid` the value `randomUUID()` would give and `now` the clock:
        the if-chain of the source, calling the stores the way its handlers do. */
    method Fetch(req: Request, sid: string, now: int) returns (resp: Response)
      requires Valid()
      modifies registry, texts, uploads
      ensures Valid()
      ensures Outcome(Current(), resp) == Serve(old(Current()), req, sid, now, password, tls)
    {
      var path, verb := req.path, req.verb;
      RoutePathsDisjoint(path);
      ghost var st := Current();
      ghost var h := Route(verb, path, IsPublic(st.meta, st.docs, Sanitize(Segment(path))), Authenticates(st.sessions, req.headers));
      if path == "/" && verb == "GET" {
        assert h == Index;
        return Response(200, IndexPage, None);
      }
      if path == "/login" && verb == "POST" {
        assert h == Login;
        var ok := registry.Login(req.password, password, req.headers, sid, now);
        if ok {
          return Response(200, NoBody, Some(SetCookie(sid, tls)));
        }
        return Refused;
      }
      if path == "/auth" && verb == "GET" {
        assert h == SessionCheck;
        // the handler calls auth once for the body and once for the status
        var first := registry.Auth(req.headers, now);
        var second := registry.Auth(req.headers, now);
        if first {
          RefreshedStable(st.sessions, req.headers, now);
        }
        return Response(if second then 200 else 401, Message(if first then "OK" else "Unauthorized"), None);
      }
      if StartsWith(path, "/txt/") && verb == "GET" {
        var shown := PublicText(texts.meta, texts.docs, Segment(path), WantsJson(req.headers));
        if shown.Some? {
          assert h == PublicTextRead;
          return Response(200, Text(shown.value), None);
        }
      }
      if StartsWith(path, "/h/") && verb == "GET" {
        assert h == PublicHtmlRead;
        var html := PublicHtml(texts.meta, texts.docs, Segment(path));
        if html.Some? {
          return Response(200, Html(html.value), None);
        }
        return Missing;
      }
      var authed := registry.Auth(req.headers, now);
      if !authed {
        assert h == Unauthorized;
        return Refused;
      }
      assert h == ProtectedRoute(verb, path);
      resp := FetchAuthenticated(req);
    }

    /** The handlers after the gate, reached once `auth` has accepted the request. */
    method FetchAuthenticated(req: Request) returns (resp: Response)
      requires Valid()
      modifies texts, uploads
      ensures Valid() && registry.sessions == old(registry.sessions)
      ensures Outcome(Current(), resp) == ServeAuthenticated(old(Current()), ProtectedRoute(req.verb, req.path), req)
    {
      var path, verb := req.path, req.verb;
      RoutePathsDisjoint(path);
      if path == "/upload" && verb == "POST" {
        var accepted := uploads.Upload(req.file);
        if !accepted {
          return Response(400, Message("Bad Request"), None);
        }
        return Ok;
      }
      if path == "/files" && verb == "GET" {
        return Response(200, FileListing(ListFiles(uploads.files)), None);
      }
      if StartsWith(path, "/files/") && verb == "GET" {
        var bytes := Download(uploads.files, Segment(path));
        if bytes.None? {
          return Missing;
        }
        return Response(200, FileBytes(bytes.value), None);
      }
      if StartsWith(path, "/files/") && verb == "DELETE" {
        uploads.Delete(Segment(path));
        return Ok;
      }
      if StartsWith(path, "/txt/") && verb == "POST" {
        texts.Save(Segment(path), req.text.content, req.text.open);
        return Ok;
      }
      if StartsWith(path, "/txt/") && verb == "GET" {
        var shown := ReadText(texts.docs, Segment(path), WantsJson(req.headers));
        if shown.None? {
          return Missing;
        }
        return Response(200, Text(shown.value), None);
      }
      if path == "/txts" && verb == "GET" {
        return Response(200, TextListing(ListTexts(texts.meta)), None);
      }
      if StartsWith(path, "/txt/") && verb == "DELETE" {
        texts.Delete(Segment(path));
        return Ok;
      }
      return Missing;
    }
  }
}
