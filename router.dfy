/**
 * router.go: the HTTP handlers. A request is reduced to what the handlers
 * look at: the method (`verb`), the URL path, the Authorization header ("" when
 * absent), whether the form body parsed, and the form's `url` value. The
 * handlers read the configuration as an immutable snapshot and the store as
 * a value; the background capture that `post` starts is returned as a
 * `Task` for the caller to run later (see Archiving.Ingest).
 *
 * The credential check is HTTP Basic authentication (section 2 of RFC 7617):
 * "<scheme> <payload>", the payload decoded as standard base64 (section 4 of
 * RFC 4648) into "<user-id>:<password>". The base64 decoder is an opaque
 * input `decode`, None for text that is not valid base64.
 */
module Router {
  import opened Wrappers
  import opened Strings
  import opened Db
  import opened Config
  import opened Archiving

  datatype Request = Request(verb: string, path: string, authorization: string, formOk: bool, formUrl: string)

  /** The capture that `post` starts in a goroutine: `app.archive(archive, url, id)`. */
  datatype Task = Task(archive: Archive, url: string, id: string)

  /** The responses the handlers write. */
  datatype Reply =
    | NotFound
    | NoContent
    | Unauthorized
    | BadRequest
    | Accepted(body: string)
    | Content(file: Path, bytes: Bytes)

  function Status(r: Reply): int {
    match r
    case NotFound => 404
    case NoContent => 204
    case Unauthorized => 401
    case BadRequest => 400
    case Accepted(_) => 200
    case Content(_, _) => 200
  }

  /**
   * The credentials an Authorization header carries (router.go:64-84): split
   * at the first space, decode what follows, split that at the first colon.
   * The scheme token before the space is never looked at.
   */
  function Credentials(authorization: string, decode: string -> Option<string>): (c: Option<User>)
    ensures ' ' !in authorization ==> c.None?
    ensures c.Some? ==> ':' !in c.value.username
    ensures c.Some? ==>
      decode(SplitFirst(authorization, ' ')[1]) == Some(c.value.username + ":" + c.value.password)
  {
    var parts := SplitFirst(authorization, ' ');
    if |parts| != 2 then None
    else match decode(parts[1])
      case None => None
      case Some(text) =>
        var creds := SplitFirst(text, ':');
        if |creds| != 2 then None else Some(User(creds[0], creds[1]))
  }

  /**
   * A well-formed header is understood as RFC 7617 says: the user-id is the
   * decoded text up to the first colon and the password all the rest, colons
   * included; whatever the scheme token says.
   */
  lemma CredentialsOfBasic(scheme: string, payload: string, decode: string -> Option<string>,
                           username: string, password: string)
    requires ' ' !in scheme && ':' !in username
    requires decode(payload) == Some(username + ":" + password)
    ensures Credentials(scheme + " " + payload, decode) == Some(User(username, password))
  {
    assert scheme + " " + payload == scheme + [' '] + payload;
    SplitFirstAt(scheme, payload, ' ');
    assert username + ":" + password == username + [':'] + password;
    SplitFirstAt(username, password, ':');
  }

  /** A payload that is not valid base64, or decodes to text without a colon, carries no credentials. */
  lemma MalformedPayloadRejected(scheme: string, payload: string, decode: string -> Option<string>)
    requires ' ' !in scheme
    requires decode(payload).None? || ':' !in decode(payload).value
    ensures Credentials(scheme + " " + payload, decode).None?
  {
    assert scheme + " " + payload == scheme + [' '] + payload;
    SplitFirstAt(scheme, payload, ' ');
  }

  /** The verdict isAuthorized must reach: some user of the archive has exactly these credentials. */
  predicate Authorized(authorization: string, users: seq<User>, decode: string -> Option<string>) {
    match Credentials(authorization, decode)
    case None => false
    case Some(u) => exists i :: 0 <= i < |users| && users[i] == u
  }

  /** isAuthorized (router.go:60-96): parse the header, then search the archive's users in order. */
  method IsAuthorized(authorization: string, arc: Archive, decode: string -> Option<string>) returns (ok: bool)
    ensures ok <==> Authorized(authorization, arc.users, decode)
  {
    var parts := SplitFirst(authorization, ' ');
    if |parts| != 2 {
      return false;
    }
    var bytes := decode(parts[1]);
    if bytes.None? {
      return false;
    }
    var creds := SplitFirst(bytes.value, ':');
    if |creds| != 2 {
      return false;
    }
    var username, password := creds[0], creds[1];
    var i := 0;
    while i < |arc.users|
      invariant 0 <= i <= |arc.users|
      invariant forall k :: 0 <= k < i ==> arc.users[k] != User(username, password)
    {
      if arc.users[i].username == username && arc.users[i].password == password {
        return true;
      }
      i := i + 1;
    }
    return false;
  }

  /**
   * What `post` answers, in the order it checks: archive, credentials, form,
   * url, and only then a new id and a capture task. An unknown archive and
   * bad credentials give the same 401; nothing is started unless accepted.
   */
  ghost predicate PostOutcome(archives: map<string, Archive>, req: Request, decode: string -> Option<string>,
                              newId: string, reply: Reply, task: Option<Task>)
    requires |req.path| >= 1
  {
    match GetArchiveFromURL(archives, req.path)
    case None => reply == Unauthorized && task == None
    case Some(arc) =>
      if !Authorized(req.authorization, arc.users, decode) then reply == Unauthorized && task == None
      else if !req.formOk || req.formUrl == "" then reply == BadRequest && task == None
      else reply == Accepted(newId + "\n") && task == Some(Task(arc, req.formUrl, newId))
  }

  /** post (router.go:101-140). `newId` is what `newUUID()` returns. */
  method Post(archives: map<string, Archive>, req: Request, decode: string -> Option<string>, newId: string)
    returns (reply: Reply, task: Option<Task>)
    requires |req.path| >= 1
    ensures PostOutcome(archives, req, decode, newId, reply, task)
  {
    var arc := GetArchiveFromURL(archives, req.path);
    if arc.None? {
      return Unauthorized, None;
    }
    var ok := IsAuthorized(req.authorization, arc.value, decode);
    if !ok {
      return Unauthorized, None;
    }
    if !req.formOk || req.formUrl == "" {
      return BadRequest, None;
    }
    return Accepted(newId + "\n"), Some(Task(arc.value, req.formUrl, newId));
  }

  /**
   * get (router.go:42-56) with the outcomes router.go:45-52 tells apart:
   * not found, no content for a catalogued item whose file is gone, or the
   * file's bytes.
   */
  function Get(archives: map<string, Archive>, isUUID: string -> bool, rows: seq<Row>,
               files: map<Path, Bytes>, path: string): (r: Reply)
    requires |path| >= 1
    ensures r == NotFound <==> ResolveItem(archives, isUUID, rows, files, path) == Missing
    ensures r == NoContent <==> ResolveItem(archives, isUUID, rows, files, path).Stale?
    ensures r.Content? ==> ResolveItem(archives, isUUID, rows, files, path) == Found(r.file) && r.bytes == files[r.file]
    ensures Status(r) in {404, 204, 200}
  {
    match ResolveItem(archives, isUUID, rows, files, path)
    case Missing => NotFound
    case Stale(_) => NoContent
    case Found(p) => Content(p, files[p])
  }

  /** router (router.go:32-38): GET and POST have handlers; any other method gets none. */
  method Route(archives: map<string, Archive>, s: Store, req: Request, decode: string -> Option<string>,
               isUUID: string -> bool, newId: string)
    returns (reply: Option<Reply>, task: Option<Task>)
    requires |req.path| >= 1
    ensures req.verb == "GET" ==> reply == Some(Get(archives, isUUID, s.rows, s.files, req.path)) && task == None
    ensures req.verb == "POST" ==> reply.Some? && PostOutcome(archives, req, decode, newId, reply.value, task)
    ensures req.verb != "GET" && req.verb != "POST" ==> reply == None && task == None
  {
    if req.verb == "GET" {
      reply, task := Some(Get(archives, isUUID, s.rows, s.files, req.path)), None;
    } else if req.verb == "POST" {
      var r;
      r, task := Post(archives, req, decode, newId);
      reply := Some(r);
    } else {
      reply, task := None, None;
    }
  }
}
