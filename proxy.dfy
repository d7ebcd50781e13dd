// handle_connection: one client request, from the bytes the client sent to
// the bytes sent back, the request forwarded upstream and the cache
// directory afterwards.

module Proxy {
  import opened Wrappers
  import opened CStrings
  import opened Fnv
  import opened Request
  import opened Headers
  import opened Blocklist
  import opened Cache

  /** Size of the upstream reply buffer; recv reads at most one byte less. */
  const ResponseSize: nat := 1048576

  const BadRequestPage := "<!DOCTYPE html><html><body><h1>400 Bad Request</h1></body></html>"
  const NotFoundPage := "<!DOCTYPE html><html><body><h1>404 Not Found</h1></body></html>"
  const ForbiddenPage := "<!DOCTYPE html><html><body><h1>403 Forbidden</h1></body></html>"
  const InternalErrorPage := "<!DOCTYPE html><html><body><h1>500 Internal Server Error</h1></body></html>"
  const HtmlType := "text/html"

  /** What the upstream connection does: socket() fails, connect() fails, recv() fails, or recv() returns bytes. */
  datatype Upstream = SocketFails | ConnectFails | RecvFails | Replies(data: string)

  /** Everything outside the process that one request depends on. */
  datatype Env = Env(
    dns: map<string, string>,   // gethostbyname + inet_ntoa: hostname to dotted IP
    blocklist: Option<string>,  // the contents of the file "blocklist", if it opens
    now: int,                   // time(NULL), also the mtime a stored file gets
    expiration: int,            // expiration_time_s
    upstream: Upstream,
    writeLimit: Option<nat>)    // how many bytes fwrite manages; None: all of them

  datatype Status = BadRequest | NotFound | Forbidden | InternalError | FromCache | Relayed

  /** What is sent upstream: to the IP and port, the text send_request builds. */
  datatype Forward = Forward(ip: string, port: nat, request: string)

  /** What goes back to the client: the error page of the status, in the request's version, or raw bytes. */
  datatype Answer = ErrorPage(version: string) | Bytes(data: string)

  datatype Exchange = Exchange(status: Status, answer: Answer, forwarded: Option<Forward>, files: Files)

  function Code(s: Status): string {
    match s
    case BadRequest => "400 Bad Request"
    case NotFound => "404 Not Found"
    case Forbidden => "403 Forbidden"
    case InternalError => "500 Internal Server Error"
    case _ => ""
  }

  function Page(s: Status): string {
    match s
    case BadRequest => BadRequestPage
    case NotFound => NotFoundPage
    case Forbidden => ForbiddenPage
    case InternalError => InternalErrorPage
    case _ => ""
  }

  predicate IsError(s: Status) {
    s == BadRequest || s == NotFound || s == Forbidden || s == InternalError
  }

  /** send_response(sock, CODE, version, "text/html", strlen(errmsg), errmsg) */
  function ErrorReply(s: Status, version: string): string {
    ResponseMessage(Code(s), version, HtmlType, Page(s))
  }

  /** An error answer: the page is sent and nothing else happens. */
  function Fail(s: Status, version: string, files: Files, forwarded: Option<Forward>): Exchange {
    Exchange(s, ErrorPage(version), forwarded, files)
  }

  /** The bytes sent to the client. */
  function Wire(x: Exchange): string {
    match x.answer
    case ErrorPage(version) => ErrorReply(x.status, version)
    case Bytes(data) => data
  }

  /** recv(new_sock, reply, RESPONSESIZE - 1, 0) */
  function Received(data: string): (r: string)
    ensures |r| < ResponseSize && |r| <= |data| && r == data[..|r|]
    ensures |r| == if |data| < ResponseSize then |data| else ResponseSize - 1
  {
    if |data| < ResponseSize then data else data[..ResponseSize - 1]
  }

  /** What fwrite returns for n requested bytes. */
  function Written(limit: Option<nat>, n: nat): (w: nat)
    ensures w <= n
  {
    match limit
    case None => n
    case Some(k) => if k < n then k else n
  }

  /** htons(port): the port as a 16-bit unsigned value. */
  function PortOf(port: int): (p: nat)
    ensures p < 65536 && (p - port) % 65536 == 0
  {
    port % 65536
  }

  /** The request line of what the client sent. */
  function LineOf(client: string): RequestLine {
    ParseRequestLine(RequestText(client))
  }

  /** The Host header of what the client sent. */
  function HostOf(client: string): Option<HostHeader> {
    ParseHost(RequestText(client))
  }

  /** A request that passed the checks: its request line, Host header, lowercased URL and resolved IP. */
  datatype Target = Target(line: RequestLine, host: HostHeader, url: string, ip: string)

  datatype Admission = Refused(status: Status) | Accepted(target: Target)

  /**
   * The checks before the cache, in order: a Host header (its absence, a
   * NULL dereference in the source, is a 400), the method, DNS, the
   * blocklist file (one that cannot be opened, fgets on NULL in the source,
   * is a 500) and its lines.
   */
  function Admit(client: string, env: Env): (a: Admission)
    ensures HostOf(client).None? ==> a == Refused(BadRequest)
    ensures a.Refused? ==> IsError(a.status)
    ensures a.Accepted? ==> a.target.line == LineOf(client) && HostOf(client) == Some(a.target.host)
  {
    Decide(LineOf(client), HostOf(client), env)
  }

  /** The checks, on the parsed request line and Host header. */
  function Decide(line: RequestLine, host: Option<HostHeader>, env: Env): (a: Admission)
    ensures a.Accepted? <==>
      && host.Some? && line.httpMethod == "GET" && host.value.hostname in env.dns && env.blocklist.Some?
      && !Blocked(env.blocklist.value, host.value.hostname, env.dns[host.value.hostname])
    ensures a.Accepted? ==>
      && a.target.line == line && host == Some(a.target.host) && a.target.url == Lower(line.url)
      && a.target.ip == env.dns[a.target.host.hostname]
    ensures a.Refused? ==> IsError(a.status)
  {
    match host
    case None => Refused(BadRequest)
    case Some(h) =>
      if line.httpMethod != "GET" then Refused(BadRequest)
      else if h.hostname !in env.dns then Refused(NotFound)
      else
        var ip := env.dns[h.hostname];
        match env.blocklist
        case None => Refused(InternalError)
        case Some(list) =>
          if Blocked(list, h.hostname, ip) then Refused(Forbidden)
          else Accepted(Target(line, h, Lower(line.url), ip))
  }

  /** The cache file of a request: "cache/%08X" of the hash of its lowercased URL. */
  function CacheFile(t: Target): string {
    CachePath(Fnv1a(t.url))
  }

  /** What send_request sends upstream for the request. */
  function ForwardOf(t: Target): (f: Forward)
    ensures f.ip == t.ip && f.port < 65536 && f.port == t.host.port % 65536
  {
    Forward(t.ip, PortOf(t.host.port), RequestMessage(t.line.httpMethod, PathOf(t.url), t.line.version, t.host.hostname, t.host.body))
  }

  /** After a cache miss: the upstream exchange, the relay, and the store into `file` when the path has no '?'. */
  function Relay(t: Target, file: string, env: Env, files: Files): (x: Exchange)
    ensures x.status == Relayed <==> env.upstream.Replies?
    ensures x.status != Relayed ==> x.status == InternalError && x.answer == ErrorPage(t.line.version) && x.files == files
    ensures x.forwarded.Some? <==> env.upstream.RecvFails? || env.upstream.Replies?
    ensures x.forwarded.Some? ==> x.forwarded.value == ForwardOf(t)
    ensures x.answer.ErrorPage? <==> IsError(x.status)
    ensures env.upstream.Replies? ==>
      && x.answer == Bytes(Received(env.upstream.data))
      && x.files == if IsCacheable(PathOf(t.url)) then AfterStore(files, file, x.answer.data, env.now, Written(env.writeLimit, |x.answer.data|)) else files
  {
    match env.upstream
    case SocketFails => Fail(InternalError, t.line.version, files, None)
    case ConnectFails => Fail(InternalError, t.line.version, files, None)
    case RecvFails => Fail(InternalError, t.line.version, files, Some(ForwardOf(t)))
    case Replies(data) =>
      var payload := Received(data);
      var stored :=
        if IsCacheable(PathOf(t.url)) then AfterStore(files, file, payload, env.now, Written(env.writeLimit, |payload|))
        else files;
      Exchange(Relayed, Bytes(payload), Some(ForwardOf(t)), stored)
  }

  /** The lookup of the cache file: a fresh file is sent as it is, otherwise the request goes upstream. */
  function Fetch(t: Target, file: string, env: Env, files: Files): (x: Exchange)
    ensures x.status == FromCache <==> Served(files, file, env.now, env.expiration).Some?
    ensures x.status == FromCache ==>
      x.answer == Bytes(Served(files, file, env.now, env.expiration).value) && x.forwarded == None && x.files == files
    ensures x.status != FromCache ==> x == Relay(t, file, env, AfterLookup(files, file, env.now, env.expiration))
    ensures x.answer.ErrorPage? <==> IsError(x.status)
    ensures x.answer.ErrorPage? ==> x.answer.version == t.line.version
  {
    var afterLookup := AfterLookup(files, file, env.now, env.expiration);
    match Served(files, file, env.now, env.expiration)
    case Some(bytes) => Exchange(FromCache, Bytes(bytes), None, afterLookup)
    case None => Relay(t, file, env, afterLookup)
  }

  /** One request, in the order handle_connection decides it. */
  function Handle(client: string, env: Env, files: Files): (x: Exchange)
    ensures x.answer.ErrorPage? <==> IsError(x.status)
    ensures x.answer.ErrorPage? ==> x.answer.version == LineOf(client).version
    ensures Admit(client, env).Refused? ==> x == Fail(Admit(client, env).status, LineOf(client).version, files, None)
    ensures x.forwarded.Some? ==> Admit(client, env).Accepted? && x.forwarded.value == ForwardOf(Admit(client, env).target)
    ensures x.status == FromCache ==> x.forwarded == None && x.files == files
  {
    match Admit(client, env)
    case Refused(s) => Fail(s, LineOf(client).version, files, None)
    case Accepted(t) => Fetch(t, CacheFile(t), env, files)
  }

  /** The URL buffer lowercased in place: the token, its NUL, and the loop at line 170. */
  method LowercaseUrl(u: string) returns (url: string)
    requires NUL !in u
    ensures url == Lower(u)
  {
    var a := new char[|u| + 1](i => if 0 <= i < |u| then u[i] else NUL);
    assert a[..] == u + [NUL] + [];
    CStringTerminated(u, []);
    LowerInPlace(a);
    url := a[..|u|];
  }

  /** The checks of handle_connection up to the blocklist, step by step. */
  method Check(client: string, env: Env) returns (a: Admission)
    ensures a == Admit(client, env)
    ensures a.Accepted? ==> NUL !in a.target.url
  {
    var line := LineOf(client);
    var host := HostOf(client);
    if host.None? {
      return Refused(BadRequest);
    }
    var hostname := host.value.hostname;
    UrlNulFree(client);
    var url := LowercaseUrl(line.url);
    if line.httpMethod != "GET" {
      return Refused(BadRequest);
    }
    if hostname !in env.dns {
      return Refused(NotFound);
    }
    var ip := env.dns[hostname];
    if env.blocklist.None? {
      return Refused(InternalError);
    }
    var hit := ScanBlocklist(env.blocklist.value, hostname, ip);
    if hit.Some? {
      return Refused(Forbidden);
    }
    return Accepted(Target(line, host.value, url, ip));
  }

  /** The URL, a field sscanf read from a C string, holds no NUL, before or after lowercasing. */
  lemma UrlNulFree(client: string)
    ensures NUL !in LineOf(client).url && NUL !in Lower(LineOf(client).url)
  {
    RequestLineNulFree(RequestText(client));
    LowerKeeps(LineOf(client).url, NUL);
  }

  /** The cache lookup and, on a miss, the upstream exchange, over the cache directory object. */
  method Serve(t: Target, env: Env, dir: Directory)
    returns (status: Status, reply: string, forwarded: Option<Forward>)
    requires dir.Valid() && NUL !in t.url
    modifies dir
    ensures dir.Valid()
    ensures var x := Fetch(t, CacheFile(t), env, old(dir.files));
      status == x.status && reply == Wire(x) && forwarded == x.forwarded && dir.files == x.files
  {
    CStringOfNulFree(t.url);
    var hash := ComputeHash(t.url);
    var filepath := CachePath(hash);
    assert filepath == CacheFile(t);
    CachePathShape(hash);
    var cached := dir.Lookup(filepath, env.now, env.expiration);
    FetchAfterLookup(t, filepath, env, old(dir.files));
    if cached.Some? {
      return FromCache, cached.value, None;
    }
    var version := t.line.version;
    var path := PathOf(t.url);
    forwarded := None;
    if env.upstream.SocketFails? || env.upstream.ConnectFails? {
      status := InternalError;
      reply := SendResponse(Code(status), version, HtmlType, Page(status));
      return;
    }
    var request := SendRequest(t.line.httpMethod, path, version, t.host.hostname, t.host.body);
    forwarded := Some(Forward(t.ip, PortOf(t.host.port), request));
    if env.upstream.RecvFails? {
      status := InternalError;
      reply := SendResponse(Code(status), version, HtmlType, Page(status));
      return;
    }
    var payload := Received(env.upstream.data);
    status := Relayed;
    reply := payload;
    if IsCacheable(path) {
      dir.Store(filepath, payload, env.now, Written(env.writeLimit, |payload|));
    }
  }

  /** A hit is sent from the cache; a miss goes upstream over the directory the lookup leaves. */
  lemma FetchAfterLookup(t: Target, file: string, env: Env, files: Files)
    ensures var served := Served(files, file, env.now, env.expiration);
      var after := AfterLookup(files, file, env.now, env.expiration);
      && (served.Some? ==> Fetch(t, file, env, files) == Exchange(FromCache, Bytes(served.value), None, after))
      && (served.None? ==> Fetch(t, file, env, files) == Relay(t, file, env, after))
  {
  }

  /** handle_connection over a cache directory object. */
  method HandleConnection(client: string, env: Env, dir: Directory)
    returns (status: Status, reply: string, forwarded: Option<Forward>)
    requires dir.Valid()
    modifies dir
    ensures dir.Valid()
    ensures var x := Handle(client, env, old(dir.files));
      status == x.status && reply == Wire(x) && forwarded == x.forwarded && dir.files == x.files
  {
    var a := Check(client, env);
    if a.Refused? {
      status := a.status;
      reply := SendResponse(Code(status), LineOf(client).version, HtmlType, Page(status));
      forwarded := None;
      return;
    }
    status, reply, forwarded := Serve(a.target, env, dir);
  }
}
