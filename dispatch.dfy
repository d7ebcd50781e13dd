// Properties of the per-request dispatch: which answer each stage of
// handle_connection gives, what it leaves untouched, and how the cache
// turns a relayed response into a served one.

module Dispatch {
  import opened Wrappers
  import opened CStrings
  import opened Fnv
  import opened Request
  import opened Headers
  import opened Blocklist
  import opened Cache
  import opened Proxy

  /** The request gets past the method, DNS and blocklist checks and reaches the cache. */
  predicate Passes(client: string, env: Env) {
    var host := HostOf(client);
    && host.Some?
    && LineOf(client).httpMethod == "GET"
    && host.value.hostname in env.dns
    && env.blocklist.Some?
    && !Blocked(env.blocklist.value, host.value.hostname, env.dns[host.value.hostname])
  }

  /** The accepted request carries the parsed request line, the Host header, the lowercased URL and the resolved IP. */
  lemma AdmitIffPasses(client: string, env: Env)
    ensures Admit(client, env).Accepted? <==> Passes(client, env)
    ensures Admit(client, env).Accepted? ==>
      var host := HostOf(client).value;
      Admit(client, env).target == Target(LineOf(client), host, Lower(LineOf(client).url), env.dns[host.hostname])
  {
  }

  /** A request without a Host header is a 400, whatever the environment and the cache. */
  lemma MissingHostIsBadRequest(client: string, env: Env, files: Files)
    requires HostOf(client).None?
    ensures Handle(client, env, files) == Fail(BadRequest, LineOf(client).version, files, None)
  {
  }

  /**
   * Any method but exactly "GET" is a 400 before DNS, the blocklist or the
   * cache are looked at: the answer is the same in every environment and
   * the cache is left as it was.
   */
  lemma NonGetIsBadRequest(client: string, env: Env, other: Env, files: Files)
    requires LineOf(client).httpMethod != "GET"
    ensures Handle(client, env, files) == Fail(BadRequest, LineOf(client).version, files, None)
    ensures Handle(client, other, files) == Handle(client, env, files)
  {
  }

  /** An unresolvable host is a 404; the blocklist, the cache and the upstream server are not used. */
  lemma UnresolvedIsNotFound(client: string, env: Env, files: Files)
    requires HostOf(client).Some? && LineOf(client).httpMethod == "GET"
    requires HostOf(client).value.hostname !in env.dns
    ensures Handle(client, env, files) == Fail(NotFound, LineOf(client).version, files, None)
  {
  }

  /** A blocklisted host or IP is a 403 even when a fresh copy sits in the cache, which is left as it was. */
  lemma BlockedIsForbidden(client: string, env: Env, files: Files)
    requires HostOf(client).Some? && LineOf(client).httpMethod == "GET"
    requires HostOf(client).value.hostname in env.dns && env.blocklist.Some?
    requires Blocked(env.blocklist.value, HostOf(client).value.hostname, env.dns[HostOf(client).value.hostname])
    ensures Handle(client, env, files) == Fail(Forbidden, LineOf(client).version, files, None)
  {
  }

  /** With a blocklist of short lines, listing the hostname or the IP is enough to be refused. */
  lemma ListedHostIsForbidden(line: RequestLine, host: HostHeader, env: Env, entries: seq<string>, last: string)
    requires line.httpMethod == "GET" && host.hostname in env.dns
    requires env.blocklist == Some(FileOf(entries) + last)
    requires forall i :: 0 <= i < |entries| ==> IsEntry(entries[i])
    requires IsEntry(last)
    requires host.hostname in Listed(entries, last) || env.dns[host.hostname] in Listed(entries, last)
    ensures Decide(line, Some(host), env) == Refused(Forbidden)
  {
    BlockedIffListed(entries, last, host.hostname, env.dns[host.hostname]);
  }

  /** A refused request gets the error page of its status and nothing else happens. */
  lemma RefusedIsPage(client: string, env: Env, files: Files, s: Status)
    requires Admit(client, env) == Refused(s)
    ensures Handle(client, env, files) == Fail(s, LineOf(client).version, files, None)
  {
  }

  /** An accepted request is decided by the cache stage alone. */
  lemma AcceptedGoesToCache(client: string, env: Env, files: Files, t: Target)
    requires Admit(client, env) == Accepted(t)
    ensures Handle(client, env, files) == Fetch(t, CacheFile(t), env, files)
    ensures t.line == LineOf(client)
  {
  }

  /** Admission does not depend on the clock, the expiration, the upstream server or the disk. */
  lemma DecideIgnoresRest(line: RequestLine, host: Option<HostHeader>, env: Env, other: Env)
    requires other.dns == env.dns && other.blocklist == env.blocklist
    ensures Decide(line, host, other) == Decide(line, host, env)
  {
  }

  /**
   * A fresh cache file is sent as it is: no request goes upstream, the
   * directory is unchanged, and the upstream server's behaviour does not
   * matter.
   */
  lemma FreshHitServesCache(t: Target, file: string, env: Env, files: Files, upstream: Upstream)
    requires file in files && Fresh(files[file], env.now, env.expiration)
    ensures Fetch(t, file, env, files) == Exchange(FromCache, Bytes(files[file].bytes), None, files)
    ensures Fetch(t, file, env.(upstream := upstream), files) == Fetch(t, file, env, files)
  {
  }

  /**
   * socket, connect or recv failing is a 500; an expired cache file has
   * already been removed; only a recv failure comes after the request was
   * sent.
   */
  lemma UpstreamFailureIsInternalError(t: Target, file: string, env: Env, files: Files)
    requires Served(files, file, env.now, env.expiration).None?
    requires !env.upstream.Replies?
    ensures var x := Fetch(t, file, env, files);
      && x.status == InternalError
      && x.answer == ErrorPage(t.line.version)
      && x.files == AfterLookup(files, file, env.now, env.expiration)
      && file !in x.files
      && (x.forwarded.Some? <==> env.upstream == RecvFails)
  {
  }

  /**
   * On a miss the reply is relayed unchanged (up to the buffer size), and
   * it is stored under the request's cache file exactly when the path has
   * no '?' and the write is complete; no other file changes.
   */
  lemma RelayAndStore(t: Target, file: string, env: Env, files: Files, data: string)
    requires Served(files, file, env.now, env.expiration).None?
    requires env.upstream == Replies(data)
    ensures var x := Fetch(t, file, env, files);
      var f := file;
      var payload := Received(data);
      && x.status == Relayed
      && x.answer == Bytes(payload)
      && x.forwarded == Some(ForwardOf(t))
      && (f in x.files <==> IsCacheable(PathOf(t.url)) && Written(env.writeLimit, |payload|) == |payload|)
      && (f in x.files ==> x.files[f] == Entry(payload, env.now))
      && (forall p :: p != f ==> (p in x.files <==> p in files))
      && (forall p :: p != f && p in files ==> x.files[p] == files[p])
  {
  }

  /**
   * A relayed, stored response is served from the cache to the same request
   * until it expires, with no new upstream request.
   */
  lemma RepeatIsServedFromCache(client: string, env: Env, later: Env, files: Files)
    requires Handle(client, env, files).status == Relayed
    requires Admit(client, env).Accepted? && IsCacheable(PathOf(Admit(client, env).target.url))
    requires env.writeLimit.None?
    requires later.dns == env.dns && later.blocklist == env.blocklist
    requires later.now - env.now < later.expiration
    ensures var first := Handle(client, env, files);
      Handle(client, later, first.files) == Exchange(FromCache, first.answer, None, first.files)
  {
    var t := Admit(client, env).target;
    var first := Handle(client, env, files);
    var f := CacheFile(t);
    AcceptedGoesToCache(client, env, files, t);
    DecideIgnoresRest(LineOf(client), HostOf(client), env, later);
    AcceptedGoesToCache(client, later, first.files, t);
    RepeatFetch(t, f, env, later, files);
  }

  lemma RepeatFetch(t: Target, file: string, env: Env, later: Env, files: Files)
    requires Fetch(t, file, env, files).status == Relayed
    requires IsCacheable(PathOf(t.url))
    requires env.writeLimit.None?
    requires later.now - env.now < later.expiration
    ensures var first := Fetch(t, file, env, files);
      Fetch(t, file, later, first.files) == Exchange(FromCache, first.answer, None, first.files)
  {
    var first := Fetch(t, file, env, files);
    RelayedIsStored(t, file, env, files);
    var looked := AfterLookup(files, file, env.now, env.expiration);
    StoreThenLookup(looked, file, first.answer.data, env.now, later.now, later.expiration);
  }

  /** A relayed answer to a cacheable request, written in full, is what the cache file then holds. */
  lemma RelayedIsStored(t: Target, file: string, env: Env, files: Files)
    requires Fetch(t, file, env, files).status == Relayed
    requires IsCacheable(PathOf(t.url))
    requires env.writeLimit.None?
    ensures var first := Fetch(t, file, env, files);
      var looked := AfterLookup(files, file, env.now, env.expiration);
      && first.answer.Bytes?
      && first.files == AfterStore(looked, file, first.answer.data, env.now, |first.answer.data|)
  {
  }

  /**
   * The request sent upstream reads back, with the proxy's own parser, as
   * GET of the path in the request's version, for the same hostname on the
   * default port, with the same body.
   */
  lemma ForwardedRequestParses(t: Target)
    requires t.line.httpMethod == "GET"
    requires IsToken(t.url, UrlMax) && forall i :: 0 <= i < |t.url| ==> !IsUpper(t.url[i])
    requires t.line.version != [] && IsToken(t.line.version, VersionMax)
    requires '\r' !in t.host.hostname && ':' !in t.host.hostname && |t.host.hostname| <= HostnameMax
    ensures var request := ForwardOf(t).request;
      && ParseRequestLine(request) == RequestLine("GET", PathOf(t.url), t.line.version)
      && ParseHost(request) == Some(HostHeader(t.host.hostname, DefaultPort, t.host.body))
  {
    var path := PathOf(t.url);
    PathOfToken(t.url);
    assert IsToken("GET", MethodMax);
    NoHostInRequestLine(path, t.line.version);
    RequestRoundTrip("GET", path, t.line.version, t.host.hostname, t.host.body);
  }

  /**
   * For an accepted request line and Host header, the upstream server reads
   * GET of the lowercased path in the request's version, the same hostname
   * on the default port and the same body, provided the request named a
   * version and its hostname holds no CR.
   */
  lemma ForwardedRequestOfDecision(line: RequestLine, host: Option<HostHeader>, env: Env, t: Target)
    requires Decide(line, host, env) == Accepted(t)
    requires IsToken(line.url, UrlMax) && IsToken(line.version, VersionMax)
    requires line.version != [] && '\r' !in t.host.hostname
    requires ':' !in t.host.hostname && |t.host.hostname| <= HostnameMax
    ensures var request := ForwardOf(t).request;
      && ParseRequestLine(request) == RequestLine("GET", PathOf(Lower(line.url)), line.version)
      && ParseHost(request) == Some(HostHeader(t.host.hostname, DefaultPort, host.value.body))
  {
    assert line.httpMethod == "GET";
    var url := t.url;
    assert IsToken(url, UrlMax) by {
      forall i | 0 <= i < |url| ensures !IsSpace(url[i]) {
        assert !IsSpace(line.url[i]);
      }
    }
    ForwardedRequestParses(t);
  }

  /** The same, for the bytes the client sent. */
  lemma ForwardedRequestOfClient(client: string, env: Env, t: Target)
    requires Admit(client, env) == Accepted(t)
    requires LineOf(client).version != [] && '\r' !in t.host.hostname
    ensures var request := ForwardOf(t).request;
      && ParseRequestLine(request) == RequestLine("GET", PathOf(Lower(LineOf(client).url)), LineOf(client).version)
      && ParseHost(request) == Some(HostHeader(t.host.hostname, DefaultPort, HostOf(client).value.body))
  {
    ForwardedRequestOfDecision(LineOf(client), HostOf(client), env, t);
  }

  /** A GET request as a client writes it: the request line, the Host line, then whatever follows. */
  function GetRequest(url: string, version: string, hostname: string, tail: string): string {
    "GET" + " " + url + " " + version + CRLF + HostPrefix + hostname + CRLF + tail
  }

  /**
   * Bytes that fit the receive buffer and hold no NUL are read as written:
   * the request line and the Host header are the ones the client wrote,
   * and the body is whatever follows the first blank line after the host
   * line's own CRLF.
   */
  lemma ClientRequest(url: string, version: string, hostname: string, tail: string)
    requires url != [] && IsToken(url, UrlMax) && forall i :: 0 <= i < |url| ==> !IsUpper(url[i])
    requires version != [] && IsToken(version, VersionMax)
    requires '\r' !in hostname && ':' !in hostname && |hostname| <= HostnameMax
    requires |GetRequest(url, version, hostname, tail)| < BufSize && NUL !in GetRequest(url, version, hostname, tail)
    ensures LineOf(GetRequest(url, version, hostname, tail)) == RequestLine("GET", url, version)
    ensures HostOf(GetRequest(url, version, hostname, tail)) == Some(HostHeader(hostname, DefaultPort, BodyAfter(tail)))
  {
    RequestTextOf(GetRequest(url, version, hostname, tail));
    ClientRequestLine(url, version, hostname, tail);
    ClientRequestHost(url, version, hostname, tail);
  }

  lemma ClientRequestLine(url: string, version: string, hostname: string, tail: string)
    requires url != [] && IsToken(url, UrlMax)
    requires version != [] && IsToken(version, VersionMax)
    ensures ParseRequestLine(GetRequest(url, version, hostname, tail)) == RequestLine("GET", url, version)
  {
    assert GetRequest(url, version, hostname, tail)
        == "GET" + " " + url + " " + version + (CRLF + HostPrefix + hostname + CRLF + tail);
    assert IsToken("GET", MethodMax);
    RequestLineOf("GET", url, version, CRLF + HostPrefix + hostname + CRLF + tail);
  }

  lemma ClientRequestHost(url: string, version: string, hostname: string, tail: string)
    requires IsToken(url, UrlMax) && forall i :: 0 <= i < |url| ==> !IsUpper(url[i])
    requires IsToken(version, VersionMax)
    requires '\r' !in hostname && ':' !in hostname && |hostname| <= HostnameMax
    ensures ParseHost(GetRequest(url, version, hostname, tail)) == Some(HostHeader(hostname, DefaultPort, BodyAfter(tail)))
  {
    NoHostInRequestLine(url, version);
    ParseHostOf("GET" + " " + url + " " + version, hostname, tail);
  }

  /**
   * A client request whose Host line is the last header loses its body: the
   * search for the blank line starts after the host line's own CRLF, so the
   * request sent upstream has no body and no blank line ending its headers.
   */
  lemma HostLastLosesBody(url: string, version: string, hostname: string, body: string, env: Env, t: Target)
    requires url != [] && IsToken(url, UrlMax) && forall i :: 0 <= i < |url| ==> !IsUpper(url[i])
    requires version != [] && IsToken(version, VersionMax)
    requires '\r' !in hostname && ':' !in hostname && |hostname| <= HostnameMax && '\r' !in body
    requires var client := GetRequest(url, version, hostname, CRLF + body);
      |client| < BufSize && NUL !in client && Admit(client, env) == Accepted(t)
    ensures t.host == HostHeader(hostname, DefaultPort, None)
    ensures Find(ForwardOf(t).request, BlankLine) == None
  {
    AcceptedClientRequest(url, version, hostname, CRLF + body, env, t);
    NoBlankLineAfterCrlf(body);
    RequestWithoutBodyUnterminated("GET", PathOf(t.url), version, hostname);
  }

  /**
   * With further header lines after Host, the body is found, but those
   * lines are not forwarded and the body reaches the upstream server after
   * an extra CRLF: an empty body still adds a blank line of its own.
   */
  lemma HeadersAfterHostDropped(url: string, version: string, hostname: string, ls: seq<string>, body: string, env: Env, t: Target)
    requires url != [] && IsToken(url, UrlMax) && forall i :: 0 <= i < |url| ==> !IsUpper(url[i])
    requires version != [] && IsToken(version, VersionMax)
    requires '\r' !in hostname && ':' !in hostname && |hostname| <= HostnameMax
    requires ls != [] && forall i :: 0 <= i < |ls| ==> IsLine(ls[i])
    requires var client := GetRequest(url, version, hostname, Lines(ls) + CRLF + body);
      |client| < BufSize && NUL !in client && Admit(client, env) == Accepted(t)
    ensures t.host == HostHeader(hostname, DefaultPort, Some(body))
    ensures var request := ForwardOf(t).request;
      var head := "GET" + " " + PathOf(t.url) + " " + version + CRLF + HostPrefix + hostname + CRLF;
      && Find(request, BlankLine) == Some(|head| - 2)
      && request[|head| + 2..] == CRLF + body
  {
    BodyAfterLines(ls, body);
    AcceptedWithBody(url, version, hostname, Lines(ls) + CRLF + body, body, env, t);
  }

  /** An accepted client request whose text after the Host line holds a body forwards it after an extra CRLF. */
  lemma AcceptedWithBody(url: string, version: string, hostname: string, tail: string, body: string, env: Env, t: Target)
    requires url != [] && IsToken(url, UrlMax) && forall i :: 0 <= i < |url| ==> !IsUpper(url[i])
    requires version != [] && IsToken(version, VersionMax)
    requires '\r' !in hostname && ':' !in hostname && |hostname| <= HostnameMax
    requires BodyAfter(tail) == Some(body)
    requires var client := GetRequest(url, version, hostname, tail);
      |client| < BufSize && NUL !in client && Admit(client, env) == Accepted(t)
    ensures t.host == HostHeader(hostname, DefaultPort, Some(body))
    ensures var request := ForwardOf(t).request;
      var head := "GET" + " " + PathOf(t.url) + " " + version + CRLF + HostPrefix + hostname + CRLF;
      && Find(request, BlankLine) == Some(|head| - 2)
      && request[|head| + 2..] == CRLF + body
  {
    AcceptedClientRequest(url, version, hostname, tail, env, t);
    ForwardedBodyAfterExtraLine(t, body);
  }

  /** The request forwarded for a target whose Host header carries a body: one blank line, then CRLF and the body. */
  lemma ForwardedBodyAfterExtraLine(t: Target, body: string)
    requires '\r' !in t.line.httpMethod && '\r' !in t.line.version && '\r' !in t.host.hostname && '\r' !in PathOf(t.url)
    requires t.host.body == Some(body)
    ensures var request := ForwardOf(t).request;
      var head := t.line.httpMethod + " " + PathOf(t.url) + " " + t.line.version + CRLF + HostPrefix + t.host.hostname + CRLF;
      && Find(request, BlankLine) == Some(|head| - 2)
      && request[|head| + 2..] == CRLF + body
  {
    RequestBodyAfterExtraLine(t.line.httpMethod, PathOf(t.url), t.line.version, t.host.hostname, body);
  }

  /** The target of an accepted client request: its line and Host header, and a CR-free path. */
  lemma AcceptedClientRequest(url: string, version: string, hostname: string, tail: string, env: Env, t: Target)
    requires url != [] && IsToken(url, UrlMax) && forall i :: 0 <= i < |url| ==> !IsUpper(url[i])
    requires version != [] && IsToken(version, VersionMax)
    requires '\r' !in hostname && ':' !in hostname && |hostname| <= HostnameMax
    requires var client := GetRequest(url, version, hostname, tail);
      |client| < BufSize && NUL !in client && Admit(client, env) == Accepted(t)
    ensures t.line == RequestLine("GET", url, version) && t.url == Lower(url)
    ensures t.host == HostHeader(hostname, DefaultPort, BodyAfter(tail))
    ensures '\r' !in PathOf(t.url)
  {
    ClientRequest(url, version, hostname, tail);
    LowerKeeps(url, '\r');
    PathFromUrl(t.url, '\r');
  }

  /** Every error answer is the error page of its status, sent with the request's version. */
  lemma ErrorsArePages(client: string, env: Env, files: Files)
    requires IsError(Handle(client, env, files).status)
    ensures Handle(client, env, files).answer == ErrorPage(LineOf(client).version)
  {
    match Admit(client, env)
    case Refused(s) => RefusedIsPage(client, env, files, s);
    case Accepted(t) =>
      AcceptedGoesToCache(client, env, files, t);
      FetchErrorsArePages(t, CacheFile(t), env, files);
  }

  lemma FetchErrorsArePages(t: Target, file: string, env: Env, files: Files)
    requires IsError(Fetch(t, file, env, files).status)
    ensures Fetch(t, file, env, files).answer == ErrorPage(t.line.version)
  {
  }

  /**
   * Every error page is well framed: the status line names the version and
   * the code, the body follows the first blank line, and Content-Length is
   * its length.
   */
  lemma ErrorReplyIsFramed(s: Status, version: string)
    requires IsError(s) && IsToken(version, VersionMax)
    ensures var reply := ErrorReply(s, version);
      var head := ResponseHead(Code(s), version, HtmlType, |Page(s)|);
      && StatusLine(reply) == Some(version + " " + Code(s))
      && Find(reply, BlankLine) == Some(|head| - 4)
      && reply[|head|..] == Page(s)
      && ContentLength(reply) == Some(|Page(s)|)
  {
    assert '\r' !in version by {
      forall i | 0 <= i < |version| ensures version[i] != '\r' {
        assert !IsSpace(version[i]);
      }
    }
    PageFits(s);
    ResponseFraming(Code(s), version, HtmlType, Page(s));
  }

  /** Every status code is one header field, and every error page is short. */
  lemma PageFits(s: Status)
    ensures '\r' !in Code(s) && |Page(s)| < 1000000000
  {
  }
}
