// Request parsing inside handle_connection: the request line, the Host
// header, the optional body, the lowercased URL and the path sent upstream.

module Request {
  import opened Wrappers
  import opened CStrings

  /** Size of the client buffer `buf`; recv reads at most one byte less. */
  const BufSize := 4096
  const MethodMax := 15
  const UrlMax := 255
  const VersionMax := 15
  /** strncpy(hostname, host_header, sizeof(hostname) - 1) */
  const HostnameMax := 255
  const DefaultPort := 80

  const HostPrefix := "Host: "
  const CRLF := "\r\n"
  const BlankLine := "\r\n\r\n"

  /** The request text: recv(sock, buf, BUFSIZE - 1, 0) then buf[received] = '\0'. */
  function RequestText(client: string): (text: string)
    ensures |text| < BufSize && NUL !in text
    ensures |text| <= |client| && text == client[..|text|]
    ensures |text| < |client| && |text| < BufSize - 1 ==> client[|text|] == NUL
  {
    CString(if |client| < BufSize then client else client[..BufSize - 1])
  }

  /** A short NUL-free request is read whole. */
  lemma RequestTextOf(client: string)
    requires |client| < BufSize && NUL !in client
    ensures RequestText(client) == client
  {
    CStringOfNulFree(client);
  }

  // ---- sscanf(buf, "%15s %255s %15s", method, url, version) ----

  /** At most max characters, none of them white space: what a "%<max>s" conversion stores. */
  predicate IsToken(s: string, max: nat) {
    |s| <= max && forall i :: 0 <= i < |s| ==> !IsSpace(s[i])
  }

  /** The number of characters a "%<max>s" conversion takes from t (t does not start with white space). */
  function TokenLength(t: string, max: nat): (n: nat)
    ensures n <= max && n <= |t|
    ensures forall i :: 0 <= i < n ==> !IsSpace(t[i])
    ensures n < max && n < |t| ==> IsSpace(t[n])
    ensures max > 0 && t != [] && !IsSpace(t[0]) ==> n > 0
    decreases max
  {
    if max == 0 || t == [] || IsSpace(t[0]) then 0 else 1 + TokenLength(t[1..], max - 1)
  }

  /** One "%<max>s" conversion: skip white space, take up to max non-space characters; None on input failure. */
  function ScanToken(s: string, max: nat): (r: Option<(string, string)>)
    requires max > 0
    ensures r.None? <==> SkipSpaces(s) == []
    ensures r.Some? ==> r.value.0 != [] && IsToken(r.value.0, max)
    ensures r.Some? ==> SkipSpaces(s) == r.value.0 + r.value.1
  {
    var t := SkipSpaces(s);
    if t == [] then None
    else
      var n := TokenLength(t, max);
      TokenSplit(t, max);
      Some((t[..n], t[n..]))
  }

  /** What a conversion takes is a token, non-empty when t starts with a non-space character. */
  lemma TokenSplit(t: string, max: nat)
    ensures var n := TokenLength(t, max);
      && t[..n] + t[n..] == t
      && IsToken(t[..n], max)
      && (max > 0 && t != [] && !IsSpace(t[0]) ==> t[..n] != [])
  {
    var n := TokenLength(t, max);
    var tok := t[..n];
    assert tok + t[n..] == t;
    assert IsToken(tok, max) by {
      forall i | 0 <= i < |tok| ensures !IsSpace(tok[i]) {
        assert tok[i] == t[i];
      }
    }
  }

  datatype RequestLine = RequestLine(httpMethod: string, url: string, version: string)

  /**
   * The three leading tokens of the request.  A token sscanf cannot read
   * (input exhausted) is the empty string here: the C arrays stay
   * uninitialised in that case.
   */
  function ParseRequestLine(text: string): (r: RequestLine)
    ensures IsToken(r.httpMethod, MethodMax) && IsToken(r.url, UrlMax) && IsToken(r.version, VersionMax)
  {
    match ScanToken(text, MethodMax)
    case None => RequestLine("", "", "")
    case Some((m, r1)) =>
      match ScanToken(r1, UrlMax)
      case None => RequestLine(m, "", "")
      case Some((u, r2)) =>
        match ScanToken(r2, VersionMax)
        case None => RequestLine(m, u, "")
        case Some((v, _)) => RequestLine(m, u, v)
  }

  /** A conversion stops at the first white space, or after max characters. */
  lemma TokenLengthIs(t: string, max: nat, n: nat)
    requires n <= max && n <= |t|
    requires forall i :: 0 <= i < n ==> !IsSpace(t[i])
    requires n == |t| || n == max || IsSpace(t[n])
    ensures TokenLength(t, max) == n
  {
  }

  /** Scanning white space, a token and a rest that cannot extend it yields that token and that rest. */
  lemma ScanTokenOf(w: string, tok: string, rest: string, max: nat)
    requires max > 0
    requires forall i :: 0 <= i < |w| ==> IsSpace(w[i])
    requires tok != [] && IsToken(tok, max)
    requires rest == [] || IsSpace(rest[0]) || |tok| == max
    ensures ScanToken(w + tok + rest, max) == Some((tok, rest))
  {
    assert w + tok + rest == w + (tok + rest);
    SkipSpacesIs(w, tok + rest);
    var t := tok + rest;
    assert |tok| < |t| ==> t[|tok|] == rest[0];
    TokenLengthIs(t, max, |tok|);
    assert t[..|tok|] == tok && t[|tok|..] == rest;
  }

  /** Three successful conversions fill the three fields. */
  lemma RequestLineOfScans(text: string, m: string, r1: string, u: string, r2: string, v: string, rest: string)
    requires ScanToken(text, MethodMax) == Some((m, r1))
    requires ScanToken(r1, UrlMax) == Some((u, r2))
    requires ScanToken(r2, VersionMax) == Some((v, rest))
    ensures ParseRequestLine(text) == RequestLine(m, u, v)
  {
  }

  /** method, url and version are the first three space-separated tokens of the request. */
  lemma RequestLineOf(m: string, u: string, v: string, rest: string)
    requires m != [] && IsToken(m, MethodMax)
    requires u != [] && IsToken(u, UrlMax)
    requires v != [] && IsToken(v, VersionMax)
    requires rest == [] || IsSpace(rest[0])
    ensures ParseRequestLine(m + " " + u + " " + v + rest) == RequestLine(m, u, v)
  {
    var text := m + " " + u + " " + v + rest;
    var r2 := " " + v + rest;
    var r1 := " " + u + r2;
    ScanFirstToken(m, u, v, rest);
    ScanNextToken(u, r2, UrlMax);
    ScanNextToken(v, rest, VersionMax);
    RequestLineOfScans(text, m, r1, u, r2, v, rest);
  }

  /** The first conversion takes the method. */
  lemma ScanFirstToken(m: string, u: string, v: string, rest: string)
    requires m != [] && IsToken(m, MethodMax)
    ensures ScanToken(m + " " + u + " " + v + rest, MethodMax) == Some((m, " " + u + (" " + v + rest)))
  {
    var r1 := " " + u + (" " + v + rest);
    assert m + " " + u + " " + v + rest == [] + m + r1;
    ScanTokenOf([], m, r1, MethodMax);
  }

  /** A later conversion skips the separating space and takes the next token. */
  lemma ScanNextToken(tok: string, rest: string, max: nat)
    requires max > 0 && tok != [] && IsToken(tok, max)
    requires rest == [] || IsSpace(rest[0]) || |tok| == max
    ensures ScanToken(" " + tok + rest, max) == Some((tok, rest))
  {
    ScanTokenOf(" ", tok, rest, max);
  }

  /** A conversion copies characters of its input, so it stores no NUL from a C string. */
  lemma ScanTokenNulFree(s: string, max: nat)
    requires max > 0 && NUL !in s
    ensures ScanToken(s, max).Some? ==> NUL !in ScanToken(s, max).value.0 && NUL !in ScanToken(s, max).value.1
  {
    var t := SkipSpaces(s);
    forall i | 0 <= i < |t| ensures t[i] != NUL {
      assert t[i] == s[|s| - |t| + i];
    }
  }

  /** The fields sscanf reads from a C string hold no NUL. */
  lemma RequestLineNulFree(text: string)
    requires NUL !in text
    ensures var r := ParseRequestLine(text);
      NUL !in r.httpMethod && NUL !in r.url && NUL !in r.version
  {
    ScanTokenNulFree(text, MethodMax);
    if ScanToken(text, MethodMax).Some? {
      var r1 := ScanToken(text, MethodMax).value.1;
      ScanTokenNulFree(r1, UrlMax);
      if ScanToken(r1, UrlMax).Some? {
        ScanTokenNulFree(ScanToken(r1, UrlMax).value.1, VersionMax);
      }
    }
  }

  // ---- the Host header and the optional body ----

  datatype HostHeader = HostHeader(hostname: string, port: int, body: Option<string>)

  function Truncate(s: string, n: nat): (r: string)
    ensures |r| <= n && |r| <= |s| && r == s[..|r|]
    ensures |s| <= n ==> r == s
  {
    if |s| <= n then s else s[..n]
  }

  /**
   * The Host header: the text after the first "Host: " up to the first CRLF
   * is the host line; it splits at its first ':' into the hostname and the
   * port text (atoi), the port defaulting to 80.  The body is what follows
   * the first blank line found from just after the host line's CRLF.
   * None when there is no "Host: " at all (a NULL dereference in the C code),
   * and no body when the host line has no CRLF (strstr(NULL + 2, ...) in C).
   */
  function ParseHost(text: string): (r: Option<HostHeader>)
    ensures r.None? <==> Find(text, HostPrefix).None?
    ensures r.Some? ==> |r.value.hostname| <= HostnameMax && ':' !in r.value.hostname
  {
    match Find(text, HostPrefix)
    case None => None
    case Some(i) =>
      var afterHost := text[i + |HostPrefix|..];
      var hostEnd := Find(afterHost, CRLF);
      var hostLine := if hostEnd.Some? then afterHost[..hostEnd.value] else afterHost;
      var body :=
        if hostEnd.None? then None
        else BodyAfter(afterHost[hostEnd.value + |CRLF|..]);
      Some(HostHeader(Truncate(HostName(hostLine), HostnameMax), HostPort(hostLine), body))
  }

  /** The host line up to its first ':', or all of it. */
  function HostName(hostLine: string): (r: string)
    ensures ':' !in r
    ensures Find(hostLine, ":").None? ==> r == hostLine
    ensures ':' !in hostLine ==> r == hostLine
    ensures ':' in hostLine ==> |r| < |hostLine| && hostLine[|r|] == ':' && r == hostLine[..|r|]
  {
    FindChar(hostLine, ':');
    match Find(hostLine, ":")
    case Some(j) => hostLine[..j]
    case None => hostLine
  }

  /** atoi of the host line after its first ':', or 80 without one. */
  function HostPort(hostLine: string): (p: int)
    ensures ':' !in hostLine ==> p == DefaultPort
    ensures ':' in hostLine ==> p == Atoi(hostLine[|HostName(hostLine)| + 1..])
  {
    FindChar(hostLine, ':');
    match Find(hostLine, ":")
    case Some(j) =>
      assert HostName(hostLine) == hostLine[..j];
      Atoi(hostLine[j + 1..])
    case None => DefaultPort
  }

  /**
   * The body strstr finds in what follows the host line's CRLF: present
   * exactly when a blank line occurs there, and then everything after the
   * first one.
   */
  function BodyAfter(tail: string): (r: Option<string>)
    ensures r.Some? <==> Find(tail, BlankLine).Some?
    ensures r.Some? ==> var b := Find(tail, BlankLine).value;
      tail == tail[..b] + BlankLine + r.value
  {
    match Find(tail, BlankLine)
    case Some(b) =>
      assert tail == tail[..b] + tail[b..b + 4] + tail[b + 4..];
      Some(tail[b + |BlankLine|..])
    case None => None
  }

  /**
   * The Host header as the code evidently intends it: the body is looked for
   * from the host line's own CRLF on, in the text as received, before that
   * CR is overwritten with a NUL, so a blank line right after the Host line
   * ends the header.
   */
  function ParseHostIntended(text: string): (r: Option<HostHeader>)
    ensures r.None? <==> Find(text, HostPrefix).None?
    ensures r.Some? ==> |r.value.hostname| <= HostnameMax && ':' !in r.value.hostname
  {
    match Find(text, HostPrefix)
    case None => None
    case Some(i) =>
      var afterHost := text[i + |HostPrefix|..];
      var hostEnd := Find(afterHost, CRLF);
      var hostLine := if hostEnd.Some? then afterHost[..hostEnd.value] else afterHost;
      var body :=
        if hostEnd.None? then None
        else BodyAfter(afterHost[hostEnd.value..]);
      Some(HostHeader(Truncate(HostName(hostLine), HostnameMax), HostPort(hostLine), body))
  }

  /** A CRLF followed by CR-free text holds no blank line. */
  lemma NoBlankLineAfterCrlf(body: string)
    requires '\r' !in body
    ensures Find(CRLF + body, BlankLine) == None
  {
    var s := CRLF + body;
    forall k | 0 <= k <= |s| ensures !MatchAt(s, k, BlankLine) {
      if k == 0 {
        if |s| > 2 { assert s[2] == body[0]; Mismatch(s, 0, BlankLine, 2); }
      } else if k == 1 {
        Mismatch(s, 1, BlankLine, 0);
      } else if k < |s| {
        assert s[k] == body[k - 2];
        Mismatch(s, k, BlankLine, 0);
      }
    }
    FindNone(s, BlankLine);
  }

  /** The first "Host: " is the one that opens the line after a line without one. */
  lemma HostPrefixFound(line: string, z: string)
    requires Find(line, HostPrefix) == None
    ensures Find(line + CRLF + (HostPrefix + z), HostPrefix) == Some(|line| + |CRLF|)
  {
    var x := line + CRLF;
    var y := HostPrefix + z;
    var text := x + y;
    assert text == line + (CRLF + y);
    forall k | 0 <= k < |x| ensures !MatchAt(text, k, HostPrefix) {
      if k + |HostPrefix| <= |line| {
        MatchAtPrefix(line, CRLF + y, k, HostPrefix);
      } else if k <= |line| {
        assert text[|line|] == '\r';
        Mismatch(text, k, HostPrefix, |line| - k);
      } else {
        assert text[k] == '\n';
        Mismatch(text, k, HostPrefix, 0);
      }
    }
    FindShift(x, y, HostPrefix);
    FindAtStart(HostPrefix, z);
  }

  /** The first CRLF after a CR-free hostname ends the host line. */
  lemma HostLineEnd(h: string, tail: string)
    requires '\r' !in h
    ensures Find(h + CRLF + tail, CRLF) == Some(|h|)
  {
    var z := h + (CRLF + tail);
    assert h + CRLF + tail == z;
    forall k | 0 <= k < |h| ensures !MatchAt(z, k, CRLF) {
      assert z[k] == h[k];
      Mismatch(z, k, CRLF, 0);
    }
    FindShift(h, CRLF + tail, CRLF);
    FindAtStart(CRLF, tail);
  }

  /**
   * A request whose first "Host: " opens its second line: the host line is
   * the rest of that line, and the body is looked for after its CRLF.
   */
  lemma ParseHostLine(line: string, hl: string, tail: string)
    requires Find(line, HostPrefix) == None && '\r' !in hl
    ensures ParseHost(line + CRLF + HostPrefix + hl + CRLF + tail)
         == Some(HostHeader(Truncate(HostName(hl), HostnameMax), HostPort(hl), BodyAfter(tail)))
  {
    var z := hl + CRLF + tail;
    var text := line + CRLF + (HostPrefix + z);
    assert line + CRLF + HostPrefix + hl + CRLF + tail == text;
    HostPrefixFound(line, z);
    var afterHost := text[|line| + |CRLF| + |HostPrefix|..];
    assert afterHost == z;
    HostLineEnd(hl, tail);
    assert afterHost[..|hl|] == hl;
    assert afterHost[|hl| + |CRLF|..] == tail;
  }

  /** The same request with the body looked for as intended: from the host line's CRLF on. */
  lemma ParseHostIntendedLine(line: string, hl: string, tail: string)
    requires Find(line, HostPrefix) == None && '\r' !in hl
    ensures ParseHostIntended(line + CRLF + HostPrefix + hl + CRLF + tail)
         == Some(HostHeader(Truncate(HostName(hl), HostnameMax), HostPort(hl), BodyAfter(CRLF + tail)))
  {
    var z := hl + CRLF + tail;
    var text := line + CRLF + (HostPrefix + z);
    assert line + CRLF + HostPrefix + hl + CRLF + tail == text;
    HostPrefixFound(line, z);
    var afterHost := text[|line| + |CRLF| + |HostPrefix|..];
    assert afterHost == z;
    HostLineEnd(hl, tail);
    assert afterHost[..|hl|] == hl;
    assert afterHost[|hl|..] == CRLF + tail;
  }

  /** A host line without ':' (and without CR) is the hostname, on port 80. */
  lemma ParseHostOf(line: string, h: string, tail: string)
    requires Find(line, HostPrefix) == None
    requires '\r' !in h && ':' !in h && |h| <= HostnameMax
    ensures ParseHost(line + CRLF + HostPrefix + h + CRLF + tail)
         == Some(HostHeader(h, DefaultPort, BodyAfter(tail)))
  {
    ParseHostLine(line, h, tail);
    FindCharAbsent(h, ':');
  }

  /**
   * With a port: the hostname stops at the ':' and the port is atoi of the
   * rest of the host line.
   */
  lemma ParseHostWithPort(line: string, h: string, p: string, tail: string)
    requires Find(line, HostPrefix) == None
    requires '\r' !in h && ':' !in h && |h| <= HostnameMax && '\r' !in p
    ensures ParseHost(line + CRLF + HostPrefix + h + ":" + p + CRLF + tail)
         == Some(HostHeader(h, Atoi(p), BodyAfter(tail)))
  {
    var hl := h + ":" + p;
    assert '\r' !in hl by {
      forall k | 0 <= k < |hl| ensures hl[k] != '\r' {
        if k < |h| { assert hl[k] == h[k]; } else if k > |h| { assert hl[k] == p[k - |h| - 1]; }
      }
    }
    assert line + CRLF + HostPrefix + h + ":" + p + CRLF + tail == line + CRLF + HostPrefix + hl + CRLF + tail;
    ParseHostLine(line, hl, tail);
    HostLineWithPort(h, p);
  }

  /** The first ':' of a host line separates the hostname from the port text. */
  lemma HostLineWithPort(h: string, p: string)
    requires ':' !in h
    ensures HostName(h + ":" + p) == h && HostPort(h + ":" + p) == Atoi(p)
  {
    var hl := h + ":" + p;
    FindCharAbsent(h, ':');
    assert hl == h + ([':'] + p);
    FindShift(h, [':'] + p, ":");
    FindAtStart(":", p);
    assert hl[..|h|] == h;
    assert hl[|h| + 1..] == p;
  }

  // ---- for (int i = 0; url[i]; i++) url[i] = tolower(url[i]) ----

  predicate IsUpper(c: char) {
    'A' <= c <= 'Z'
  }

  /** tolower in the C locale. */
  function ToLower(c: char): (d: char)
    ensures !IsUpper(d)
    ensures IsUpper(c) ==> d as int == c as int + 32
    ensures !IsUpper(c) ==> d == c
  {
    if IsUpper(c) then (c as int + 32) as char else c
  }

  /** ASCII lowercasing of a whole string. */
  function Lower(s: string): (r: string)
    ensures |r| == |s|
    ensures forall i :: 0 <= i < |r| ==> !IsUpper(r[i])
    ensures forall i :: 0 <= i < |r| ==> (if IsUpper(s[i]) then r[i] as int == s[i] as int + 32 else r[i] == s[i])
  {
    seq(|s|, i requires 0 <= i < |s| => ToLower(s[i]))
  }

  /** Lowercasing is idempotent. */
  lemma LowerIdempotent(s: string)
    ensures Lower(Lower(s)) == Lower(s)
  {
  }

  /** Lowercasing keeps the characters that are not letters, NUL among them. */
  lemma LowerKeeps(s: string, c: char)
    requires !IsUpper(c) && !('a' <= c <= 'z')
    ensures c in Lower(s) <==> c in s
  {
    if c in s {
      var i :| 0 <= i < |s| && s[i] == c;
      assert Lower(s)[i] == c;
    }
    if c in Lower(s) {
      var i :| 0 <= i < |s| && Lower(s)[i] == c;
      assert s[i] == c;
    }
  }

  /** The loop at the url buffer: lowercase in place up to the terminating NUL. */
  method LowerInPlace(a: array<char>)
    modifies a
    ensures var n := |CString(old(a[..]))|;
      a[..] == Lower(old(a[..])[..n]) + old(a[..])[n..]
  {
    ghost var s := a[..];
    ghost var n := |CString(s)|;
    var i := 0;
    while i < a.Length && a[i] != NUL
      invariant 0 <= i <= n
      invariant forall k :: 0 <= k < i ==> a[k] == ToLower(s[k])
      invariant forall k :: i <= k < a.Length ==> a[k] == s[k]
    {
      a[i] := ToLower(a[i]);
      i := i + 1;
    }
    assert i == n;
    assert a[..] == Lower(s[..n]) + s[n..];
  }

  // ---- the path sent upstream ----

  /** The URL after its "scheme://", or the whole URL when it has none. */
  function AfterScheme(url: string): (r: string)
    ensures |r| <= |url| && r == url[|url| - |r|..]
    ensures Find(url, "://").Some? ==> r == url[Find(url, "://").value + 3..]
    ensures Find(url, "://").None? ==> r == url
  {
    match Find(url, "://")
    case Some(i) => url[i + 3..]
    case None => url
  }

  /**
   * The path: from the first '/' after any "scheme://", or "/" when there is
   * no such '/'.
   */
  function PathOf(url: string): (r: string)
    ensures r != [] && r[0] == '/'
    ensures var rest := AfterScheme(url);
      || (r == "/" && '/' !in rest)
      || (|r| <= |rest| && r == rest[|rest| - |r|..] && '/' !in rest[..|rest| - |r|])
  {
    var rest := AfterScheme(url);
    FindChar(rest, '/');
    match Find(rest, "/")
    case Some(j) => rest[j..]
    case None => "/"
  }

  /** The path is "/" or a suffix of the URL. */
  lemma PathIsSuffix(url: string)
    ensures var r := PathOf(url);
      r == "/" || (|r| <= |url| && r == url[|url| - |r|..])
  {
    var r := PathOf(url);
    var rest := AfterScheme(url);
    if r != "/" {
      assert url[|url| - |rest|..][|rest| - |r|..] == url[|url| - |r|..];
    }
  }

  /** So the path has no character the URL lacks but '/'. */
  lemma PathFromUrl(url: string, c: char)
    requires c != '/'
    ensures c in PathOf(url) ==> c in url
  {
    var r := PathOf(url);
    PathIsSuffix(url);
    if r != "/" {
      forall i | 0 <= i < |r| ensures r[i] in url {
        assert r[i] == url[|url| - |r| + i];
      }
    }
  }

  /** A URL that is a token in lower case gives a path that is one too. */
  lemma PathOfToken(url: string)
    requires IsToken(url, UrlMax) && forall i :: 0 <= i < |url| ==> !IsUpper(url[i])
    ensures IsToken(PathOf(url), UrlMax) && forall i :: 0 <= i < |PathOf(url)| ==> !IsUpper(PathOf(url)[i])
  {
    var path := PathOf(url);
    PathIsSuffix(url);
    forall i | 0 <= i < |path| ensures !IsSpace(path[i]) && !IsUpper(path[i]) {
      if path != "/" {
        assert path[i] == url[|url| - |path| + i];
      }
    }
  }

  /** if (!strchr(path, '?')): only a path without a query is cached. */
  predicate IsCacheable(path: string) {
    '?' !in path
  }

  /** A URL without '?' always gives a cacheable path. */
  lemma QueryFreeUrlIsCacheable(url: string)
    requires '?' !in url
    ensures IsCacheable(PathOf(url))
  {
    PathFromUrl(url, '?');
  }
}
