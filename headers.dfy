// The messages send_response and send_request put on the wire, built by
// string concatenation into a `header` buffer.

module Headers {
  import opened Wrappers
  import opened CStrings
  import opened Request

  /** A header line: non-empty, with no CR in it. */
  predicate IsLine(l: string) {
    l != [] && '\r' !in l
  }

  /** Header lines, each followed by CRLF. */
  function Lines(ls: seq<string>): string
    decreases |ls|
  {
    if ls == [] then [] else ls[0] + CRLF + Lines(ls[1..])
  }

  /** snprintf(content_size_str, 10, "%ld", content_size): the first nine characters at most. */
  function SizeField(n: nat): (r: string)
    ensures r != [] && forall i :: 0 <= i < |r| ==> IsDigit(r[i])
  {
    var d := Decimal(n);
    if |d| <= 9 then d else d[..9]
  }

  const ContentTypePrefix := "Content-Type: "
  const ContentLengthPrefix := "Content-Length: "

  /** The header of send_response: status line, Content-Type, Content-Length, blank line. */
  function ResponseHead(code: string, version: string, contentType: string, size: nat): string {
    Lines([version + " " + code, ContentTypePrefix + contentType, ContentLengthPrefix + SizeField(size)]) + CRLF
  }

  /** What send_response sends: the header, then the contents. */
  function ResponseMessage(code: string, version: string, contentType: string, contents: string): (msg: string)
    ensures var sl := version + " " + code + CRLF;
      |msg| >= |sl| + |contents| && msg[..|sl|] == sl && msg[|msg| - |contents|..] == contents
  {
    var sl := version + " " + code;
    var ct := ContentTypePrefix + contentType;
    var cl := ContentLengthPrefix + SizeField(|contents|);
    LinesThree(sl, ct, cl);
    var msg := ResponseHead(code, version, contentType, |contents|) + contents;
    assert msg == (sl + CRLF) + (ct + CRLF + (cl + CRLF) + CRLF) + contents;
    msg
  }

  /**
   * What send_request sends, as written: the request line and the Host line,
   * then "\r\n\r\n" and the body only when there is a body.
   */
  function RequestMessage(httpMethod: string, path: string, version: string, hostname: string, body: Option<string>): (msg: string)
    ensures var head := httpMethod + " " + path + " " + version + CRLF + HostPrefix + hostname + CRLF;
      && |msg| >= |head| && msg[..|head|] == head
      && (body.None? <==> |msg| == |head|)
      && (body.Some? ==> msg[|head|..] == BlankLine + body.value)
  {
    var rl := httpMethod + " " + path + " " + version;
    var hl := HostPrefix + hostname;
    LinesTwo(rl, hl);
    Lines([rl, hl]) + (match body case Some(b) => BlankLine + b case None => "")
  }

  // ---- the two builders, step by step ----

  /** send_response's header construction (strcpy/strcat) and the appended contents. */
  method SendResponse(code: string, version: string, contentType: string, contents: string) returns (msg: string)
    ensures msg == ResponseMessage(code, version, contentType, contents)
  {
    var header := version;
    header := header + " ";
    header := header + code;
    header := header + CRLF;
    header := header + ContentTypePrefix;
    header := header + contentType;
    header := header + CRLF;
    header := header + ContentLengthPrefix;
    var sizeStr := SizeField(|contents|);
    header := header + sizeStr;
    header := header + BlankLine;
    msg := header + contents;
    LinesThree(version + " " + code, ContentTypePrefix + contentType, ContentLengthPrefix + sizeStr);
  }

  /** send_request's header construction (strcpy/strcat). */
  method SendRequest(httpMethod: string, path: string, version: string, hostname: string, body: Option<string>)
    returns (msg: string)
    ensures msg == RequestMessage(httpMethod, path, version, hostname, body)
  {
    var header := httpMethod;
    header := header + " ";
    header := header + path;
    header := header + " ";
    header := header + version;
    header := header + CRLF;
    header := header + HostPrefix;
    header := header + hostname;
    header := header + CRLF;
    LinesTwo(httpMethod + " " + path + " " + version, HostPrefix + hostname);
    if body.Some? {
      header := header + BlankLine;
      header := header + body.value;
    }
    msg := header;
  }

  // ---- framing ----

  lemma LinesOne(a: string)
    ensures Lines([a]) == a + CRLF
  {
    assert [a][1..] == [];
  }

  lemma LinesTwo(a: string, b: string)
    ensures Lines([a, b]) == a + CRLF + (b + CRLF)
  {
    assert [a, b][1..] == [b];
    LinesOne(b);
  }

  lemma LinesThree(a: string, b: string, c: string)
    ensures Lines([a, b, c]) == a + CRLF + (b + CRLF + (c + CRLF))
  {
    assert [a, b, c][1..] == [b, c];
    LinesTwo(b, c);
  }

  /** A header line and its CRLF hold no blank line unless the next text starts with CRLF. */
  lemma SkipLine(l: string, y: string)
    requires IsLine(l) && (y != [] ==> y[0] != '\r')
    ensures Find(l + CRLF + y, BlankLine) == (match Find(y, BlankLine) case Some(j) => Some(|l| + 2 + j) case None => None)
  {
    var x := l + CRLF;
    var s := x + y;
    assert l + CRLF + y == s;
    forall k | 0 <= k < |x| ensures !MatchAt(s, k, BlankLine) {
      if k < |l| {
        assert s[k] == l[k];
        Mismatch(s, k, BlankLine, 0);
      } else if k == |l| {
        if y != [] {
          assert s[k + 2] == y[0];
          Mismatch(s, k, BlankLine, 2);
        }
      } else {
        Mismatch(s, k, BlankLine, 0);
      }
    }
    FindShift(x, y, BlankLine);
  }

  lemma LinesStart(ls: seq<string>)
    requires ls != [] && IsLine(ls[0])
    ensures Lines(ls) != [] && Lines(ls)[0] == ls[0][0]
  {
  }

  /** No blank line starts inside a block of header lines ... */
  lemma {:induction false} NoBlankLineIn(ls: seq<string>)
    requires forall i :: 0 <= i < |ls| ==> IsLine(ls[i])
    ensures Find(Lines(ls), BlankLine) == None
    decreases |ls|
  {
    if ls == [] {
      FindNone([], BlankLine);
    } else {
      NoBlankLineIn(ls[1..]);
      if |ls| > 1 { LinesStart(ls[1..]); }
      SkipLine(ls[0], Lines(ls[1..]));
    }
  }

  /** The first blank line after a CR-free line is the one that starts right after it. */
  lemma BlankLineAfter(l: string, s: string)
    requires '\r' !in l && |s| >= 4 && s[..4] == BlankLine
    ensures Find(l + s, BlankLine) == Some(|l|)
  {
    var t := l + s;
    forall k | 0 <= k < |l| ensures !MatchAt(t, k, BlankLine) {
      assert t[k] == l[k];
      Mismatch(t, k, BlankLine, 0);
    }
    MatchAtShift(l, s, 0, BlankLine);
    FindIs(t, BlankLine, |l|);
  }

  /** ... so the first blank line is the CRLF that closes the block, whatever follows it. */
  lemma {:induction false} FirstBlankLine(ls: seq<string>, rest: string)
    requires ls != [] && forall i :: 0 <= i < |ls| ==> IsLine(ls[i])
    ensures |Lines(ls)| >= 2
    ensures Find(Lines(ls) + CRLF + rest, BlankLine) == Some(|Lines(ls)| - 2)
    decreases |ls|
  {
    var l := ls[0];
    if |ls| == 1 {
      assert Lines(ls) + CRLF + rest == l + (BlankLine + rest) by {
        assert ls == [l];
        LinesOne(l);
      }
      BlankLineAfter(l, BlankLine + rest);
    } else {
      var y := Lines(ls[1..]) + CRLF + rest;
      assert Lines(ls) + CRLF + rest == l + CRLF + y by {
        assert Lines(ls) == l + CRLF + Lines(ls[1..]);
      }
      FirstBlankLine(ls[1..], rest);
      LinesStart(ls[1..]);
      SkipLine(l, y);
    }
  }

  /** The client's reading of Content-Length: the digits after the first "\r\nContent-Length: ". */
  function ContentLength(msg: string): Option<int> {
    match Find(msg, CRLF + ContentLengthPrefix)
    case Some(i) => Some(Atoi(msg[i + 18..]))
    case None => None
  }

  /** The status line the client reads: the text before the first CRLF. */
  function StatusLine(msg: string): Option<string> {
    match Find(msg, CRLF)
    case Some(i) => Some(msg[..i])
    case None => None
  }

  /** The first CRLF after a CR-free line is the one that ends it. */
  lemma LineEnd(l: string, rest: string)
    requires '\r' !in l
    ensures Find(l + CRLF + rest, CRLF) == Some(|l|)
  {
    HostLineEnd(l, rest);
  }

  lemma ContentLengthFound(sl: string, ct: string, rest: string)
    requires '\r' !in sl && '\r' !in ct && |ct| > 8 && ct[8] == 'T'
    ensures Find(sl + CRLF + ct + (CRLF + ContentLengthPrefix + rest), CRLF + ContentLengthPrefix)
         == Some(|sl| + 2 + |ct|)
  {
    var p := CRLF + ContentLengthPrefix;
    var x := sl + CRLF + ct;
    var y := p + rest;
    var s := x + y;
    forall k | 0 <= k < |x| ensures !MatchAt(s, k, p) {
      if k < |sl| {
        assert s[k] == sl[k];
        Mismatch(s, k, p, 0);
      } else if k == |sl| {
        assert s[k + 10] == ct[8];
        Mismatch(s, k, p, 10);
      } else if k == |sl| + 1 {
        Mismatch(s, k, p, 0);
      } else {
        assert s[k] == ct[k - |sl| - 2];
        Mismatch(s, k, p, 0);
      }
    }
    FindShift(x, y, p);
    FindAtStart(p, rest);
  }

  /**
   * A client reading a send_response message finds the status line
   * "VERSION CODE", the body right after the first blank line, and a
   * Content-Length equal to the body's length (below 10^9 bytes: snprintf
   * keeps at most nine digits).
   */
  lemma ResponseFraming(code: string, version: string, contentType: string, contents: string)
    requires '\r' !in code && '\r' !in version && '\r' !in contentType
    requires |contents| < 1000000000
    ensures var msg := ResponseMessage(code, version, contentType, contents);
      var head := ResponseHead(code, version, contentType, |contents|);
      && StatusLine(msg) == Some(version + " " + code)
      && Find(msg, BlankLine) == Some(|head| - 4)
      && msg[|head|..] == contents
      && ContentLength(msg) == Some(|contents|)
  {
    ResponseStatus(code, version, contentType, contents);
    ResponseBody(code, version, contentType, contents);
    ResponseLength(code, version, contentType, contents);
  }

  /** The response laid out as its three header lines, the blank line and the contents. */
  lemma ResponseLayout(code: string, version: string, contentType: string, contents: string)
    ensures var msg := ResponseMessage(code, version, contentType, contents);
      var sl := version + " " + code;
      var ct := ContentTypePrefix + contentType;
      var cl := ContentLengthPrefix + SizeField(|contents|);
      && ResponseHead(code, version, contentType, |contents|) == Lines([sl, ct, cl]) + CRLF
      && msg == Lines([sl, ct, cl]) + CRLF + contents
      && msg == sl + CRLF + (ct + CRLF + cl + CRLF + CRLF + contents)
      && msg == sl + CRLF + ct + (CRLF + ContentLengthPrefix + (SizeField(|contents|) + CRLF + CRLF + contents))
  {
    HeadLayout(version + " " + code, ContentTypePrefix + contentType, SizeField(|contents|), contents);
  }

  /** The same layout, for any three lines and any contents. */
  lemma HeadLayout(sl: string, ct: string, n: string, contents: string)
    ensures var cl := ContentLengthPrefix + n;
      && Lines([sl, ct, cl]) + CRLF + contents == sl + CRLF + (ct + CRLF + cl + CRLF + CRLF + contents)
      && Lines([sl, ct, cl]) + CRLF + contents == sl + CRLF + ct + (CRLF + ContentLengthPrefix + (n + CRLF + CRLF + contents))
  {
    var cl := ContentLengthPrefix + n;
    LinesThree(sl, ct, cl);
  }

  lemma ResponseStatus(code: string, version: string, contentType: string, contents: string)
    requires '\r' !in code && '\r' !in version
    ensures StatusLine(ResponseMessage(code, version, contentType, contents)) == Some(version + " " + code)
  {
    var ct := ContentTypePrefix + contentType;
    var cl := ContentLengthPrefix + SizeField(|contents|);
    ResponseLayout(code, version, contentType, contents);
    StatusOfLine(version + " " + code, ct + CRLF + cl + CRLF + CRLF + contents);
  }

  /** The status line of a message is its CR-free first line. */
  lemma StatusOfLine(l: string, rest: string)
    requires '\r' !in l
    ensures StatusLine(l + CRLF + rest) == Some(l)
  {
    LineEnd(l, rest);
    assert (l + CRLF + rest)[..|l|] == l;
  }

  lemma ResponseBody(code: string, version: string, contentType: string, contents: string)
    requires '\r' !in code && '\r' !in version && '\r' !in contentType
    ensures var msg := ResponseMessage(code, version, contentType, contents);
      var head := ResponseHead(code, version, contentType, |contents|);
      && Find(msg, BlankLine) == Some(|head| - 4)
      && msg[|head|..] == contents
  {
    var sl := version + " " + code;
    var ct := ContentTypePrefix + contentType;
    var n := SizeField(|contents|);
    var cl := ContentLengthPrefix + n;
    var ls := [sl, ct, cl];
    ResponseLayout(code, version, contentType, contents);
    assert forall j :: 0 <= j < |cl| ==> cl[j] != '\r' by {
      forall j | 0 <= j < |cl| ensures cl[j] != '\r' {
        if j >= |ContentLengthPrefix| { assert cl[j] == n[j - |ContentLengthPrefix|]; }
      }
    }
    assert IsLine(ls[2]);
    FirstBlankLine(ls, contents);
  }

  lemma ResponseLength(code: string, version: string, contentType: string, contents: string)
    requires '\r' !in code && '\r' !in version && '\r' !in contentType
    requires |contents| < 1000000000
    ensures ContentLength(ResponseMessage(code, version, contentType, contents)) == Some(|contents|)
  {
    ResponseLayout(code, version, contentType, contents);
    LengthOfLayout(version + " " + code, ContentTypePrefix + contentType, contents);
  }

  /** The Content-Length the client reads is the decimal length written on the third line. */
  lemma LengthOfLayout(sl: string, ct: string, contents: string)
    requires '\r' !in sl && '\r' !in ct && |ct| > 8 && ct[8] == 'T'
    requires |contents| < 1000000000
    ensures ContentLength(sl + CRLF + ct + (CRLF + ContentLengthPrefix + (SizeField(|contents|) + CRLF + CRLF + contents)))
         == Some(|contents|)
  {
    SizeFieldIsDecimal(|contents|);
    assert SizeField(|contents|) + CRLF + CRLF + contents == Decimal(|contents|) + (CRLF + CRLF + contents);
    ContentLengthOf(sl, ct, |contents|, CRLF + CRLF + contents);
  }

  /** A decimal number after the third line's prefix, followed by a non-digit, is the Content-Length read. */
  lemma ContentLengthOf(sl: string, ct: string, n: nat, tail: string)
    requires '\r' !in sl && '\r' !in ct && |ct| > 8 && ct[8] == 'T'
    requires tail != [] ==> !IsDigit(tail[0])
    ensures ContentLength(sl + CRLF + ct + (CRLF + ContentLengthPrefix + (Decimal(n) + tail))) == Some(n)
  {
    ContentLengthAt(sl, ct, Decimal(n) + tail);
    AtoiDecimal(n, tail);
  }

  lemma ContentLengthAt(sl: string, ct: string, rest: string)
    requires '\r' !in sl && '\r' !in ct && |ct| > 8 && ct[8] == 'T'
    ensures ContentLength(sl + CRLF + ct + (CRLF + ContentLengthPrefix + rest)) == Some(Atoi(rest))
  {
    ContentLengthFound(sl, ct, rest);
    assert (sl + CRLF + ct + (CRLF + ContentLengthPrefix + rest))[|sl| + 2 + |ct| + 18..] == rest;
  }

  /** Below 10^9 the Content-Length field holds all the digits. */
  lemma SizeFieldIsDecimal(n: nat)
    requires n < 1000000000
    ensures SizeField(n) == Decimal(n)
  {
    DecimalLength(n, 9);
    assert Pow10(9) == 1000000000;
  }

  /**
   * send_request as written, without a body: the message holds no blank
   * line, so its header section is never terminated.
   */
  lemma RequestWithoutBodyUnterminated(httpMethod: string, path: string, version: string, hostname: string)
    requires '\r' !in httpMethod && '\r' !in path && '\r' !in version && '\r' !in hostname
    ensures Find(RequestMessage(httpMethod, path, version, hostname, None), BlankLine) == None
  {
    var ls := [httpMethod + " " + path + " " + version, HostPrefix + hostname];
    LinesTwo(ls[0], ls[1]);
    assert RequestMessage(httpMethod, path, version, hostname, None) == Lines(ls);
    NoBlankLineIn(ls);
  }

  /**
   * send_request as written, with a body: a reader that takes the body to
   * start after the first blank line sees an extra CRLF before it.
   */
  lemma RequestBodyAfterExtraLine(httpMethod: string, path: string, version: string, hostname: string, body: string)
    requires '\r' !in httpMethod && '\r' !in path && '\r' !in version && '\r' !in hostname
    ensures var msg := RequestMessage(httpMethod, path, version, hostname, Some(body));
      var head := httpMethod + " " + path + " " + version + CRLF + HostPrefix + hostname + CRLF;
      && Find(msg, BlankLine) == Some(|head| - 2)
      && msg[|head| + 2..] == CRLF + body
  {
    var ls := [httpMethod + " " + path + " " + version, HostPrefix + hostname];
    var msg := RequestMessage(httpMethod, path, version, hostname, Some(body));
    LinesTwo(ls[0], ls[1]);
    assert msg == Lines(ls) + CRLF + (CRLF + body);
    FirstBlankLine(ls, CRLF + body);
    assert msg[|Lines(ls)| + 2..] == CRLF + body;
  }

  // ---- a forwarded request with its header terminated ----

  /**
   * What send_request evidently intends: the request line and the Host line,
   * then the blank line that ends the header, then the body if there is one.
   */
  function RequestMessageIntended(httpMethod: string, path: string, version: string, hostname: string, body: Option<string>): (msg: string)
    ensures var head := httpMethod + " " + path + " " + version + CRLF + HostPrefix + hostname + CRLF;
      |msg| >= |head| + 2 && msg[..|head|] == head && msg[|head|..|head| + 2] == CRLF
  {
    var rl := httpMethod + " " + path + " " + version;
    var hl := HostPrefix + hostname;
    LinesTwo(rl, hl);
    Lines([rl, hl]) + CRLF + (match body case Some(b) => b case None => "")
  }

  /**
   * The intended request is always framed: its first blank line ends the
   * header, and what follows is exactly the body, or nothing.
   */
  lemma RequestIntendedFraming(httpMethod: string, path: string, version: string, hostname: string, body: Option<string>)
    requires '\r' !in httpMethod && '\r' !in path && '\r' !in version && '\r' !in hostname
    ensures var msg := RequestMessageIntended(httpMethod, path, version, hostname, body);
      var head := httpMethod + " " + path + " " + version + CRLF + HostPrefix + hostname + CRLF;
      && Find(msg, BlankLine) == Some(|head| - 2)
      && msg[|head| + 2..] == if body.Some? then body.value else ""
  {
    LinesTwo(httpMethod + " " + path + " " + version, HostPrefix + hostname);
    BlockThenRest([httpMethod + " " + path + " " + version, HostPrefix + hostname], match body case Some(b) => b case None => "");
  }

  // ---- where the body of a client request starts ----

  /** After the host line's CRLF, the first blank line is the one closing the header lines that follow. */
  lemma BlankLineAfterHeaders(ls: seq<string>, body: string)
    requires forall i :: 0 <= i < |ls| ==> IsLine(ls[i])
    ensures Find(CRLF + Lines(ls) + CRLF + body, BlankLine) == Some(|Lines(ls)|)
  {
    var s := CRLF + Lines(ls) + CRLF + body;
    if ls == [] {
      assert s == BlankLine + body;
      FindAtStart(BlankLine, body);
    } else {
      var rest := Lines(ls) + CRLF + body;
      FirstBlankLine(ls, body);
      LinesStart(ls);
      assert rest[0] == ls[0][0];
      BlankLineShift(rest, |Lines(ls)| - 2);
      assert s == CRLF + rest;
    }
  }

  /** A CRLF put in front of text that does not start with CR moves its first blank line by two. */
  lemma BlankLineShift(rest: string, m: nat)
    requires rest != [] && rest[0] != '\r'
    requires Find(rest, BlankLine) == Some(m)
    ensures Find(CRLF + rest, BlankLine) == Some(m + 2)
  {
    var s := CRLF + rest;
    assert s[2] == rest[0];
    forall k | 0 <= k < |CRLF| ensures !MatchAt(s, k, BlankLine) {
      if k == 0 { Mismatch(s, 0, BlankLine, 2); } else { Mismatch(s, 1, BlankLine, 0); }
    }
    FindShift(CRLF, rest, BlankLine);
  }

  /** The body the intended search finds after the header lines that follow Host. */
  lemma IntendedBodyFollowsHeaders(line: string, hl: string, ls: seq<string>, body: string)
    requires Find(line, HostPrefix) == None && '\r' !in hl
    requires forall i :: 0 <= i < |ls| ==> IsLine(ls[i])
    ensures ParseHostIntended(line + CRLF + HostPrefix + hl + CRLF + (Lines(ls) + CRLF + body))
         == Some(HostHeader(Truncate(HostName(hl), HostnameMax), HostPort(hl), Some(body)))
  {
    ParseHostIntendedLine(line, hl, Lines(ls) + CRLF + body);
    BodyAfterHeaders(ls, body);
  }

  lemma BodyAfterHeaders(ls: seq<string>, body: string)
    requires forall i :: 0 <= i < |ls| ==> IsLine(ls[i])
    ensures BodyAfter(CRLF + (Lines(ls) + CRLF + body)) == Some(body)
  {
    BlankLineAfterHeaders(ls, body);
    BodyAfterBlockOf(Lines(ls), body);
  }

  lemma BodyAfterBlockOf(l: string, body: string)
    requires Find(CRLF + l + CRLF + body, BlankLine) == Some(|l|)
    ensures BodyAfter(CRLF + (l + CRLF + body)) == Some(body)
  {
    var s := CRLF + (l + CRLF + body);
    assert s == CRLF + l + CRLF + body;
    assert s[|l| + |BlankLine|..] == body;
  }

  /** Header lines after Host are skipped: as written, the body is what follows the blank line that ends them. */
  lemma BodyAfterLines(ls: seq<string>, body: string)
    requires ls != [] && forall i :: 0 <= i < |ls| ==> IsLine(ls[i])
    ensures BodyAfter(Lines(ls) + CRLF + body) == Some(body)
  {
    BlockThenRest(ls, body);
  }

  /** Header lines, a CRLF, then anything: the first blank line closes the lines, and what follows it is the rest. */
  lemma BlockThenRest(ls: seq<string>, rest: string)
    requires ls != [] && forall i :: 0 <= i < |ls| ==> IsLine(ls[i])
    ensures |Lines(ls)| >= 2 && Find(Lines(ls) + CRLF + rest, BlankLine) == Some(|Lines(ls)| - 2)
    ensures (Lines(ls) + CRLF + rest)[|Lines(ls)| + 2..] == rest
  {
    FirstBlankLine(ls, rest);
  }

  /**
   * As written, the search for the body starts two bytes past the host
   * line's CRLF, so a blank line right after the Host line is never found:
   * when Host is the last header line, the body is lost.
   */
  lemma BodyLostAfterLastHeader(line: string, hl: string, body: string)
    requires Find(line, HostPrefix) == None && '\r' !in hl && '\r' !in body
    ensures ParseHost(line + CRLF + HostPrefix + hl + CRLF + (CRLF + body))
         == Some(HostHeader(Truncate(HostName(hl), HostnameMax), HostPort(hl), None))
  {
    ParseHostLine(line, hl, CRLF + body);
    NoBlankLineAfterCrlf(body);
  }

  /** Searched for as intended, the body after a last Host line is found. */
  lemma BodyKeptAfterLastHeader(line: string, hl: string, body: string)
    requires Find(line, HostPrefix) == None && '\r' !in hl
    ensures ParseHostIntended(line + CRLF + HostPrefix + hl + CRLF + (CRLF + body))
         == Some(HostHeader(Truncate(HostName(hl), HostnameMax), HostPort(hl), Some(body)))
  {
    var none: seq<string> := [];
    assert Lines(none) + CRLF + body == CRLF + body;
    IntendedBodyFollowsHeaders(line, hl, none, body);
  }

  /** "GET / HTTP/1.1", "Host: h", a blank line and the body "x": lost as written, kept as intended. */
  lemma BodyLostExample()
    ensures var request := "GET / HTTP/1.1" + CRLF + HostPrefix + "h" + CRLF + (CRLF + "x");
      && ParseHost(request) == Some(HostHeader("h", DefaultPort, None))
      && ParseHostIntended(request) == Some(HostHeader("h", DefaultPort, Some("x")))
  {
    var line := "GET / HTTP/1.1";
    NoHostInRequestLine("/", "HTTP/1.1");
    assert "GET" + " " + "/" + " " + "HTTP/1.1" == line;
    assert '\r' !in "h" && ':' !in "h" && '\r' !in "x";
    BodyLostAfterLastHeader(line, "h", "x");
    BodyKeptAfterLastHeader(line, "h", "x");
  }

  /** A GET request line whose path has no uppercase letter cannot contain "Host: ". */
  lemma NoHostInRequestLine(path: string, version: string)
    requires forall i :: 0 <= i < |path| ==> !IsSpace(path[i]) && !IsUpper(path[i])
    requires forall i :: 0 <= i < |version| ==> !IsSpace(version[i])
    ensures Find("GET" + " " + path + " " + version, HostPrefix) == None
  {
    var s := "GET" + " " + path + " " + version;
    assert s[..4] == "GET ";
    assert forall i :: 0 <= i < |path| ==> s[4 + i] == path[i];
    assert s[4 + |path|] == ' ';
    assert forall i :: 0 <= i < |version| ==> s[5 + |path| + i] == version[i];
    forall k | 0 <= k <= |s| ensures !MatchAt(s, k, HostPrefix) {
      if k + 6 <= |s| {
        var j := k + 5;
        if j == 4 + |path| {
          if k < 4 {
            assert s[k] == "GET "[k];
          } else {
            assert s[k] == path[k - 4];
          }
          Mismatch(s, k, HostPrefix, 0);
        } else {
          if j < 4 + |path| {
            assert s[j] == path[j - 4];
          } else {
            assert s[j] == version[j - 5 - |path|];
          }
          Mismatch(s, k, HostPrefix, 5);
        }
      }
    }
    FindNone(s, HostPrefix);
  }

  /**
   * The proxy's own parser reads back what send_request writes: the request
   * line gives method, path and version, the Host line the hostname and
   * port 80, and the body is recovered exactly.
   */
  lemma RequestRoundTrip(httpMethod: string, path: string, version: string, hostname: string, body: Option<string>)
    requires httpMethod != [] && IsToken(httpMethod, MethodMax)
    requires path != [] && IsToken(path, UrlMax)
    requires version != [] && IsToken(version, VersionMax)
    requires Find(httpMethod + " " + path + " " + version, HostPrefix) == None
    requires '\r' !in hostname && ':' !in hostname && |hostname| <= HostnameMax
    ensures var msg := RequestMessage(httpMethod, path, version, hostname, body);
      && ParseRequestLine(msg) == RequestLine(httpMethod, path, version)
      && ParseHost(msg) == Some(HostHeader(hostname, DefaultPort, body))
  {
    var line := httpMethod + " " + path + " " + version;
    var tail := match body case Some(b) => BlankLine + b case None => "";
    var msg := RequestMessage(httpMethod, path, version, hostname, body);
    LinesTwo(line, HostPrefix + hostname);
    assert msg == line + CRLF + HostPrefix + hostname + CRLF + tail;
    assert msg == httpMethod + " " + path + " " + version + (CRLF + HostPrefix + hostname + CRLF + tail);
    RequestLineOf(httpMethod, path, version, CRLF + HostPrefix + hostname + CRLF + tail);
    ParseHostOf(line, hostname, tail);
    match body {
      case Some(b) =>
        FindAtStart(BlankLine, b);
        assert tail[4..] == b;
      case None =>
        FindNone(tail, BlankLine);
    }
  }
}
