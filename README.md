# http_proxy: a Dafny model

`http_proxy.c` is a caching HTTP forward proxy. Each client connection gets
one `handle_connection` call, which runs these steps:

- It reads one request and parses the request line and the `Host:` header: the hostname, the port, and a body when `\r\n\r\n` occurs in the text after the host line's own CRLF.
- It lowercases the URL.
- It refuses a method other than `GET` (400), an unresolvable host (404) and a blocklisted hostname or IP (403).
- It looks up the response file named `cache/%08X`, from the FNV-1a hash of the URL.
  - A fresh file is sent back as it is.
  - An expired file is removed.
- On a miss it takes the path from the URL and sends `GET path version` with a `Host:` line upstream.
- It relays the reply and stores it in the cache when the path has no `?`.
- Any upstream failure is a 500.
- `main` reads the expiration time; 0 becomes 60 seconds.

The model is split into eight modules, one per file:

| file | module | what it holds |
|---|---|---|
| `cstrings.dfy` | `CStrings` | The C library behaviour the proxy relies on. `CString` is a NUL-terminated buffer. `Find` is `strstr`/`strchr`, returning the first match. It also has `isspace`, `atoi` and `"%ld"`. The file also holds a small `Wrappers` module with `Option`. |
| `fnv.dfy` | `Fnv` | `compute_hash` as a loop over the C string, proved equal to 32-bit FNV-1a, and the `cache/%08X` file name. |
| `request.dfy` | `Request` | The receive buffer; the `sscanf("%15s %255s %15s")` request line; the `Host:` line with its port and body; the in-place lowercase loop; the path extraction and the `?` test. |
| `headers.dfy` | `Headers` | The messages `send_response` and `send_request` build, and how a reader parses them back (status line, blank line, `Content-Length`, request line, `Host:`). |
| `blocklist.dfy` | `Blocklist` | The `fgets` loop over the blocklist file: 255-byte reads, cut at the newline, compared with the hostname and the IP. |
| `cache.dfy` | `Cache` | The cache directory as a map from file name to bytes and modification time. The `Directory` class updates that map in place through `Lookup` and `Store`. The file also holds the expiration default. |
| `proxy.dfy` | `Proxy` | The whole of `handle_connection`. `Handle` is a function from the client bytes, an environment and the directory to the answer, the forwarded request and the new directory. The methods `Check`, `Serve` and `HandleConnection` are proved equal to it. |
| `dispatch.dfy` | `Dispatch` | Properties of the dispatch: which status each stage yields, what each leaves untouched, and how the cache serves back what it stored. |

The outside world is a parameter: the `Env` datatype in `Proxy` holds
- DNS (`gethostbyname`/`inet_ntoa`), as a map from hostname to dotted IP;
- the contents of the `blocklist` file, if it opens;
- the clock (`time(NULL)`, which is also the mtime a written file gets);
- the expiration time;
- the upstream server's behaviour (socket, connect or recv failing, or the bytes it replies);
- how many bytes `fwrite` manages.

Characters stand for bytes. The hash is a `bv32`, so the multiplication wraps modulo 2^32 as `uint32_t` does.

Where the C code has undefined behaviour, the model picks one outcome and says so:
- A request without `Host: ` dereferences `NULL + 6`. The model answers 400.
- A host line without CRLF calls `strstr(NULL + 2, ...)`. The model gives no body.
- A blocklist file that cannot be opened makes `fgets` read from `NULL`. The model answers 500.
- A missing `sscanf` token leaves its array uninitialised. The model reads it as empty.
- The store test `strchr(path, '?')` at line 392 reads `path` after `free(path)` at line 359. The model reads the path as it was computed.

The body search starts two bytes past the CRLF that ends the host line (line 161), so a blank line right after the `Host:` line is never found. When `Host:` is the last header, the body is lost and the forwarded request has no blank line ending its headers. When other header lines follow it, they are dropped, and the body is forwarded after an extra CRLF. The model follows the code, and "## Findings" gives the intended search beside it.

The store test looks for `?` in the extracted path, as the code does at line 392. It does not look in the whole URL. A `?` before the path, as in `http://h?x/p`, therefore does not stop the store. The model follows the code.

## Model

| member | source | states |
|---|---|---|
| Fnv.ComputeHash | http_proxy.c:39-50 | the loop returns FNV-1a (basis 2166136261, prime 16777619, XOR then multiply mod 2^32) of the bytes before the first NUL |
| Fnv.Fnv1a | http_proxy.c:39-50 | FNV-1a is the offset basis for the empty string and one XOR-then-multiply round per further byte (HashEmpty, HashAppend, ComputeHash) |
| Fnv.HashEmpty | http_proxy.c:41 | the empty string hashes to the offset basis |
| Fnv.HashAppend | http_proxy.c:42-47 | one more byte is exactly one more XOR-then-multiply round |
| Fnv.HashStopsAtNul | http_proxy.c:42 | bytes after a NUL do not change the hash |
| Fnv.CachePathShape | http_proxy.c:242-243 | every cache file name is "cache/" followed by exactly 8 uppercase hex digits (14 characters, fits the 15-byte buffer) |
| Fnv.CachePath | http_proxy.c:243 | a cache file name is 14 characters starting with "cache/" (CachePathShape, CachePathDecodes and CachePathInjective pin the digits) |
| Fnv.ParseHexRoundTrip | http_proxy.c:243 | reading back the zero-padded hex digits of a value that fits gives the value |
| Fnv.CachePathDecodes | http_proxy.c:243 | the 8 digits of a cache name encode the whole hash |
| Fnv.CachePathInjective | http_proxy.c:243 | two hashes share a cache file exactly when they are equal |
| CStrings.CString | http_proxy.c:130-131 | the C string of a buffer is its prefix before the first NUL, NUL-free, ended by a NUL when shorter |
| CStrings.Find | http_proxy.c:142 | strstr returns an index where the pattern occurs with no earlier occurrence, or None when it occurs nowhere |
| CStrings.FindChar | http_proxy.c:149 | strchr returns the first position of the character, or None exactly when it is absent |
| CStrings.SkipSpaces | http_proxy.c:140 | what sscanf skips is a run of isspace characters, and what is left does not start with one |
| CStrings.DigitRun | http_proxy.c:155 | atoi reads the maximal leading run of decimal digits |
| CStrings.Atoi | http_proxy.c:155 | atoi, as used here and at line 446, is 0 when no sign or digit starts the text after its leading white space, and negative only after a '-' (AtoiDecimal reads a decimal back) |
| CStrings.DecimalValue | http_proxy.c:75 | the "%ld" digits of n have value n |
| CStrings.AtoiDecimal | http_proxy.c:155 | atoi reads back what "%ld" wrote, whatever non-digit follows |
| Request.RequestText | http_proxy.c:130-131 | the parsed text is the received bytes up to the first NUL, at most 4095 of them: a prefix of what the client sent, holding no NUL, ending at a NUL, at byte 4095 or at the end of the bytes |
| Request.RequestTextOf | http_proxy.c:130-131 | bytes that fit the buffer and hold no NUL are parsed exactly as sent |
| Request.TokenLength | http_proxy.c:140 | a "%Ns" conversion takes at most N non-space characters and stops at white space or after N |
| Request.ScanToken | http_proxy.c:140 | a conversion fails exactly when only white space is left; otherwise it yields a non-empty token and the rest after it |
| Request.ParseRequestLine | http_proxy.c:140 | method, url and version are tokens of at most 15, 255 and 15 non-space characters |
| Request.RequestLineOf | http_proxy.c:140 | a line "M U V..." parses to exactly M, U and V |
| Request.ScanTokenNulFree | http_proxy.c:140 | a conversion over a NUL-free string produces NUL-free token and rest |
| Request.RequestLineNulFree | http_proxy.c:140 | the three fields read from a C string hold no NUL |
| Request.Truncate | http_proxy.c:158 | strncpy to 255 keeps a prefix of at most 255 characters and all of a shorter string |
| Request.ParseHost | http_proxy.c:142-167 | there is a Host header exactly when "Host: " occurs; its hostname has no ':' and at most 255 characters |
| Request.HostName | http_proxy.c:149-158 | the hostname stops before the first ':' and is the whole host line without one |
| Request.HostPort | http_proxy.c:149-156 | the port is atoi of the text after the first ':' of the host line, and 80 when there is no ':' |
| Request.HostLineWithPort | http_proxy.c:149-156 | the first ':' separates the hostname from the port text, which is read by atoi |
| Request.BodyAfter | http_proxy.c:161-167 | given the text after the host line's own CRLF: a body exists exactly when `\r\n\r\n` occurs in that text, and is everything after its first occurrence |
| Request.ParseHostLine | http_proxy.c:142-167 | the first "Host: " line, up to its CRLF, gives the truncated hostname, the port, and the body BodyAfter finds in what follows that CRLF |
| Request.ParseHostOf | http_proxy.c:142-158 | a host line without ':' is the hostname on port 80 |
| Request.ParseHostWithPort | http_proxy.c:149-156 | "Host: h:p" gives hostname h and port atoi(p) |
| Request.ParseHostIntended | http_proxy.c:142-167 | the parse with the body searched from the host line's CRLF itself: a Host header exactly when "Host: " occurs, with a hostname of at most 255 characters and no ':' |
| Request.ParseHostIntendedLine | http_proxy.c:142-167 | the intended parse of a host line gives the same hostname and port, and the body after the first blank line that starts at the host line's CRLF |
| Request.ToLower | http_proxy.c:170 | tolower maps exactly the uppercase ASCII letters down by 32 and keeps every other character |
| Request.Lower | http_proxy.c:170 | lowercasing keeps the length, leaves no uppercase letter and changes only uppercase letters |
| Request.LowerInPlace | http_proxy.c:170 | the in-place loop lowercases the buffer up to its first NUL and leaves the rest untouched |
| Request.LowerIdempotent | http_proxy.c:170 | lowercasing twice is lowercasing once |
| Request.LowerKeeps | http_proxy.c:170 | lowercasing neither adds nor removes non-letters (NUL among them) |
| Request.AfterScheme | http_proxy.c:303-306 | the text after the first "://", or the whole URL when it holds none; a suffix of the URL either way |
| Request.PathOf | http_proxy.c:303-312 | the path starts with '/' and is the suffix from the first '/' after the scheme, or "/" when there is none |
| Request.PathIsSuffix | http_proxy.c:308-312 | the path is "/" or a suffix of the URL |
| Request.PathFromUrl | http_proxy.c:308-312 | every character of the path but '/' comes from the URL |
| Request.PathOfToken | http_proxy.c:299-312 | a lowercase URL token gives a lowercase path token |
| Request.QueryFreeUrlIsCacheable | http_proxy.c:392 | a URL without '?' always gives a path that is stored |
| Headers.SizeField | http_proxy.c:74-75 | the Content-Length text is a non-empty run of digits |
| Headers.SizeFieldIsDecimal | http_proxy.c:74-75 | below 10^9 the 10-byte snprintf buffer holds all the digits |
| Headers.SendResponse | http_proxy.c:54-90 | the strcpy/strcat sequence builds "VERSION CODE", Content-Type and Content-Length lines, a blank line, then the contents |
| Headers.SendRequest | http_proxy.c:92-120 | the strcpy/strcat sequence builds "METHOD PATH VERSION", the Host line and, with a body, "\r\n\r\n" and the body |
| Headers.ResponseMessage | http_proxy.c:54-90 | a response starts with the status line "VERSION CODE" and its CRLF and ends with the contents; ResponseStatus, ResponseBody and ResponseLength show how a reader reads it back |
| Headers.RequestMessage | http_proxy.c:92-120 | a forwarded request starts with the request line and the Host line; it ends there exactly when there is no body, and otherwise "\r\n\r\n" and the body follow (RequestRoundTrip reads it back) |
| Headers.NoBlankLineIn | http_proxy.c:61-78 | no blank line occurs inside a block of CR-free header lines |
| Headers.FirstBlankLine | http_proxy.c:78 | the first blank line of a header block and its closing CRLF is the one after the last line, whatever follows |
| Headers.ResponseStatus | http_proxy.c:61-64 | a reader's status line is "VERSION CODE" |
| Headers.ResponseBody | http_proxy.c:78-85 | the first blank line ends the header, and the contents follow it unchanged |
| Headers.ResponseLength | http_proxy.c:72-78 | a reader's Content-Length is the length of the contents (below 10^9) |
| Headers.ResponseFraming | http_proxy.c:54-90 | status line, header end, body and Content-Length of a response all agree |
| Headers.RequestWithoutBodyUnterminated | http_proxy.c:106-120 | without a body the forwarded request holds no blank line, so its header is never terminated |
| Headers.RequestBodyAfterExtraLine | http_proxy.c:113-117 | with a body, the first blank line is the one right after the Host line, and after it come an extra CRLF and then the body |
| Headers.RequestMessageIntended | http_proxy.c:92-120 | the intended forwarded request starts with the request line and the Host line, and a CRLF follows them |
| Headers.RequestIntendedFraming | http_proxy.c:112-117 | the intended forwarded request is always framed: its first blank line ends the header and exactly the body, or nothing, follows |
| Headers.BodyAfterLines | http_proxy.c:161-167 | with header lines after Host, the body found as written is everything after the blank line that ends them |
| Headers.BodyLostAfterLastHeader | http_proxy.c:146-167 | as written, when Host is the last header line no body is found, whatever follows the blank line |
| Headers.BodyKeptAfterLastHeader | http_proxy.c:146-167 | searching from the host line's CRLF, the body after that blank line is found |
| Headers.IntendedBodyFollowsHeaders | http_proxy.c:146-167 | searching from the host line's CRLF, the body is what follows the blank line ending the header lines after Host, however many there are, none included |
| Headers.BodyLostExample | http_proxy.c:161 | "GET / HTTP/1.1", "Host: h", a blank line and "x" parse with no body as written and with body "x" when the search starts at the CRLF |
| Headers.NoHostInRequestLine | http_proxy.c:99-104 | a GET request line with a lowercase path cannot contain "Host: " |
| Headers.RequestRoundTrip | http_proxy.c:92-120 | the proxy's own parser reads back the method, path, version, hostname (port 80) and body that send_request wrote |
| Blocklist.LineLength | http_proxy.c:216 | one fgets call takes at most 255 bytes, ending at the first newline, and is non-empty before end of file |
| Blocklist.Chunks | http_proxy.c:216 | the successive fgets buffers are non-empty and at most 255 bytes each |
| Blocklist.Trim | http_proxy.c:219 | the compared line is the buffer's prefix up to its first newline (or NUL) |
| Blocklist.FirstMatch | http_proxy.c:216-234 | the index of a line equal to the hostname or IP, with no earlier such line, or None when no line matches |
| Blocklist.Blocked | http_proxy.c:216-234 | the request is blocked exactly when some line fgets returns, cut at its newline, equals the hostname or the IP (BlockedIffListed: exactly when one of them is listed) |
| Blocklist.ScanBlocklist | http_proxy.c:216-234 | the fgets loop stops at exactly the first blocking line, or reads to end of file |
| Blocklist.ScanStep | http_proxy.c:216-222 | one fgets call either finds the first match or shifts the search one line on |
| Blocklist.FirstMatchAfter | http_proxy.c:216-234 | lines that do not block only shift the first match |
| Blocklist.ShiftTwice | http_proxy.c:216-234 | shifting the line index twice is shifting it once by the sum |
| Blocklist.LineLengthOf | http_proxy.c:216 | an entry shorter than 255 bytes is read with its newline in one call |
| Blocklist.TrimEntry | http_proxy.c:219 | stripping the newline gives the entry back |
| Blocklist.ChunksOfFile | http_proxy.c:216-219 | a file of short entries is read back one entry per fgets call, each with its newline, and what follows them is read as it would be on its own |
| Blocklist.LineLengthAll | http_proxy.c:216 | a last line without a newline, shorter than the buffer, is read whole in one call |
| Blocklist.LastLine | http_proxy.c:216-219 | a non-empty last line without a newline is one fgets line and is compared as it stands |
| Blocklist.LinesOfFile | http_proxy.c:216-219 | cut at their newlines, the lines fgets returns are the entries, the last one with or without its newline |
| Blocklist.BlockedIffListed | http_proxy.c:216-234 | a file of entries shorter than 255 bytes, one per line, the last with or without its newline, blocks exactly when the hostname or the IP is one of them |
| Blocklist.LongLineSplits | http_proxy.c:214-216 | a line of 255 bytes or more is not read whole: its first 255 bytes are one fgets line, and reading goes on from the next byte, so the rest is cut into further lines of its own |
| Cache.Served | http_proxy.c:254-277 | a lookup serves a file exactly when it exists and now - mtime < expiration, and then serves its bytes |
| Cache.AfterLookup | http_proxy.c:251-286 | after a lookup the file is still there exactly when it existed and was fresh, unchanged; every other file stays as it was |
| Cache.AfterStore | http_proxy.c:396-410 | after a store the file is there exactly when the write was complete, with the bytes and the current time; every other file stays as it was |
| Cache.ExpiredIsRemoved | http_proxy.c:279-283 | an expired file is a miss and is removed; every other file stays |
| Cache.MissingIsUnchanged | http_proxy.c:254 | a missing file is a miss and changes nothing |
| Cache.HitIsStable | http_proxy.c:259-277 | a hit changes nothing, so a second lookup at once is the same hit |
| Cache.LookupIdempotent | http_proxy.c:251-286 | looking up twice at the same time leaves what looking up once leaves and serves the same |
| Cache.StoreThenLookup | http_proxy.c:396-410 | a complete store is served back by every lookup within the expiration time |
| Cache.ShortWriteIsMiss | http_proxy.c:400-406 | a short fwrite leaves no file, so the next lookup misses |
| Cache.OtherFilesUnchanged | http_proxy.c:251-286 | lookups and stores touch only their own file |
| Cache.Directory.constructor | http_proxy.c:251-286 | an empty cache directory |
| Cache.Directory.Lookup | http_proxy.c:251-286 | hit exactly when fresh, with the file's bytes and the directory unchanged, and only on a cache file name; otherwise the file is removed |
| Cache.Directory.Store | http_proxy.c:396-410 | a complete write leaves the file with the bytes and the current time; a short one removes it |
| Cache.Expiration | http_proxy.c:445-450 | the expiration is never 0: atoi of the argument, or 60 when that is 0 |
| Cache.ExpirationWithoutDigits | http_proxy.c:445-450 | an argument without a leading number gives the 60-second default |
| Cache.ExpirationOfDecimal | http_proxy.c:445-450 | a positive decimal argument is taken as it is |
| Proxy.Received | http_proxy.c:364 | the relayed reply is the whole upstream reply when it is shorter than 1048576 bytes, and otherwise its first 1048575 bytes |
| Proxy.Written | http_proxy.c:400 | fwrite writes at most the requested bytes |
| Proxy.PortOf | http_proxy.c:338 | htons keeps the port modulo 2^16: the result is below 65536 and differs from the port by a multiple of 65536 |
| Proxy.Decide | http_proxy.c:140-236 | a request is accepted exactly when it has a Host header, is GET, resolves and is not blocked, keeping its request line and Host header with the lowercased URL and the resolved IP; every refusal is an error status (the Dispatch lemmas give which one) |
| Proxy.Admit | http_proxy.c:140-236 | without a Host header the answer is 400; an accepted request keeps the client's request line and Host header; a refusal is an error status |
| Proxy.ForwardOf | http_proxy.c:299-357 | the request goes to the resolved IP on the Host port modulo 2^16 (ForwardedRequestParses gives what it reads as) |
| Proxy.Relay | http_proxy.c:299-411 | the reply is relayed exactly when upstream replies, as its first 1048575 bytes, and stored as AfterStore says when the path has no '?'; otherwise 500 with the directory unchanged; a request went upstream exactly when recv was reached |
| Proxy.Fetch | http_proxy.c:240-297 | served from the cache exactly when the lookup serves, with the file's bytes, nothing forwarded and the directory unchanged; otherwise the relay over the directory the lookup leaves; an error answer is the page in the request's version |
| Proxy.Handle | http_proxy.c:122-421 | a refused request gets its error page and nothing else; an answer is an error page exactly when the status is an error, in the client's version; only an accepted request goes upstream, as ForwardOf of it; a cache hit forwards nothing and changes nothing |
| Proxy.LowercaseUrl | http_proxy.c:170 | the lowercase loop over the NUL-terminated URL buffer yields the lowercased URL |
| Proxy.UrlNulFree | http_proxy.c:140 | the URL holds no NUL before or after lowercasing |
| Proxy.Check | http_proxy.c:140-236 | the step-by-step checks before the cache equal the admission decision, and an accepted URL is NUL-free |
| Proxy.Serve | http_proxy.c:240-411 | the lookup, the upstream exchange and the store over the directory object yield what the cache-stage function specifies |
| Proxy.HandleConnection | http_proxy.c:122-421 | the whole handler over the directory object yields the status, the client bytes, the forwarded request and the directory that `Proxy.Handle` gives |
| Dispatch.AdmitIffPasses | http_proxy.c:175-236 | a request reaches the cache exactly when it has a Host header, is GET, resolves and is not blocked, carrying its lowercased URL and IP |
| Dispatch.MissingHostIsBadRequest | http_proxy.c:142-143 | without a Host header the answer is a 400 and nothing changes |
| Dispatch.NonGetIsBadRequest | http_proxy.c:175-186 | a method other than GET is a 400 in every environment, before DNS, the blocklist or the cache |
| Dispatch.UnresolvedIsNotFound | http_proxy.c:190-204 | an unresolvable host is a 404, with the cache unchanged and nothing sent upstream |
| Dispatch.BlockedIsForbidden | http_proxy.c:210-233 | a blocked host or IP is a 403 even with a fresh cached copy, and the cache is unchanged |
| Dispatch.ListedHostIsForbidden | http_proxy.c:216-233 | listing the hostname or the IP in a blocklist of short lines, the last with or without its newline, is enough to be refused with 403 |
| Dispatch.RefusedIsPage | http_proxy.c:175-233 | a refused request gets the page of its status and nothing else happens |
| Dispatch.AcceptedGoesToCache | http_proxy.c:238-297 | an accepted request is decided by the cache stage on its own cache file |
| Dispatch.DecideIgnoresRest | http_proxy.c:175-236 | admission depends only on DNS and the blocklist, not on the clock, the upstream server or the disk |
| Dispatch.FreshHitServesCache | http_proxy.c:259-297 | a fresh file is sent as it is, nothing goes upstream, the directory is unchanged and the upstream server does not matter |
| Dispatch.UpstreamFailureIsInternalError | http_proxy.c:321-378 | socket, connect or recv failing is a 500 with any expired file gone, and only a recv failure comes after the request was sent |
| Dispatch.RelayAndStore | http_proxy.c:380-411 | on a miss the reply is relayed and stored under the cache file exactly when the path has no '?' and the write is complete; no other file changes |
| Dispatch.RelayedIsStored | http_proxy.c:392-411 | a relayed, cacheable, fully written reply is what the cache file then holds |
| Dispatch.RepeatFetch | http_proxy.c:240-411 | after a relay and store, the same request before expiry is served from the cache with the same bytes and no upstream request |
| Dispatch.RepeatIsServedFromCache | http_proxy.c:122-421 | the same, for the bytes the client sent, under any later environment with the same DNS and blocklist |
| Dispatch.ForwardedRequestParses | http_proxy.c:357 | the request sent upstream parses back as GET of the path, the version, the hostname on port 80 and the body |
| Dispatch.ForwardedRequestOfDecision | http_proxy.c:299-357 | for an accepted request line and Host header, upstream reads GET of the lowercased path in the client's version with the client's hostname and body |
| Dispatch.ForwardedRequestOfClient | http_proxy.c:130-357 | the same, for the bytes the client sent |
| Dispatch.ClientRequest | http_proxy.c:130-167 | a GET request that fits the buffer, with no NUL, parses to the request line and the Host header written in it, on port 80, with the body BodyAfter finds after the host line's CRLF |
| Dispatch.HostLastLosesBody | http_proxy.c:146-167 | when Host is the client's last header, the accepted request has no body and the request forwarded upstream has no blank line at all |
| Dispatch.HeadersAfterHostDropped | http_proxy.c:146-167 | with header lines after Host the body is found, but those lines are not forwarded: upstream the first blank line is the one right after the Host line, and an extra CRLF then the body follow it |
| Dispatch.ErrorsArePages | http_proxy.c:175-378 | every error answer is the page of its status in the request's version |
| Dispatch.FetchErrorsArePages | http_proxy.c:321-378 | every error at the cache stage is the page of its status in the request's version |
| Dispatch.PageFits | http_proxy.c:180-372 | every status code is one header field, and every error page is far below 10^9 bytes |
| Dispatch.ErrorReplyIsFramed | http_proxy.c:180-182 | every error reply has the status line "VERSION CODE", the page after the first blank line, and a Content-Length equal to the page's length |

## Left out

- The sockets, `accept`, the thread per connection and the `cache_lock` mutex are not modelled. One request is handled atomically, and the lock's only effect, serialising the cache, is implicit.
- `main`'s argument check and socket setup (`socket`, `setsockopt`, `bind`, `listen`) are not modelled. Only the expiration default is.
- DNS, the blocklist file, the clock and the upstream server are parameters (`Proxy.Env`), not calls.
- Every `recv` returns what it returns in one call. The model does not loop over partial reads, nor does the source.
- The `printf` logging is left out.
- Byte counts on the wire are not modelled. `send_response` sends `HEADERSIZE + content_size + 1` bytes, including bytes past the header string. `send_request` sends `HEADERSIZE + 1` bytes of a 1024-byte buffer. The relay sends `received + 1` bytes, with the trailing NUL. The model gives the intended strings.
- Proxy.Relay stores the reply bytes without the trailing NUL that `fwrite(reply, 1, received + 1, file)` also writes. `Written` is compared with the reply's length.
- Overflow of the fixed `header[1024]` buffer by long fields is not modelled, nor is `malloc` failing.
- `fopen`, `fseek` and `fread` of a fresh cache file are assumed to succeed. A hit serves the whole file.
- Proxy.PortOf: `atoi` overflow is not modelled. Atoi reads unbounded integers, and htons is taken modulo 2^16.
- Cache.Expiration: `atoi` overflow of the argument is not modelled.
- Headers.ResponseFraming and Headers.ResponseLength hold only for contents below 10^9 bytes. Above that, snprintf truncates the Content-Length digits.
- Undefined behaviour is modelled by policy:
  - A request without `Host: ` is a 400.
  - A host line without CRLF has no body.
  - A blocklist file that cannot be opened is a 500.
  - A missing `sscanf` token is empty.
  - The path freed at line 359 and read at line 392 is the path as computed.
- Proxy.Relay: the stored file's mtime is the request's single `Env.now`. The source's mtime is the moment of the write at lines 398-400, after an upstream exchange of any length. So at a later lookup the model can call a file expired that the source still serves.
- Proxy.Relay: `fopen(filepath, "wb")` failing at line 398 (for example with no `cache/` directory) is not modelled. The source then calls `fwrite` and `fclose` on `NULL`; the model always has the file open.
- Proxy.Handle: a failed client `recv` (`received == -1`, lines 130-131) writes `buf[-1]`. The model has no such case: the client bytes are always some text.
- A hostname of 255 characters or more, which `strncpy` leaves unterminated, is truncated to 255.

## Findings

| source | as written | input that shows it | evidently intended | confidence | as-written member | corrected member |
|---|---|---|---|---|---|---|
| http_proxy.c:161 | the body search `strstr(host_end + 2, "\r\n\r\n")` starts after the host line's CRLF, so a blank line right after the `Host:` line is never found | `GET / HTTP/1.1\r\nHost: h\r\n\r\nx`: no body, and `GET / HTTP/1.1\r\nHost: h\r\n` is sent upstream with no blank line | the search starts at the host line's CRLF, before line 147 overwrites it, so a body after the `Host:` line is found and forwarded | not executed | `Request.ParseHost`, shown by `Headers.BodyLostAfterLastHeader`, `Headers.BodyLostExample` and `Dispatch.HostLastLosesBody` | `Request.ParseHostIntended`, proved by `Headers.BodyKeptAfterLastHeader` and `Headers.IntendedBodyFollowsHeaders` |
| http_proxy.c:112-117 | without a body, `send_request` ends after the Host line's CRLF, so the header has no terminating blank line; with one it appends `\r\n\r\n`, one CRLF too many, before the body | method `GET`, path `/`, version `HTTP/1.1`, host `h`: no body gives `GET / HTTP/1.1\r\nHost: h\r\n`, and body `x` gives `...Host: h\r\n\r\n\r\nx` | one more CRLF after the Host line in every case, then the body as it is | not executed | `Headers.RequestMessage`, shown by `Headers.RequestWithoutBodyUnterminated` and `Headers.RequestBodyAfterExtraLine` | `Headers.RequestMessageIntended`, proved by `Headers.RequestIntendedFraming` |

`Proxy.HostOf` and `Proxy.ForwardOf`, and so `Proxy.Handle`, keep the code as written, since the handler's answers and the forwarded request are what the proxy does. `Request.ParseHostIntended` and `Headers.RequestMessageIntended` are the corrected definitions, with their properties proved beside the as-written ones.
