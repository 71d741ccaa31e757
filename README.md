# A verified model of a minimal static-file HTTP server

The server accepts one TCP connection at a time and serves one request per connection:
- It receives at most 2047 octets.
- It splits off the first two whitespace-separated tokens with `strtok`: the method and the path.
- It cuts the path at its first `?`.
- It maps `/`, `/borrowing` and `/return` to fixed pages under `public/pages/`. Any other path maps to `public/` followed by the C string one octet past the path pointer. For a path starting with `/`, that is the path without its first octet. Both go through `snprintf` into a 512-octet buffer.
- It answers with the file or with a fixed 404 response.

This project models that per-connection work, octet by octet, and proves what it does.

| file | module | models |
|---|---|---|
| `wrappers.dfy` | `Wrappers` | `Option` |
| `octets.dfy` | `Octets` | octets, ASCII literals, the `%ld` rendering of a size and its reading back |
| `content_type.dfy` | `ContentType` | `get_content_type` and `strrchr` |
| `request_line.dfy` | `RequestLine` | the receive window, the C strings read from the buffer, the two `strtok` calls, `strchr` and the `?` cut, and the NUL writes these make in the buffer |
| `routes.dfy` | `Routes` | the resolver: `Route` and `ResolveAsWritten` as the code does it, and the corrected `ResolvePath` (see Findings) |
| `response.dfy` | `Response` | `send_404` and `send_file_response`: header, chunked copy loop, 404 on a failed `open` or `fstat`, descriptor closed on every path |
| `server.dfy` | `Server` | the per-connection block of `main`, from `recv` to the reply: `Reply` as written, and `ReplyIntended` with the corrected resolver |

## Environment model

- **File system.** A map from file path to what `open` and `fstat` find there. A path missing from the map cannot be opened. An entry says whether `fstat` succeeds and holds the file's octets.
- **Send outcomes.** A sequence of booleans given in advance. Call 0 sends the 404 response or the 200 header. Call k sends the k-th body chunk. Calls past the end of the sequence succeed. A failed call delivers nothing.
- **The receive.** Either a receive error or the octets that arrived.

The pure functions `Reply` and `FileResponse` specify what reaches the peer. `Reply` resolves the file path as the code does. It matches the routes on the C string at `path` and formats the one at `path + 1`. `ReplyIntended` uses the corrected resolver `ResolvePath` instead. The two differ only when the path token begins with '?'. The methods `HandleConnection`, `SendFileResponse` and `SendBody` carry out the same steps imperatively, with a 2048-octet `array` as the file buffer. Each method is proved equal to its specification function.

## Model

| member | source | states |
|---|---|---|
| Octets.Decimal | server.c:57-59 | `%ld` of a size is a non-empty run of decimal digits that starts with '0' exactly when the size is 0 |
| Octets.DecimalRoundTrip | server.c:57-59 | reading the `Content-Length` digits back gives exactly the size that was rendered |
| Octets.DecimalInjective | server.c:57-59 | different sizes give different `Content-Length` digits |
| ContentType.LastIndexOf | server.c:17 | `strrchr`: a found position holds the octet and no later position does; nothing is found exactly when the octet does not occur |
| ContentType.ContentTypeOf | server.c:16-24 | the type is always one of the four literals |
| ContentType.LastDotSuffix | server.c:17-21 | for an extension of one dot and dot-free octets, the path ends with it exactly when the text from the last dot equals it |
| ContentType.ContentTypeBySuffix | server.c:16-24 | html, css and js types are returned exactly when the path ends in ".html", ".css" or ".js"; the octet stream exactly when it ends in none of them |
| ContentType.ConstantsDiffer | server.c:19-23 | the four types and the three suffixes are pairwise distinct, so the lookup is unambiguous |
| ContentType.DoubleExtensionIsOctetStream | server.c:17-23 | only the text from the last dot counts: "x.html.bak" is an octet stream |
| ContentType.UpperCaseIsOctetStream | server.c:19-21 | the comparison is case-sensitive: "x.HTML" is an octet stream |
| ContentType.NoDotIsOctetStream | server.c:18-23 | a path without a dot is an octet stream |
| ContentType.IndexPageIsHtml | server.c:19 | the index page is served as "text/html; charset=utf-8" |
| ContentType.ScriptIsJavascript | server.c:21 | "script.js" is served as "application/javascript" |
| ContentType.ContentTypeIgnoresDirectory | server.c:16-24 | the type depends only on the last five octets, so a directory in front of a name does not change it |
| RequestLine.CString | server.c:143-144 | the C string at a pointer is the NUL-free prefix up to the first NUL, or the whole rest |
| RequestLine.CStringStopsAtNul | server.c:129-130 | octets after a NUL are invisible to every C string read before it |
| RequestLine.ReceivedLine | server.c:129-130 | the line `strtok` sees has at most 2047 octets, has no NUL, is a prefix of what arrived, and is cut only at the receive limit or at a NUL |
| RequestLine.ReceivedLineStopsAtNul | server.c:129-143 | octets after the first NUL of a receive never reach the tokenizer |
| RequestLine.SkipDelims | server.c:143-144 | skips exactly a run of space, tab, CR and LF |
| RequestLine.TokenEnd | server.c:143-144 | stops exactly at the first delimiter or at the end |
| RequestLine.NextToken | server.c:143-144 | one `strtok` call returns a non-empty token and resumes past its end |
| RequestLine.FirstTwoTokens | server.c:143-146 | the method token ends before the path token begins, and both lie within the line |
| RequestLine.FirstTwoTokensSpec | server.c:143-150 | the parse fails exactly when the line holds at most one token; otherwise it returns the first two maximal runs of non-delimiters, with no token starting between them |
| RequestLine.StrictRequestLine | server.c:143-144 | "method SP target SP rest" yields exactly the method and the target spans |
| RequestLine.ParseStrictRequestLine | server.c:143-173 | such a line parses to its method, its query-free target and the C string at `path + 1` |
| RequestLine.IndexOf | server.c:158 | `strchr`: the first occurrence of the octet, or the length when it does not occur |
| RequestLine.StripQuery | server.c:158-161 | the stripped path is a '?'-free prefix of the token, cut exactly at the token's first '?' when there is one |
| RequestLine.StripQueryIdempotent | server.c:158-161 | a token without '?' is left alone, and stripping twice is stripping once |
| RequestLine.StripQueryDropsQuery | server.c:158-161 | whatever follows the first '?' never reaches the stripped path |
| RequestLine.ParsedRequestShape | server.c:143-161 | `ParseRequest` fails exactly when there is at most one token; a parsed method is non-empty and NUL-free; a parsed path is NUL-free and has no '?' |
| RequestLine.ParsedBufferWrites | server.c:143-160 | after the two `strtok` calls and the '?' write, `ParsedBuffer` holds NUL at each position where a token or the query was cut, and the received octet elsewhere |
| RequestLine.MethodPointer | server.c:143 | the C string at the method pointer is the method token |
| RequestLine.PathPointer | server.c:144-161 | the C string at the path pointer is the stripped path |
| RequestLine.PathPlusOnePointer | server.c:158-173 | the C string at `path + 1` is `PathPlusOne` of the token: from its second octet up to the '?', or to the token's end when the '?' is the first octet |
| RequestLine.InPlaceParse | server.c:143-173 | the pure parse agrees with the in-place one at all three pointers |
| Routes.Truncate | server.c:164-174 | `snprintf` into 512 octets keeps a prefix of at most 511 octets, and keeps a shorter text whole |
| Routes.SpecialRoutes | server.c:158-171 | "/", "/borrowing" and "/return", with or without a query, resolve to their pages |
| Routes.ResolvedUnderPublic | server.c:164-174 | every file path starts with "public/" and fits the 512-octet buffer with its NUL |
| Routes.DirectMapping | server.c:172-174 | any other "/x" resolves to "public/x" octet for octet when it fits |
| Routes.FirstOctetDropped | server.c:172-174 | the first octet is dropped even when it is not '/' |
| Routes.MissingSlashLosesFirstOctet | server.c:172-174 | "style.css" resolves to "public/tyle.css" |
| Routes.LongPathTruncated | server.c:164-174 | a long path is cut to the first 511 octets of "public/" + path[1..] |
| Routes.TraversalNotFiltered | server.c:172-174 | ".." is passed through: "/../server.c" resolves to "public/../server.c" |
| Routes.RoutedPageReachableDirectly | server.c:164-174 | "/pages/index.html" resolves to the same file as "/" |
| Routes.QueryReachesFilePathAsWritten | server.c:158-174 | as written (`ResolveAsWritten`, that is `Route` on the C strings at `path` and `path + 1`), a token "?" + x strips to the empty path yet resolves to "public/" + x: the query reaches the file path |
| Routes.QueryFirstExample | server.c:158-174 | as written, "?x" resolves to "public/x" while "/?x" resolves to the index page |
| Routes.AsWrittenAgreesOnNonEmptyPath | server.c:158-174 | the corrected resolver `ResolvePath` agrees with the code's `ResolveAsWritten` on every token whose stripped path is not empty, so the `ResolvePath` lemmas above describe the code for such tokens |
| Routes.QueryNeverReachesFilePath | server.c:158-174 | with the corrected resolver `ResolvePath`, not the code's, appending a query to a path token never changes the file path |
| Response.NotFoundContentLength | server.c:27-33 | the 404 response announces exactly the length of its body "Not Found" |
| Response.BodySent | server.c:64-72 | whatever the sends do, the body that reaches the peer is a prefix of the file |
| Response.BodyEndsAtChunkBoundary | server.c:64-72 | a failed send cuts the body at a multiple of 2048 octets, unless the whole file got through |
| Response.WholeFileSent | server.c:64-72 | without send errors the whole file is sent |
| Response.ReadChunk | server.c:67 | `read` fills the buffer with the next min(remaining, 2048) octets of the file |
| Response.BodySentStep | server.c:67-71 | one successful chunk extends the body sent so far by exactly that chunk |
| Response.SendBody | server.c:64-72 | the copy loop sends exactly `BodySent` of the file |
| Response.SendFileResponse | server.c:36-75 | `send_file_response` sends exactly `FileResponse`: the 404 on a failed `open` or `fstat`, otherwise the header and then the body. Its descriptor events are `open` then `close` when `open` succeeds, and none otherwise |
| Response.OkReplyIsNotNotFound | server.c:28-59 | an `OkHeader` followed by anything differs from the 404 response |
| Response.NotFoundExactlyOnFailure | server.c:36-52 | without send errors, `FileResponse` is the 404 response exactly when `open` or `fstat` fails |
| Response.ContentLengthMatchesBody | server.c:54-72 | without send errors, a file that opens yields its header (`OkHeader`) and then exactly its octets, and the `Content-Length` digits read back as the body's length |
| Response.SendErrorLeavesPrefix | server.c:61-72 | whatever the sends do, the reply is the header (or nothing) followed by a prefix of the file that is whole or ends at a chunk boundary |
| Server.HandleConnection | server.c:128-182 | the per-connection block sends exactly `Reply`, the code's resolution included. Every descriptor it opens is closed, and none is opened when there is no reply |
| Server.ReplyDiffersOnlyOnEmptyPath | server.c:158-174 | `Reply` and `ReplyIntended` differ only on a request whose stripped path is empty, which is when the token begins with '?' |
| Server.NoReplyExactly | server.c:129-150 | `Reply` is None exactly on a receive error, an empty receive, or a line with at most one token |
| Server.OnlyFirstOctetsExamined | server.c:129-130 | octets beyond the first 2047 never change the reply |
| Server.OctetsAfterNulIgnored | server.c:129-143 | octets after the first NUL never change the reply |
| Server.ShortLineSeenWhole | server.c:129-130 | a NUL-free receive within the limit is seen whole |
| Server.WellFormedRequest | server.c:128-179 | "method SP target SP rest" is answered with the file `ResolveAsWritten(target)`, and under `ReplyIntended` with `ResolvePath` of the query-free target. The two agree when the target does not begin with '?' |
| Server.MethodIgnored | server.c:143-179 | two requests that differ only in the method get the same reply |
| Server.ScenarioIndexPage | server.c:128-182 | "GET / HTTP/1.1" yields the 200 header with type text/html and the index page |
| Server.ScenarioMissingFile | server.c:128-182 | "GET /missing.css HTTP/1.1" for a missing file yields exactly the 404 response |
| Server.ScenarioScriptWithQuery | server.c:128-182 | "GET /script.js?v=2 HTTP/1.1" drops the query and yields the 200 header with type application/javascript and the script |
| Server.ScenarioQueryFirstToken | server.c:128-182 | "GET ?x HTTP/1.1" is answered from "public/x" by the code, and from "public/" by the corrected resolver |
| Server.ScenarioNoReply | server.c:129-150 | "GET" alone, an empty receive or a receive error closes the connection without a reply |

## Left out

- Socket setup, `accept`, the endless accept loop and `close` of the client socket are left out. The model covers one connection: what is received and what is sent.
- Logging (`printf`, `perror`, `fprintf`) is left out because it has no effect on the peer.
- The file system is abstract. In the model, a file that opens has a size equal to its octets. Reads return min(remaining, 2048) octets and never fail. Directories and special files, where `read` fails or `st_size` differs from what `read` returns, are not modelled.
- Response.SendBody: a partial `send` is modelled as all-or-nothing. Only a negative return ends the loop in the code, so a short send would drop the rest of that chunk silently; the model has no short sends.
- The header `sprintf` into a 2048-octet buffer is not modelled as a bounded write. The longest content type and a 20-digit size stay far below 2048 octets, so it cannot overflow.
- Characters are octets. There is no percent-decoding or case folding, because the code does none.
- `public/scripts/borrowing.js` is client-side page code, not part of the server, and is not modelled.
- Concurrency is not modelled, because the server handles one connection at a time.

## Findings

| source | as written | input that shows it | evidently intended | confidence | as-written member | corrected member |
|---|---|---|---|---|---|---|
| server.c:158-173 | when the path token starts with '?', the NUL write at the '?' empties `path`, yet the fallback `snprintf` reads from `path + 1`, which is the query text | "GET ?x HTTP/1.1" resolves to "public/x", and "GET ?../server.c HTTP/1.1" to "public/../server.c" | the query is discarded before resolution, so "?x" resolves like the empty path, to "public/" | not executed | Routes.ResolveAsWritten, Routes.QueryReachesFilePathAsWritten, Server.ScenarioQueryFirstToken | Routes.ResolvePath, Routes.QueryNeverReachesFilePath, Server.ReplyIntended |
