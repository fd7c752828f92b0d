# http.rs message layer in Dafny

A model of the HTTP/1.1 text framing of the `http.rs` client: the header
container `Header`, the response parser `HttpParser` with the URL splitter
`split_path_from_hostname`, and the request builder `Http` with the request
methods. It is a small subset of RFC 9112: section 3 (request line), section 4
(status line) and section 5 (field lines). Everything here is string framing
over split, join and index; the network half of the client is not modelled.

Four modules, one file each:

- `Text` (`text.dfy`) is the string toolkit the Rust code gets from its
  standard library. `Split` has `str::split` semantics: leftmost,
  non-overlapping matches of a non-empty separator of any length, so it always yields at
  least one piece. `SplitOnce` is `splitn(2, …)`, and `Join` is `join`. The
  lemmas relate them, for example `SplitJoin`: joining pieces that do not hold
  the separator and splitting again gives the pieces back.
- `Headers` (`header.dfy`) holds the class `Header`. It keeps the list of
  `key: value` lines and the key→value map, both updated in place by `Add`. A
  ghost history `fields` records every `Add` call. `Valid()` ties the lines
  and the map to that history: one line per call, and the map is what
  inserting every pair in order leaves behind.
- `Util` (`util.dfy`) holds `HttpParser`, a value wrapping the response text.
  - `Headers()` is a method with the source's loop. It is specified by the
    pure `FieldsOf(HeaderLines(content))`.
  - `Body()` and `Code()` are functions that index into the text the way the
    source does.
  - The lemmas `ResponseCode`, `ResponseFields` and `ResponseBody` state what
    the three accessors return on a well-formed response: status line, field
    lines, an empty line, and body lines.
- `Message` (`message.dfy`) holds `Method` and the class `Http`.
  - The setters update the builder in place.
  - `AsStr` produces the request text. When the method and the path hold
    no carriage return, the method holds no space, and no key or value
    holds a carriage return or `": "`, it is proved to parse back through
    `HttpParser`: the status accessor returns the path followed by
    `HTTP/1.1`, and the header accessor returns every field, in order.
  - `NewRequest` is the chain of calls in `Request::new`.

A Rust panic (an `unwrap` on `None`, an index out of range, or `len() - 2`
underflowing) is a `requires` of the member that would panic.

## Model

| member | source | states |
|---|---|---|
| Headers.Header.constructor | src/http/header.rs:26-31 | a new container has no lines, an empty map and an empty history |
| Headers.Header.Add | src/http/header.rs:34-39 | appends exactly the line `key: value` after the earlier lines, and overwrites the map entry of `key` while keeping every other entry; the line count stays equal to the number of calls |
| Headers.LastValueAppend | src/http/header.rs:34-46 | after adding `(key, value)`, the last value of `key` is `value`, and every other key's last value is as before |
| Headers.MapOfLastValue | src/http/header.rs:35 | the map built by successive inserts has exactly the added keys, each holding the value of its last insert |
| Headers.Header.Get | src/http/header.rs:42-46 | returns the last value added under the key, or the key itself when it was never added |
| Headers.Header.All | src/http/header.rs:49-51 | the map's keys are exactly the keys ever added, each with its last value |
| Headers.Header.AsStr | src/http/header.rs:54-56 | the text is the field line of every `Add`, in call order, joined by CRLF; an empty container gives the empty text; otherwise, if no key or value holds CRLF, splitting the text at CRLF gives back one line per `Add`, in call order |
| Headers.LinesRoundTrip | src/http/header.rs:54-56 | joining the field lines with CRLF and splitting again gives the lines back when no key or value holds CRLF |
| Text.Split | src/http/util.rs:40 | `str::split` always yields at least one piece |
| Text.SplitOnce | src/http/util.rs:71-72 | `splitn(2, sep)`: no separator gives the text unchanged; otherwise two pieces, the first free of the separator, joined back by it to the text |
| Text.SplitJoin | src/http/header.rs:55 | for a separator that cannot overlap itself (CRLF, `": "`), splitting the join of pieces that do not hold it gives the pieces back |
| Text.JoinSplit | src/http/header.rs:55 | joining the pieces of a split with the same separator gives the text back |
| Util.HttpParser.Headers | src/http/util.rs:37-55 | a fresh valid container whose history is one pair per examined line holding `": "` (its first two `": "`-pieces), in line order; the first line and the last segment are never examined |
| Util.HttpParser.Body | src/http/util.rs:58-62 | the section after the first blank-line separator starts with its first line, CRLF and the result; neither holds CRLF, and the result ends at the section's end or at a CRLF |
| Util.HttpParser.Code | src/http/util.rs:65-73 | the first line is a space-free prefix, one space and the result |
| Util.ResponseCode | src/http/util.rs:65-73 | for a response whose status line is `version reason`, the status accessor returns exactly `reason` |
| Util.ResponseFields | src/http/util.rs:37-55 | for a response, the header accessor yields the pairs of the field lines in order, followed by the pairs of every body line but the last that holds `": "` |
| Util.ResponseFieldsRoundTrip | src/http/util.rs:37-55 | when no body line before the last holds `": "`, the header accessor yields exactly the response's fields |
| Util.ResponseBody | src/http/util.rs:58-62 | the body accessor returns the second body line: the first body line is skipped and only one line is kept |
| Util.SplitPathFromHostname | src/http/util.rs:77-102 | never fails; one or two pieces; the first holds no `/`; the pieces joined by `/` are a stretch of the URL |
| Util.SplitUrl | src/http/util.rs:77-102 | `https://host/path`, `http://host/path` and `host/path` all split into `[host, path]` when the host has no `/` and no further scheme marker follows |
| Message.Method.AsStr | src/http/mod.rs:53-61 | each method's name is three to six upper-case letters |
| Message.MethodNamesDistinct | src/http/mod.rs:53-61 | different methods have different names |
| Message.RequestRoundTrip | src/http/mod.rs:136-142 | parsing a request text back gives the path followed by `HTTP/1.1` as status and every header field in order, when nothing holds a carriage return and no key or value holds `": "` |
| Message.Http.constructor | src/http/mod.rs:99-108 | the host is the URL's first piece and the path `/` plus its second; the host holds no `/`, the URL holds the host directly followed by the path, and body, headers and method are unset |
| Message.Http.SetHeaders | src/http/mod.rs:111-114 | stores the headers and changes no other field |
| Message.Http.SetBody | src/http/mod.rs:117-120 | stores the body and changes no other field |
| Message.Http.SetMethod | src/http/mod.rs:123-126 | stores the method's name as the body and leaves the stored method as it was |
| Message.Http.SetMethodCorrected | src/http/mod.rs:123-126 | stores the method's name as the method written on the request line and changes no other field |
| Message.Http.FromStr | src/http/mod.rs:131-133 | the parser holds the text verbatim; the URL plays no part |
| Message.Http.AsStr | src/http/mod.rs:136-142 | the text is the request line, CRLF, the header text and two CRLFs; it starts with the stored method (or `GET`) and a space, ends with an empty line, and leaves the body out; parsing it back gives the path with `HTTP/1.1` as status and the header fields in order |
| Message.DefaultHeaders | src/http/request.rs:37-41 | a fresh container holding exactly `Accept`, `Connection`, `Host` and `User-Agent`, in that order, with the given host |
| Message.NewRequest | src/http/request.rs:34-44 | the builder is made from the given URL and holds its host piece and `/` plus its path piece, and the four default fields; the method's name is in the body and no method is stored |
| Message.NewRequestText | src/http/request.rs:34-44 | whatever method is asked for, the request built as the code stands starts with `GET ` |
| Message.NewRequestTextCorrected | src/http/request.rs:34-44 | with the corrected setter, the request starts with the asked-for method's name and a space |

## Left out

- `src/http/tls.rs` is not part of this model. It configures TLS through a foreign library and performs the handshake over the network.
- `Request::stream` and `Request::send` (src/http/request.rs:47-69) are not modelled. They connect over TCP, write the request and read the response.
- The free function `get` (src/http/request.rs:73-75) is not modelled. It is `Request::new` with `Method::Get`.
- `HashMap` hashing and iteration order: the map is a Dafny `map`, which has no order.
- Move semantics: the Rust builders take `self` by value and return it. The model updates the object in place instead. Aliasing of a moved-from value cannot arise in Rust, so nothing observable is lost.
- Bytes and UTF-8: strings are sequences of characters. Rust's `split` works on UTF-8 bytes, and a multi-byte character never matches an ASCII separator part-way, so the pieces are the same.
- `HttpParser::new` is the datatype constructor `HttpParser(content)`. It stores the text unchanged, and the accessors cannot change it, so repeated calls return the same results.
- Util.SplitPathFromHostname: its contract says the joined pieces are a stretch of the URL, not which stretch. `Util.SplitUrl` pins the pieces down for URLs with at most one scheme marker.
- Util.HttpParser.Body: its contract describes the result inside the section but does not name the section's line. `Util.ResponseBody` names it for well-formed responses.
- Util.ResponseBody: it covers responses whose second body line is either the last line or non-empty. A response with an empty second body line followed by more lines is not covered, because there the blank-line separator falls inside the body.

## Findings

| source | as written | input that shows it | evidently intended | confidence | as-written member | corrected member |
|---|---|---|---|---|---|---|
| src/http/mod.rs:123-126 | `method(m)` stores the method's name in `body`, and the request line keeps its `GET` default | `Request::new("https://api.com/x", Method::Post)`, then `as_str`, gives a request starting `GET /x HTTP/1.1` | store the name in `method`, so that the request line starts with `POST ` | high; not executed | Message.NewRequestText | Message.NewRequestTextCorrected |
