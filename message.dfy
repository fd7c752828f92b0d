/**
 * Request methods and the request builder `Http`: a URL split into host and
 * path at construction, optional headers, body and method set one at a time,
 * and the request text produced from them.
 */
module Message {
  import opened Text
  import opened Headers
  import opened Util

  /** The protocol token closing every request line. */
  const Version: string := "HTTP/1.1"

  datatype Method = Delete | Get | Patch | Post | Put {

    /** The method's name on the wire: three to six upper-case letters. */
    function AsStr(): (name: string)
      ensures 3 <= |name| <= 6
      ensures forall i :: 0 <= i < |name| ==> 'A' <= name[i] <= 'Z'
    {
      match this
      case Delete => "DELETE"
      case Get => "GET"
      case Patch => "PATCH"
      case Post => "POST"
      case Put => "PUT"
    }
  }

  /** Different methods have different names, so a name identifies its method. */
  lemma MethodNamesDistinct(m: Method, n: Method)
    requires m != n
    ensures m.AsStr() != n.AsStr()
  {
  }

  /** The method written on the request line: the stored one, or `GET` when none is stored. */
  function RequestVerb(requestMethod: Option<string>): string
  {
    match requestMethod
    case Some(name) => name
    case None => "GET"
  }

  /** `verb path HTTP/1.1`. */
  function RequestLine(verb: string, path: string): string
  {
    verb + " " + path + " " + Version
  }

  /**
   * The request text: the request line, the header lines, and an empty line.
   * No header lines gives an extra empty line, since the empty header text is
   * still followed by its own CRLF.
   */
  ghost function RequestText(verb: string, path: string, fields: seq<(string, string)>): string
  {
    RequestLine(verb, path) + CRLF + Join(LinesOf(fields), CRLF) + DoubleCRLF
  }

  /** The lines after the header lines in a request: one empty line, or two when there is no header. */
  function RequestTail(fields: seq<(string, string)>): seq<string>
  {
    if fields == [] then ["", ""] else [""]
  }

  /**
   * A request is a response-shaped text: its first line, its header lines,
   * an empty line, and the trailing empty line(s).
   */
  lemma {:induction false} RequestAsResponse(line: string, fields: seq<(string, string)>)
    ensures line + CRLF + Join(LinesOf(fields), CRLF) + DoubleCRLF
            == ResponseText(line, fields, RequestTail(fields))
  {
    var lines := LinesOf(fields);
    if fields == [] {
      assert [line] + lines + [""] + ["", ""] == [line, "", "", ""];
      assert [line, "", "", ""][1..] == ["", "", ""];
      assert ["", "", ""][1..] == ["", ""];
      assert ["", ""][1..] == [""];
      assert Join(lines, CRLF) == "";
      assert Join([line, "", "", ""], CRLF) == line + CRLF + (CRLF + (CRLF + ""));
      assert RequestTail(fields) == ["", ""];
    } else {
      var all := [line] + lines + [""] + [""];
      assert all == [line] + (lines + ["", ""]);
      assert all[1..] == lines + ["", ""];
      JoinAppend(lines, ["", ""], CRLF);
      assert ["", ""][1..] == [""];
    }
  }

  /**
   * Parsing a request text back: the status accessor gives the path followed
   * by the protocol token, and the header accessor gives back every field in
   * order, as long as nothing holds a carriage return and no key or value
   * holds `": "`.
   */
  lemma RequestRoundTrip(verb: string, path: string, fields: seq<(string, string)>)
    requires ' ' !in verb && '\r' !in verb && '\r' !in path
    requires SingleLineFields(fields) && NoFieldSeps(fields)
    ensures var text := RequestText(verb, path, fields);
            && Contains(Split(text, CRLF)[0], " ")
            && HttpParser(text).Code() == path + " " + Version
            && |Split(text, CRLF)| >= 2
            && FieldsOf(HeaderLines(text)) == fields
  {
    var line := RequestLine(verb, path);
    var tail := RequestTail(fields);
    RequestAsResponse(line, fields);
    assert SingleLines(tail);
    assert line == verb + " " + (path + " " + Version);
    ResponseCode(verb, path + " " + Version, fields, tail);
    forall i | 0 <= i < |tail| - 1
      ensures !Contains(tail[i], FieldSep)
    {
      ShortClean(tail[i], FieldSep);
    }
    ResponseFieldsRoundTrip(line, fields, tail);
  }

  class Http {
    var body: Option<string>
    var headers: Option<Header>
    var url: string
    var path: string
    var hostname: string
    /** The method written on the request line; no builder step stores one. */
    var requestMethod: Option<string>

    /** Host and path are the two pieces of the URL, the path with a leading `/`. */
    ghost predicate Valid()
      reads this
    {
      var parts := SplitPathFromHostname(url).value;
      |parts| == 2 && hostname == parts[0] && path == "/" + parts[1]
    }

    /**
     * Splits the URL into host and path; the URL must have a `/` after its
     * host, as the path piece is taken unchecked. The host holds no `/` and
     * the URL holds the host directly followed by the path.
     */
    constructor (url: string)
      requires |SplitPathFromHostname(url).value| == 2
      ensures Valid()
      ensures this.url == url && body == None && headers == None && requestMethod == None
      ensures !Contains(hostname, "/") && Contains(url, hostname + path)
    {
      var parts := SplitPathFromHostname(url).value;
      this.url := url;
      body := None;
      headers := None;
      path := "/" + parts[1];
      hostname := parts[0];
      requestMethod := None;
      assert parts[0] + ("/" + parts[1]) == Join(parts, "/");
    }

    /** Stores the header container; nothing else changes. */
    method SetHeaders(h: Header)
      modifies this
      ensures headers == Some(h)
      ensures body == old(body) && requestMethod == old(requestMethod)
      ensures url == old(url) && path == old(path) && hostname == old(hostname)
    {
      headers := Some(h);
    }

    /** Stores the body; nothing else changes. */
    method SetBody(b: string)
      modifies this
      ensures body == Some(b)
      ensures headers == old(headers) && requestMethod == old(requestMethod)
      ensures url == old(url) && path == old(path) && hostname == old(hostname)
    {
      body := Some(b);
    }

    /**
     * The method setter as it stands: it stores the method's name as the
     * body, and the method written on the request line is left as it was.
     */
    method SetMethod(m: Method)
      modifies this
      ensures body == Some(m.AsStr())
      ensures requestMethod == old(requestMethod)
      ensures headers == old(headers)
      ensures url == old(url) && path == old(path) && hostname == old(hostname)
    {
      body := Some(m.AsStr());
    }

    /** The method setter storing the method's name where the request line takes it from. */
    method SetMethodCorrected(m: Method)
      modifies this
      ensures requestMethod == Some(m.AsStr())
      ensures body == old(body) && headers == old(headers)
      ensures url == old(url) && path == old(path) && hostname == old(hostname)
    {
      requestMethod := Some(m.AsStr());
    }

    /** A parser over the given text; the URL plays no part. */
    static function FromStr(url: string, text: string): (p: HttpParser)
      ensures p.content == text
    {
      HttpParser(text)
    }

    /**
     * The request text. It starts with the stored method, or `GET`, and a
     * space; it ends with an empty line; the body is not part of it; and
     * parsing it back gives the path with the protocol token as status and
     * every header field in order.
     */
    function AsStr(): (request: string)
      reads this, if headers.Some? then {headers.value} else {}
      requires headers.Some? && headers.value.Valid()
      ensures var verb := RequestVerb(requestMethod);
              |request| > |verb| && request[..|verb| + 1] == verb + " "
      ensures |request| >= |DoubleCRLF| && request[|request| - |DoubleCRLF|..] == DoubleCRLF
      ensures request == RequestText(RequestVerb(requestMethod), path, headers.value.fields)
      ensures var verb := RequestVerb(requestMethod);
              var fields := headers.value.fields;
              ' ' !in verb && '\r' !in verb && '\r' !in path
              && SingleLineFields(fields) && NoFieldSeps(fields) ==>
                && Contains(Split(request, CRLF)[0], " ")
                && HttpParser(request).Code() == path + " " + Version
                && |Split(request, CRLF)| >= 2
                && FieldsOf(HeaderLines(request)) == fields
    {
      var verb := RequestVerb(requestMethod);
      var fields := headers.value.fields;
      var request := RequestLine(verb, path) + CRLF + headers.value.AsStr() + DoubleCRLF;
      assert request[..|verb| + 1] == verb + " ";
      assert ' ' !in verb && '\r' !in verb && '\r' !in path && SingleLineFields(fields) && NoFieldSeps(fields) ==>
               && Contains(Split(request, CRLF)[0], " ")
               && HttpParser(request).Code() == path + " " + Version
               && |Split(request, CRLF)| >= 2
               && FieldsOf(HeaderLines(request)) == fields by {
        if ' ' !in verb && '\r' !in verb && '\r' !in path && SingleLineFields(fields) && NoFieldSeps(fields) {
          RequestRoundTrip(verb, path, fields);
        }
      }
      request
    }
  }

  /** The four header fields every request starts with, the host taken from the URL. */
  method DefaultHeaders(host: string) returns (h: Header)
    ensures fresh(h) && h.Valid()
    ensures h.fields == [("Accept", "*/*"), ("Connection", "close"), ("Host", host), ("User-Agent", "Quantun/0.1")]
  {
    h := new Header();
    h.Add("Accept", "*/*");
    h.Add("Connection", "close");
    h.Add("Host", host);
    h.Add("User-Agent", "Quantun/0.1");
  }

  /**
   * The request that `Request::new` builds: the URL's host and path, four
   * fixed header fields, and the method handed to the method setter.
   */
  method NewRequest(url: string, m: Method) returns (http: Http)
    requires |SplitPathFromHostname(url).value| == 2
    ensures fresh(http) && http.Valid() && http.url == url
    ensures http.hostname == SplitPathFromHostname(url).value[0]
    ensures http.path == "/" + SplitPathFromHostname(url).value[1]
    ensures http.headers.Some? && fresh(http.headers.value) && http.headers.value.Valid()
    ensures http.headers.value.fields
            == [("Accept", "*/*"), ("Connection", "close"),
                ("Host", SplitPathFromHostname(url).value[0]), ("User-Agent", "Quantun/0.1")]
    ensures http.body == Some(m.AsStr()) && http.requestMethod == None
  {
    http := new Http(url);
    http.SetMethod(m);
    var h := DefaultHeaders(SplitPathFromHostname(url).value[0]);
    http.SetHeaders(h);
  }

  /** Whatever method is asked for, the request built as it stands is a `GET`. */
  method NewRequestText(url: string, m: Method) returns (request: string)
    requires |SplitPathFromHostname(url).value| == 2
    ensures |request| > 4 && request[..4] == "GET "
  {
    var http := NewRequest(url, m);
    request := http.AsStr();
  }

  /** With the corrected setter, the request line carries the asked-for method. */
  method NewRequestTextCorrected(url: string, m: Method) returns (request: string)
    requires |SplitPathFromHostname(url).value| == 2
    ensures |request| > |m.AsStr()| && request[..|m.AsStr()| + 1] == m.AsStr() + " "
  {
    var http := new Http(url);
    http.SetMethodCorrected(m);
    var h := DefaultHeaders(SplitPathFromHostname(url).value[0]);
    http.SetHeaders(h);
    request := http.AsStr();
  }
}
