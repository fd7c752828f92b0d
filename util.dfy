/**
 * Response parsing and URL splitting. Each accessor of `HttpParser` works on
 * the raw response text alone, recomputing its view on every call; text that
 * does not have the shape an accessor indexes into is a precondition
 * violation, as the accessors index without checking.
 */
module Util {
  import opened Text
  import opened Headers

  datatype Result<T> = Ok(value: T) | Err(error: string)

  const HttpsScheme: string := "https://"
  const HttpScheme: string := "http://"

  /**
   * The lines that `headers` examines: every CRLF-separated line except the
   * first (the status line) and the last segment.
   */
  ghost function HeaderLines(content: string): seq<string>
    requires |Split(content, CRLF)| >= 2
  {
    var lines := Split(content, CRLF);
    lines[1..|lines| - 1]
  }

  /**
   * The pairs that `headers` adds for these lines, in order: a line without
   * `": "` adds nothing, any other line adds its first two `": "`-pieces.
   */
  ghost function FieldsOf(lines: seq<string>): seq<(string, string)>
  {
    if lines == [] then []
    else
      var pieces := Split(lines[|lines| - 1], FieldSep);
      FieldsOf(lines[..|lines| - 1]) + (if |pieces| == 1 then [] else [(pieces[0], pieces[1])])
  }

  datatype HttpParser = HttpParser(content: string) {

    /**
     * A fresh header container holding one `Add` per examined line that
     * contains `": "`, in line order.
     */
    method Headers() returns (header: Header)
      requires |Split(content, CRLF)| >= 2
      ensures fresh(header) && header.Valid()
      ensures header.fields == FieldsOf(HeaderLines(content))
    {
      header := new Header();
      var lines := Split(content, CRLF);
      var headerLines := lines[1..][..|lines| - 2];
      assert headerLines == HeaderLines(content);
      for i := 0 to |headerLines|
        invariant header.Valid()
        invariant header.fields == FieldsOf(headerLines[..i])
      {
        assert headerLines[..i + 1][..i] == headerLines[..i];
        var splitted := Split(headerLines[i], FieldSep);
        if |splitted| == 1 {
          continue;
        }
        header.Add(splitted[0], splitted[1]);
      }
      assert headerLines[..|headerLines|] == headerLines;
    }

    /**
     * The second CRLF-line of the section between the first and the second
     * empty line: that section starts with its first line, a CRLF and then
     * the result, which ends at the section's end or at the next CRLF.
     */
    function Body(): (body: string)
      requires |Split(content, DoubleCRLF)| >= 2
      requires |Split(Split(content, DoubleCRLF)[1], CRLF)| >= 2
      ensures var section := Split(content, DoubleCRLF)[1];
              var first := Split(section, CRLF)[0];
              var end := |first| + |CRLF| + |body|;
              && !Contains(first, CRLF) && !Contains(body, CRLF)
              && end <= |section| && section[..end] == first + CRLF + body
              && (end == |section| || OccursAt(section, CRLF, end))
    {
      var section := Split(content, DoubleCRLF)[1];
      SecondLineShape(section);
      Split(section, CRLF)[1]
    }

    /**
     * Everything after the first space of the first CRLF-line: that line is
     * a text without spaces, one space, and the result.
     */
    function Code(): (status: string)
      requires Contains(Split(content, CRLF)[0], " ")
      ensures var line := Split(content, CRLF)[0];
              && |status| < |line|
              && line == line[..|line| - |status| - 1] + " " + status
              && !Contains(line[..|line| - |status| - 1], " ")
    {
      var line := Split(content, CRLF)[0];
      var parts := SplitOnce(line, " ");
      assert line[..|line| - |parts[1]| - 1] == parts[0];
      parts[1]
    }
  }

  /**
   * Host and path of a URL: the text after the first `https://` (or, when
   * there is none, after the first `http://`; or the whole URL when neither
   * occurs), up to the next such marker, split once at its first `/`. Never
   * fails, has one or two pieces, the first without `/`, and joining them
   * with `/` gives back a stretch of the URL.
   */
  function SplitPathFromHostname(url: string): (r: Result<seq<string>>)
    ensures r.Ok?
    ensures 1 <= |r.value| <= 2
    ensures !Contains(r.value[0], "/")
    ensures Contains(url, Join(r.value, "/"))
  {
    var separateHttps := Split(url, HttpsScheme);
    var separateHttp := Split(url, HttpScheme);
    var pathFromUrl: Option<string> :=
      if |separateHttps| == 1 && |separateHttp| == 1 then Some(url)
      else if |separateHttps| > 1 then Some(separateHttps[1])
      else if |separateHttp| > 1 then Some(separateHttp[1])
      else None;
    match pathFromUrl
    case None => Err("Cannot get the path from the URL.")
    case Some(rest) =>
      SecondPieceInText(url, HttpsScheme);
      SecondPieceInText(url, HttpScheme);
      assert OccursAt(url, url, 0);
      var parts := SplitOnce(rest, "/");
      assert Join(parts, "/") == rest;
      Ok(parts)
  }

  /** No key and no value holds `": "`. */
  ghost predicate NoFieldSeps(fields: seq<(string, string)>)
  {
    forall i :: 0 <= i < |fields| ==> !Contains(fields[i].0, FieldSep) && !Contains(fields[i].1, FieldSep)
  }

  /** Lines are examined one after another: the pairs of `a + b` are those of `a`, then those of `b`. */
  lemma {:induction false} FieldsOfAppend(a: seq<string>, b: seq<string>)
    ensures FieldsOf(a + b) == FieldsOf(a) + FieldsOf(b)
    decreases |b|
  {
    if b != [] {
      var init := b[..|b| - 1];
      assert (a + b)[..|a + b| - 1] == a + init;
      assert (a + b)[|a + b| - 1] == b[|b| - 1];
      FieldsOfAppend(a, init);
    } else {
      assert a + b == a;
    }
  }

  /** Lines without `": "` add nothing. */
  lemma {:induction false} FieldsOfPlain(lines: seq<string>)
    requires forall i :: 0 <= i < |lines| ==> !Contains(lines[i], FieldSep)
    ensures FieldsOf(lines) == []
  {
    if lines != [] {
      SplitSingle(lines[|lines| - 1], FieldSep);
      FieldsOfPlain(lines[..|lines| - 1]);
    }
  }

  /**
   * Every pair added has a key and a value without `": "`, and there are at
   * most as many pairs as lines.
   */
  lemma {:induction false} FieldsOfShape(lines: seq<string>)
    ensures |FieldsOf(lines)| <= |lines|
    ensures NoFieldSeps(FieldsOf(lines))
  {
    if lines != [] {
      var init := lines[..|lines| - 1];
      FieldsOfShape(init);
      SplitPiecesClean(lines[|lines| - 1], FieldSep);
    }
  }

  /**
   * A line written as `key: value` splits at `": "` into the key and then
   * the value up to its own first `": "`: any text after a second `": "` is
   * dropped, and a value without `": "` comes back whole.
   */
  lemma SplitFieldLine(key: string, value: string)
    requires !Contains(key, FieldSep)
    ensures |Split(FieldLine(key, value), FieldSep)| >= 2
    ensures Split(FieldLine(key, value), FieldSep)[0] == key
    ensures Split(FieldLine(key, value), FieldSep)[1] == Split(value, FieldSep)[0]
    ensures !Contains(value, FieldSep) ==> Split(FieldLine(key, value), FieldSep) == [key, value]
  {
    FieldSepNoBorder();
    SplitCons(key, FieldSep, value);
    SplitSingle(value, FieldSep);
  }

  /** The lines a header container writes are read back as the same pairs. */
  lemma {:induction false} FieldsOfLines(fields: seq<(string, string)>)
    requires NoFieldSeps(fields)
    ensures FieldsOf(LinesOf(fields)) == fields
  {
    if fields != [] {
      var n := |fields|;
      var init := fields[..n - 1];
      assert LinesOf(fields)[..n - 1] == LinesOf(init);
      SplitFieldLine(fields[n - 1].0, fields[n - 1].1);
      FieldsOfLines(init);
    }
  }

  /**
   * A URL made of a scheme marker (or none), a host without `/`, a `/` and a
   * path splits into that host and that path, provided no further scheme
   * marker occurs after the scheme.
   */
  lemma SplitUrl(scheme: string, host: string, path: string)
    requires scheme == HttpsScheme || scheme == HttpScheme || scheme == ""
    requires '/' !in host
    requires !Contains(host + "/" + path, HttpsScheme) && !Contains(host + "/" + path, HttpScheme)
    ensures SplitPathFromHostname(scheme + host + "/" + path) == Ok([host, path])
  {
    var rest := host + "/" + path;
    var url := scheme + rest;
    assert url == scheme + host + "/" + path;
    HostPathSplit(host, path);
    SplitSingle(rest, HttpsScheme);
    SplitSingle(rest, HttpScheme);
    if scheme == HttpsScheme {
      SplitPrefixOnce(rest, HttpsScheme);
    } else if scheme == HttpScheme {
      HttpNotHttps(rest);
      SplitSingle(url, HttpsScheme);
      SplitPrefixOnce(rest, HttpScheme);
    } else {
      assert url == rest;
    }
  }

  /** A host without `/`, a `/` and a path split once at `/` into host and path. */
  lemma HostPathSplit(host: string, path: string)
    requires '/' !in host
    ensures SplitOnce(host + "/" + path, "/") == [host, path]
  {
    var rest := host + "/" + path;
    PlainPrefix(host, "/" + path, "/");
    FindDrop(rest, "/", |host|);
    assert rest[|host|..] == "/" + path;
    assert ("/" + path)[..1] == "/";
    assert rest[..|host|] == host && rest[|host| + 1..] == path;
  }

  /** A marker in front of a text that does not hold it: two pieces, nothing and the text. */
  lemma SplitPrefixOnce(rest: string, scheme: string)
    requires |scheme| > 0 && !Contains(rest, scheme)
    ensures Split(scheme + rest, scheme) == ["", rest]
  {
    var url := scheme + rest;
    assert url[..|scheme|] == scheme;
    assert url[0..|scheme|] == scheme;
    assert url[|scheme|..] == rest;
    assert Find(url, scheme) == Some(0);
    SplitAtFound(url, scheme, 0);
    SplitSingle(rest, scheme);
  }

  /** `http://` in front of a text without `https://` does not make one. */
  lemma HttpNotHttps(rest: string)
    requires !Contains(rest, HttpsScheme)
    ensures !Contains(HttpScheme + rest, HttpsScheme)
  {
    var url := HttpScheme + rest;
    forall j | 0 <= j && j + |HttpsScheme| <= |url|
      ensures !OccursAt(url, HttpsScheme, j)
    {
      if j == 0 {
        assert url[j..j + |HttpsScheme|][4] == ':';
      } else if j < |HttpScheme| {
        assert url[j..j + |HttpsScheme|][0] == HttpScheme[j];
      } else {
        OccursInSuffix(url, HttpsScheme, |HttpScheme|, j - |HttpScheme|);
        assert url[|HttpScheme|..] == rest;
      }
    }
  }

  /** No line holds a carriage return. */
  ghost predicate SingleLines(lines: seq<string>)
  {
    forall i :: 0 <= i < |lines| ==> '\r' !in lines[i]
  }

  /** No key and no value holds a carriage return. */
  ghost predicate SingleLineFields(fields: seq<(string, string)>)
  {
    forall i :: 0 <= i < |fields| ==> '\r' !in fields[i].0 && '\r' !in fields[i].1
  }

  /**
   * A response in the shape the parser expects: the status line, one line
   * per field, an empty line and the body lines, joined by CRLF.
   */
  ghost function ResponseText(statusLine: string, fields: seq<(string, string)>, bodyLines: seq<string>): string
  {
    Join([statusLine] + LinesOf(fields) + [""] + bodyLines, CRLF)
  }

  lemma FieldLinesSingle(fields: seq<(string, string)>)
    requires SingleLineFields(fields)
    ensures SingleLines(LinesOf(fields))
    ensures forall i :: 0 <= i < |fields| ==> LinesOf(fields)[i] != ""
  {
  }

  /** Splitting such a response at CRLF gives back its lines. */
  lemma ResponseLines(statusLine: string, fields: seq<(string, string)>, bodyLines: seq<string>)
    requires '\r' !in statusLine && SingleLineFields(fields) && SingleLines(bodyLines)
    ensures Split(ResponseText(statusLine, fields, bodyLines), CRLF)
            == [statusLine] + LinesOf(fields) + [""] + bodyLines
  {
    var lines := [statusLine] + LinesOf(fields) + [""] + bodyLines;
    FieldLinesSingle(fields);
    forall i | 0 <= i < |lines|
      ensures !Contains(lines[i], CRLF)
    {
      assert '\r' !in lines[i];
      MissingCharClean(lines[i], CRLF);
    }
    CRLFNoBorder();
    SplitJoin(lines, CRLF);
  }

  /** The status accessor returns what follows the status line's first space. */
  lemma ResponseCode(version: string, reason: string, fields: seq<(string, string)>, bodyLines: seq<string>)
    requires ' ' !in version && '\r' !in version && '\r' !in reason
    requires SingleLineFields(fields) && SingleLines(bodyLines)
    ensures var p := HttpParser(ResponseText(version + " " + reason, fields, bodyLines));
            Contains(Split(p.content, CRLF)[0], " ") && p.Code() == reason
  {
    var line := version + " " + reason;
    ResponseLines(line, fields, bodyLines);
    assert line == version + (" " + reason);
    assert OccursAt(line, " ", |version|) by {
      assert line[|version|..|version| + 1] == " ";
    }
    PlainPrefix(version, " " + reason, " ");
    FindIs(line, " ", |version|);
    SplitPlainCons(version, reason, " ");
  }

  /**
   * The header accessor reads one pair per field line, in order, followed by
   * the pairs of every body line but the last that contains `": "`.
   */
  lemma ResponseFields(statusLine: string, fields: seq<(string, string)>, bodyLines: seq<string>)
    requires '\r' !in statusLine && SingleLineFields(fields) && NoFieldSeps(fields)
    requires SingleLines(bodyLines) && |bodyLines| >= 1
    ensures var content := ResponseText(statusLine, fields, bodyLines);
            && |Split(content, CRLF)| >= 2
            && FieldsOf(HeaderLines(content)) == fields + FieldsOf(bodyLines[..|bodyLines| - 1])
  {
    var bodyInit := bodyLines[..|bodyLines| - 1];
    ResponseHeaderLines(statusLine, fields, bodyLines);
    FieldsOfAppend(LinesOf(fields), [""] + bodyInit);
    FieldsOfLines(fields);
    FieldsOfBlankFirst(bodyInit);
  }

  /** The lines the header accessor examines in a response: the field lines, the empty line, and the body lines but the last. */
  lemma ResponseHeaderLines(statusLine: string, fields: seq<(string, string)>, bodyLines: seq<string>)
    requires '\r' !in statusLine && SingleLineFields(fields)
    requires SingleLines(bodyLines) && |bodyLines| >= 1
    ensures var content := ResponseText(statusLine, fields, bodyLines);
            && |Split(content, CRLF)| >= 2
            && HeaderLines(content) == LinesOf(fields) + ([""] + bodyLines[..|bodyLines| - 1])
  {
    ResponseLines(statusLine, fields, bodyLines);
    var all := [statusLine] + LinesOf(fields) + [""] + bodyLines;
    assert all[1..|all| - 1] == LinesOf(fields) + ([""] + bodyLines[..|bodyLines| - 1]);
  }

  /** An empty line adds no pair. */
  lemma FieldsOfBlankFirst(lines: seq<string>)
    ensures FieldsOf([""] + lines) == FieldsOf(lines)
  {
    FieldsOfAppend([""], lines);
    ShortClean("", FieldSep);
    FieldsOfPlain([""]);
  }

  /** With no `": "` in the body lines before the last, exactly the fields come back. */
  lemma ResponseFieldsRoundTrip(statusLine: string, fields: seq<(string, string)>, bodyLines: seq<string>)
    requires '\r' !in statusLine && SingleLineFields(fields) && NoFieldSeps(fields)
    requires SingleLines(bodyLines) && |bodyLines| >= 1
    requires forall i :: 0 <= i < |bodyLines| - 1 ==> !Contains(bodyLines[i], FieldSep)
    ensures var content := ResponseText(statusLine, fields, bodyLines);
            && |Split(content, CRLF)| >= 2
            && FieldsOf(HeaderLines(content)) == fields
  {
    ResponseFields(statusLine, fields, bodyLines);
    FieldsOfPlain(bodyLines[..|bodyLines| - 1]);
  }

  /**
   * Lines free of carriage returns, every one after the first non-empty, joined
   * by CRLF: no blank-line separator starts inside the joined text, whatever
   * follows it.
   */
  lemma {:induction false} NoBlankLineWithin(lines: seq<string>, rest: string)
    requires |lines| >= 1 && SingleLines(lines)
    requires forall i :: 1 <= i < |lines| ==> lines[i] != ""
    ensures forall j :: 0 <= j < |Join(lines, CRLF)| ==> !OccursAt(Join(lines, CRLF) + rest, DoubleCRLF, j)
  {
    var s := Join(lines, CRLF) + rest;
    var first := lines[0];
    assert '\r' !in first;
    if |lines| == 1 {
      PlainPrefix(first, rest, DoubleCRLF);
    } else {
      var tail := lines[1..];
      var t := Join(tail, CRLF) + rest;
      assert forall i :: 1 <= i < |tail| ==> tail[i] == lines[i + 1];
      NoBlankLineWithin(tail, rest);
      assert s == first + CRLF + t;
      var k := |first| + |CRLF|;
      assert t[0] == tail[0][0] != '\r' by {
        assert tail[0] != "" && '\r' !in tail[0];
      }
      forall j | 0 <= j < |Join(lines, CRLF)|
        ensures !OccursAt(s, DoubleCRLF, j)
      {
        if j + |DoubleCRLF| <= |s| {
          if j < |first| {
            assert s[j..j + |DoubleCRLF|][0] == first[j];
          } else if j == |first| {
            assert s[j..j + |DoubleCRLF|][2] == t[0];
          } else if j == |first| + 1 {
            assert s[j..j + |DoubleCRLF|][0] == '\n';
          } else {
            assert s[j..j + |DoubleCRLF|] == t[j - k..j - k + |DoubleCRLF|];
            assert !OccursAt(t, DoubleCRLF, j - k);
          }
        }
      }
    }
  }

  /**
   * The part before the first blank-line separator of a text that is empty or
   * starts with CRLF is itself empty or starts with CRLF.
   */
  lemma SectionTailShape(y: string)
    requires y == "" || (|y| >= 2 && y[..2] == CRLF)
    ensures var z := Split(y, DoubleCRLF)[0];
            z == "" || (|z| >= 2 && z[..2] == CRLF)
  {
    if y == "" || (|y| >= 4 && y[..4] == DoubleCRLF) {
      LeadingSepEmpty(y, DoubleCRLF);
    } else {
      assert y == CRLF + y[2..];
      forall j | 0 <= j < |CRLF|
        ensures !OccursAt(CRLF + y[2..], DoubleCRLF, j)
      {
        if j == 1 && j + |DoubleCRLF| <= |y| {
          assert y[j..j + |DoubleCRLF|][0] == '\n';
        }
      }
      SplitSkip(CRLF, y[2..], DoubleCRLF);
    }
  }

  /** The blank-line section of `b0 CRLF b1 y`, for `b0`, `b1` free of carriage returns. */
  lemma BodySection(b0: string, b1: string, y: string)
    requires '\r' !in b0 && '\r' !in b1
    requires y == "" || (|y| >= 2 && y[..2] == CRLF)
    requires b1 == "" ==> y == ""
    ensures var z := Split(y, DoubleCRLF)[0];
            Split(b0 + CRLF + b1 + y, DoubleCRLF)[0] == b0 + CRLF + b1 + z
  {
    var u := CRLF + b1 + y;
    assert b0 + CRLF + b1 + y == b0 + u;
    SplitPlainPrefix(b0, u, DoubleCRLF);
    SplitLineBreak(b1, y);
  }

  /** The blank-line section of `CRLF b1 y`, for `b1` free of carriage returns. */
  lemma SplitLineBreak(b1: string, y: string)
    requires '\r' !in b1
    requires y == "" || (|y| >= 2 && y[..2] == CRLF)
    requires b1 == "" ==> y == ""
    ensures Split(CRLF + b1 + y, DoubleCRLF)[0] == CRLF + b1 + Split(y, DoubleCRLF)[0]
  {
    var u := CRLF + b1 + y;
    if b1 == "" {
      LeadingSepEmpty(y, DoubleCRLF);
      ShortClean(u, DoubleCRLF);
      SplitSingle(u, DoubleCRLF);
    } else {
      var v := b1 + y;
      assert u == CRLF + v;
      forall j | 0 <= j < |CRLF|
        ensures !OccursAt(CRLF + v, DoubleCRLF, j)
      {
        if j + |DoubleCRLF| <= |u| {
          if j == 0 {
            assert u[j..j + |DoubleCRLF|][2] == b1[0];
          } else {
            assert u[j..j + |DoubleCRLF|][0] == '\n';
          }
        }
      }
      SplitSkip(CRLF, v, DoubleCRLF);
      SplitPlainPrefix(b1, y, DoubleCRLF);
    }
  }

  /** Lines and then an empty line, joined: a CRLF after the join of the lines. */
  lemma JoinThenBlank(head: seq<string>)
    requires |head| >= 1
    ensures Join(head + [""], CRLF) == Join(head, CRLF) + CRLF
  {
    JoinAppend(head, [""], CRLF);
    assert Join([""], CRLF) == "";
  }

  lemma TwoLineBreaks(a: string, w: string)
    ensures a + CRLF + CRLF + w == a + (DoubleCRLF + w)
  {
    assert CRLF + CRLF == DoubleCRLF;
  }

  /** Lines, an empty line and more lines, joined: the blank-line separator sits between the two joins. */
  lemma JoinAroundBlank(head: seq<string>, bodyLines: seq<string>)
    requires |head| >= 1 && |bodyLines| >= 1
    ensures Join(head + [""] + bodyLines, CRLF) == Join(head, CRLF) + (DoubleCRLF + Join(bodyLines, CRLF))
  {
    var a := Join(head, CRLF);
    var w := Join(bodyLines, CRLF);
    JoinThenBlank(head);
    JoinAppend(head + [""], bodyLines, CRLF);
    TwoLineBreaks(a, w);
  }

  /** A response is its head lines joined, the blank-line separator, and its body lines joined. */
  lemma ResponseAroundBlank(statusLine: string, fields: seq<(string, string)>, bodyLines: seq<string>)
    requires |bodyLines| >= 1
    ensures ResponseText(statusLine, fields, bodyLines)
            == Join([statusLine] + LinesOf(fields), CRLF) + (DoubleCRLF + Join(bodyLines, CRLF))
  {
    JoinAroundBlank([statusLine] + LinesOf(fields), bodyLines);
  }

  /**
   * A response splits at its blank line first: the second piece is the part of
   * the joined body lines before their own first blank line.
   */
  lemma ResponseBlankLine(statusLine: string, fields: seq<(string, string)>, bodyLines: seq<string>)
    requires '\r' !in statusLine && SingleLineFields(fields) && |bodyLines| >= 1
    ensures var parts := Split(ResponseText(statusLine, fields, bodyLines), DoubleCRLF);
            |parts| >= 2 && parts[1] == Split(Join(bodyLines, CRLF), DoubleCRLF)[0]
  {
    var head := [statusLine] + LinesOf(fields);
    var w := Join(bodyLines, CRLF);
    FieldLinesSingle(fields);
    assert SingleLines(head);
    assert forall i :: 1 <= i < |head| ==> head[i] == LinesOf(fields)[i - 1];
    ResponseAroundBlank(statusLine, fields, bodyLines);
    NoBlankLineWithin(head, DoubleCRLF + w);
    SplitSkip(Join(head, CRLF), DoubleCRLF + w, DoubleCRLF);
    SplitLeadingSep(w, DoubleCRLF);
  }

  /** In the section `b0 CRLF b1 ...` the second CRLF-line is `b1`. */
  lemma SectionSecondLine(b0: string, b1: string, y: string)
    requires '\r' !in b0 && '\r' !in b1
    requires y == "" || (|y| >= 2 && y[..2] == CRLF)
    requires b1 == "" ==> y == ""
    ensures var lines := Split(Split(b0 + CRLF + b1 + y, DoubleCRLF)[0], CRLF);
            |lines| >= 2 && lines[1] == b1
  {
    BodySection(b0, b1, y);
    var z := Split(y, DoubleCRLF)[0];
    var section := Split(b0 + CRLF + b1 + y, DoubleCRLF)[0];
    assert section == b0 + CRLF + (b1 + z);
    SectionTailShape(y);
    LineAfterFirst(b0, b1, z);
  }

  /** `b0 CRLF b1 z`, with `z` empty or starting with CRLF, has `b1` as its second line. */
  lemma LineAfterFirst(b0: string, b1: string, z: string)
    requires '\r' !in b0 && '\r' !in b1
    requires z == "" || (|z| >= 2 && z[..2] == CRLF)
    ensures var lines := Split(b0 + CRLF + (b1 + z), CRLF);
            |lines| >= 2 && lines[1] == b1
  {
    SplitPlainCons(b0, b1 + z, CRLF);
    SplitPlainPrefix(b1, z, CRLF);
    LeadingSepEmpty(z, CRLF);
  }

  /**
   * The body accessor returns the second line after the blank line: the first
   * body line (a chunk size, in a chunked response) is skipped and only one
   * line is kept.
   */
  lemma ResponseBody(statusLine: string, fields: seq<(string, string)>, bodyLines: seq<string>)
    requires '\r' !in statusLine && SingleLineFields(fields) && SingleLines(bodyLines)
    requires |bodyLines| >= 2 && (|bodyLines| == 2 || bodyLines[1] != "")
    ensures var p := HttpParser(ResponseText(statusLine, fields, bodyLines));
            && |Split(p.content, DoubleCRLF)| >= 2
            && |Split(Split(p.content, DoubleCRLF)[1], CRLF)| >= 2
            && p.Body() == bodyLines[1]
  {
    ResponseBlankLine(statusLine, fields, bodyLines);
    var b0, b1 := bodyLines[0], bodyLines[1];
    assert '\r' !in b0 && '\r' !in b1;
    var y := if |bodyLines| == 2 then "" else CRLF + Join(bodyLines[2..], CRLF);
    var w := Join(bodyLines, CRLF);
    assert w == b0 + CRLF + b1 + y by {
      var later := bodyLines[1..];
      assert w == b0 + CRLF + Join(later, CRLF);
      if |bodyLines| > 2 {
        assert later[1..] == bodyLines[2..];
        assert Join(later, CRLF) == b1 + CRLF + Join(bodyLines[2..], CRLF);
      }
    }
    SectionSecondLine(b0, b1, y);
  }

  /** A text with two pieces or more is its first piece, the separator, and a rest whose first piece is the second. */
  lemma AfterFirstPiece(s: string, sep: string)
    requires |sep| > 0 && |Split(s, sep)| >= 2
    ensures var parts := Split(s, sep);
            var k := |parts[0]| + |sep|;
            && k <= |s| && s == parts[0] + sep + s[k..]
            && |Split(s[k..], sep)| == |parts| - 1
            && Split(s[k..], sep)[0] == parts[1]
  {
    var parts := Split(s, sep);
    SplitFirst(s, sep);
    var first := parts[0];
    var k := |first| + |sep|;
    SplitRest(s, sep, |first|);
    var rest := s[k..];
    assert parts[1..] == Split(rest, sep);
    assert s[..|first|] == first;
    assert s[|first|..k] == sep;
    assert s == s[..|first|] + s[|first|..k] + rest;
  }

  /** Where the second CRLF-line of a text sits in it. */
  lemma SecondLineShape(section: string)
    requires |Split(section, CRLF)| >= 2
    ensures var lines := Split(section, CRLF);
            var end := |lines[0]| + |CRLF| + |lines[1]|;
            && !Contains(lines[0], CRLF) && !Contains(lines[1], CRLF)
            && end <= |section| && section[..end] == lines[0] + CRLF + lines[1]
            && (end == |section| || OccursAt(section, CRLF, end))
  {
    var lines := Split(section, CRLF);
    SplitPiecesClean(section, CRLF);
    AfterFirstPiece(section, CRLF);
    var first := lines[0];
    var k := |first| + |CRLF|;
    var rest := section[k..];
    var restLines := Split(rest, CRLF);
    SplitFirst(rest, CRLF);
    var second := lines[1];
    assert rest[..|second|] == second;
    assert section[..k + |second|] == first + CRLF + second;
    if |restLines| > 1 {
      OccursInSuffix(section, CRLF, k, |second|);
    }
  }

  /** The second piece of a split is a stretch of the text. */
  lemma SecondPieceInText(s: string, sep: string)
    requires |sep| > 0
    ensures |Split(s, sep)| > 1 ==> Contains(s, Split(s, sep)[1])
  {
    var parts := Split(s, sep);
    if |parts| > 1 {
      AfterFirstPiece(s, sep);
      var k := |parts[0]| + |sep|;
      var rest := s[k..];
      SplitFirst(rest, sep);
      var p := parts[1];
      assert rest[..|p|] == p;
      assert s[k..k + |p|] == p;
      assert OccursAt(s, p, k);
    }
  }
}
