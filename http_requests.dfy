/**
 * The request side of `KeepAliveRequests`: the text `get` and `post` write
 * to the socket, how they take a URL apart, and the class that owns the
 * persistent connection.
 *
 * A connection is the sequence of segments its peer will deliver (see
 * HttpReceive); `send` is modelled by recording the request text.
 */
module HttpRequests {
  import opened Common
  import opened Text
  import opened Numerals
  import opened HttpMessage
  import opened HttpReceive

  const Scheme: string := "http://"
  const HostPrefix: string := "Host: "
  const KeepAlive: string := "Connection: Keep-Alive"
  const FormMediaType: string := "application/x-www-form-urlencoded"
  const FormContentType: string := "Content-Type: " + FormMediaType
  const ContentLengthPrefix: string := "Content-Length: "

  /** `url.replace('http://', '')`. */
  function StripScheme(url: string): string
  {
    Replace(url, Scheme, "")
  }

  /** `url.split('/')[0]` once the scheme is gone. */
  function HostName(url: string): string
  {
    Split(StripScheme(url), "/")[0]
  }

  /** `"/".join(url.split('/')[1:])` once the scheme is gone. */
  function PathOf(url: string): string
  {
    Join(Split(StripScheme(url), "/")[1..], "/")
  }

  /** `<method> /<path> HTTP/1.1`. */
  function RequestLine(verb: string, path: string): string
  {
    verb + " /" + path + " HTTP/1.1"
  }

  /** The supplied headers, one `key: value` line each, joined by newlines; empty when there are none. */
  function HeaderText(headers: seq<(string, string)>): string
  {
    if headers == [] then "" else Join(FieldLines(headers), "\n")
  }

  /** The text `get` sends. */
  function GetRequest(url: string, headers: seq<(string, string)>): string
  {
    RequestLine("GET", PathOf(url)) + "\n"
      + (HostPrefix + HostName(url)) + "\n"
      + KeepAlive + "\n"
      + HeaderText(headers)
      + "\n\n\n"
  }

  /** `key=value` for one form field. */
  function FormField(field: (string, string)): string
  {
    field.0 + "=" + field.1
  }

  function FormFields(data: seq<(string, string)>): (fields: seq<string>)
    ensures |fields| == |data|
    ensures forall i :: 0 <= i < |data| ==> fields[i] == FormField(data[i])
  {
    seq(|data|, i requires 0 <= i < |data| => FormField(data[i]))
  }

  /** The form body of `post`: the fields joined by `&`. */
  function FormBody(data: seq<(string, string)>): string
  {
    Join(FormFields(data), "&")
  }

  /** The text `post` sends. */
  function PostRequest(url: string, data: seq<(string, string)>, headers: seq<(string, string)>): string
  {
    var body := FormBody(data);
    RequestLine("POST", PathOf(url)) + "\n"
      + (HostPrefix + HostName(url)) + "\n"
      + FormContentType + "\n"
      + KeepAlive + "\n"
      + (ContentLengthPrefix + ToDecimal(|body|)) + "\n"
      + Join(FieldLines(headers), "\n")
      + "\n\n"
      + body
      + "\n\n"
  }

  /** Terminating two runs of lines one after the other. */
  lemma {:induction false} TerminatedAppend(a: seq<string>, b: seq<string>)
    ensures Terminated(a + b) == Terminated(a) + Terminated(b)
    decreases |a|
  {
    if a == [] {
      assert a + b == b;
    } else {
      TerminatedAppend(a[1..], b);
      assert (a + b)[1..] == a[1..] + b;
    }
  }

  lemma TerminatedCons(x: string, xs: seq<string>)
    ensures Terminated([x] + xs) == x + "\n" + Terminated(xs)
  {
    assert ([x] + xs)[1..] == xs;
  }

  lemma Terminated2(a: string, b: string)
    ensures Terminated([a, b]) == a + "\n" + b + "\n"
  {
    TerminatedCons(b, []);
    assert [b] + [] == [b];
    TerminatedCons(a, [b]);
    assert [a] + [b] == [a, b];
  }

  lemma Terminated3(a: string, b: string, c: string)
    ensures Terminated([a, b, c]) == a + "\n" + b + "\n" + c + "\n"
  {
    Terminated2(b, c);
    TerminatedCons(a, [b, c]);
    assert [a] + [b, c] == [a, b, c];
  }

  lemma Terminated5(a: string, b: string, c: string, d: string, e: string)
    ensures Terminated([a, b, c, d, e]) == a + "\n" + b + "\n" + c + "\n" + d + "\n" + e + "\n"
  {
    Terminated3(c, d, e);
    TerminatedCons(b, [c, d, e]);
    assert [b] + [c, d, e] == [b, c, d, e];
    TerminatedCons(a, [b, c, d, e]);
    assert [a] + [b, c, d, e] == [a, b, c, d, e];
  }

  /**
   * A URL written as scheme, host, `/`, path, with no `/` in the host and
   * no second scheme, is taken apart into that host and that path.
   */
  lemma TargetRoundTrip(host: string, path: string)
    requires '/' !in host && !Contains(host + "/" + path, Scheme)
    ensures StripScheme(Scheme + host + "/" + path) == host + "/" + path
    ensures HostName(Scheme + host + "/" + path) == host
    ensures PathOf(Scheme + host + "/" + path) == path
  {
    assert Scheme + host + "/" + path == Scheme + (host + "/" + path);
    ReplacePrefix(Scheme, host + "/" + path);
    SplitAfter(host, "/", path);
    JoinSplit(path, "/");
  }

  /**
   * Host and path together give back the URL without its scheme: the host
   * holds no `/`, and the path follows it after one `/` when there is one.
   */
  lemma HostPathRebuild(url: string)
    ensures '/' !in HostName(url)
    ensures StripScheme(url) ==
      if Contains(StripScheme(url), "/") then HostName(url) + "/" + PathOf(url) else HostName(url)
  {
    var u := StripScheme(url);
    FirstFieldFree(u, "/");
    JoinSplit(u, "/");
    var fields := Split(u, "/");
    if Contains(u, "/") {
      assert |fields| > 1;
    } else {
      assert fields == [u];
    }
  }

  /** Lines written one by one, then a block of joined lines and its final newline, then more lines. */
  lemma JoinedBlock(top: seq<string>, fields: seq<string>, tail: seq<string>)
    requires |fields| >= 1
    ensures Terminated(top) + (Join(fields, "\n") + "\n") + Terminated(tail) == Terminated(top + fields + tail)
  {
    JoinTerminated(fields);
    TerminatedAppend(top + fields, tail);
    TerminatedAppend(top, fields);
  }

  /** The lines a GET request is made of. */
  function GetLines(url: string, headers: seq<(string, string)>): seq<string>
  {
    [RequestLine("GET", PathOf(url)), HostPrefix + HostName(url), KeepAlive]
      + FieldLines(headers)
      + (if headers == [] then ["", "", ""] else ["", ""])
  }

  lemma GetShape(a: string, b: string, c: string, headerText: string)
    ensures a + "\n" + b + "\n" + c + "\n" + headerText + "\n\n\n"
      == Terminated([a, b, c]) + (headerText + "\n") + "\n\n"
  {
    Terminated3(a, b, c);
    var t := a + "\n" + b + "\n" + c + "\n";
    NewlineRun(t, headerText, "\n\n\n", "\n\n");
  }

  /** Re-bracketing a text followed by a run of newlines. */
  lemma NewlineRun(t: string, h: string, run: string, rest: string)
    requires run == "\n" + rest
    ensures t + h + run == t + (h + "\n") + rest
  {
  }

  /** Three lines, a block of joined lines, then the blank lines that end the head. */
  lemma GetLayout(a: string, b: string, c: string, fields: seq<string>)
    ensures a + "\n" + b + "\n" + c + "\n" + Join(fields, "\n") + "\n\n\n"
      == Terminated([a, b, c] + fields + (if fields == [] then ["", "", ""] else ["", ""]))
  {
    var top := [a, b, c];
    GetShape(a, b, c, Join(fields, "\n"));
    if fields == [] {
      Terminated3("", "", "");
      TerminatedAppend(top, ["", "", ""]);
      assert top + fields == top;
    } else {
      Terminated2("", "");
      JoinedBlock(top, fields, ["", ""]);
    }
  }

  /** A GET request is its lines, each ended by a newline. */
  lemma GetRequestTerminated(url: string, headers: seq<(string, string)>)
    ensures GetRequest(url, headers) == Terminated(GetLines(url, headers))
  {
    GetLayout(RequestLine("GET", PathOf(url)), HostPrefix + HostName(url), KeepAlive, FieldLines(headers));
    assert FieldLines(headers) == [] <==> headers == [];
    assert HeaderText(headers) == Join(FieldLines(headers), "\n");
  }

  /** None of the fixed request texts holds a newline. */
  lemma ConstantsClean()
    ensures NoNewline(HostPrefix) && NoNewline(KeepAlive) && NoNewline(FormContentType)
    ensures NoNewline(ContentLengthPrefix)
  {
    HostPrefixClean();
    KeepAliveClean();
    FormContentTypeClean();
    ContentLengthPrefixClean();
  }

  lemma HostPrefixClean()
    ensures NoNewline(HostPrefix)
  {
    assert '\n' !in HostPrefix;
  }

  lemma KeepAliveClean()
    ensures NoNewline(KeepAlive)
  {
    assert '\n' !in KeepAlive;
  }

  lemma FormContentTypeClean()
    ensures NoNewline(FormContentType)
  {
    assert '\n' !in "Content-Type: ";
    assert '\n' !in FormMediaType;
  }

  lemma ContentLengthPrefixClean()
    ensures NoNewline(ContentLengthPrefix)
  {
    assert '\n' !in ContentLengthPrefix;
  }

  lemma RequestLineClean(verb: string, path: string)
    requires NoNewline(verb) && NoNewline(path)
    ensures NoNewline(RequestLine(verb, path))
  {
    var version := " HTTP/1.1";
    assert forall i :: 0 <= i < |version| ==> version[i] != '\n';
    assert NoNewline(version);
  }

  lemma GetLinesClean(url: string, headers: seq<(string, string)>)
    requires NoNewline(PathOf(url)) && NoNewline(HostName(url)) && AllLines(FieldLines(headers))
    ensures AllLines(GetLines(url, headers))
  {
    var top := [RequestLine("GET", PathOf(url)), HostPrefix + HostName(url), KeepAlive];
    var blanks: seq<string> := if headers == [] then ["", "", ""] else ["", ""];
    ConstantsClean();
    RequestLineClean("GET", PathOf(url));
    assert AllLines(top) && AllLines(blanks);
    AllLinesAppend(top, FieldLines(headers));
    AllLinesAppend(top + FieldLines(headers), blanks);
  }

  /**
   * A GET request reads back line by line: the request line, the host, the
   * keep-alive line, one line per supplied header, then the empty lines that
   * end the head (one more of them when no header is supplied).
   */
  lemma GetRequestLines(url: string, headers: seq<(string, string)>)
    requires NoNewline(PathOf(url)) && NoNewline(HostName(url)) && AllLines(FieldLines(headers))
    ensures Split(GetRequest(url, headers), "\n") ==
      [RequestLine("GET", PathOf(url)), HostPrefix + HostName(url), KeepAlive]
        + FieldLines(headers)
        + (if headers == [] then ["", "", "", ""] else ["", "", ""])
  {
    GetRequestTerminated(url, headers);
    GetLinesClean(url, headers);
    SplitLines(GetLines(url, headers));
    BlankTail([RequestLine("GET", PathOf(url)), HostPrefix + HostName(url), KeepAlive], FieldLines(headers), headers == []);
  }

  /** One more empty field after the blank lines that end a GET head. */
  lemma BlankTail(top: seq<string>, fields: seq<string>, noHeaders: bool)
    ensures top + fields + (if noHeaders then ["", "", ""] else ["", ""]) + [""]
      == top + fields + (if noHeaders then ["", "", "", ""] else ["", "", ""])
  {
    var blanks: seq<string> := if noHeaders then ["", "", ""] else ["", ""];
    assert top + fields + blanks + [""] == top + fields + (blanks + [""]);
  }

  /** The lines a POST request is made of, up to the form body's line. */
  function PostLines(url: string, data: seq<(string, string)>, headers: seq<(string, string)>): seq<string>
  {
    [RequestLine("POST", PathOf(url)), HostPrefix + HostName(url), FormContentType, KeepAlive,
     ContentLengthPrefix + ToDecimal(|FormBody(data)|)]
      + FieldLines(headers)
      + (if headers == [] then ["", "", FormBody(data)] else ["", FormBody(data)])
  }

  lemma PostShape(a: string, b: string, c: string, d: string, e: string, headerText: string, body: string)
    ensures a + "\n" + b + "\n" + c + "\n" + d + "\n" + e + "\n" + headerText + "\n\n" + body + "\n\n"
      == Terminated([a, b, c, d, e]) + (headerText + "\n") + ("\n" + body + "\n") + "\n"
  {
    Terminated5(a, b, c, d, e);
    var t := a + "\n" + b + "\n" + c + "\n" + d + "\n" + e + "\n";
    NewlineRun(t, headerText, "\n\n", "\n");
    assert t + (headerText + "\n") + "\n" + body + "\n\n" == t + (headerText + "\n") + ("\n" + body + "\n") + "\n";
  }

  /** Five lines, a block of joined lines, a blank line and a body line, then one more newline. */
  lemma PostLayout(a: string, b: string, c: string, d: string, e: string, fields: seq<string>, body: string)
    ensures a + "\n" + b + "\n" + c + "\n" + d + "\n" + e + "\n" + Join(fields, "\n") + "\n\n" + body + "\n\n"
      == Terminated([a, b, c, d, e] + fields + (if fields == [] then ["", "", body] else ["", body])) + "\n"
  {
    var top := [a, b, c, d, e];
    PostShape(a, b, c, d, e, Join(fields, "\n"), body);
    if fields == [] {
      Terminated3("", "", body);
      TerminatedAppend(top, ["", "", body]);
      assert top + fields == top;
    } else {
      Terminated2("", body);
      JoinedBlock(top, fields, ["", body]);
    }
  }

  /** A POST request is its lines, each ended by a newline, and one more newline. */
  lemma PostRequestTerminated(url: string, data: seq<(string, string)>, headers: seq<(string, string)>)
    ensures PostRequest(url, data, headers) == Terminated(PostLines(url, data, headers)) + "\n"
  {
    var body := FormBody(data);
    PostLayout(RequestLine("POST", PathOf(url)), HostPrefix + HostName(url), FormContentType, KeepAlive,
               ContentLengthPrefix + ToDecimal(|body|), FieldLines(headers), body);
    assert FieldLines(headers) == [] <==> headers == [];
  }

  lemma PostLinesClean(url: string, data: seq<(string, string)>, headers: seq<(string, string)>)
    requires NoNewline(PathOf(url)) && NoNewline(HostName(url)) && NoNewline(FormBody(data))
    requires AllLines(FieldLines(headers))
    ensures AllLines(PostLines(url, data, headers))
  {
    var body := FormBody(data);
    var top := [RequestLine("POST", PathOf(url)), HostPrefix + HostName(url), FormContentType, KeepAlive,
                ContentLengthPrefix + ToDecimal(|body|)];
    var after: seq<string> := if headers == [] then ["", "", body] else ["", body];
    ConstantsClean();
    RequestLineClean("POST", PathOf(url));
    ContentLengthLine(|body|);
    assert AllLines(top) && AllLines(after);
    AllLinesAppend(top, FieldLines(headers));
    AllLinesAppend(top + FieldLines(headers), after);
  }

  /** The `Content-Length` line fits on one line. */
  lemma ContentLengthLine(n: nat)
    ensures NoNewline(ContentLengthPrefix + ToDecimal(n))
  {
    ConstantsClean();
    var digits := ToDecimal(n);
    assert forall i :: 0 <= i < |digits| ==> digits[i] != '\n';
    assert NoNewline(digits);
  }

  /** A text that ends with one newline splits into its lines, then two empty fields. */
  lemma SplitTerminatedNewline(lines: seq<string>)
    requires AllLines(lines)
    ensures Split(Terminated(lines) + "\n", "\n") == lines + ["", ""]
  {
    SplitTerminated(lines, "\n");
    SplitAfter("", "\n", "");
    assert "" + "\n" + "" == "\n";
    assert Split("", "\n") == [""];
  }

  lemma PostTail(top: seq<string>, fields: seq<string>, noHeaders: bool, body: string)
    ensures top + fields + (if noHeaders then ["", "", body] else ["", body]) + ["", ""]
      == top + fields + (if noHeaders then ["", ""] else [""]) + [body, "", ""]
  {
    var after: seq<string> := if noHeaders then ["", "", body] else ["", body];
    if noHeaders {
      assert after + ["", ""] == ["", ""] + [body, "", ""];
    } else {
      assert after + ["", ""] == [""] + [body, "", ""];
    }
  }

  /**
   * A POST request reads back line by line: request line, host, content
   * type, keep-alive, the `Content-Length` line, one line per supplied
   * header, the empty line that ends the head, then the form body on a
   * line of its own; and the `Content-Length` value reads back as the
   * length of that body.
   */
  lemma PostRequestLines(url: string, data: seq<(string, string)>, headers: seq<(string, string)>)
    requires NoNewline(PathOf(url)) && NoNewline(HostName(url)) && NoNewline(FormBody(data))
    requires AllLines(FieldLines(headers))
    ensures Split(PostRequest(url, data, headers), "\n") ==
      [RequestLine("POST", PathOf(url)), HostPrefix + HostName(url), FormContentType, KeepAlive,
       ContentLengthPrefix + ToDecimal(|FormBody(data)|)]
        + FieldLines(headers)
        + (if headers == [] then ["", ""] else [""])
        + [FormBody(data), "", ""]
    ensures ParseDecimal(ToDecimal(|FormBody(data)|)) == Some(|FormBody(data)|)
  {
    var body := FormBody(data);
    var lines := PostLines(url, data, headers);
    var top := [RequestLine("POST", PathOf(url)), HostPrefix + HostName(url), FormContentType, KeepAlive,
                ContentLengthPrefix + ToDecimal(|body|)];
    var fields := FieldLines(headers);
    var after: seq<string> := if headers == [] then ["", "", body] else ["", body];
    PostRequestTerminated(url, data, headers);
    PostLinesClean(url, data, headers);
    SplitTerminatedNewline(lines);
    PostTail(top, fields, headers == [], body);
    DecimalRoundTrip(|body|);
  }

  /**
   * A form body splits on `&` back into its fields, and each field gives
   * back its key before the first `=` and its value after it, when no key
   * or value holds `&` and no key holds `=`.
   */
  lemma FormBodyRoundTrip(data: seq<(string, string)>)
    requires |data| >= 1
    requires forall i :: 0 <= i < |data| ==> '&' !in data[i].0 && '&' !in data[i].1 && '=' !in data[i].0
    ensures Split(FormBody(data), "&") == FormFields(data)
    ensures forall i :: 0 <= i < |data| ==>
      Split(FormFields(data)[i], "=")[0] == data[i].0
        && Join(Split(FormFields(data)[i], "=")[1..], "=") == data[i].1
  {
    var fields := FormFields(data);
    forall k | 0 <= k < |fields|
      ensures "&"[0] !in fields[k]
    {
      assert fields[k] == data[k].0 + "=" + data[k].1;
    }
    SplitJoin(fields, "&");
    forall i | 0 <= i < |data|
      ensures Split(fields[i], "=")[0] == data[i].0
      ensures Join(Split(fields[i], "=")[1..], "=") == data[i].1
    {
      SplitAfter(data[i].0, "=", data[i].1);
      JoinSplit(data[i].1, "=");
    }
  }

  /** The persistent connection and what has been written to it. */
  class KeepAliveRequests {
    const server: string
    /** What the current persistent connection will still deliver. */
    var incoming: seq<string>
    /** Every request written to a persistent connection, oldest first. */
    var sent: seq<string>

    /** `__init__`: open the first connection to `server`. */
    constructor (server: string, connection: seq<string>)
      ensures this.server == server && incoming == connection && sent == []
    {
      this.server := server;
      incoming := connection;
      sent := [];
    }

    /** `initiate_connection`: replace the socket with a new connection to the same server. */
    method InitiateConnection(connection: seq<string>)
      modifies this
      ensures incoming == connection && sent == old(sent)
    {
      incoming := connection;
    }

    /** `get`: write a GET request to the persistent connection and read one response from it. */
    method Get(url: string, headers: seq<(string, string)>) returns (r: Received)
      modifies this
      ensures sent == old(sent) + [GetRequest(url, headers)]
      ensures (r, incoming) == Receive(old(incoming))
    {
      var headerText := "";
      if headers != [] {
        headerText := Join(FieldLines(headers), "\n");
      }
      var target := StripScheme(url);
      var hostname := Split(target, "/")[0];
      var path := Join(Split(target, "/")[1..], "/");
      sent := sent + [
        RequestLine("GET", path) + "\n"
          + (HostPrefix + hostname) + "\n"
          + KeepAlive + "\n"
          + headerText
          + "\n\n\n"];
      r, incoming := ReceiveFromSocket(incoming);
    }

    /**
     * `post`: open a short-lived connection to the URL's host, write a POST
     * request to it and read one response; the persistent connection is
     * untouched. `reply` is what the new connection will deliver.
     */
    method Post(url: string, data: seq<(string, string)>, headers: seq<(string, string)>, reply: seq<string>)
      returns (host: string, request: string, r: Received)
      ensures host == HostName(url)
      ensures request == PostRequest(url, data, headers)
      ensures r == Receive(reply).0
    {
      var target := StripScheme(url);
      host := Split(target, "/")[0];
      var path := Join(Split(target, "/")[1..], "/");
      var postContent := FormBody(data);
      request := RequestLine("POST", path) + "\n"
        + (HostPrefix + host) + "\n"
        + FormContentType + "\n"
        + KeepAlive + "\n"
        + (ContentLengthPrefix + ToDecimal(|postContent|)) + "\n"
        + Join(FieldLines(headers), "\n")
        + "\n\n"
        + postContent
        + "\n\n";
      var left;
      r, left := ReceiveFromSocket(reply);
    }
  }
}
