/**
 * The response value and `KeepAliveRequests.parse_headers`: the first read
 * of a response is cut at the first blank line into a status line, header
 * lines and the body text that came with them.
 */
module HttpMessage {
  import opened Common
  import opened Text
  import opened Numerals

  const CRLF: string := "\r\n"
  /** The blank line that ends the head of a message. */
  const Separator: string := "\r\n\r\n"
  const FieldSeparator: string := ": "

  /** `Response(text, status_code, response_headers)`; never changed once built. */
  datatype Response = Response(text: string, statusCode: int, headers: map<string, string>)

  /** What the reader returns for a read of zero bytes: a dead connection reads as a server error. */
  const Synthetic500: Response := Response("", 500, map[])

  /** The triple `parse_headers` returns: headers, the data after the head, the status code. */
  datatype Head = Head(headers: map<string, string>, data: string, statusCode: int)

  /** The exceptions the Python reader raises on input it cannot handle. */
  datatype ProtocolError =
    | MissingSeparator      // fewer than two parts to unpack: no blank line in the read
    | BadStatusLine         // no second token, or the token is not an integer
    | BadHeaderLine         // a header line without ": "
    | MissingContentLength  // neither chunked nor a Content-Length header
    | BadContentLength      // Content-Length is not an integer
    | BadChunkSize          // a chunk-size line is not hexadecimal
    | NegativeRead          // recv asked for a negative number of bytes

  /** The integer second token of the status line. */
  function StatusCode(statusLine: string): Option<int>
  {
    var tokens := Split(statusLine, " ");
    if |tokens| < 2 then None
    else match ParseDecimal(tokens[1])
      case None => None
      case Some(n) => Some(n)
  }

  /** One header line split on ": ": the name is the first field, the value the second. */
  function HeaderField(line: string): Option<(string, string)>
  {
    var hd := Split(line, FieldSeparator);
    if |hd| < 2 then None else Some((hd[0], hd[1]))
  }

  /** The fields of all header lines, or None when one of them has no ": ". */
  function HeaderFields(lines: seq<string>): (r: Option<seq<(string, string)>>)
    ensures r.Some? <==> forall i :: 0 <= i < |lines| ==> HeaderField(lines[i]).Some?
    ensures r.Some? ==> |r.value| == |lines|
    ensures r.Some? ==> forall i :: 0 <= i < |lines| ==> HeaderField(lines[i]) == Some(r.value[i])
  {
    if |lines| == 0 then Some([])
    else
      match HeaderFields(lines[..|lines| - 1])
      case None => None
      case Some(fields) =>
        match HeaderField(lines[|lines| - 1])
        case None => None
        case Some(f) => Some(fields + [f])
  }

  /** The dictionary filled from the fields in order: a later name overwrites an earlier one. */
  function FieldsMap(fields: seq<(string, string)>): map<string, string>
  {
    if |fields| == 0 then map[]
    else FieldsMap(fields[..|fields| - 1])[fields[|fields| - 1].0 := fields[|fields| - 1].1]
  }

  /** `parse_headers(text)`. */
  function ParsedHeaders(text: string): Result<Head, ProtocolError>
  {
    var parts := Split(text, Separator);
    if |parts| < 2 then Err(MissingSeparator)
    else
      var headersRaw := Split(parts[0], CRLF);
      match StatusCode(headersRaw[0])
      case None => Err(BadStatusLine)
      case Some(status) =>
        match HeaderFields(headersRaw[1..])
        case None => Err(BadHeaderLine)
        case Some(fields) => Ok(Head(FieldsMap(fields), parts[1], status))
  }

  /** `parse_headers`, with its loop that fills the header dictionary line by line. */
  method ParseHeaders(text: string) returns (r: Result<Head, ProtocolError>)
    ensures r == ParsedHeaders(text)
  {
    var parts := Split(text, Separator);
    if |parts| < 2 {
      return Err(MissingSeparator);
    }
    var headerText, data := parts[0], parts[1];
    var headersRaw := Split(headerText, CRLF);
    var statusCode := StatusCode(headersRaw[0]);
    if statusCode.None? {
      return Err(BadStatusLine);
    }
    var lines := headersRaw[1..];
    var headers: map<string, string> := map[];
    for i := 0 to |lines|
      invariant HeaderFields(lines[..i]).Some?
      invariant headers == FieldsMap(HeaderFields(lines[..i]).value)
    {
      var hd := Split(lines[i], FieldSeparator);
      if |hd| < 2 {
        assert HeaderField(lines[i]).None?;
        return Err(BadHeaderLine);
      }
      HeaderFieldsStep(lines, i);
      headers := headers[hd[0] := hd[1]];
    }
    assert lines[..|lines|] == lines;
    return Ok(Head(headers, data, statusCode.value));
  }

  /** One more line read: its field is added to the dictionary built from the lines before it. */
  lemma HeaderFieldsStep(lines: seq<string>, i: nat)
    requires i < |lines| && HeaderFields(lines[..i]).Some? && HeaderField(lines[i]).Some?
    ensures HeaderFields(lines[..i + 1]).Some?
    ensures var f := HeaderField(lines[i]).value;
      FieldsMap(HeaderFields(lines[..i + 1]).value) == FieldsMap(HeaderFields(lines[..i]).value)[f.0 := f.1]
  {
    assert lines[..i + 1][..i] == lines[..i];
  }

  /** A name is in the dictionary exactly when some field has it. */
  lemma {:induction false} FieldsMapKeys(fields: seq<(string, string)>)
    ensures FieldsMap(fields).Keys == set i | 0 <= i < |fields| :: fields[i].0
    decreases |fields|
  {
    if |fields| > 0 {
      var init := fields[..|fields| - 1];
      FieldsMapKeys(init);
      assert forall i :: 0 <= i < |init| ==> init[i] == fields[i];
      assert (set i | 0 <= i < |fields| :: fields[i].0)
          == (set i | 0 <= i < |init| :: init[i].0) + {fields[|fields| - 1].0};
    }
  }

  /** The value kept for a name is the one on the last field with that name. */
  lemma {:induction false} FieldsMapLastWins(fields: seq<(string, string)>, i: nat)
    requires i < |fields|
    requires forall j :: i < j < |fields| ==> fields[j].0 != fields[i].0
    ensures fields[i].0 in FieldsMap(fields) && FieldsMap(fields)[fields[i].0] == fields[i].1
    decreases |fields|
  {
    if i < |fields| - 1 {
      var init := fields[..|fields| - 1];
      assert init[i] == fields[i];
      FieldsMapLastWins(init, i);
    }
  }

  /** What `parse_headers` returns, part by part, when it returns. */
  lemma ParsedHeadersParts(text: string)
    requires ParsedHeaders(text).Ok?
    ensures var parts := Split(text, Separator);
            |parts| >= 2 && ParsedHeaders(text).value.data == parts[1]
  {
  }

  /** The data `parse_headers` returns is the text between the first and the second blank line. */
  lemma DataBetweenSeparators(text: string)
    requires ParsedHeaders(text).Ok?
    ensures Find(text, Separator).Some?
    ensures var start := Find(text, Separator).value + |Separator|;
            start <= |text| &&
            ParsedHeaders(text).value.data ==
              match FindFrom(text, Separator, start)
              case None => text[start..]
              case Some(end) => text[start..end]
  {
    ParsedHeadersParts(text);
    SecondField(text, Separator);
  }

  /** The second field of a split is the first field of the text after the first occurrence. */
  lemma SecondFieldAfter(text: string, sep: string)
    requires |sep| > 0 && |Split(text, sep)| >= 2
    ensures Find(text, sep).Some? && Find(text, sep).value + |sep| <= |text|
    ensures Split(text, sep)[1] == Split(text[Find(text, sep).value + |sep|..], sep)[0]
  {
  }

  /** The first field of a split ends at the first occurrence, or is the whole text. */
  lemma FirstFieldEnd(s: string, sep: string)
    requires |sep| > 0
    ensures Split(s, sep)[0] == match Find(s, sep) case None => s case Some(j) => s[..j]
  {
  }

  /** With no second occurrence, the second field runs to the end of the text. */
  lemma SecondFieldLast(text: string, sep: string, start: nat)
    requires |sep| > 0 && |Split(text, sep)| >= 2
    requires start == Find(text, sep).value + |sep| && start <= |text|
    requires FindFrom(text, sep, start).None?
    ensures Split(text, sep)[1] == text[start..]
  {
    SecondFieldAfter(text, sep);
    var rest := text[start..];
    FirstFieldEnd(rest, sep);
    FindFromSuffix(text, sep, start);
  }

  /** Otherwise it ends where the second occurrence begins. */
  lemma SecondFieldMiddle(text: string, sep: string, start: nat, end: nat)
    requires |sep| > 0 && |Split(text, sep)| >= 2
    requires start == Find(text, sep).value + |sep| && start <= |text|
    requires FindFrom(text, sep, start) == Some(end)
    ensures start <= end <= |text| && Split(text, sep)[1] == text[start..end]
  {
    SecondFieldAfter(text, sep);
    var rest := text[start..];
    FindFromSuffix(text, sep, start);
    var j := end - start;
    assert Find(rest, sep) == Some(j);
    FirstFieldEnd(rest, sep);
    SliceOfSlice(text, start, j);
  }

  lemma SliceOfSlice<T>(s: seq<T>, a: nat, n: nat)
    requires a + n <= |s|
    ensures s[a..][..n] == s[a..a + n]
  {
  }

  /** The second field of a split lies between the first and the second occurrence. */
  lemma SecondField(text: string, sep: string)
    requires |sep| > 0 && |Split(text, sep)| >= 2
    ensures Find(text, sep).Some?
    ensures var start := Find(text, sep).value + |sep|;
            start <= |text| &&
            Split(text, sep)[1] ==
              match FindFrom(text, sep, start)
              case None => text[start..]
              case Some(end) => text[start..end]
  {
    SecondFieldAfter(text, sep);
    var start := Find(text, sep).value + |sep|;
    var next := FindFrom(text, sep, start);
    if next.None? {
      SecondFieldLast(text, sep, start);
      assert Split(text, sep)[1] == text[start..];
    } else {
      SecondFieldMiddle(text, sep, start, next.value);
      assert Split(text, sep)[1] == text[start..next.value];
    }
  }

  // ---------------------------------------------------------------------
  // A response head written out, and read back by parse_headers.

  function StatusLine(version: string, status: nat, reason: string): string
  {
    version + " " + (ToDecimal(status) + " " + reason)
  }

  function FieldLine(field: (string, string)): string
  {
    field.0 + FieldSeparator + field.1
  }

  function FieldLines(fields: seq<(string, string)>): (lines: seq<string>)
    ensures |lines| == |fields|
    ensures forall i :: 0 <= i < |fields| ==> lines[i] == FieldLine(fields[i])
  {
    seq(|fields|, i requires 0 <= i < |fields| => FieldLine(fields[i]))
  }

  /** The first read of a response as a server writes it: status line, header lines, blank line, data. */
  function RenderHead(version: string, status: nat, reason: string,
                      fields: seq<(string, string)>, data: string): string
  {
    Join([StatusLine(version, status, reason)] + FieldLines(fields), CRLF) + Separator + data
  }

  /** A header that reads back as itself: no ':' in the name, no ": " in the value, no CR in either. */
  predicate PlainField(field: (string, string))
  {
    ':' !in field.0 && '\r' !in field.0 && '\r' !in field.1 && !Contains(field.1, FieldSeparator)
  }

  /** A CR-free line followed by "\r\n\r" holds no separator. */
  lemma LastLineNoSeparator(l: string, j: nat)
    requires '\r' !in l
    ensures !OccursAt(l + Separator[..|Separator| - 1], Separator, j)
  {
    var s := l + Separator[..|Separator| - 1];
    OccursAtChars(s, Separator, j);
    if j + 4 <= |s| {
      assert s[j] == l[j];
    }
  }

  /** A CR-free line, CRLF, and text that starts with a character other than CR hold a separator only inside that text. */
  lemma JoinedLineNoSeparator(l: string, t: string, j: nat)
    requires '\r' !in l && |t| > 0 && t[0] != '\r'
    requires j >= |l| + 2 ==> !OccursAt(t, Separator, j - |l| - 2)
    ensures !OccursAt(l + CRLF + t, Separator, j)
  {
    var s := l + CRLF + t;
    OccursAtChars(s, Separator, j);
    if j + 4 <= |s| {
      if j < |l| {
        assert s[j] == l[j];
      } else if j == |l| {
        assert s[j + 2] == t[0];
      } else if j == |l| + 1 {
        assert s[j] == '\n';
      } else {
        assert s[j..j + 4] == t[j - |l| - 2..j - |l| + 2];
      }
    }
  }

  /** Lines that are non-empty and free of CR, joined by CRLF, hold no blank line even with "\r\n\r" after them. */
  lemma {:induction false} NoBlankLine(lines: seq<string>)
    requires |lines| >= 1
    requires forall i :: 0 <= i < |lines| ==> |lines[i]| > 0 && '\r' !in lines[i]
    ensures !Contains(Join(lines, CRLF) + Separator[..|Separator| - 1], Separator)
    decreases |lines|
  {
    var tail := Separator[..|Separator| - 1];
    var s := Join(lines, CRLF) + tail;
    var l := lines[0];
    if |lines| == 1 {
      forall j: nat
        ensures !OccursAt(s, Separator, j)
      {
        LastLineNoSeparator(l, j);
      }
    } else {
      var rest := lines[1..];
      var s' := Join(rest, CRLF) + tail;
      NoBlankLine(rest);
      assert s == l + CRLF + s';
      JoinHead(rest, CRLF);
      assert s'[0] == rest[0][0];
      forall j: nat
        ensures !OccursAt(s, Separator, j)
      {
        JoinedLineNoSeparator(l, s', j);
      }
    }
  }

  lemma StatusLineReadsBack(version: string, status: nat, reason: string)
    requires ' ' !in version
    ensures StatusCode(StatusLine(version, status, reason)) == Some(status)
  {
    var digits := ToDecimal(status);
    assert ' ' !in digits;
    SplitAfter(version, " ", digits + " " + reason);
    SplitAfter(digits, " ", reason);
    DecimalRoundTrip(status);
  }

  lemma FieldLinesReadBack(fields: seq<(string, string)>)
    requires forall i :: 0 <= i < |fields| ==> PlainField(fields[i])
    ensures HeaderFields(FieldLines(fields)) == Some(fields)
  {
    var lines := FieldLines(fields);
    forall i | 0 <= i < |fields|
      ensures HeaderField(lines[i]) == Some(fields[i])
    {
      SplitAfter(fields[i].0, FieldSeparator, fields[i].1);
      SplitNoOccurrence(fields[i].1, FieldSeparator);
      assert Split(lines[i], FieldSeparator) == [fields[i].0, fields[i].1];
    }
    var r := HeaderFields(lines);
    assert r.Some?;
    assert r.value == fields;
  }

  /** A head made of clean lines, followed by data without a blank line, parses into those parts. */
  lemma ParseLines(lines: seq<string>, status: int, fields: seq<(string, string)>, data: string)
    requires |lines| >= 1
    requires forall i :: 0 <= i < |lines| ==> |lines[i]| > 0 && '\r' !in lines[i]
    requires StatusCode(lines[0]) == Some(status)
    requires HeaderFields(lines[1..]) == Some(fields)
    requires !Contains(data, Separator)
    ensures ParsedHeaders(Join(lines, CRLF) + Separator + data) == Ok(Head(FieldsMap(fields), data, status))
  {
    var block := Join(lines, CRLF);
    NoBlankLine(lines);
    SplitAfterFree(block, Separator, data);
    SplitNoOccurrence(data, Separator);
    assert Split(block + Separator + data, Separator) == [block, data];
    SplitJoin(lines, CRLF);
  }

  /** The lines of a written head are non-empty and free of CR. */
  lemma RenderedLinesClean(version: string, status: nat, reason: string, fields: seq<(string, string)>)
    requires '\r' !in version && '\r' !in reason
    requires forall i :: 0 <= i < |fields| ==> PlainField(fields[i])
    ensures var lines := [StatusLine(version, status, reason)] + FieldLines(fields);
            forall i :: 0 <= i < |lines| ==> |lines[i]| > 0 && '\r' !in lines[i]
  {
    var lines := [StatusLine(version, status, reason)] + FieldLines(fields);
    assert '\r' !in ToDecimal(status);
    forall i | 0 <= i < |lines|
      ensures |lines[i]| > 0 && '\r' !in lines[i]
    {
      if i > 0 {
        assert lines[i] == FieldLine(fields[i - 1]);
      }
    }
  }

  /**
   * Reading back a written head: the status, the header dictionary (last
   * write wins) and the data are recovered.
   */
  lemma ParseRenderedHead(version: string, status: nat, reason: string,
                          fields: seq<(string, string)>, data: string)
    requires ' ' !in version && '\r' !in version && '\r' !in reason
    requires forall i :: 0 <= i < |fields| ==> PlainField(fields[i])
    requires !Contains(data, Separator)
    ensures ParsedHeaders(RenderHead(version, status, reason, fields, data))
         == Ok(Head(FieldsMap(fields), data, status))
  {
    var lines := [StatusLine(version, status, reason)] + FieldLines(fields);
    RenderedLinesClean(version, status, reason, fields);
    StatusLineReadsBack(version, status, reason);
    FieldLinesReadBack(fields);
    assert lines[1..] == FieldLines(fields);
    ParseLines(lines, status, fields, data);
  }

  /**
   * A written head followed by data lines, a blank line and anything at all:
   * `parse_headers` keeps the status and the headers, and keeps as data only
   * the lines before that second blank line.
   */
  lemma ParseRenderedHeadCut(version: string, status: nat, reason: string,
                             fields: seq<(string, string)>, dataLines: seq<string>, more: string)
    requires ' ' !in version && '\r' !in version && '\r' !in reason
    requires forall i :: 0 <= i < |fields| ==> PlainField(fields[i])
    requires |dataLines| >= 1 && forall i :: 0 <= i < |dataLines| ==> |dataLines[i]| > 0 && '\r' !in dataLines[i]
    ensures ParsedHeaders(RenderHead(version, status, reason, fields, Join(dataLines, CRLF) + Separator + more))
         == Ok(Head(FieldsMap(fields), Join(dataLines, CRLF), status))
  {
    var lines := [StatusLine(version, status, reason)] + FieldLines(fields);
    var block := Join(lines, CRLF);
    var data := Join(dataLines, CRLF);
    RenderedLinesClean(version, status, reason, fields);
    NoBlankLine(lines);
    NoBlankLine(dataLines);
    SplitAfterFree(block, Separator, data + Separator + more);
    SplitAfterFree(data, Separator, more);
    var parts := Split(block + Separator + (data + Separator + more), Separator);
    assert parts[0] == block && parts[1] == data;
    SplitJoin(lines, CRLF);
    StatusLineReadsBack(version, status, reason);
    FieldLinesReadBack(fields);
    assert lines[1..] == FieldLines(fields);
  }
}
