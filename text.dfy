/**
 * The string operations the Python code relies on: substring search,
 * `str.split(sep)`, `sep.join(xs)` and `str.replace(old, new)`, with the
 * facts about them that the HTTP parser and the crawler need.
 */
module Text {
  import opened Common

  /** `pat` occurs in `s` starting at index `i`. */
  predicate OccursAt(s: string, pat: string, i: nat)
  {
    i + |pat| <= |s| && s[i..i + |pat|] == pat
  }

  /** The first index at or after `i` where `pat` occurs in `s` (Python's `s.find(pat, i)`). */
  function FindFrom(s: string, pat: string, i: nat): (r: Option<nat>)
    decreases |s| - i
    ensures r.Some? ==> i <= r.value && OccursAt(s, pat, r.value)
    ensures r.Some? ==> forall j: nat :: i <= j < r.value ==> !OccursAt(s, pat, j)
    ensures r.None? ==> forall j: nat :: i <= j ==> !OccursAt(s, pat, j)
  {
    if i + |pat| > |s| then None
    else if s[i..i + |pat|] == pat then Some(i)
    else FindFrom(s, pat, i + 1)
  }

  function Find(s: string, pat: string): Option<nat>
  {
    FindFrom(s, pat, 0)
  }

  /** Python's `pat in s`. */
  predicate Contains(s: string, pat: string)
  {
    Find(s, pat).Some?
  }

  /** Python's `s.split(sep)` for a non-empty separator. */
  function Split(s: string, sep: string): (r: seq<string>)
    requires |sep| > 0
    decreases |s|
    ensures |r| >= 1
  {
    match Find(s, sep)
    case None => [s]
    case Some(i) => [s[..i]] + Split(s[i + |sep|..], sep)
  }

  /** Python's `sep.join(xs)`. */
  function Join(xs: seq<string>, sep: string): string
  {
    if |xs| == 0 then ""
    else if |xs| == 1 then xs[0]
    else xs[0] + sep + Join(xs[1..], sep)
  }

  /** Python's `s.replace(pat, with)`: every occurrence, scanned left to right. */
  function Replace(s: string, pat: string, with: string): string
    requires |pat| > 0
  {
    Join(Split(s, pat), with)
  }

  /** Find characterised by its contract: the least occurrence. */
  lemma FindIsLeast(s: string, pat: string, k: nat)
    requires OccursAt(s, pat, k)
    requires forall j: nat :: j < k ==> !OccursAt(s, pat, j)
    ensures Find(s, pat) == Some(k)
  {
  }

  /** An occurrence starts with the pattern's first character. */
  lemma OccursAtFirstChar(s: string, pat: string, j: nat)
    requires |pat| > 0 && OccursAt(s, pat, j)
    ensures s[j] == pat[0]
  {
    assert s[j..j + |pat|][0] == s[j];
  }

  /** A string holds the pattern only if it holds the pattern's first character. */
  lemma ContainsFirstChar(s: string, pat: string)
    requires |pat| > 0
    ensures Contains(s, pat) ==> pat[0] in s
  {
    if Contains(s, pat) {
      OccursAtFirstChar(s, pat, Find(s, pat).value);
    }
  }

  /** A string without an occurrence of the separator is one field. */
  lemma SplitNoOccurrence(s: string, sep: string)
    requires |sep| > 0
    requires !Contains(s, sep)
    ensures Split(s, sep) == [s]
  {
  }

  /**
   * When the separator begins with a character that `a` does not contain,
   * the first occurrence in `a + sep + b` is the one right after `a`, so
   * splitting yields `a` and then the fields of `b`.
   */
  lemma SplitAfter(a: string, sep: string, b: string)
    requires |sep| > 0 && sep[0] !in a
    ensures Find(a + sep + b, sep) == Some(|a|)
    ensures Split(a + sep + b, sep) == [a] + Split(b, sep)
  {
    var s := a + sep + b;
    assert s[|a|..|a| + |sep|] == sep;
    forall j: nat | OccursAt(s, sep, j)
      ensures s[j] == sep[0]
    {
      OccursAtFirstChar(s, sep, j);
    }
    assert forall j: nat :: j < |a| ==> s[j] == a[j];
    FindIsLeast(s, sep, |a|);
    assert s[..|a|] == a;
    assert s[|a| + |sep|..] == b;
  }

  /** Splitting then joining gives back the original string. */
  lemma {:induction false} JoinSplit(s: string, sep: string)
    requires |sep| > 0
    ensures Join(Split(s, sep), sep) == s
    decreases |s|
  {
    var r := Find(s, sep);
    if r.Some? {
      var i := r.value;
      var rest := s[i + |sep|..];
      var fields := Split(rest, sep);
      JoinSplit(rest, sep);
      assert Split(s, sep) == [s[..i]] + fields;
      assert ([s[..i]] + fields)[1..] == fields;
      assert Join([s[..i]] + fields, sep) == s[..i] + sep + Join(fields, sep);
      assert s[i..i + |sep|] == sep;
      assert s == s[..i] + sep + rest;
    }
  }

  /**
   * Joining fields that do not contain the separator's first character, then
   * splitting, gives back the fields.
   */
  lemma {:induction false} SplitJoin(xs: seq<string>, sep: string)
    requires |sep| > 0 && |xs| >= 1
    requires forall k :: 0 <= k < |xs| ==> sep[0] !in xs[k]
    ensures Split(Join(xs, sep), sep) == xs
    decreases |xs|
  {
    if |xs| == 1 {
      ContainsFirstChar(xs[0], sep);
      SplitNoOccurrence(xs[0], sep);
    } else {
      SplitAfter(xs[0], sep, Join(xs[1..], sep));
      SplitJoin(xs[1..], sep);
      assert xs == [xs[0]] + xs[1..];
    }
  }

  /** Removing a leading pattern from a string that holds no other copy of it. */
  lemma ReplacePrefix(pat: string, x: string)
    requires |pat| > 0 && !Contains(x, pat)
    ensures Replace(pat + x, pat, "") == x
  {
    assert (pat + x)[0..|pat|] == pat;
    assert OccursAt(pat + x, pat, 0);
    FindIsLeast(pat + x, pat, 0);
    assert (pat + x)[|pat|..] == x;
    assert (pat + x)[..0] == "";
    SplitNoOccurrence(x, pat);
    assert Split(pat + x, pat) == ["", x];
    assert ["", x][1..] == [x];
    assert Join(["", x], "") == "" + "" + Join([x], "");
    assert Replace(pat + x, pat, "") == Join(["", x], "");
  }

  /** Replace leaves a string without the pattern untouched. */
  lemma ReplaceAbsent(s: string, pat: string, with: string)
    requires |pat| > 0 && !Contains(s, pat)
    ensures Replace(s, pat, with) == s
  {
    SplitNoOccurrence(s, pat);
  }

  /** Every character of an occurrence agrees with the pattern. */
  lemma OccursAtChars(s: string, pat: string, j: nat)
    ensures OccursAt(s, pat, j) ==> forall k :: 0 <= k < |pat| ==> s[j + k] == pat[k]
  {
    if OccursAt(s, pat, j) {
      forall k | 0 <= k < |pat|
        ensures s[j + k] == pat[k]
      {
        assert s[j..j + |pat|][k] == s[j + k];
      }
    }
  }

  /** FindFrom characterised by its contract: the least occurrence at or after `i`. */
  lemma FindFromIsLeast(s: string, pat: string, i: nat, k: nat)
    requires i <= k && OccursAt(s, pat, k)
    requires forall j: nat :: i <= j < k ==> !OccursAt(s, pat, j)
    ensures FindFrom(s, pat, i) == Some(k)
  {
  }

  lemma FindFromNone(s: string, pat: string, i: nat)
    requires forall j: nat :: i <= j ==> !OccursAt(s, pat, j)
    ensures FindFrom(s, pat, i) == None
  {
  }

  /** Searching from `i` is searching the suffix that starts at `i`. */
  lemma FindFromSuffix(s: string, pat: string, i: nat)
    requires i <= |s|
    ensures FindFrom(s, pat, i) ==
      match Find(s[i..], pat)
      case None => None
      case Some(j) => Some(i + j)
  {
    var t := s[i..];
    forall j: nat
      ensures OccursAt(t, pat, j) <==> OccursAt(s, pat, i + j)
    {
      if i + j + |pat| <= |s| {
        assert t[j..j + |pat|] == s[i + j..i + j + |pat|];
      }
    }
    match Find(t, pat)
    case None =>
      forall j: nat | i <= j
        ensures !OccursAt(s, pat, j)
      {
        assert !OccursAt(t, pat, j - i);
      }
      FindFromNone(s, pat, i);
    case Some(k) =>
      forall j: nat | i <= j < i + k
        ensures !OccursAt(s, pat, j)
      {
        assert !OccursAt(t, pat, j - i);
      }
      FindFromIsLeast(s, pat, i, i + k);
  }

  /** No field of `s.split(sep)` holds the separator. */
  lemma {:induction false} SplitFieldsFree(s: string, sep: string)
    requires |sep| > 0
    ensures forall k :: 0 <= k < |Split(s, sep)| ==> !Contains(Split(s, sep)[k], sep)
    decreases |s|
  {
    match Find(s, sep)
    case None =>
    case Some(i) =>
      var head := s[..i];
      forall j: nat
        ensures !OccursAt(head, sep, j)
      {
        if j + |sep| <= |head| {
          assert !OccursAt(s, sep, j);
          assert head[j..j + |sep|] == s[j..j + |sep|];
        }
      }
      FindFromNone(head, sep, 0);
      SplitFieldsFree(s[i + |sep|..], sep);
      assert Split(s, sep) == [head] + Split(s[i + |sep|..], sep);
  }

  /**
   * `s.replace(pat, with)` scans left to right: the text before the first
   * occurrence is kept, that occurrence becomes `with`, and the scan goes
   * on after it.
   */
  lemma ReplaceStep(a: string, pat: string, with: string, b: string)
    requires |pat| > 0
    requires !Contains(a + pat[..|pat| - 1], pat)
    ensures Replace(a + pat + b, pat, with) == a + with + Replace(b, pat, with)
  {
    SplitAfterFree(a, pat, b);
    var fields := [a] + Split(b, pat);
    assert fields[0] == a && fields[1..] == Split(b, pat);
  }

  /** The first element of a join begins the joined string. */
  lemma JoinHead(xs: seq<string>, sep: string)
    requires |xs| >= 1
    ensures |xs[0]| <= |Join(xs, sep)| && Join(xs, sep)[..|xs[0]|] == xs[0]
  {
  }

  /**
   * When no occurrence of `sep` fits inside `a` followed by all but the last
   * character of `sep`, the first occurrence in `a + sep + b` is right after `a`.
   */
  lemma SplitAfterFree(a: string, sep: string, b: string)
    requires |sep| > 0
    requires !Contains(a + sep[..|sep| - 1], sep)
    ensures Split(a + sep + b, sep) == [a] + Split(b, sep)
  {
    var s := a + sep + b;
    var t := a + sep[..|sep| - 1];
    forall j: nat | j < |a|
      ensures !OccursAt(s, sep, j)
    {
      assert !OccursAt(t, sep, j);
      if j + |sep| <= |t| {
        assert s[j..j + |sep|] == t[j..j + |sep|];
      }
    }
    assert s[|a|..|a| + |sep|] == sep;
    FindIsLeast(s, sep, |a|);
    assert s[..|a|] == a;
    assert s[|a| + |sep|..] == b;
  }

  /** Each line followed by a newline, as a request text is written. */
  function Terminated(lines: seq<string>): string
  {
    if lines == [] then "" else lines[0] + "\n" + Terminated(lines[1..])
  }

  /** A text that fits on one line. */
  predicate NoNewline(s: string)
  {
    '\n' !in s
  }

  /** Texts that each fit on one line. */
  predicate AllLines(lines: seq<string>)
  {
    forall k :: 0 <= k < |lines| ==> NoNewline(lines[k])
  }

  lemma AllLinesAppend(a: seq<string>, b: seq<string>)
    requires AllLines(a) && AllLines(b)
    ensures AllLines(a + b)
  {
    forall k | 0 <= k < |a + b|
      ensures NoNewline((a + b)[k])
    {
      if k < |a| {
        assert (a + b)[k] == a[k];
      } else {
        assert (a + b)[k] == b[k - |a|];
      }
    }
  }

  /** The first of several newline-terminated lines splits off on its own. */
  lemma SplitFirstLine(lines: seq<string>, tail: string)
    requires lines != [] && NoNewline(lines[0])
    ensures Split(Terminated(lines) + tail, "\n") == [lines[0]] + Split(Terminated(lines[1..]) + tail, "\n")
  {
    var rest := Terminated(lines[1..]) + tail;
    assert Terminated(lines) + tail == lines[0] + "\n" + rest;
    SplitAfter(lines[0], "\n", rest);
  }

  /** Newline-terminated lines free of newlines split back into those lines, then the tail's fields. */
  lemma {:induction false} SplitTerminated(lines: seq<string>, tail: string)
    requires AllLines(lines)
    ensures Split(Terminated(lines) + tail, "\n") == lines + Split(tail, "\n")
    decreases |lines|
  {
    if lines != [] {
      assert NoNewline(lines[0]);
      SplitFirstLine(lines, tail);
      assert AllLines(lines[1..]) by {
        forall k | 0 <= k < |lines[1..]|
          ensures NoNewline(lines[1..][k])
        {
          assert lines[1..][k] == lines[k + 1];
        }
      }
      SplitTerminated(lines[1..], tail);
      ConsAppend(lines[0], lines[1..], Split(tail, "\n"));
      assert [lines[0]] + lines[1..] == lines;
    } else {
      assert Terminated(lines) + tail == tail;
    }
  }

  /** Newline-terminated lines free of newlines split back into those lines and a final empty field. */
  lemma SplitLines(lines: seq<string>)
    requires AllLines(lines)
    ensures Split(Terminated(lines), "\n") == lines + [""]
  {
    SplitTerminated(lines, "");
    assert Terminated(lines) + "" == Terminated(lines);
    assert Split("", "\n") == [""];
  }

  lemma ConsAppend(x: string, xs: seq<string>, ys: seq<string>)
    ensures [x] + (xs + ys) == ([x] + xs) + ys
  {
  }

  /** Joining with a newline and then ending with one terminates every line. */
  lemma {:induction false} JoinTerminated(lines: seq<string>)
    requires |lines| >= 1
    ensures Join(lines, "\n") + "\n" == Terminated(lines)
    decreases |lines|
  {
    if |lines| > 1 {
      JoinTerminated(lines[1..]);
    } else {
      assert lines[1..] == [];
    }
  }

  /** The first field of a split on a one-character separator holds no such character. */
  lemma FirstFieldFree(s: string, sep: string)
    requires |sep| == 1
    ensures sep[0] !in Split(s, sep)[0]
  {
    match Find(s, sep)
    case None =>
      forall j: nat | j < |s|
        ensures s[j] != sep[0]
      {
        assert !OccursAt(s, sep, j);
        assert s[j..j + 1] == [s[j]];
      }
    case Some(i) =>
      forall j: nat | j < i
        ensures s[j] != sep[0]
      {
        assert !OccursAt(s, sep, j);
        assert s[j..j + 1] == [s[j]];
      }
  }

  /** A text without LF holds no "\r\n". */
  lemma NoNewlineNoCrlf(s: string)
    requires NoNewline(s)
    ensures !Contains(s, "\r\n")
  {
    forall j: nat
      ensures !OccursAt(s, "\r\n", j)
    {
      if j + 2 <= |s| {
        assert s[j..j + 2][1] == s[j + 1];
      }
    }
    FindFromNone(s, "\r\n", 0);
  }

  /** Removing "\r\n" after an LF-free prefix keeps the prefix and goes on with the rest. */
  lemma RemoveCrlfAfter(a: string, rest: string)
    requires NoNewline(a)
    ensures Replace(a + ("\r\n" + rest), "\r\n", "") == a + Replace(rest, "\r\n", "")
  {
    assert "\r\n"[..1] == "\r";
    NoNewlineNoCrlf(a + "\r");
    ReplaceStep(a, "\r\n", "", rest);
    assert a + "\r\n" + rest == a + ("\r\n" + rest);
    assert a + "" + Replace(rest, "\r\n", "") == a + Replace(rest, "\r\n", "");
  }

  /** Removing the "\r\n"s between four LF-free pieces joins the pieces. */
  lemma RemoveThreeCrlf(a: string, b: string, c: string, d: string)
    requires NoNewline(a) && NoNewline(b) && NoNewline(c) && NoNewline(d)
    ensures Replace(a + ("\r\n" + (b + ("\r\n" + (c + ("\r\n" + d))))), "\r\n", "") == a + (b + (c + d))
  {
    NoNewlineNoCrlf(d);
    ReplaceAbsent(d, "\r\n", "");
    RemoveCrlfAfter(c, d);
    RemoveCrlfAfter(b, c + ("\r\n" + d));
    RemoveCrlfAfter(a, b + ("\r\n" + (c + ("\r\n" + d))));
  }
}
