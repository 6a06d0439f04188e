/** The comment-block edit engine: ProjectService.EditCommentInternal and the
    per-line uncommenting it performs. A file is its sequence of lines. */
module EditComment {
  import opened Wrappers
  import opened Strings
  import opened Comments

  /** EditCommentMode. The engine only ever tests `mode != DeleteCode` and
      `mode == UncommentCode`, so every other value behaves as KeepCode does. */
  datatype Mode = DeleteCode | UncommentCode | KeepCode

  /** What one edit of one file does. */
  datatype EditOutcome =
    | Unsupported                    // no dialect for the extension: nothing is read or written
    | Written(lines: seq<string>)    // the lines written back over the file
    | Threw(error: Exception)        // an exception escaped; the file is left as it was

  // ---------------------------------------------------------------------------
  // Uncommenting one line
  // ---------------------------------------------------------------------------

  /** The first step of uncommenting: when the line, left-trimmed, starts with
      the start token, the first occurrence of the token goes, and so does one
      space right after it. Reading the character after a token that ends the
      line is out of range. */
  function StripStart(token: string, line: string): (r: Result<string, Exception>)
    ensures r.Failure? <==>
              StartsWith(TrimStart(line), token) && IndexOf(line, token) + |token| == |line|
    ensures r.Failure? ==> r.error == IndexOutOfRange
    ensures r.Success? && StartsWith(TrimStart(line), token) ==>
              |line| - |token| - 1 <= |r.value| <= |line| - |token|
    ensures r.Success? && !StartsWith(TrimStart(line), token) ==> r.value == line
  {
    if StartsWith(TrimStart(line), token) then
      assert StartsWith(line[|line| - |TrimStart(line)|..], token);
      CutToken(line, IndexOf(line, token), |token|)
    else
      Success(line)
  }

  /** The token of length `n` found at `k` goes, and so does one space right
      after it; the character after the token must exist. */
  function CutToken(line: string, k: nat, n: nat): (r: Result<string, Exception>)
    requires k + n <= |line|
    ensures r.Failure? <==> k + n == |line|
    ensures r.Success? ==> |line| - n - 1 <= |r.value| <= |line| - n
  {
    if k + n < |line| then
      Success(line[..k] + if line[k + n] == ' ' then line[k + n + 1..] else line[k + n..])
    else
      Failure(IndexOutOfRange)
  }

  /** The second step: when the dialect has an end token and the line,
      right-trimmed, ends with it, its last occurrence goes. */
  function StripEnd(end: Option<string>, line: string): (r: string)
    ensures end.Some? && EndsWith(TrimEnd(line), end.value) ==> |r| == |line| - |end.value|
    ensures !(end.Some? && EndsWith(TrimEnd(line), end.value)) ==> r == line
  {
    if end.Some? && EndsWith(TrimEnd(line), end.value) then
      assert StartsWith(line[|TrimEnd(line)| - |end.value|..], end.value);
      Cut(line, LastIndexOf(line, end.value), |end.value|)
    else
      line
  }

  /** `line` without the `n` characters at `k`. */
  function Cut(line: string, k: nat, n: nat): (r: string)
    requires k + n <= |line|
    ensures |r| == |line| - n
  {
    line[..k] + line[k + n..]
  }

  /** One layer of comment decoration taken off an interior line. */
  function Uncomment(d: Dialect, line: string): (r: Result<string, Exception>)
    ensures r.Success? ==> |r.value| <= |line|
    ensures r.Failure? ==> r.error == IndexOutOfRange
  {
    match StripStart(d.start, line)
    case Failure(e) => Failure(e)
    case Success(s) => Success(StripEnd(d.end, s))
  }

  /** A line of code commented out in dialect `d`: the start token, one
      space, the code and the end token if the dialect has one. */
  function Decorate(d: Dialect, code: string): string {
    d.start + " " + code + (if d.end.Some? then d.end.value else "")
  }

  /** Removing the leading white space of `ws + s` leaves `TrimStart(s)`. */
  lemma {:induction false} TrimStartSkips(ws: string, s: string)
    requires forall i :: 0 <= i < |ws| ==> IsWhiteSpace(ws[i])
    ensures TrimStart(ws + s) == TrimStart(s)
    decreases |ws|
  {
    if ws != [] {
      assert (ws + s)[0] == ws[0];
      assert IsWhiteSpace(ws[0]);
      assert (ws + s)[1..] == ws[1..] + s;
      assert TrimStart(ws + s) == TrimStart(ws[1..] + s);
      TrimStartSkips(ws[1..], s);
    } else {
      assert ws + s == s;
    }
  }

  /** In a well-formed dialect the start token is found right after the
      line's leading white space. */
  lemma StartTokenAfterIndent(d: Dialect, line: string)
    requires WellFormed(d) && StartsWith(TrimStart(line), d.start)
    ensures Contains(line, d.start)
    ensures IndexOf(line, d.start) == |line| - |TrimStart(line)|
  {
    var w := |line| - |TrimStart(line)|;
    assert StartsWith(line[w..], d.start);
    TrimStartDropsWhiteSpace(line);
  }

  /** Uncommenting fails exactly on a line that, left-trimmed, is the bare
      start token: the character after the token is then read out of range. */
  lemma UncommentFailsIff(d: Dialect, line: string)
    requires WellFormed(d)
    ensures Uncomment(d, line).Failure? <==> TrimStart(line) == d.start
  {
    var t := TrimStart(line);
    if StartsWith(t, d.start) {
      StartTokenAfterIndent(d, line);
      assert StripStart(d.start, line).Failure? <==> |t| == |d.start|;
      assert t == d.start <==> |t| == |d.start| by {
        assert t[..|d.start|] == d.start;
      }
    } else {
      assert t != d.start by {
        assert d.start[..|d.start|] == d.start;
      }
    }
  }

  /** A line that is the start token, a space and `tail` loses the token and the space. */
  lemma StripStartDecorated(d: Dialect, tail: string)
    requires WellFormed(d)
    ensures StripStart(d.start, d.start + " " + tail) == Success(tail)
  {
    var line := d.start + " " + tail;
    assert line[0] == d.start[0];
    assert TrimStart(line) == line;
    assert StartsWith(line, d.start);
    StartTokenAfterIndent(d, line);
    assert line[|d.start|] == ' ';
    assert line[..0] + line[|d.start| + 1..] == tail;
  }

  /** A line that is `code` followed by the end token loses the end token. */
  lemma StripEndDecorated(e: string, code: string)
    requires e != [] && !IsWhiteSpace(e[|e| - 1])
    ensures StripEnd(Some(e), code + e) == code
  {
    StripEndTrailing(e, code, "");
    assert code + e + "" == code + e && code + "" == code;
  }

  /** Removing the trailing white space of `s + ws` leaves `TrimEnd(s)`. */
  lemma {:induction false} TrimEndSkips(s: string, ws: string)
    requires forall i :: 0 <= i < |ws| ==> IsWhiteSpace(ws[i])
    ensures TrimEnd(s + ws) == TrimEnd(s)
    decreases |ws|
  {
    if ws != [] {
      var w := ws[..|ws| - 1];
      assert (s + ws)[|s + ws| - 1] == ws[|ws| - 1];
      assert (s + ws)[..|s + ws| - 1] == s + w;
      TrimEndSkips(s, w);
    } else {
      assert s + ws == s;
    }
  }

  /** When only white space follows the end token, the last occurrence of
      the token is that one. */
  lemma EndTokenLastBeforeWhiteSpace(code: string, e: string, ws: string)
    requires e != [] && !IsWhiteSpace(e[|e| - 1])
    requires forall i :: 0 <= i < |ws| ==> IsWhiteSpace(ws[i])
    ensures Contains(code + e + ws, e) && LastIndexOf(code + e + ws, e) == |code|
  {
    var line := code + e + ws;
    assert line[|code|..][..|e|] == e;
  }

  /** Right-trimming a line that is code, the end token and white space
      leaves the code and the end token. */
  lemma TrimEndBeforeWhiteSpace(code: string, e: string, ws: string)
    requires e != [] && !IsWhiteSpace(e[|e| - 1])
    requires forall i :: 0 <= i < |ws| ==> IsWhiteSpace(ws[i])
    ensures TrimEnd(code + e + ws) == code + e
  {
    TrimEndSkips(code + e, ws);
    assert (code + e)[|code + e| - 1] == e[|e| - 1];
  }

  /** Cutting the middle part out of a line made of three parts. */
  lemma CutMiddle(code: string, e: string, ws: string)
    ensures Cut(code + e + ws, |code|, |e|) == code + ws
  {
    var line := code + e + ws;
    assert line[..|code|] == code;
    assert line[|code| + |e|..] == ws;
  }

  /** The end token followed by trailing white space: the last occurrence of
      the token goes and the white space after it stays. */
  lemma StripEndTrailing(e: string, code: string, ws: string)
    requires e != [] && !IsWhiteSpace(e[|e| - 1])
    requires forall i :: 0 <= i < |ws| ==> IsWhiteSpace(ws[i])
    ensures StripEnd(Some(e), code + e + ws) == code + ws
  {
    TrimEndBeforeWhiteSpace(code, e, ws);
    assert (code + e)[|code|..] == e;
    EndTokenLastBeforeWhiteSpace(code, e, ws);
    CutMiddle(code, e, ws);
  }

  /** Uncommenting undoes `Decorate` in every well-formed dialect. */
  lemma UncommentRoundTrip(d: Dialect, code: string)
    requires WellFormed(d)
    ensures Uncomment(d, Decorate(d, code)) == Success(code)
  {
    var tail := code + (if d.end.Some? then d.end.value else "");
    assert Decorate(d, code) == d.start + " " + tail;
    StripStartDecorated(d, tail);
    if d.end.Some? {
      StripEndDecorated(d.end.value, code);
    } else {
      assert tail == code;
    }
  }

  /** After an indent, the start token of a well-formed dialect is the first
      thing the left-trimmed line shows and the first place it occurs. */
  lemma StartTokenAfterWhiteSpace(d: Dialect, indent: string, body: string)
    requires WellFormed(d) && StartsWith(body, d.start)
    requires forall i :: 0 <= i < |indent| ==> IsWhiteSpace(indent[i])
    ensures TrimStart(indent + body) == body
    ensures Contains(indent + body, d.start) && IndexOf(indent + body, d.start) == |indent|
  {
    TrimStartSkips(indent, body);
    assert body[0] == d.start[0];
    StartTokenAfterIndent(d, indent + body);
  }

  /** Cutting the token that follows an indent keeps the indent and what
      follows the token, less one leading space. */
  lemma CutAfterIndent(indent: string, token: string, rest: string)
    requires rest != []
    ensures CutToken(indent + (token + rest), |indent|, |token|) ==
              Success(indent + if rest[0] == ' ' then rest[1..] else rest)
  {
    var line := indent + (token + rest);
    var next := |indent| + |token|;
    assert line[next] == rest[0];
    assert line[..|indent|] == indent;
    assert line[next..] == rest;
  }

  /** An indented line that starts with the start token loses the token and
      at most one following space; the indentation stays. */
  lemma StripStartIndented(d: Dialect, indent: string, rest: string)
    requires WellFormed(d)
    requires forall i :: 0 <= i < |indent| ==> IsWhiteSpace(indent[i])
    requires rest != []
    ensures StripStart(d.start, indent + (d.start + rest)) ==
              Success(indent + if rest[0] == ' ' then rest[1..] else rest)
  {
    StartTokenAfterWhiteSpace(d, indent, d.start + rest);
    CutAfterIndent(indent, d.start, rest);
  }

  /** In a line-comment dialect, an indented commented-out line loses its
      token and at most one following space; the indentation stays, and a
      second space is kept, so uncommenting does not undo an arbitrary
      decoration. */
  lemma UncommentLineComment(d: Dialect, indent: string, rest: string)
    requires WellFormed(d) && d.end.None?
    requires forall i :: 0 <= i < |indent| ==> IsWhiteSpace(indent[i])
    requires rest != []
    ensures Uncomment(d, indent + d.start + rest) ==
              Success(indent + if rest[0] == ' ' then rest[1..] else rest)
  {
    assert indent + d.start + rest == indent + (d.start + rest);
    StripStartIndented(d, indent, rest);
  }

  // ---------------------------------------------------------------------------
  // Scanning the lines of a file
  // ---------------------------------------------------------------------------

  /** An interior line (strictly between the markers) in a mode that keeps it. */
  function Interior(d: Dialect, mode: Mode, line: string): (r: Result<string, Exception>)
    ensures mode != UncommentCode ==> r == Success(line)
    ensures r.Success? ==> |r.value| <= |line|
    ensures r.Failure? ==> mode == UncommentCode && r.error == IndexOutOfRange
  {
    if mode == UncommentCode then Uncomment(d, line) else Success(line)
  }

  /** The lines of `a` followed by those of `b`; the first exception wins. */
  function Concat(a: Result<seq<string>, Exception>, b: Result<seq<string>, Exception>): Result<seq<string>, Exception> {
    match a
    case Failure(e) => Failure(e)
    case Success(x) =>
      match b
      case Failure(e) => Failure(e)
      case Success(y) => Success(x + y)
  }

  /** A single line as a one-line result. */
  function Single(line: Result<string, Exception>): Result<seq<string>, Exception> {
    match line
    case Failure(e) => Failure(e)
    case Success(s) => Success([s])
  }

  /** The lines the scan writes for `lines`, starting inside a block when
      `inside` holds: a line containing the start marker opens a block when
      met outside one, a line containing the end marker closes it, and both
      are dropped; lines outside stay as they are; interior lines go, stay or
      are uncommented according to `mode`. A start marker met inside a block
      is an interior line. */
  function Scan(d: Dialect, m: Markers, mode: Mode, lines: seq<string>, inside: bool): (r: Result<seq<string>, Exception>)
    ensures r.Success? ==> |r.value| <= |lines|
    ensures r.Failure? ==> mode == UncommentCode && r.error == IndexOutOfRange
    decreases |lines|
  {
    if lines == [] then
      Success([])
    else if inside then
      if Contains(lines[0], m.end) then
        Scan(d, m, mode, lines[1..], false)
      else if mode == DeleteCode then
        Scan(d, m, mode, lines[1..], true)
      else
        Concat(Single(Interior(d, mode, lines[0])), Scan(d, m, mode, lines[1..], true))
    else if Contains(lines[0], m.start) then
      Scan(d, m, mode, lines[1..], true)
    else
      Concat(Success([lines[0]]), Scan(d, m, mode, lines[1..], false))
  }

  /** The whole edit of one file with extension `extension`. */
  function Edit(name: string, mode: Mode, extension: string, lines: seq<string>): (r: EditOutcome)
    ensures r.Unsupported? <==> GetComment(extension).None?
    ensures r.Written? ==> |r.lines| <= |lines|
    ensures r.Threw? ==> mode == UncommentCode && r.error == IndexOutOfRange
  {
    match GetComment(extension)
    case None => Unsupported
    case Some(d) =>
      match Scan(d, NamedComment(name, d), mode, lines, false)
      case Success(out) => Written(out)
      case Failure(e) => Threw(e)
  }

  /** Concatenating results is associative, and the first exception still wins. */
  lemma ConcatAssoc(a: Result<seq<string>, Exception>, b: Result<seq<string>, Exception>, c: Result<seq<string>, Exception>)
    ensures Concat(a, Concat(b, c)) == Concat(Concat(a, b), c)
  {
    if a.Success? && b.Success? && c.Success? {
      assert a.value + (b.value + c.value) == (a.value + b.value) + c.value;
    }
  }

  /** Emitting nothing, before or after, changes nothing. */
  lemma ConcatNothing(r: Result<seq<string>, Exception>)
    ensures Concat(Success([]), r) == r
    ensures Concat(r, Success([])) == r
  {
    if r.Success? {
      assert [] + r.value == r.value;
      assert r.value + [] == r.value;
    }
  }

  /** One step of the scan, taken at line `i`. */
  lemma ScanStep(d: Dialect, m: Markers, mode: Mode, lines: seq<string>, i: nat, inside: bool)
    requires i < |lines|
    ensures Scan(d, m, mode, lines[i..], inside) ==
            if inside then
              if Contains(lines[i], m.end) then Scan(d, m, mode, lines[i + 1..], false)
              else if mode == DeleteCode then Scan(d, m, mode, lines[i + 1..], true)
              else Concat(Single(Interior(d, mode, lines[i])), Scan(d, m, mode, lines[i + 1..], true))
            else if Contains(lines[i], m.start) then Scan(d, m, mode, lines[i + 1..], true)
            else Concat(Success([lines[i]]), Scan(d, m, mode, lines[i + 1..], false))
  {
    assert lines[i..][0] == lines[i] && lines[i..][1..] == lines[i + 1..];
  }

  /** Writing one more line after those already written. */
  lemma AppendLine(written: seq<string>, line: string, rest: Result<seq<string>, Exception>)
    ensures Concat(Success(written), Concat(Single(Success(line)), rest)) ==
            Concat(Success(written + [line]), rest)
  {
    ConcatAssoc(Success(written), Success([line]), rest);
  }

  /** A line that throws ends the scan with its exception. */
  lemma ThrowLine(written: seq<string>, e: Exception, rest: Result<seq<string>, Exception>)
    ensures Concat(Success(written), Concat(Single(Failure(e)), rest)) == Failure(e)
  {
  }

  /** An edit whose scan throws lets the exception escape. */
  lemma EditThrows(name: string, mode: Mode, extension: string, d: Dialect, lines: seq<string>, e: Exception)
    requires GetComment(extension) == Some(d)
    requires Scan(d, NamedComment(name, d), mode, lines, false) == Failure(e)
    ensures Edit(name, mode, extension, lines) == Threw(e)
  {
  }

  /** An edit whose scan succeeds writes what the scan produced. */
  lemma EditWrites(name: string, mode: Mode, extension: string, d: Dialect, lines: seq<string>, out: seq<string>)
    requires GetComment(extension) == Some(d)
    requires Scan(d, NamedComment(name, d), mode, lines, false) == Success(out)
    ensures Edit(name, mode, extension, lines) == Written(out)
  {
  }

  /** ProjectService.EditCommentInternal, for a file whose extension is
      `extension` and whose content is `lines`. */
  method EditCommentInternal(name: string, mode: Mode, extension: string, lines: seq<string>)
    returns (outcome: EditOutcome)
    ensures outcome == Edit(name, mode, extension, lines)
  {
    var comment := GetComment(extension);
    if comment.None? {
      // this file extension is not supported
      return Unsupported;
    }
    var d := comment.value;
    var named := NamedComment(name, d);
    var newLines: seq<string> := [];
    var isUncommenting := false;
    assert lines[0..] == lines;
    ConcatNothing(Scan(d, named, mode, lines, false));
    for i := 0 to |lines|
      invariant Scan(d, named, mode, lines, false) ==
                Concat(Success(newLines), Scan(d, named, mode, lines[i..], isUncommenting))
    {
      var line := lines[i];
      ghost var rest := Scan(d, named, mode, lines[i + 1..], isUncommenting);
      ScanStep(d, named, mode, lines, i, isUncommenting);
      if isUncommenting {
        if Contains(line, named.end) {
          isUncommenting := false;
        } else if mode != DeleteCode {
          var newLine := line;
          if mode == UncommentCode {
            var stripped := Uncomment(d, line);
            assert Interior(d, mode, line) == stripped;
            if stripped.Failure? {
              ThrowLine(newLines, stripped.error, rest);
              EditThrows(name, mode, extension, d, lines, stripped.error);
              return Threw(stripped.error);
            }
            newLine := stripped.value;
          }
          assert Interior(d, mode, line) == Success(newLine);
          AppendLine(newLines, newLine, rest);
          newLines := newLines + [newLine];
        }
      } else if Contains(line, named.start) {
        isUncommenting := true;
      } else {
        AppendLine(newLines, line, rest);
        newLines := newLines + [line];
      }
    }
    assert lines[|lines|..] == [];
    ConcatNothing(Success(newLines));
    EditWrites(name, mode, extension, d, lines, newLines);
    return Written(newLines);
  }

  // ---------------------------------------------------------------------------
  // What the scan promises
  // ---------------------------------------------------------------------------

  /** The lines met outside every block, other than the lines that open one. */
  function OutsideLines(m: Markers, lines: seq<string>, inside: bool): (r: seq<string>)
    ensures |r| <= |lines|
    ensures forall l :: l in r ==> !Contains(l, m.start)
    decreases |lines|
  {
    if lines == [] then []
    else if inside then OutsideLines(m, lines[1..], !Contains(lines[0], m.end))
    else if Contains(lines[0], m.start) then OutsideLines(m, lines[1..], true)
    else [lines[0]] + OutsideLines(m, lines[1..], false)
  }

  /** `a` is `b` with some lines left out, in the same order. */
  predicate IsSubsequence(a: seq<string>, b: seq<string>)
    decreases |b|
  {
    a == [] || (b != [] && ((a[0] == b[0] && IsSubsequence(a[1..], b[1..])) || IsSubsequence(a, b[1..])))
  }

  /** Putting a line in front keeps a subsequence one. */
  lemma SubsequenceAfterLine(a: seq<string>, x: string, b: seq<string>)
    requires IsSubsequence(a, b)
    ensures IsSubsequence(a, [x] + b)
  {
    assert ([x] + b)[1..] == b;
  }

  /** DeleteCode writes exactly the lines outside the blocks, in order. */
  lemma {:induction false} DeleteKeepsOutsideLines(d: Dialect, m: Markers, lines: seq<string>, inside: bool)
    ensures Scan(d, m, DeleteCode, lines, inside) == Success(OutsideLines(m, lines, inside))
    decreases |lines|
  {
    if lines != [] {
      var next := if inside then !Contains(lines[0], m.end) else Contains(lines[0], m.start);
      DeleteKeepsOutsideLines(d, m, lines[1..], next);
    }
  }

  /** In every mode, the lines outside the blocks are written unchanged and
      in their original order. */
  lemma {:induction false} OutsideLinesPreserved(d: Dialect, m: Markers, mode: Mode, lines: seq<string>, inside: bool)
    requires Scan(d, m, mode, lines, inside).Success?
    ensures IsSubsequence(OutsideLines(m, lines, inside), Scan(d, m, mode, lines, inside).value)
    decreases |lines|
  {
    if lines != [] {
      var next := if inside then !Contains(lines[0], m.end) else Contains(lines[0], m.start);
      OutsideLinesPreserved(d, m, mode, lines[1..], next);
      var rest := Scan(d, m, mode, lines[1..], next).value;
      if inside && !Contains(lines[0], m.end) && mode != DeleteCode {
        SubsequenceAfterLine(OutsideLines(m, lines[1..], next), Interior(d, mode, lines[0]).value, rest);
      } else if !inside && !Contains(lines[0], m.start) {
        assert ([lines[0]] + OutsideLines(m, lines[1..], false))[1..] == OutsideLines(m, lines[1..], false);
        assert ([lines[0]] + rest)[1..] == rest;
      }
    }
  }

  /** Lines without a start marker, met outside a block, pass through unchanged. */
  lemma {:induction false} OutsideRun(d: Dialect, m: Markers, mode: Mode, pre: seq<string>, post: seq<string>)
    requires forall l :: l in pre ==> !Contains(l, m.start)
    ensures Scan(d, m, mode, pre + post, false) == Concat(Success(pre), Scan(d, m, mode, post, false))
    decreases |pre|
  {
    if pre == [] {
      assert pre + post == post;
      ConcatNothing(Scan(d, m, mode, post, false));
    } else {
      assert (pre + post)[0] == pre[0] && (pre + post)[1..] == pre[1..] + post;
      OutsideRun(d, m, mode, pre[1..], post);
      ConcatAssoc(Success([pre[0]]), Success(pre[1..]), Scan(d, m, mode, post, false));
      assert [pre[0]] + pre[1..] == pre;
    }
  }

  /** A file with no start marker is written back unchanged, in every mode. */
  lemma NoBlockNoChange(d: Dialect, m: Markers, mode: Mode, lines: seq<string>)
    requires forall l :: l in lines ==> !Contains(l, m.start)
    ensures Scan(d, m, mode, lines, false) == Success(lines)
  {
    OutsideRun(d, m, mode, lines, []);
    assert lines + [] == lines;
  }

  /** What the interior lines of a block become in `mode`: nothing under
      DeleteCode, themselves under KeepCode, their uncommented forms under
      UncommentCode. */
  function Block(d: Dialect, mode: Mode, interior: seq<string>): (r: Result<seq<string>, Exception>)
    ensures mode == DeleteCode ==> r == Success([])
    ensures mode == KeepCode ==> r == Success(interior)
    ensures r.Success? && mode != DeleteCode ==> |r.value| == |interior|
    ensures r.Failure? ==> mode == UncommentCode
    decreases |interior|
  {
    if interior == [] || mode == DeleteCode then
      Success([])
    else
      assert [interior[0]] + interior[1..] == interior;
      Concat(Single(Interior(d, mode, interior[0])), Block(d, mode, interior[1..]))
  }

  /** A line put in front of a list of lines, when neither failed. */
  lemma ConcatSingle(h: Result<string, Exception>, t: Result<seq<string>, Exception>)
    requires Concat(Single(h), t).Success?
    ensures h.Success? && t.Success?
    ensures Concat(Single(h), t).value == [h.value] + t.value
  {
  }

  /** Under UncommentCode the `i`-th line written for a block is the
      uncommented `i`-th interior line. */
  lemma {:induction false} BlockUncommentsLine(d: Dialect, interior: seq<string>, i: nat)
    requires Block(d, UncommentCode, interior).Success? && i < |interior|
    ensures Uncomment(d, interior[i]) == Success(Block(d, UncommentCode, interior).value[i])
    decreases i
  {
    var tail := Block(d, UncommentCode, interior[1..]);
    ConcatSingle(Uncomment(d, interior[0]), tail);
    if i > 0 {
      BlockUncommentsLine(d, interior[1..], i - 1);
      assert interior[1..][i - 1] == interior[i];
    }
  }

  /** Under UncommentCode each interior line is replaced by its uncommented
      form, in place. */
  lemma BlockUncommentsEachLine(d: Dialect, interior: seq<string>)
    requires Block(d, UncommentCode, interior).Success?
    ensures forall i :: 0 <= i < |interior| ==>
              Uncomment(d, interior[i]) == Success(Block(d, UncommentCode, interior).value[i])
  {
    forall i | 0 <= i < |interior|
      ensures Uncomment(d, interior[i]) == Success(Block(d, UncommentCode, interior).value[i])
    {
      BlockUncommentsLine(d, interior, i);
    }
  }

  /** A block whose interior lines all uncomment is uncommented without error. */
  lemma {:induction false} BlockSucceeds(d: Dialect, interior: seq<string>)
    requires forall i :: 0 <= i < |interior| ==> Uncomment(d, interior[i]).Success?
    ensures Block(d, UncommentCode, interior).Success?
    decreases |interior|
  {
    if interior != [] {
      forall i | 0 <= i < |interior| - 1
        ensures Uncomment(d, interior[1..][i]).Success?
      {
        assert interior[1..][i] == interior[i + 1];
      }
      BlockSucceeds(d, interior[1..]);
      assert Interior(d, UncommentCode, interior[0]).Success?;
    }
  }

  /** Uncommenting a block fails exactly when one of its interior lines fails. */
  lemma BlockFailsIffLineFails(d: Dialect, interior: seq<string>)
    ensures Block(d, UncommentCode, interior).Failure? <==>
              exists i :: 0 <= i < |interior| && Uncomment(d, interior[i]).Failure?
  {
    if Block(d, UncommentCode, interior).Success? {
      BlockUncommentsEachLine(d, interior);
    } else if forall i :: 0 <= i < |interior| ==> Uncomment(d, interior[i]).Success? {
      BlockSucceeds(d, interior);
    }
  }

  /** Uncommenting a block throws exactly when one of its interior lines,
      left-trimmed, is the bare start token. */
  lemma BlockFailsIff(d: Dialect, interior: seq<string>)
    requires WellFormed(d)
    ensures Block(d, UncommentCode, interior).Failure? <==>
              exists i :: 0 <= i < |interior| && TrimStart(interior[i]) == d.start
  {
    forall i | 0 <= i < |interior|
      ensures Uncomment(d, interior[i]).Failure? <==> TrimStart(interior[i]) == d.start
    {
      UncommentFailsIff(d, interior[i]);
    }
    BlockFailsIffLineFails(d, interior);
  }

  /** Inside a block, lines up to the next end marker are interior lines,
      start markers included: blocks do not nest. */
  lemma {:induction false} InsideRun(d: Dialect, m: Markers, mode: Mode, interior: seq<string>, post: seq<string>)
    requires forall l :: l in interior ==> !Contains(l, m.end)
    ensures Scan(d, m, mode, interior + post, true) ==
            Concat(Block(d, mode, interior), Scan(d, m, mode, post, true))
    decreases |interior|
  {
    if interior == [] {
      assert interior + post == post;
      ConcatNothing(Scan(d, m, mode, post, true));
    } else {
      assert (interior + post)[0] == interior[0];
      assert (interior + post)[1..] == interior[1..] + post;
      InsideRun(d, m, mode, interior[1..], post);
      if mode != DeleteCode {
        ConcatAssoc(Single(Interior(d, mode, interior[0])), Block(d, mode, interior[1..]), Scan(d, m, mode, post, true));
      }
    }
  }

  /** A block closed by an end marker: both marker lines go, the interior
      becomes `Block`, and the scan goes on outside. */
  lemma ClosedBlock(d: Dialect, m: Markers, mode: Mode, opening: string, interior: seq<string>, closing: string, post: seq<string>)
    requires Contains(opening, m.start) && Contains(closing, m.end)
    requires forall l :: l in interior ==> !Contains(l, m.end)
    ensures Scan(d, m, mode, [opening] + interior + [closing] + post, false) ==
            Concat(Block(d, mode, interior), Scan(d, m, mode, post, false))
  {
    var lines := [opening] + interior + [closing] + post;
    assert lines[0] == opening && lines[1..] == interior + ([closing] + post);
    InsideRun(d, m, mode, interior, [closing] + post);
    assert ([closing] + post)[0] == closing && ([closing] + post)[1..] == post;
  }

  /** A block never closed runs to the end of the file, without error. */
  lemma UnterminatedBlock(d: Dialect, m: Markers, mode: Mode, opening: string, interior: seq<string>)
    requires Contains(opening, m.start)
    requires forall l :: l in interior ==> !Contains(l, m.end)
    ensures Scan(d, m, mode, [opening] + interior, false) == Block(d, mode, interior)
  {
    assert ([opening] + interior)[1..] == interior + [];
    InsideRun(d, m, mode, interior, []);
    ConcatNothing(Block(d, mode, interior));
  }

  /** A block with no interior lines vanishes, in every mode. */
  lemma EmptyBlockVanishes(d: Dialect, m: Markers, mode: Mode, pre: seq<string>, opening: string, closing: string, post: seq<string>)
    requires forall l :: l in pre ==> !Contains(l, m.start)
    requires Contains(opening, m.start) && Contains(closing, m.end)
    ensures Scan(d, m, mode, pre + [opening, closing] + post, false) == Scan(d, m, mode, pre + post, false)
  {
    assert pre + [opening, closing] + post == pre + ([opening] + [] + [closing] + post);
    OutsideRun(d, m, mode, pre, [opening] + [] + [closing] + post);
    ClosedBlock(d, m, mode, opening, [], closing, post);
    ConcatNothing(Scan(d, m, mode, post, false));
    OutsideRun(d, m, mode, pre, post);
  }

  /** After DeleteCode no block with that name is left, so a second edit
      with the same name, in any mode, writes the same lines again. */
  lemma DeleteThenAnyModeIsNoOp(name: string, mode: Mode, extension: string, lines: seq<string>)
    requires GetComment(extension).Some?
    ensures Edit(name, DeleteCode, extension, lines).Written?
    ensures var out := Edit(name, DeleteCode, extension, lines).lines;
            Edit(name, mode, extension, out) == Written(out)
  {
    var d := GetComment(extension).value;
    var m := NamedComment(name, d);
    DeleteKeepsOutsideLines(d, m, lines, false);
    NoBlockNoChange(d, m, mode, OutsideLines(m, lines, false));
  }

  /** The start marker of the block `Feature` in `//` files. */
  lemma FeatureStartMarker()
    ensures NamedComment("Feature", Slash).start == "// $Start-Feature$"
  {
    assert EndSuffix(Slash) == "";
  }

  /** The end marker of the block `Feature` in `//` files. */
  lemma FeatureEndMarker()
    ensures NamedComment("Feature", Slash).end == "// $End-Feature$"
  {
    assert EndSuffix(Slash) == "";
  }

  /** The markers of the block `Feature` in `//` files. */
  lemma FeatureMarkers()
    ensures GetComment(".cs") == Some(Slash)
    ensures NamedComment("Feature", Slash) == Markers("// $Start-Feature$", "// $End-Feature$")
    ensures Contains("// $Start-Feature$", "// $Start-Feature$")
    ensures Contains("// $End-Feature$", "// $End-Feature$")
  {
    FeatureStartMarker();
    FeatureEndMarker();
    assert StartsWith("// $Start-Feature$"[0..], "// $Start-Feature$");
    assert StartsWith("// $End-Feature$"[0..], "// $End-Feature$");
  }

  /** A one-line interior is that line, edited. */
  lemma BlockOfOne(d: Dialect, mode: Mode, line: string)
    requires mode != DeleteCode
    ensures Block(d, mode, [line]) == Single(Interior(d, mode, line))
  {
    assert [line][1..] == [];
    match Interior(d, mode, line)
    case Failure(_) =>
    case Success(x) => assert [x] + [] == [x];
  }

  /** A file with one closed single-line block, with no start marker before
      or after it: the lines around the block are kept, and the interior line
      is dropped by DeleteCode and edited otherwise. */
  lemma OneLineBlock(d: Dialect, m: Markers, mode: Mode, pre: seq<string>, opening: string, line: string,
                     edited: string, closing: string, post: seq<string>)
    requires forall l :: l in pre ==> !Contains(l, m.start)
    requires Contains(opening, m.start) && !Contains(line, m.end) && Contains(closing, m.end)
    requires mode != DeleteCode ==> Interior(d, mode, line) == Success(edited)
    requires forall l :: l in post ==> !Contains(l, m.start)
    ensures Scan(d, m, mode, pre + [opening, line, closing] + post, false) ==
            Success(pre + (if mode == DeleteCode then [] else [edited]) + post)
  {
    var kept := if mode == DeleteCode then [] else [edited];
    if mode != DeleteCode {
      BlockOfOne(d, mode, line);
    }
    Regroup(pre, opening, line, closing, post, kept);
    ClosedBlock(d, m, mode, opening, [line], closing, post);
    NoBlockNoChange(d, m, mode, post);
    OutsideRun(d, m, mode, pre, [opening, line, closing] + post);
  }

  /** The groupings of a file around a one-line block that OneLineBlock uses. */
  lemma Regroup<T>(pre: seq<T>, opening: T, line: T, closing: T, post: seq<T>, kept: seq<T>)
    ensures [opening, line, closing] + post == [opening] + [line] + [closing] + post
    ensures pre + [opening, line, closing] + post == pre + ([opening, line, closing] + post)
    ensures pre + (kept + post) == pre + kept + post
  {
  }

  /** A `//` file with one block `Feature` around the line `b`, deleted. */
  lemma DeleteExample()
    ensures Edit("Feature", DeleteCode, ".cs", ["a", "// $Start-Feature$", "b", "// $End-Feature$", "c"]) ==
            Written(["a", "c"])
  {
    FeatureMarkers();
    var m := Markers("// $Start-Feature$", "// $End-Feature$");
    OneLineBlock(Slash, m, DeleteCode, ["a"], "// $Start-Feature$", "b", "b", "// $End-Feature$", ["c"]);
    assert ["a"] + ["// $Start-Feature$", "b", "// $End-Feature$"] + ["c"] == ["a", "// $Start-Feature$", "b", "// $End-Feature$", "c"];
    assert ["a"] + [] + ["c"] == ["a", "c"];
    EditWrites("Feature", DeleteCode, ".cs", Slash, ["a", "// $Start-Feature$", "b", "// $End-Feature$", "c"], ["a", "c"]);
  }

  /** Uncommenting `// code` in a `//` file gives `code`. */
  lemma UncommentSlashLine(code: string)
    ensures Interior(Slash, UncommentCode, "// " + code) == Success(code)
  {
    DecorateSlash(code);
    UncommentRoundTrip(Slash, code);
  }

  /** A line of code commented out in `//` files. */
  lemma DecorateSlash(code: string)
    ensures Decorate(Slash, code) == "// " + code
  {
  }

  /** A `//` block around the one line `// code`, uncommented. */
  lemma SlashBlockScan(m: Markers, pre: seq<string>, opening: string, code: string, closing: string, post: seq<string>)
    requires forall l :: l in pre ==> !Contains(l, m.start)
    requires Contains(opening, m.start) && !Contains("// " + code, m.end) && Contains(closing, m.end)
    requires forall l :: l in post ==> !Contains(l, m.start)
    ensures Scan(Slash, m, UncommentCode, pre + [opening, "// " + code, closing] + post, false) ==
            Success(pre + [code] + post)
  {
    UncommentSlashLine(code);
    OneLineBlock(Slash, m, UncommentCode, pre, opening, "// " + code, code, closing, post);
  }

  /** Neither `a` nor `c` holds the start marker of block `Feature`. */
  lemma FeatureLines()
    ensures !Contains("a", "// $Start-Feature$") && !Contains("c", "// $Start-Feature$")
  {
  }

  /** The scan behind UncommentExample. */
  lemma UncommentExampleScan(code: string)
    requires !Contains("// " + code, "// $End-Feature$")
    ensures Scan(Slash, Markers("// $Start-Feature$", "// $End-Feature$"), UncommentCode,
                 ["a", "// $Start-Feature$", "// " + code, "// $End-Feature$", "c"], false) ==
            Success(["a", code, "c"])
  {
    FeatureMarkers();
    FeatureLines();
    var m := Markers("// $Start-Feature$", "// $End-Feature$");
    SlashBlockScan(m, ["a"], "// $Start-Feature$", code, "// $End-Feature$", ["c"]);
    assert ["a"] + ["// $Start-Feature$", "// " + code, "// $End-Feature$"] + ["c"] ==
           ["a", "// $Start-Feature$", "// " + code, "// $End-Feature$", "c"];
    assert ["a"] + [code] + ["c"] == ["a", code, "c"];
  }

  /** The same kind of block around a line of code commented out as `// code`,
      uncommented: the line becomes `code`. */
  lemma UncommentExample(code: string)
    requires !Contains("// " + code, "// $End-Feature$")
    ensures Edit("Feature", UncommentCode, ".cs", ["a", "// $Start-Feature$", "// " + code, "// $End-Feature$", "c"]) ==
            Written(["a", code, "c"])
  {
    FeatureMarkers();
    UncommentExampleScan(code);
    EditWrites("Feature", UncommentCode, ".cs", Slash, ["a", "// $Start-Feature$", "// " + code, "// $End-Feature$", "c"],
               ["a", code, "c"]);
  }
}
