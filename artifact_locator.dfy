/**
 * `extractFilePath` (server.js): the path of the file yt-dlp produced or
 * reused, read from its standard output. Each line is matched against
 * `/Destination:\s*(.+)$/` and then `/\] (.+) has already been downloaded/`;
 * the trimmed group of the last line that matches either one wins.
 *
 * The two regular expressions are modelled with JavaScript's semantics:
 * the leftmost starting position that can match wins, `\s*` and `(.+)` are
 * greedy, `.` does not match a line terminator, and `$` is the end of the
 * line (no `m` flag).
 */
module ArtifactLocator {
  import opened Wrappers
  import opened Text

  const DestinationTag := "Destination:"
  const BracketTag := "] "
  const AlreadyTag := " has already been downloaded"

  /** `lit` occurs in `s` starting at `p`. */
  predicate HasAt(s: string, p: nat, lit: string) {
    p + |lit| <= |s| && s[p..p + |lit|] == lit
  }

  // -------------------------------------------- /Destination:\s*(.+)$/

  /** One way for `\s*(.+)$` to match all of `rest`: `\s*` takes
      `rest[..k]` and `(.+)` the non-empty remainder, which holds no line
      terminator. */
  predicate DestinationSplit(rest: string, k: nat) {
    k < |rest| && AllSpace(rest[..k]) && NoTerminator(rest[k..])
  }

  /** Group 1 of `\s*(.+)$` against `rest`, `None` when it cannot match. */
  function DestinationCapture(rest: string): Option<string> {
    var w := |rest| - |TrimStart(rest)|;
    if w < |rest| then
      if NoTerminator(rest[w..]) then Some(rest[w..]) else None
    else if |rest| > 0 && !IsLineTerminator(rest[|rest| - 1]) then Some(rest[|rest| - 1..])
    else None
  }

  /** A white-space prefix never reaches past the one `TrimStart` removes. */
  lemma {:induction false} SpacePrefixBound(rest: string, k: nat)
    requires k <= |rest| && AllSpace(rest[..k])
    ensures k <= |rest| - |TrimStart(rest)|
    decreases k
  {
    if k > 0 {
      assert IsSpace(rest[..k][0]);
      assert rest[1..][..k - 1] == rest[..k][1..];
      SpacePrefixBound(rest[1..], k - 1);
    }
  }

  /** No split matches when a line terminator follows the longest
      white-space prefix or ends the text. */
  lemma NoSplitPastTerminator(rest: string, j: nat)
    requires j < |rest| && IsLineTerminator(rest[j])
    requires |rest| - |TrimStart(rest)| <= j || j == |rest| - 1
    ensures forall k: nat :: !DestinationSplit(rest, k)
  {
    forall k: nat ensures !DestinationSplit(rest, k) {
      if k < |rest| && AllSpace(rest[..k]) {
        SpacePrefixBound(rest, k);
        assert rest[k..][j - k] == rest[j];
      }
    }
  }

  /** `DestinationCapture` is the greedy reading: it succeeds exactly when
      some split matches, and then captures after the longest `\s*`. */
  lemma DestinationCaptureGreedy(rest: string)
    ensures DestinationCapture(rest).Some? ==> exists k: nat :: DestinationSplit(rest, k)
    ensures (exists k: nat :: DestinationSplit(rest, k)) ==> DestinationCapture(rest).Some?
    ensures forall k: nat :: DestinationSplit(rest, k) && (forall k': nat :: k < k' ==> !DestinationSplit(rest, k'))
                        ==> DestinationCapture(rest) == Some(rest[k..])
  {
    var t := TrimStart(rest);
    var w := |rest| - |t|;
    if w < |rest| {
      assert rest[w] == t[0] && !IsSpace(rest[w]);
      if NoTerminator(rest[w..]) {
        assert DestinationSplit(rest, w);
        forall k: nat | DestinationSplit(rest, k) && (forall k': nat :: k < k' ==> !DestinationSplit(rest, k'))
          ensures k == w
        {
          SpacePrefixBound(rest, k);
        }
      } else {
        var j :| 0 <= j < |rest[w..]| && IsLineTerminator(rest[w..][j]);
        NoSplitPastTerminator(rest, w + j);
      }
    } else {
      assert AllSpace(rest);
      if |rest| > 0 && !IsLineTerminator(rest[|rest| - 1]) {
        assert rest[..|rest| - 1] == rest[..w][..|rest| - 1];
        assert DestinationSplit(rest, |rest| - 1);
      } else if |rest| > 0 {
        NoSplitPastTerminator(rest, |rest| - 1);
      }
    }
  }

  /** The match of `/Destination:\s*(.+)$/` at the leftmost start `>= p`. */
  function DestinationFrom(line: string, p: nat): Option<string>
    requires p <= |line|
    decreases |line| - p
  {
    if HasAt(line, p, DestinationTag) && DestinationCapture(line[p + |DestinationTag|..]).Some? then
      DestinationCapture(line[p + |DestinationTag|..])
    else if p == |line| then None
    else DestinationFrom(line, p + 1)
  }

  /** `line.match(/Destination:\s*(.+)$/)[1]`, or `None` when it does not match. */
  function MatchDestination(line: string): Option<string> {
    DestinationFrom(line, 0)
  }

  lemma {:induction false} DestinationFromSkips(line: string, q: nat, p: nat)
    requires q <= p <= |line|
    requires forall i :: q <= i < p ==> !HasAt(line, i, DestinationTag)
    ensures DestinationFrom(line, q) == DestinationFrom(line, p)
    decreases p - q
  {
    if q < p {
      assert !HasAt(line, q, DestinationTag);
      assert DestinationFrom(line, q) == DestinationFrom(line, q + 1);
      DestinationFromSkips(line, q + 1, p);
    }
  }

  /** Text without line terminators that is not empty is matched whole by
      `\s*(.+)$`, and the capture trims to the same as the text. */
  lemma DestinationCaptureTrim(rest: string)
    requires rest != [] && NoTerminator(rest)
    ensures DestinationCapture(rest).Some?
    ensures Trim(DestinationCapture(rest).value) == Trim(rest)
  {
    var w := |rest| - |TrimStart(rest)|;
    if w < |rest| {
      assert DestinationCapture(rest) == Some(rest[w..]) by {
        forall i | 0 <= i < |rest[w..]| ensures !IsLineTerminator(rest[w..][i]) {
          assert rest[w..][i] == rest[w + i];
        }
      }
      assert Trim(rest) == Trim(rest[w..]) by {
        assert rest == rest[..w] + rest[w..];
        TrimSkipsSpace(rest[..w], rest[w..]);
      }
    } else {
      assert AllSpace(rest) by {
        assert rest[..w] == rest;
      }
      assert DestinationCapture(rest) == Some(rest[|rest| - 1..]);
      assert AllSpace(rest[|rest| - 1..]);
    }
  }

  /** A line whose first `Destination:` is followed by at least one
      character and no line terminator: the pattern matches there and the
      trimmed capture is the trimmed rest of the line. */
  lemma {:induction false} DestinationIsRestOfLine(line: string, p: nat)
    requires HasAt(line, p, DestinationTag) && p + |DestinationTag| < |line|
    requires NoTerminator(line[p + |DestinationTag|..])
    requires forall q :: 0 <= q < p ==> !HasAt(line, q, DestinationTag)
    ensures MatchDestination(line).Some?
    ensures Trim(MatchDestination(line).value) == Trim(line[p + |DestinationTag|..])
  {
    var rest := line[p + |DestinationTag|..];
    DestinationCaptureTrim(rest);
    DestinationFromSkips(line, 0, p);
    assert DestinationFrom(line, p) == DestinationCapture(rest);
  }

  /** Without `Destination:` in the line the pattern cannot match. */
  lemma {:induction false} NoDestinationTag(line: string)
    requires forall q :: 0 <= q <= |line| ==> !HasAt(line, q, DestinationTag)
    ensures MatchDestination(line) == None
  {
    DestinationFromSkips(line, 0, |line|);
  }

  // ------------------------------ /\] (.+) has already been downloaded/

  /** Group 1 of `(.+) has already been downloaded` when the group starts at
      `b`: the greedy `(.+)` ends at the last `e <= bound` after which the
      literal follows, with `line[b..e]` non-empty and free of terminators. */
  function AlreadyCaptureBefore(line: string, b: nat, bound: nat): Option<string>
    requires b <= bound <= |line|
    decreases bound
  {
    if bound <= b then None
    else if HasAt(line, bound, AlreadyTag) && NoTerminator(line[b..bound]) then Some(line[b..bound])
    else AlreadyCaptureBefore(line, b, bound - 1)
  }

  /** The match of `/\] (.+) has already been downloaded/` at the leftmost start `>= p`. */
  function AlreadyFrom(line: string, p: nat): Option<string>
    requires p <= |line|
    decreases |line| - p
  {
    if HasAt(line, p, BracketTag) && AlreadyCaptureBefore(line, p + |BracketTag|, |line|).Some? then
      AlreadyCaptureBefore(line, p + |BracketTag|, |line|)
    else if p == |line| then None
    else AlreadyFrom(line, p + 1)
  }

  /** `line.match(/\] (.+) has already been downloaded/)[1]`, or `None`. */
  function MatchAlreadyDownloaded(line: string): Option<string> {
    AlreadyFrom(line, 0)
  }

  /** Ends too close to the end of the line to be followed by the literal
      are skipped. */
  lemma {:induction false} AlreadyCaptureSkipsShortEnds(line: string, b: nat, e: nat, bound: nat)
    requires b <= e <= bound <= |line|
    requires |line| < e + 1 + |AlreadyTag|
    ensures AlreadyCaptureBefore(line, b, bound) == AlreadyCaptureBefore(line, b, e)
    decreases bound - e
  {
    if e < bound {
      AlreadyCaptureSkipsShortEnds(line, b, e, bound - 1);
    }
  }

  lemma {:induction false} AlreadyFromSkips(line: string, q: nat, p: nat)
    requires q <= p <= |line|
    requires forall i :: q <= i < p ==> !HasAt(line, i, BracketTag)
    ensures AlreadyFrom(line, q) == AlreadyFrom(line, p)
    decreases p - q
  {
    if q < p {
      assert !HasAt(line, q, BracketTag);
      assert AlreadyFrom(line, q) == AlreadyFrom(line, q + 1);
      AlreadyFromSkips(line, q + 1, p);
    }
  }

  // ----------------------------------------------------------- per line

  /** What one line contributes: the Destination pattern is tried first,
      and the already-downloaded pattern only when it does not match. */
  function LineCapture(line: string): Option<string> {
    var dest := MatchDestination(line);
    if dest.Some? then dest else MatchAlreadyDownloaded(line)
  }

  /** The line yt-dlp prints when it starts writing a file. */
  function DestinationLine(path: string): string {
    "[download] Destination: " + path
  }

  /** The line yt-dlp prints when the file is already there. */
  function AlreadyDownloadedLine(path: string): string {
    "[download] " + path + AlreadyTag
  }

  lemma PrefixChars(path: string)
    ensures forall i :: 0 <= i < 11 ==> DestinationLine(path)[i] == "[download] "[i]
    ensures forall i :: 0 <= i < 11 ==> AlreadyDownloadedLine(path)[i] == "[download] "[i]
  {
  }

  /** On a destination line the pattern captures the text after the tag. */
  lemma DestinationLineMatch(path: string)
    requires path != [] && NoTerminator(path)
    ensures MatchDestination(DestinationLine(path)).Some?
    ensures Trim(MatchDestination(DestinationLine(path)).value) == Trim(" " + path)
  {
    var line := DestinationLine(path);
    var prefix := "[download] Destination: ";
    assert line[11..23] == DestinationTag && line[23..] == " " + path;
    forall q | 0 <= q < 11 ensures !HasAt(line, q, DestinationTag) {
      assert line[q] == prefix[q] && line[q..q + |DestinationTag|][0] == line[q];
    }
    assert NoTerminator(" " + path) by {
      forall i | 0 <= i < |" " + path| ensures !IsLineTerminator((" " + path)[i]) {
        if i >= 1 { assert (" " + path)[i] == path[i - 1]; }
      }
    }
    DestinationIsRestOfLine(line, 11);
  }

  /** A destination line yields its path, trimmed. */
  lemma DestinationLineCapture(path: string)
    requires path != [] && NoTerminator(path)
    ensures LineCapture(DestinationLine(path)).Some?
    ensures Trim(LineCapture(DestinationLine(path)).value) == Trim(path)
  {
    DestinationLineMatch(path);
    assert AllSpace(" ");
    TrimSkipsSpace(" ", path);
  }

  /** `text` holds no `Destination:` anywhere. */
  predicate NoTagIn(text: string) {
    forall q :: 0 <= q <= |text| ==> !HasAt(text, q, DestinationTag)
  }

  /** `Destination:` holds no space, so it cannot reach across the spaces
      around the path of an already-downloaded line. */
  lemma AlreadyLineHasNoTag(path: string)
    requires NoTagIn(path)
    ensures NoTagIn(AlreadyDownloadedLine(path))
  {
    var line := AlreadyDownloadedLine(path);
    var e := 11 + |path|;
    assert |line| == e + |AlreadyTag|;
    assert line[10] == "[download] "[10] == ' ';
    assert line[e] == AlreadyTag[0] == ' ';
    forall q | 0 <= q <= |line| ensures !HasAt(line, q, DestinationTag) {
      if q <= 10 {
        SpaceBlocksTag(line, q, 10);
      } else if q + |DestinationTag| <= e {
        assert line[q..q + |DestinationTag|] == path[q - 11..q - 11 + |DestinationTag|];
        assert !HasAt(path, q - 11, DestinationTag);
      } else if q <= e {
        SpaceBlocksTag(line, q, e);
      } else if q < |line| {
        assert line[q] == AlreadyTag[q - e] && 'D' !in AlreadyTag;
        if q + |DestinationTag| <= |line| {
          assert line[q..q + |DestinationTag|][0] == line[q];
        }
      }
    }
  }

  /** A space inside the span rules out `Destination:` there. */
  lemma SpaceBlocksTag(line: string, q: nat, k: nat)
    requires q <= k < q + |DestinationTag| && k < |line| && line[k] == ' '
    ensures !HasAt(line, q, DestinationTag)
  {
    if q + |DestinationTag| <= |line| {
      assert line[q..q + |DestinationTag|][k - q] == ' ';
      assert DestinationTag[k - q] != ' ';
    }
  }

  /** The already-downloaded pattern captures the path of such a line. */
  lemma AlreadyLineMatch(path: string)
    requires path != [] && NoTerminator(path)
    ensures MatchAlreadyDownloaded(AlreadyDownloadedLine(path)) == Some(path)
  {
    var line := AlreadyDownloadedLine(path);
    var e := 11 + |path|;
    PrefixChars(path);
    forall q | 0 <= q < 9 ensures !HasAt(line, q, BracketTag) {
      assert line[q..q + |BracketTag|][0] == line[q];
    }
    AlreadyFromSkips(line, 0, 9);
    assert line[9..11] == BracketTag;
    AlreadyCaptureSkipsShortEnds(line, 11, e, |line|);
    assert line[e..] == AlreadyTag;
    assert line[11..e] == path;
    assert AlreadyCaptureBefore(line, 11, e) == Some(path);
  }

  /** An already-downloaded line yields its path, provided the path does not
      itself hold `Destination:` (which the first pattern would match). */
  lemma AlreadyDownloadedLineCapture(path: string)
    requires path != [] && NoTerminator(path) && NoTagIn(path)
    ensures LineCapture(AlreadyDownloadedLine(path)) == Some(path)
  {
    AlreadyLineHasNoTag(path);
    NoDestinationTag(AlreadyDownloadedLine(path));
    AlreadyLineMatch(path);
  }

  // ---------------------------------------------------------- all lines

  /** The value `lastPath` holds after the loop: the trimmed capture of the
      last line that matches either pattern. */
  function LastCapture(lines: seq<string>): Option<string>
    decreases |lines|
  {
    if |lines| == 0 then None
    else match LineCapture(lines[|lines| - 1])
      case Some(c) => Some(Trim(c))
      case None => LastCapture(lines[..|lines| - 1])
  }

  /** No path exactly when no line matches. */
  lemma {:induction false} LastCaptureNone(lines: seq<string>)
    ensures LastCapture(lines).None? <==> forall i :: 0 <= i < |lines| ==> LineCapture(lines[i]).None?
    decreases |lines|
  {
    if |lines| > 0 {
      var init := lines[..|lines| - 1];
      LastCaptureNone(init);
      assert forall i :: 0 <= i < |init| ==> init[i] == lines[i];
    }
  }

  /** The last matching line decides, whichever pattern it matched. */
  lemma {:induction false} LastCaptureIsLastMatch(lines: seq<string>, i: nat)
    requires i < |lines| && LineCapture(lines[i]).Some?
    requires forall j :: i < j < |lines| ==> LineCapture(lines[j]).None?
    ensures LastCapture(lines) == Some(Trim(LineCapture(lines[i]).value))
    decreases |lines|
  {
    if i < |lines| - 1 {
      var init := lines[..|lines| - 1];
      assert forall j :: 0 <= j < |init| ==> init[j] == lines[j];
      LastCaptureIsLastMatch(init, i);
    }
  }

  /** Line `i` matches and no later line does. */
  predicate IsLastMatch(lines: seq<string>, i: nat) {
    i < |lines| && LineCapture(lines[i]).Some? &&
    forall j :: i < j < |lines| ==> LineCapture(lines[j]).None?
  }

  /** At most one line is the last matching line. */
  lemma LastMatchIsUnique(lines: seq<string>, i: nat, j: nat)
    requires IsLastMatch(lines, i) && IsLastMatch(lines, j)
    ensures i == j
  {
  }

  lemma LastMatchSurvivesNoMatch(lines: seq<string>, i: nat)
    requires |lines| > 0 && IsLastMatch(lines[..|lines| - 1], i)
    requires LineCapture(lines[|lines| - 1]).None?
    ensures IsLastMatch(lines, i)
  {
    var init := lines[..|lines| - 1];
    forall j | i < j < |lines| ensures LineCapture(lines[j]).None? {
      if j < |lines| - 1 { assert init[j] == lines[j]; }
    }
    assert init[i] == lines[i];
  }

  /** Conversely, a path always comes from a matching line with no matching
      line after it. */
  lemma {:induction false} LastCaptureHasSource(lines: seq<string>)
    requires LastCapture(lines).Some?
    ensures exists i: nat :: IsLastMatch(lines, i) && LastCapture(lines) == Some(Trim(LineCapture(lines[i]).value))
    decreases |lines|
  {
    var n := |lines|;
    if LineCapture(lines[n - 1]).Some? {
      LastLineMatches(lines);
    } else {
      var init := lines[..n - 1];
      assert LastCapture(init) == LastCapture(lines);
      LastCaptureHasSource(init);
      var i: nat :| IsLastMatch(init, i) && LastCapture(init) == Some(Trim(LineCapture(init[i]).value));
      LaterLineDoesNotMatch(lines, i);
    }
  }

  /** A matching last line is the last match. */
  lemma LastLineMatches(lines: seq<string>)
    requires |lines| > 0 && LineCapture(lines[|lines| - 1]).Some?
    ensures IsLastMatch(lines, |lines| - 1)
    ensures LastCapture(lines) == Some(Trim(LineCapture(lines[|lines| - 1]).value))
  {
  }

  /** A last line that does not match leaves the last match where it was. */
  lemma LaterLineDoesNotMatch(lines: seq<string>, i: nat)
    requires |lines| > 0 && IsLastMatch(lines[..|lines| - 1], i)
    requires LineCapture(lines[|lines| - 1]).None?
    ensures IsLastMatch(lines, i)
    ensures LastCapture(lines) == Some(Trim(LineCapture(lines[i]).value))
  {
    LastMatchSurvivesNoMatch(lines, i);
    LastCaptureIsLastMatch(lines, i);
  }

  /** The path `extractFilePath` returns for the whole output. */
  function ExtractedPath(stdout: string): Option<string> {
    LastCapture(Lines(stdout))
  }

  /** One more line: a match replaces the path, anything else keeps it. */
  lemma LastCaptureStep(lines: seq<string>, i: nat)
    requires i < |lines|
    ensures LastCapture(lines[..i + 1]) ==
            if LineCapture(lines[i]).Some? then Some(Trim(LineCapture(lines[i]).value)) else LastCapture(lines[..i])
  {
    assert lines[..i + 1][..i] == lines[..i];
  }

  /** The scan's step in terms of the two matches it tries on line `i`. */
  lemma ScanStep(lines: seq<string>, i: nat, destMatch: Option<string>, downloadedMatch: Option<string>)
    requires i < |lines|
    requires destMatch == MatchDestination(lines[i]) && downloadedMatch == MatchAlreadyDownloaded(lines[i])
    ensures LastCapture(lines[..i + 1]) ==
            if destMatch.Some? then Some(Trim(destMatch.value))
            else if downloadedMatch.Some? then Some(Trim(downloadedMatch.value))
            else LastCapture(lines[..i])
  {
    LastCaptureStep(lines, i);
  }

  /** No line matches either pattern. */
  predicate NoLineMatches(lines: seq<string>) {
    forall i :: 0 <= i < |lines| ==> LineCapture(lines[i]).None?
  }

  /** `extractFilePath(stdout)`: split into lines, then scan them keeping the
      last capture. */
  method ExtractFilePath(stdout: string) returns (lastPath: Option<string>)
    ensures lastPath == ExtractedPath(stdout)
  {
    var lines := Lines(stdout);
    lastPath := None;
    var i := 0;
    while i < |lines|
      invariant 0 <= i <= |lines|
      invariant lastPath == LastCapture(lines[..i])
    {
      var line := lines[i];
      var destMatch := MatchDestination(line);
      var downloadedMatch := MatchAlreadyDownloaded(line);
      ScanStep(lines, i, destMatch, downloadedMatch);
      if destMatch.Some? {
        lastPath := Some(Trim(destMatch.value));
      } else if downloadedMatch.Some? {
        lastPath := Some(Trim(downloadedMatch.value));
      }
      i := i + 1;
    }
    assert lines[..i] == lines;
  }

  /** What `extractFilePath` returns: `null` exactly when no line matches
      either expression, and otherwise the trimmed capture of the last
      matching line. */
  lemma ExtractedPathMeaning(stdout: string)
    ensures ExtractedPath(stdout).None? ==> NoLineMatches(Lines(stdout))
    ensures NoLineMatches(Lines(stdout)) ==> ExtractedPath(stdout).None?
    ensures ExtractedPath(stdout).Some? ==>
              exists i: nat :: IsLastMatch(Lines(stdout), i) &&
                               ExtractedPath(stdout).value == Trim(LineCapture(Lines(stdout)[i]).value)
  {
    LastCaptureMeaning(Lines(stdout));
  }

  /** `LastCaptureNone` and `LastCaptureHasSource` together, as one-way facts. */
  lemma LastCaptureMeaning(lines: seq<string>)
    ensures LastCapture(lines).None? ==> forall i :: 0 <= i < |lines| ==> LineCapture(lines[i]).None?
    ensures (forall i :: 0 <= i < |lines| ==> LineCapture(lines[i]).None?) ==> LastCapture(lines).None?
    ensures LastCapture(lines).Some? ==> exists i: nat :: IsLastMatch(lines, i) &&
                                                    LastCapture(lines).value == Trim(LineCapture(lines[i]).value)
  {
    LastCaptureNone(lines);
    if LastCapture(lines).Some? {
      LastCaptureHasSource(lines);
      var k: nat :| IsLastMatch(lines, k) && LastCapture(lines) == Some(Trim(LineCapture(lines[k]).value));
      assert LastCapture(lines).value == Trim(LineCapture(lines[k]).value);
    }
  }

  /** yt-dlp announcing two destinations (separate streams before a
      merge): the later one is the path. */
  lemma {:induction false} LaterDestinationWins(first: string, second: string)
    requires first != [] && NoTerminator(first)
    requires second != [] && NoTerminator(second)
    ensures ExtractedPath(DestinationLine(first) + "\n" + DestinationLine(second)) == Some(Trim(second))
  {
    var a, b := DestinationLine(first), DestinationLine(second);
    assert '\n' !in a && a[|a| - 1] != '\r' by {
      assert forall i :: 24 <= i < |a| ==> a[i] == first[i - 24];
      assert a[|a| - 1] == first[|first| - 1];
    }
    assert '\n' !in b by {
      assert forall i :: 24 <= i < |b| ==> b[i] == second[i - 24];
    }
    LinesCons(a, b);
    LinesOfLine(b);
    assert Lines(a + "\n" + b) == [a, b];
    DestinationLineCapture(second);
    LastCaptureIsLastMatch([a, b], 1);
  }

  /** An output holding only an already-downloaded line yields that path. */
  lemma {:induction false} AlreadyDownloadedOnly(path: string)
    requires path != [] && NoTerminator(path) && NoTagIn(path)
    ensures ExtractedPath(AlreadyDownloadedLine(path)) == Some(Trim(path))
  {
    var line := AlreadyDownloadedLine(path);
    AlreadyLineIsOneLine(path);
    assert LastCapture([line]) == Some(Trim(path)) by {
      AlreadyDownloadedLineCapture(path);
      LastCaptureIsLastMatch([line], 0);
    }
  }

  /** An already-downloaded line is a whole output line. */
  lemma AlreadyLineIsOneLine(path: string)
    requires NoTerminator(path)
    ensures Lines(AlreadyDownloadedLine(path)) == [AlreadyDownloadedLine(path)]
  {
    assert '\n' !in path;
    assert '\n' !in "[download] " && '\n' !in AlreadyTag;
    LinesOfLine(AlreadyDownloadedLine(path));
  }
}
