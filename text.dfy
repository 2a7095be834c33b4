/**
 * The JavaScript string operations the server relies on, over `seq<char>`:
 * the white-space class shared by `\s`, `trim` and `parseInt`, `trim`,
 * `split(/\r?\n/)`, `split(/\s+/)` and `split(',')`.
 */
module Text {

  /** WhiteSpace and LineTerminator code points of ECMAScript: what `\s`
      matches and what `trim` removes. */
  predicate IsSpace(c: char) {
    || c == '\t' || c == '\n' || c == '\U{000B}' || c == '\U{000C}' || c == '\r' || c == ' '
    || c == '\U{00A0}' || c == '\U{1680}' || ('\U{2000}' <= c <= '\U{200A}')
    || c == '\U{2028}' || c == '\U{2029}' || c == '\U{202F}' || c == '\U{205F}'
    || c == '\U{3000}' || c == '\U{FEFF}'
  }

  /** The characters a regular-expression `.` does not match. */
  predicate IsLineTerminator(c: char) {
    c == '\n' || c == '\r' || c == '\U{2028}' || c == '\U{2029}'
  }

  predicate AllSpace(s: string) {
    forall i :: 0 <= i < |s| ==> IsSpace(s[i])
  }

  predicate NoSpace(s: string) {
    forall i :: 0 <= i < |s| ==> !IsSpace(s[i])
  }

  predicate NoTerminator(s: string) {
    forall i :: 0 <= i < |s| ==> !IsLineTerminator(s[i])
  }

  // ---------------------------------------------------------------- trim

  /** The length of the longest white-space prefix. */
  function LeadingSpaces(s: string): (n: nat)
    ensures n <= |s|
    ensures forall i :: 0 <= i < n ==> IsSpace(s[i])
    ensures n == |s| || !IsSpace(s[n])
    decreases |s|
  {
    if |s| > 0 && IsSpace(s[0]) then 1 + LeadingSpaces(s[1..]) else 0
  }

  /** `trimStart`: the suffix left after the longest white-space prefix. */
  function TrimStart(s: string): (r: string)
    ensures |r| <= |s| && r == s[|s| - |r|..]
    ensures AllSpace(s[..|s| - |r|])
    ensures r == [] || !IsSpace(r[0])
  {
    s[LeadingSpaces(s)..]
  }

  /** The length of the longest white-space suffix. */
  function TrailingSpaces(s: string): (n: nat)
    ensures n <= |s|
    ensures forall i :: |s| - n <= i < |s| ==> IsSpace(s[i])
    ensures n == |s| || !IsSpace(s[|s| - n - 1])
    decreases |s|
  {
    if |s| > 0 && IsSpace(s[|s| - 1]) then 1 + TrailingSpaces(s[..|s| - 1]) else 0
  }

  /** `trimEnd`: the prefix left after the longest white-space suffix. */
  function TrimEnd(t: string): string {
    t[..|t| - TrailingSpaces(t)]
  }

  /** `String.prototype.trim`: the text between the longest white-space
      prefix and the longest white-space suffix. */
  function Trim(s: string): (r: string)
    ensures LeadingSpaces(s) + |r| <= |s| && r == s[LeadingSpaces(s)..LeadingSpaces(s) + |r|]
    ensures AllSpace(s[..LeadingSpaces(s)]) && AllSpace(s[LeadingSpaces(s) + |r|..])
    ensures r == [] ==> AllSpace(s)
    ensures AllSpace(s) ==> r == []
    ensures r != [] ==> !IsSpace(r[0]) && !IsSpace(r[|r| - 1])
  {
    assert TrimStart(s) == s[LeadingSpaces(s)..];
    TrimEndOfSuffix(s, LeadingSpaces(s));
    TrimEmpty(s);
    TrimEnds(s);
    TrimEnd(TrimStart(s))
  }

  /** Trimming the end of the suffix `s[a..]` keeps a slice of `s` followed
      only by white space. */
  lemma TrimEndOfSuffix(s: string, a: nat)
    requires a <= |s|
    ensures var r := TrimEnd(s[a..]);
      a + |r| <= |s| && r == s[a..a + |r|] && AllSpace(s[a + |r|..])
  {
    var t := s[a..];
    var k := |t| - TrailingSpaces(t);
    assert TrimEnd(t) == t[..k];
    SliceOfSuffix(s, a, k);
    assert AllSpace(t[k..]) by {
      TrimEndCut(t);
    }
    SuffixOfSuffix(s, a, k);
  }

  lemma SliceOfSuffix(s: string, a: nat, k: nat)
    requires a + k <= |s|
    ensures s[a..][..k] == s[a..a + k]
  {
  }

  lemma SuffixOfSuffix(s: string, a: nat, k: nat)
    requires a + k <= |s|
    ensures s[a..][k..] == s[a + k..]
  {
  }

  /** The trimmed text is empty exactly when `s` is all white space. */
  lemma TrimEmpty(s: string)
    ensures TrimEnd(TrimStart(s)) == [] <==> AllSpace(s)
  {
    var t := TrimStart(s);
    var a := LeadingSpaces(s);
    assert t == s[a..];
    TrimEndCut(t);
    if a < |s| {
      assert t[0] == s[a];
    } else {
      assert AllSpace(s[..a]);
      assert s[..a] == s;
    }
  }

  /** The trimmed text starts and ends with a character that is not white space. */
  lemma TrimEnds(s: string)
    ensures var r := TrimEnd(TrimStart(s));
      r != [] ==> !IsSpace(r[0]) && !IsSpace(r[|r| - 1])
  {
    var t := TrimStart(s);
    TrimEndCut(t);
  }

  /** `TrimEnd` keeps a prefix and cuts only white space; it keeps a
      non-blank first character. */
  lemma TrimEndCut(t: string)
    ensures var r := TrimEnd(t);
      && |r| <= |t| && r == t[..|r|] && AllSpace(t[|r|..])
      && (t != [] && !IsSpace(t[0]) ==> |r| > 0 && r[0] == t[0])
      && (r != [] ==> r[0] == t[0] && !IsSpace(r[|r| - 1]))
  {
    var b := TrailingSpaces(t);
    var r := TrimEnd(t);
    assert |r| == |t| - b;
    var u := t[|r|..];
    assert AllSpace(u) by {
      forall i | 0 <= i < b ensures IsSpace(u[i]) {
        assert u[i] == t[|t| - b + i];
      }
    }
    if t != [] && !IsSpace(t[0]) {
      assert b < |t|;
    }
  }

  lemma {:induction false} TrimStartSkipsSpace(w: string, x: string)
    requires AllSpace(w)
    ensures TrimStart(w + x) == TrimStart(x)
    decreases |w|
  {
    if w != [] {
      var s := w + x;
      assert IsSpace(s[0]) by { assert s[0] == w[0]; }
      assert s[1..] == w[1..] + x;
      assert TrimStart(s) == TrimStart(s[1..]) by {
        assert LeadingSpaces(s) == 1 + LeadingSpaces(s[1..]);
      }
      TrimStartSkipsSpace(w[1..], x);
    } else {
      assert w + x == x;
    }
  }

  /** Trimming ignores any white-space prefix. */
  lemma {:induction false} TrimSkipsSpace(w: string, x: string)
    requires AllSpace(w)
    ensures Trim(w + x) == Trim(x)
  {
    TrimStartSkipsSpace(w, x);
    assert Trim(w + x) == TrimEnd(TrimStart(w + x));
  }

  lemma ConcatAssoc(a: string, b: string, c: string)
    ensures a + b + c == a + (b + c)
  {
  }

  // ------------------------------------------------------ split(/\r?\n/)

  /** `s.split(/\r?\n/)`: a line break is `\n` or `\r\n`; a lone `\r` stays
      inside its line. There is always at least one piece. */
  function Lines(s: string): (r: seq<string>)
    ensures |r| >= 1
    ensures forall i :: 0 <= i < |r| ==> '\n' !in r[i]
    decreases |s|
  {
    if |s| == 0 then [""]
    else if s[0] == '\n' then [""] + Lines(s[1..])
    else if |s| >= 2 && s[0] == '\r' && s[1] == '\n' then [""] + Lines(s[2..])
    else
      var rest := Lines(s[1..]);
      [[s[0]] + rest[0]] + rest[1..]
  }

  /** `s` with every `\r\n` replaced by `\n`. */
  function NormalizeNewlines(s: string): string
    decreases |s|
  {
    if |s| == 0 then ""
    else if |s| >= 2 && s[0] == '\r' && s[1] == '\n' then "\n" + NormalizeNewlines(s[2..])
    else [s[0]] + NormalizeNewlines(s[1..])
  }

  /** The lines joined back with `\n`. */
  function JoinLines(lines: seq<string>): string
    decreases |lines|
  {
    if |lines| == 0 then ""
    else if |lines| == 1 then lines[0]
    else lines[0] + "\n" + JoinLines(lines[1..])
  }

  lemma JoinLinesConsChar(c: char, x: string, tail: seq<string>)
    ensures JoinLines([[c] + x] + tail) == [c] + JoinLines([x] + tail)
  {
    if |tail| > 0 {
      assert ([[c] + x] + tail)[1..] == tail;
      assert ([x] + tail)[1..] == tail;
    }
  }

  /** Splitting loses only the `\r` of each `\r\n` break. */
  lemma {:induction false} LinesJoin(s: string)
    ensures JoinLines(Lines(s)) == NormalizeNewlines(s)
    decreases |s|
  {
    if |s| == 0 {
    } else if s[0] == '\n' {
      LinesJoin(s[1..]);
      assert ([""] + Lines(s[1..]))[1..] == Lines(s[1..]);
    } else if |s| >= 2 && s[0] == '\r' && s[1] == '\n' {
      LinesJoin(s[2..]);
      assert ([""] + Lines(s[2..]))[1..] == Lines(s[2..]);
    } else {
      var rest := Lines(s[1..]);
      LinesJoin(s[1..]);
      JoinLinesConsChar(s[0], rest[0], rest[1..]);
      assert [rest[0]] + rest[1..] == rest;
    }
  }

  /** A line without `\n` is one piece. */
  lemma {:induction false} LinesOfLine(a: string)
    requires '\n' !in a
    ensures Lines(a) == [a]
    decreases |a|
  {
    if |a| > 0 {
      assert '\n' !in a[1..] by {
        forall i | 0 <= i < |a[1..]| ensures a[1..][i] != '\n' {
          assert a[1..][i] == a[i + 1];
        }
      }
      LinesOfLine(a[1..]);
      assert [a[0]] + a[1..] == a;
    }
  }

  /** A line that holds no `\n` and does not end in `\r`, followed by `\n`,
      is split off as the first piece. */
  lemma {:induction false} LinesCons(a: string, b: string)
    requires '\n' !in a
    requires a == [] || a[|a| - 1] != '\r'
    ensures Lines(a + "\n" + b) == [a] + Lines(b)
    decreases |a|
  {
    var s := a + "\n" + b;
    if |a| == 0 {
      assert s == "\n" + b;
      assert s[1..] == b;
    } else {
      assert s[0] == a[0];
      assert s[1..] == a[1..] + "\n" + b;
      assert '\n' !in a[1..] by {
        forall i | 0 <= i < |a[1..]| ensures a[1..][i] != '\n' {
          assert a[1..][i] == a[i + 1];
        }
      }
      LinesCons(a[1..], b);
      if |a| >= 2 {
        assert s[1] == a[1];
      }
      assert [a[0]] + a[1..] == a;
    }
  }

  /** A line that holds no `\n`, followed by `\r\n`, is split off as the
      first piece; a `\r` at its own end stays in it. */
  lemma {:induction false} LinesCrLf(a: string, b: string)
    requires '\n' !in a
    ensures Lines(a + "\r\n" + b) == [a] + Lines(b)
    decreases |a|
  {
    var s := a + "\r\n" + b;
    if |a| == 0 {
      assert s == "\r\n" + b;
      assert s[2..] == b;
    } else {
      assert s[0] == a[0];
      assert s[1..] == a[1..] + "\r\n" + b;
      assert '\n' !in a[1..] by {
        forall i | 0 <= i < |a[1..]| ensures a[1..][i] != '\n' {
          assert a[1..][i] == a[i + 1];
        }
      }
      LinesCrLf(a[1..], b);
      if |a| >= 2 {
        assert s[1] == a[1];
      } else {
        assert s[1] == '\r';
      }
      assert [a[0]] + a[1..] == a;
    }
  }

  // ---------------------------------------------------------- split(/\s+/)

  /** `s.split(/\s+/)`: every maximal run of white space separates two
      pieces, so leading or trailing white space yields an empty piece. */
  function SplitSpaces(s: string): (r: seq<string>)
    ensures |r| >= 1
    decreases |s|
  {
    if |s| == 0 then [""]
    else if IsSpace(s[0]) then [""] + SplitSpaces(TrimStart(s))
    else
      var rest := SplitSpaces(s[1..]);
      [[s[0]] + rest[0]] + rest[1..]
  }

  /** A space-free token followed by a run of white space is the first
      piece, and splitting resumes after the run. */
  lemma {:induction false} SplitSpacesToken(a: string, w: string, b: string)
    requires NoSpace(a)
    requires w != [] && AllSpace(w)
    requires b == [] || !IsSpace(b[0])
    ensures SplitSpaces(a + w + b) == [a] + SplitSpaces(b)
    decreases |a|
  {
    var s := a + w + b;
    if |a| == 0 {
      assert s == w + b;
      TrimStartSkipsSpace(w, b);
    } else {
      assert s[1..] == a[1..] + w + b;
      SplitSpacesToken(a[1..], w, b);
      assert [a[0]] + a[1..] == a;
    }
  }

  /** A space-free string is a single piece. */
  lemma {:induction false} SplitSpacesOfToken(a: string)
    requires NoSpace(a)
    ensures SplitSpaces(a) == [a]
    decreases |a|
  {
    if |a| > 0 {
      SplitSpacesOfToken(a[1..]);
      assert [a[0]] + a[1..] == a;
    }
  }

  // ----------------------------------------------------------- split(',')

  /** `s.split(sep)` for a one-character separator. */
  function SplitOn(s: string, sep: char): (r: seq<string>)
    ensures |r| >= 1
    ensures forall i :: 0 <= i < |r| ==> sep !in r[i]
    decreases |s|
  {
    if |s| == 0 then [""]
    else if s[0] == sep then [""] + SplitOn(s[1..], sep)
    else
      var rest := SplitOn(s[1..], sep);
      [[s[0]] + rest[0]] + rest[1..]
  }

  /** A piece without the separator, followed by it, is the first piece. */
  lemma {:induction false} SplitOnToken(a: string, sep: char, b: string)
    requires sep !in a
    ensures SplitOn(a + [sep] + b, sep) == [a] + SplitOn(b, sep)
    decreases |a|
  {
    var s := a + [sep] + b;
    if |a| > 0 {
      assert s[1..] == a[1..] + [sep] + b;
      assert sep !in a[1..] by {
        forall i | 0 <= i < |a[1..]| ensures a[1..][i] != sep {
          assert a[1..][i] == a[i + 1];
        }
      }
      SplitOnToken(a[1..], sep, b);
      assert [a[0]] + a[1..] == a;
    } else {
      assert s[1..] == b;
    }
  }

  /** A string without the separator is a single piece. */
  lemma {:induction false} SplitOnOfToken(a: string, sep: char)
    requires sep !in a
    ensures SplitOn(a, sep) == [a]
    decreases |a|
  {
    if |a| > 0 {
      assert sep !in a[1..] by {
        forall i | 0 <= i < |a[1..]| ensures a[1..][i] != sep {
          assert a[1..][i] == a[i + 1];
        }
      }
      SplitOnOfToken(a[1..], sep);
      assert [a[0]] + a[1..] == a;
    }
  }
}
