/**
 * The parsing half of `getDiskUsage` (server.js): the capacity command's
 * output is given as a value (`None` when `execSync` threw), its last
 * non-blank line is split into columns, two columns are read with
 * `parseInt`, and a reading is produced only when both are numbers and the
 * size is positive. `freeRatio` is compared exactly, by cross-multiplying.
 */
module DiskUsage {
  import opened Wrappers
  import opened Text
  import opened Numbers
  import opened Layout

  /** `{ free, size }` in bytes; `freeRatio` is `free / size`. */
  datatype Usage = Usage(free: int, size: int)

  /** `freeRatio >= 0.2`: no eviction is started. */
  predicate Healthy(u: Usage) {
    5 * u.free >= u.size
  }

  /** `freeRatio >= 0.5`: eviction stops. */
  predicate Restored(u: Usage) {
    2 * u.free >= u.size
  }

  /** `parseInt(parts[i], 10)`; a missing column is `undefined`, which parses to `NaN`. */
  function Column(parts: seq<string>, i: nat): Option<int> {
    if i < |parts| then ParseInt(parts[i]) else None
  }

  /** The Windows branch: `wmic ... get FreeSpace,Size /format:csv` prints
      `Node,FreeSpace,Size`; column 1 is the free space, column 2 the size,
      both in bytes. */
  function ParseWmicLine(line: string): (r: Option<Usage>)
    ensures r.Some? ==> r.value.size > 0
  {
    var parts := SplitOn(line, ',');
    var free := Column(parts, 1);
    var size := Column(parts, 2);
    if free.None? || size.None? || size.value <= 0 then None
    else Some(Usage(free.value, size.value))
  }

  /** The other branch: `df -k` prints `Filesystem 1K-blocks Used Available
      ...`; column 1 is the size and column 3 the free space, in KiB, scaled
      to bytes. */
  function ParseDfLine(line: string): (r: Option<Usage>)
    ensures r.Some? ==> r.value.size > 0 && r.value.size % 1024 == 0 && r.value.free % 1024 == 0
  {
    var parts := SplitSpaces(line);
    var sizeKb := Column(parts, 1);
    var freeKb := Column(parts, 3);
    if sizeKb.None? || freeKb.None? || sizeKb.value <= 0 then None
    else
      KibToBytes(sizeKb.value);
      KibToBytes(freeKb.value);
      Some(Usage(freeKb.value * 1024, sizeKb.value * 1024))
  }

  lemma KibToBytes(k: int)
    ensures (k * 1024) % 1024 == 0
  {
  }

  /** The last element of `lines.filter((l) => l.trim())`, if any. */
  function LastNonBlank(lines: seq<string>): (r: Option<string>)
    ensures r.None? ==> forall i :: 0 <= i < |lines| ==> AllSpace(lines[i])
    ensures (forall i :: 0 <= i < |lines| ==> AllSpace(lines[i])) ==> r.None?
    ensures r.Some? ==> !AllSpace(r.value)
    ensures r.Some? ==> exists i :: 0 <= i < |lines| && lines[i] == r.value &&
                          forall j :: i < j < |lines| ==> AllSpace(lines[j])
    decreases |lines|
  {
    if |lines| == 0 then None
    else if !AllSpace(lines[|lines| - 1]) then Some(lines[|lines| - 1])
    else
      var r := LastNonBlank(lines[..|lines| - 1]);
      assert forall i :: 0 <= i < |lines| - 1 ==> lines[..|lines| - 1][i] == lines[i];
      r
  }

  /** `getDiskUsage()` given what the capacity command printed. When there
      is no non-blank line, `dataLine` is `undefined`, splitting it throws,
      and the `catch` returns `null`. */
  function GetDiskUsage(platform: Platform, output: Option<string>): (r: Option<Usage>)
    ensures r.Some? ==> output.Some? && r.value.size > 0
    ensures r.Some? && platform == Posix ==> r.value.size % 1024 == 0 && r.value.free % 1024 == 0
  {
    if output.None? then None
    else match LastNonBlank(Lines(output.value))
      case None => None
      case Some(line) =>
        if platform == Windows then ParseWmicLine(line) else ParseDfLine(line)
  }

  /** `String(i)` holds only digits and a minus sign. */
  lemma IntToStringHasNo(i: int, c: char)
    requires !IsDigit(c) && c != '-'
    ensures c !in IntToString(i)
  {
    var d := Decimal(if i < 0 then -i else i);
    assert forall k :: 0 <= k < |d| ==> d[k] != c;
    if i < 0 {
      assert IntToString(i) == "-" + d;
    }
  }

  /** A wmic data line holding the two numbers is read back exactly, and
      rejected when the size is not positive. A trailing `\r`, as wmic
      prints, is ignored. */
  lemma {:induction false} WmicLineRoundTrip(node: string, free: int, size: int, tail: string)
    requires ',' !in node && ',' !in tail
    requires tail == [] || !IsDigit(tail[0])
    ensures ParseWmicLine(node + "," + IntToString(free) + "," + IntToString(size) + tail)
         == if size > 0 then Some(Usage(free, size)) else None
  {
    var f, z := IntToString(free), IntToString(size);
    assert SplitOn(node + "," + f + "," + z + tail, ',') == [node, f, z + tail] by {
      IntToStringHasNo(free, ',');
      IntToStringHasNo(size, ',');
      WmicColumns(node, f, z, tail);
    }
    assert ParseInt(f) == Some(free) by {
      ParseIntRoundTrip(free, []);
      assert f + [] == f;
    }
    assert ParseInt(z + tail) == Some(size) by {
      ParseIntRoundTrip(size, tail);
    }
    WmicLineOfParts(node + "," + f + "," + z + tail, [node, f, z + tail], free, size);
  }

  /** The three comma-separated columns of a wmic data line. */
  lemma WmicColumns(node: string, f: string, z: string, tail: string)
    requires ',' !in node && ',' !in f && ',' !in z && ',' !in tail
    ensures SplitOn(node + "," + f + "," + z + tail, ',') == [node, f, z + tail]
  {
    assert ',' !in z + tail by {
      forall k | 0 <= k < |z + tail| ensures (z + tail)[k] != ',' {
        if k < |z| { assert (z + tail)[k] == z[k]; } else { assert (z + tail)[k] == tail[k - |z|]; }
      }
    }
    assert node + "," + f + "," + z + tail == node + [','] + (f + [','] + (z + tail));
    SplitOnToken(node, ',', f + [','] + (z + tail));
    SplitOnToken(f, ',', z + tail);
    SplitOnOfToken(z + tail, ',');
  }

  /** A wmic line whose columns 1 and 2 parse is a reading when the size is positive. */
  lemma WmicLineOfParts(line: string, parts: seq<string>, free: int, size: int)
    requires SplitOn(line, ',') == parts && |parts| == 3
    requires ParseInt(parts[1]) == Some(free) && ParseInt(parts[2]) == Some(size)
    ensures ParseWmicLine(line) == if size > 0 then Some(Usage(free, size)) else None
  {
  }

  lemma DecimalHasNoSpace(n: nat)
    ensures NoSpace(Decimal(n))
  {
    var d := Decimal(n);
    forall k | 0 <= k < |d| ensures !IsSpace(d[k]) {
      assert IsDigit(d[k]);
    }
  }

  /** A run of white space between two columns. */
  predicate Gap(w: string) {
    w != [] && AllSpace(w)
  }

  /** A space-free last column followed by nothing or by white space. */
  lemma {:induction false} LastColumn(a: string, tail: string)
    requires NoSpace(a)
    requires tail == [] || IsSpace(tail[0])
    ensures SplitSpaces(a + tail)[0] == a
  {
    if tail == [] {
      SplitSpacesOfToken(a);
      assert a + tail == a;
    } else {
      var b := TrimStart(tail);
      var w := tail[..|tail| - |b|];
      assert tail == w + b;
      assert a + tail == a + w + b;
      SplitSpacesToken(a, w, b);
    }
  }

  lemma Regroup(p: string, c1: string, w2: string, c2: string, w3: string, c3: string, tail: string)
    ensures p + c1 + w2 + c2 + w3 + c3 + tail == p + (c1 + w2 + (c2 + w3 + (c3 + tail)))
  {
    ConcatAssoc(p + c1 + w2 + c2 + w3, c3, tail);
    ConcatAssoc(p + c1 + w2 + c2, w3, c3 + tail);
    ConcatAssoc(p + c1 + w2, c2, w3 + (c3 + tail));
    ConcatAssoc(c2, w3, c3 + tail);
    ConcatAssoc(p + c1, w2, c2 + w3 + (c3 + tail));
    ConcatAssoc(p, c1, w2 + (c2 + w3 + (c3 + tail)));
    ConcatAssoc(c1, w2, c2 + w3 + (c3 + tail));
  }

  /** Four space-free columns separated by runs of white space, then
      optional text that starts with white space, split into at least those
      four. */
  lemma {:induction false} FourColumns(
    c0: string, w1: string, c1: string, w2: string, c2: string, w3: string, c3: string, tail: string)
    requires NoSpace(c0) && NoSpace(c1) && NoSpace(c2) && NoSpace(c3)
    requires c1 != [] && c2 != [] && c3 != []
    requires Gap(w1) && Gap(w2) && Gap(w3)
    requires tail == [] || IsSpace(tail[0])
    ensures var parts := SplitSpaces(c0 + w1 + c1 + w2 + c2 + w3 + c3 + tail);
      |parts| >= 4 && parts[0] == c0 && parts[1] == c1 && parts[2] == c2 && parts[3] == c3
  {
    var x3 := c3 + tail;
    var x2 := c2 + w3 + x3;
    var x1 := c1 + w2 + x2;
    LastColumn(c3, tail);
    var p3 := SplitSpaces(x3);
    assert x3[0] == c3[0];
    SplitSpacesToken(c2, w3, x3);
    var p2 := SplitSpaces(x2);
    assert p2 == [c2] + p3;
    assert x2[0] == c2[0];
    SplitSpacesToken(c1, w2, x2);
    var p1 := SplitSpaces(x1);
    assert p1 == [c1] + p2;
    assert x1[0] == c1[0];
    SplitSpacesToken(c0, w1, x1);
    var p0 := SplitSpaces(c0 + w1 + x1);
    assert p0 == [c0] + p1;
    assert p0[1] == c1 && p0[2] == c2 && p0[3] == c3;
    Regroup(c0 + w1, c1, w2, c2, w3, c3, tail);
  }

  /** A `df -k` data line: file system, size, used and available KiB, with
      runs of white space between the columns. */
  function DfDataLine(fs: string, w1: string, sizeKb: nat, w2: string, used: nat, w3: string, avail: nat): string {
    fs + w1 + Decimal(sizeKb) + w2 + Decimal(used) + w3 + Decimal(avail)
  }

  /** A df data line holding size, used and available KiB is read back as
      bytes, and rejected when the size is not positive, however wide the
      white space between its columns. */
  lemma {:induction false} DfLineRoundTrip(
    fs: string, w1: string, sizeKb: nat, w2: string, used: nat, w3: string, avail: nat, tail: string)
    requires NoSpace(fs)
    requires Gap(w1) && Gap(w2) && Gap(w3)
    requires tail == [] || IsSpace(tail[0])
    ensures ParseDfLine(DfDataLine(fs, w1, sizeKb, w2, used, w3, avail) + tail)
         == if sizeKb > 0 then Some(Usage(avail * 1024, sizeKb * 1024)) else None
  {
    var s, a := Decimal(sizeKb), Decimal(avail);
    var line := DfDataLine(fs, w1, sizeKb, w2, used, w3, avail) + tail;
    var parts := SplitSpaces(line);
    assert |parts| >= 4 && parts[1] == s && parts[3] == a by {
      DecimalHasNoSpace(sizeKb);
      DecimalHasNoSpace(used);
      DecimalHasNoSpace(avail);
      FourColumns(fs, w1, s, w2, Decimal(used), w3, a, tail);
    }
    assert Column(parts, 1) == Some(sizeKb) by {
      ParseIntRoundTrip(sizeKb, []);
      assert IntToString(sizeKb) + [] == s;
    }
    assert Column(parts, 3) == Some(avail) by {
      ParseIntRoundTrip(avail, []);
      assert IntToString(avail) + [] == a;
    }
    DfLineOfColumns(line, sizeKb, avail);
  }

  /** A df line whose columns 1 and 3 parse is a reading when the size is positive. */
  lemma DfLineOfColumns(line: string, sizeKb: int, avail: int)
    requires Column(SplitSpaces(line), 1) == Some(sizeKb)
    requires Column(SplitSpaces(line), 3) == Some(avail)
    ensures ParseDfLine(line) == if sizeKb > 0 then Some(Usage(avail * 1024, sizeKb * 1024)) else None
  {
  }

  /** The df data line is one non-blank line. */
  lemma DfDataLineIsOneLine(fs: string, w1: string, sizeKb: nat, w2: string, used: nat, w3: string, avail: nat)
    requires NoSpace(fs)
    requires NoTerminator(w1) && NoTerminator(w2) && NoTerminator(w3)
    ensures var data := DfDataLine(fs, w1, sizeKb, w2, used, w3, avail);
      data != [] && '\n' !in data && !IsSpace(data[|data| - 1])
  {
    var data := DfDataLine(fs, w1, sizeKb, w2, used, w3, avail);
    DecimalHasNoSpace(sizeKb);
    DecimalHasNoSpace(used);
    DecimalHasNoSpace(avail);
    forall k | 0 <= k < |data| ensures data[k] != '\n' {
      assert data[k] != '\n' by {
        if data[k] == '\n' {
          assert IsSpace(data[k]) && IsLineTerminator(data[k]);
        }
      }
    }
    var a := Decimal(avail);
    assert data[|data| - 1] == a[|a| - 1];
    assert !IsSpace(data[|data| - 1]);
  }

  /** A data line followed by more columns stays one non-blank line that
      does not end in `\r`. */
  lemma LineWithTail(data: string, tail: string)
    requires data != [] && '\n' !in data && !IsSpace(data[|data| - 1])
    requires NoTerminator(tail)
    ensures var line := data + tail;
      '\n' !in line && !AllSpace(line) && line[|line| - 1] != '\r'
  {
    var line := data + tail;
    forall k | 0 <= k < |line| ensures line[k] != '\n' {
      if k < |data| {
        assert line[k] == data[k];
      } else {
        assert line[k] == tail[k - |data|];
        assert !IsLineTerminator(tail[k - |data|]);
      }
    }
    assert line[|data| - 1] == data[|data| - 1];
    if tail != [] {
      assert line[|line| - 1] == tail[|tail| - 1];
      assert !IsLineTerminator(tail[|tail| - 1]);
    }
  }

  /** A whole `df -k` output, header line then data line, each ended by a
      newline: the reading comes from the data line. The data line may go on
      after the Available column, as the real one does with `Use%` and the
      mount point. */
  lemma {:induction false} DfOutputRoundTrip(
    header: string, fs: string, w1: string, sizeKb: nat, w2: string, used: nat, w3: string, avail: nat,
    tail: string)
    requires '\n' !in header && (header == [] || header[|header| - 1] != '\r')
    requires NoSpace(fs)
    requires Gap(w1) && Gap(w2) && Gap(w3)
    requires NoTerminator(w1) && NoTerminator(w2) && NoTerminator(w3)
    requires NoTerminator(tail) && (tail == [] || IsSpace(tail[0]))
    ensures GetDiskUsage(Posix, Some(header + "\n" + (DfDataLine(fs, w1, sizeKb, w2, used, w3, avail) + tail) + "\n"))
         == if sizeKb > 0 then Some(Usage(avail * 1024, sizeKb * 1024)) else None
  {
    var line := DfDataLine(fs, w1, sizeKb, w2, used, w3, avail) + tail;
    var out := header + "\n" + line + "\n";
    DfDataLineIsOneLine(fs, w1, sizeKb, w2, used, w3, avail);
    LineWithTail(DfDataLine(fs, w1, sizeKb, w2, used, w3, avail), tail);
    assert Lines(out) == [header, line, ""] by {
      ConcatAssoc(header + "\n", line, "\n");
      assert line + "\n" == line + "\n" + "";
      LinesCons(header, line + "\n" + "");
      LinesCons(line, "");
    }
    assert LastNonBlank([header, line, ""]) == Some(line) by {
      assert AllSpace("");
      assert [header, line, ""][..2] == [header, line];
    }
    DfLineRoundTrip(fs, w1, sizeKb, w2, used, w3, avail, tail);
  }

  /** A wmic data line: node name, free bytes and size bytes. */
  function WmicDataLine(node: string, free: int, size: int): string {
    node + "," + IntToString(free) + "," + IntToString(size)
  }

  /** The wmic data line is one non-blank line. */
  lemma WmicDataLineIsOneLine(node: string, free: int, size: int)
    requires '\n' !in node
    ensures var data := WmicDataLine(node, free, size);
      '\n' !in data && !AllSpace(data + "\r")
  {
    var data := WmicDataLine(node, free, size);
    var f, z := IntToString(free), IntToString(size);
    IntToStringHasNo(free, '\n');
    IntToStringHasNo(size, '\n');
    forall k | 0 <= k < |data| ensures data[k] != '\n' {
      if k < |node| {
        assert data[k] == node[k];
      } else if k == |node| {
        assert data[k] == ',';
      } else if k < |node| + 1 + |f| {
        assert data[k] == f[k - |node| - 1];
      } else if k == |node| + 1 + |f| {
        assert data[k] == ',';
      } else {
        assert data[k] == z[k - |node| - 2 - |f|];
      }
    }
    assert (data + "\r")[|node|] == ',';
  }

  /** The whole output of `wmic ... /format:csv`: a blank line, the header
      and the data line, each ended by `\r\r\n` as wmic prints them. The
      reading comes from the data line, its trailing `\r` ignored. */
  lemma {:induction false} WmicOutputRoundTrip(header: string, node: string, free: int, size: int)
    requires '\n' !in header
    requires ',' !in node && '\n' !in node
    ensures GetDiskUsage(Windows, Some("\r" + "\r\n" + (header + "\r" + "\r\n" + (WmicDataLine(node, free, size) + "\r" + "\r\n"))))
         == if size > 0 then Some(Usage(free, size)) else None
  {
    var data := WmicDataLine(node, free, size);
    WmicDataLineIsOneLine(node, free, size);
    WmicOutputLines(header, data);
    WmicDataIsLast(header, data);
    WmicLineRoundTrip(node, free, size, "\r");
  }

  /** The pieces of a wmic output: the blank line, the header and the data
      line each keep one `\r`, and an empty piece follows the last break. */
  lemma WmicOutputLines(header: string, data: string)
    requires '\n' !in header && '\n' !in data
    ensures Lines("\r" + "\r\n" + (header + "\r" + "\r\n" + (data + "\r" + "\r\n")))
         == ["\r", header + "\r", data + "\r", ""]
  {
    var third := data + "\r" + "\r\n";
    var second := header + "\r" + "\r\n" + third;
    LinesCrLf("\r", second);
    assert '\n' !in header + "\r";
    LinesCrLf(header + "\r", third);
    assert '\n' !in data + "\r";
    assert third == data + "\r" + "\r\n" + "";
    LinesCrLf(data + "\r", "");
  }

  /** The data line is the last non-blank piece of a wmic output. */
  lemma WmicDataIsLast(header: string, data: string)
    requires !AllSpace(data + "\r")
    ensures LastNonBlank(["\r", header + "\r", data + "\r", ""]) == Some(data + "\r")
  {
    var lines := ["\r", header + "\r", data + "\r", ""];
    assert AllSpace("");
    assert lines[..3][2] == data + "\r";
  }

  /** Column `i` is missing or holds no decimal digit. */
  predicate NoDigitColumn(parts: seq<string>, i: nat) {
    i >= |parts| || forall k :: 0 <= k < |parts[i]| ==> !IsDigit(parts[i][k])
  }

  /** A missing column or one without a digit reads as `NaN`. */
  lemma ColumnWithoutDigits(parts: seq<string>, i: nat)
    requires NoDigitColumn(parts, i)
    ensures Column(parts, i) == None
  {
    if i < |parts| {
      ParseIntNoDigits(parts[i]);
    }
  }

  /** A wmic line whose free or size column has no digit gives no reading. */
  lemma WmicLineWithoutNumber(line: string)
    requires NoDigitColumn(SplitOn(line, ','), 1) || NoDigitColumn(SplitOn(line, ','), 2)
    ensures ParseWmicLine(line) == None
  {
    var parts := SplitOn(line, ',');
    if NoDigitColumn(parts, 1) {
      ColumnWithoutDigits(parts, 1);
    } else {
      ColumnWithoutDigits(parts, 2);
    }
  }

  /** A df line whose size or available column has no digit gives no reading. */
  lemma DfLineWithoutNumber(line: string)
    requires NoDigitColumn(SplitSpaces(line), 1) || NoDigitColumn(SplitSpaces(line), 3)
    ensures ParseDfLine(line) == None
  {
    var parts := SplitSpaces(line);
    if NoDigitColumn(parts, 1) {
      ColumnWithoutDigits(parts, 1);
    } else {
      ColumnWithoutDigits(parts, 3);
    }
  }
}
