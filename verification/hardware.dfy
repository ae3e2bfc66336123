/** The non-version probes of `src/lib.rs`: the NVIDIA device check, the GPU
    list read from `nvidia-smi`'s CSV output, and the Python interpreter
    version. */
module Hardware {
  import opened Wrappers
  import opened Text
  import opened Chain
  import opened Detection

  // ---------------------------------------------------------------------------
  // NVIDIA device check
  // ---------------------------------------------------------------------------

  /** `char::to_lowercase`, restricted to ASCII letters. */
  function LowerChar(c: char): (r: char)
    ensures !('A' <= r <= 'Z')
    ensures 'A' <= c <= 'Z' ==> r as int - c as int == 32
    ensures !('A' <= c <= 'Z') ==> r == c
  {
    if 'A' <= c <= 'Z' then (c as int + 32) as char else c
  }

  /** Only the ASCII capitals change, each to its small letter. */
  function ToLower(s: string): (r: string)
    ensures |r| == |s|
    ensures forall k :: 0 <= k < |s| && !('A' <= s[k] <= 'Z') ==> r[k] == s[k]
    ensures forall k :: 0 <= k < |s| && 'A' <= s[k] <= 'Z' ==> r[k] as int == s[k] as int + 32
    ensures forall k :: 0 <= k < |r| ==> !('A' <= r[k] <= 'Z')
  {
    seq(|s|, k requires 0 <= k < |s| => LowerChar(s[k]))
  }

  /** Lowercasing twice is lowercasing once, so the filter below does not care
      about the case of its input. */
  lemma ToLowerIdempotent(s: string)
    ensures ToLower(ToLower(s)) == ToLower(s)
    ensures MentionsNvidia(ToLower(s)) <==> MentionsNvidia(s)
  {
    var t := ToLower(s);
    assert ToLower(t) == t;
  }

  /** The line filter of `check_nvidia_gpu`: a case-insensitive mention of "nvidia". */
  predicate MentionsNvidia(line: string)
  {
    Contains(ToLower(line), "nvidia")
  }

  /** The lines that mention NVIDIA, in their original order. */
  function NvidiaLines(lines: seq<string>): (r: seq<string>)
    ensures |r| <= |lines|
    ensures forall k :: 0 <= k < |r| ==> MentionsNvidia(r[k])
    ensures forall k :: 0 <= k < |lines| && MentionsNvidia(lines[k]) ==> lines[k] in r
    ensures forall x :: x in r ==> x in lines
    ensures r == [] <==> forall k :: 0 <= k < |lines| ==> !MentionsNvidia(lines[k])
  {
    if lines == [] then []
    else
      var rest := NvidiaLines(lines[1..]);
      assert forall k :: 1 <= k < |lines| ==> lines[k] == lines[1..][k - 1];
      if MentionsNvidia(lines[0]) then [lines[0]] + rest else rest
  }

  /** Filtering twice is filtering once. */
  lemma {:induction false} NvidiaLinesIdempotent(lines: seq<string>)
    ensures NvidiaLines(NvidiaLines(lines)) == NvidiaLines(lines)
  {
    if lines != [] {
      NvidiaLinesIdempotent(lines[1..]);
      var rest := NvidiaLines(lines[1..]);
      if MentionsNvidia(lines[0]) {
        assert ([lines[0]] + rest)[1..] == rest;
      }
    }
  }

  /** Filtering a concatenation is concatenating the filtered parts. */
  lemma {:induction false} NvidiaLinesAppend(a: seq<string>, b: seq<string>)
    ensures NvidiaLines(a + b) == NvidiaLines(a) + NvidiaLines(b)
  {
    if a == [] {
      assert a + b == b;
    } else {
      assert (a + b)[0] == a[0];
      assert (a + b)[1..] == a[1..] + b;
      NvidiaLinesAppend(a[1..], b);
    }
  }

  /** The Windows variant also drops blank lines and the `Name` header of the
      `wmic` table. */
  predicate WindowsKeeps(line: string)
  {
    MentionsNvidia(line) && Trim(line) != [] && line != "Name"
  }

  /** Both extra conditions are implied by the mention itself. */
  lemma WindowsConditionsRedundant(line: string)
    ensures WindowsKeeps(line) <==> MentionsNvidia(line)
  {
    if MentionsNvidia(line) {
      var low := ToLower(line);
      var i: nat :| OccursAt(low, "nvidia", i);
      assert low[i] == 'n';
      assert LowerChar(line[i]) == 'n';
      TrimNonBlank(line, i);
      assert |line| >= 6;
    }
  }

  /** The Windows filter keeps exactly the lines the Linux one keeps. */
  function WindowsLines(lines: seq<string>): (r: seq<string>)
    ensures r == NvidiaLines(lines)
  {
    if lines == [] then []
    else
      WindowsConditionsRedundant(lines[0]);
      if WindowsKeeps(lines[0]) then [lines[0]] + WindowsLines(lines[1..])
      else WindowsLines(lines[1..])
  }

  /** `[&str]::join(sep)`. */
  function JoinWith(parts: seq<string>, sep: string): string
  {
    if |parts| == 0 then []
    else if |parts| == 1 then parts[0]
    else parts[0] + sep + JoinWith(parts[1..], sep)
  }

  /** The command that lists display devices on each platform. */
  function ListingCommand(platform: Platform): string
  {
    match platform
    case Linux => "lspci"
    case Windows => "wmic path win32_videocontroller get name"
    case MacOS => "system_profiler SPDisplaysDataType"
  }

  function NoGpuMessage(platform: Platform): string
  {
    if platform == MacOS then "No NVIDIA GPUs found (Note: Modern macOS doesn't support NVIDIA GPUs)"
    else "No NVIDIA GPUs found"
  }

  const SmiListCommand: string := "nvidia-smi -L"
  const NoToolsMessage: string := "No NVIDIA GPUs found or lspci/nvidia-smi not available"

  /** `check_nvidia_gpu`: the matching device lines joined by ", ". */
  function CheckNvidiaGpu(host: Host, platform: Platform): (r: Result<string, string>)
    ensures var listing := host.run(ListingCommand(platform));
      listing.Ok? ==>
        && (r.Ok? <==> exists k :: 0 <= k < |Lines(listing.value)| && MentionsNvidia(Lines(listing.value)[k]))
        && (r.Ok? ==> r.value == JoinWith(NvidiaLines(Lines(listing.value)), ", "))
        && (r.Err? ==> r.error == NoGpuMessage(platform))
    ensures var listing := host.run(ListingCommand(platform));
      listing.Err? && platform != Linux ==> r == Err(listing.error)
    ensures var listing := host.run(ListingCommand(platform)); var smi := host.run(SmiListCommand);
      listing.Err? && platform == Linux ==>
        && (r.Ok? <==> smi.Ok?)
        && (r.Ok? ==> r.value == Trim(smi.value) && IsTrimmed(r.value))
        && (r.Err? ==> r.error == NoToolsMessage)
  {
    match host.run(ListingCommand(platform))
    case Ok(output) =>
      var lines := Lines(output);
      var found := if platform == Windows then WindowsLines(lines) else NvidiaLines(lines);
      if found == [] then Err(NoGpuMessage(platform)) else Ok(JoinWith(found, ", "))
    case Err(e) =>
      if platform == Linux then
        match host.run(SmiListCommand)
        case Ok(output) => Ok(Trim(output))
        case Err(_) => Err(NoToolsMessage)
      else Err(e)
  }

  // ---------------------------------------------------------------------------
  // GPU list
  // ---------------------------------------------------------------------------

  const GpuQuery: string := "nvidia-smi --query-gpu=name,memory.total --format=csv,noheader,nounits"

  /** One row of the query: the device name and the total memory in MiB, as text. */
  datatype GpuRow = GpuRow(name: string, memory: string)

  predicate IsCell(v: string)
  {
    IsTrimmed(v) && ',' !in v
  }

  /** The row parsing of `get_gpu_list`: the first two comma-separated fields,
      trimmed; a line without a comma is skipped. */
  function ParseGpuLine(line: string): (r: Option<GpuRow>)
    ensures r.Some? <==> ',' in line
    ensures r.Some? ==> IsCell(r.value.name) && IsCell(r.value.memory)
  {
    var parts := Split(line, ',');
    SplitCount(line, ',');
    if |parts| >= 2 then Some(GpuRow(Trim(parts[0]), Trim(parts[1]))) else None
  }

  /** How `nvidia-smi` prints a row in this format. */
  function RenderGpuLine(row: GpuRow): string
  {
    row.name + ", " + row.memory
  }

  lemma TrimOfCell(v: string)
    requires IsTrimmed(v)
    ensures Trim(v) == v && Trim(" " + v) == v
  {
    TrimOfPadded([], v, []);
    assert [] + v + [] == v;
    TrimOfPadded(" ", v, []);
    assert " " + v + [] == " " + v;
  }

  /** Parsing a printed row gives the row back. */
  lemma GpuLineRoundTrip(row: GpuRow)
    requires IsCell(row.name) && IsCell(row.memory)
    ensures ParseGpuLine(RenderGpuLine(row)) == Some(row)
  {
    var tail := " " + row.memory;
    assert RenderGpuLine(row) == row.name + [','] + tail;
    SplitConcat(row.name, ',', tail);
    assert ',' !in tail;
    SplitNoSep(tail, ',');
    TrimOfCell(row.name);
    TrimOfCell(row.memory);
  }

  /** Further columns after the second are ignored. */
  lemma GpuLineExtraColumns(row: GpuRow, rest: string)
    requires IsCell(row.name) && IsCell(row.memory)
    ensures ParseGpuLine(RenderGpuLine(row) + "," + rest) == Some(row)
  {
    var tail := " " + row.memory;
    assert RenderGpuLine(row) + "," + rest == row.name + [','] + (tail + [','] + rest);
    SplitConcat(row.name, ',', tail + [','] + rest);
    assert ',' !in tail;
    SplitConcat(tail, ',', rest);
    TrimOfCell(row.name);
    TrimOfCell(row.memory);
  }

  /** The rows of all lines that carry a comma, in order. Which rows these are
      is stated by `GpuRowsComplete` and `GpuRowsFromLines`. */
  function GpuRows(lines: seq<string>): (r: seq<GpuRow>)
    ensures |r| <= |lines|
  {
    if lines == [] then []
    else
      var rest := GpuRows(lines[1..]);
      match ParseGpuLine(lines[0])
      case Some(row) => [row] + rest
      case None => rest
  }

  /** Scanning a concatenation is concatenating the scans; with `GpuRowsOfLine`
      this fixes the rows and their order completely. */
  lemma {:induction false} GpuRowsAppend(a: seq<string>, b: seq<string>)
    ensures GpuRows(a + b) == GpuRows(a) + GpuRows(b)
  {
    if a == [] {
      assert a + b == b;
    } else {
      assert (a + b)[0] == a[0];
      assert (a + b)[1..] == a[1..] + b;
      GpuRowsAppend(a[1..], b);
    }
  }

  /** A single line gives its row, or nothing when it has no comma. */
  lemma GpuRowsOfLine(line: string)
    ensures ',' in line ==> GpuRows([line]) == [ParseGpuLine(line).value]
    ensures ',' !in line ==> GpuRows([line]) == []
  {
    assert [line][1..] == [];
  }

  /** One step of the row scan. */
  lemma GpuRowsStep(lines: seq<string>)
    requires lines != []
    ensures ParseGpuLine(lines[0]).Some? ==> GpuRows(lines) == [ParseGpuLine(lines[0]).value] + GpuRows(lines[1..])
    ensures ParseGpuLine(lines[0]).None? ==> GpuRows(lines) == GpuRows(lines[1..])
  {
  }

  /** Every line with a comma contributes its row, between the rows of the
      lines before it and those of the lines after it. */
  lemma GpuRowsComplete(lines: seq<string>, k: nat)
    requires k < |lines| && ',' in lines[k]
    ensures GpuRows(lines) == GpuRows(lines[..k]) + [ParseGpuLine(lines[k]).value] + GpuRows(lines[k + 1..])
    ensures ParseGpuLine(lines[k]).value in GpuRows(lines)
  {
    var pre, post := lines[..k], lines[k + 1..];
    var row := ParseGpuLine(lines[k]).value;
    SplitAround(lines, k);
    GpuRowsAppend(pre, [lines[k]] + post);
    GpuRowsAppend([lines[k]], post);
    GpuRowsOfLine(lines[k]);
    ElementBetween(GpuRows(lines), GpuRows(pre), [row], GpuRows(post));
  }

  lemma SplitAround<T>(s: seq<T>, k: nat)
    requires k < |s|
    ensures s == s[..k] + ([s[k]] + s[k + 1..])
  {
  }

  lemma ElementBetween<T>(whole: seq<T>, a: seq<T>, b: seq<T>, c: seq<T>)
    requires whole == a + (b + c) && |b| > 0
    ensures whole == a + b + c && whole[|a|] == b[0] && b[0] in whole
  {
    assert whole[|a|] == b[0];
  }

  /** Every row comes from some line. */
  lemma {:induction false} GpuRowsFromLines(lines: seq<string>)
    ensures forall x :: x in GpuRows(lines) ==> exists k :: 0 <= k < |lines| && ParseGpuLine(lines[k]) == Some(x)
  {
    if lines != [] {
      var rest := lines[1..];
      GpuRowsFromLines(rest);
      GpuRowsStep(lines);
      forall x | x in GpuRows(lines) ensures exists k :: 0 <= k < |lines| && ParseGpuLine(lines[k]) == Some(x) {
        if x in GpuRows(rest) {
          var j :| 0 <= j < |rest| && ParseGpuLine(rest[j]) == Some(x);
          assert lines[j + 1] == rest[j];
        } else {
          assert ParseGpuLine(lines[0]) == Some(x);
        }
      }
    }
  }

  /** Every cell of every row is trimmed and comma-free. */
  lemma GpuRowsAreCells(lines: seq<string>)
    ensures forall k :: 0 <= k < |GpuRows(lines)| ==> IsCell(GpuRows(lines)[k].name) && IsCell(GpuRows(lines)[k].memory)
  {
    var r := GpuRows(lines);
    GpuRowsFromLines(lines);
    forall k | 0 <= k < |r| ensures IsCell(r[k].name) && IsCell(r[k].memory) {
      assert r[k] in r;
      var j :| 0 <= j < |lines| && ParseGpuLine(lines[j]) == Some(r[k]);
    }
  }

  /** Rows printed one per line. */
  function RenderGpuLines(rows: seq<GpuRow>): (lines: seq<string>)
    ensures |lines| == |rows|
  {
    if rows == [] then [] else [RenderGpuLine(rows[0])] + RenderGpuLines(rows[1..])
  }

  /** Printing rows one per line and parsing them back gives the same rows. */
  lemma {:induction false} GpuRowsRoundTrip(rows: seq<GpuRow>)
    requires forall k :: 0 <= k < |rows| ==> IsCell(rows[k].name) && IsCell(rows[k].memory)
    ensures GpuRows(RenderGpuLines(rows)) == rows
  {
    if rows != [] {
      var line := RenderGpuLine(rows[0]);
      var rest := RenderGpuLines(rows[1..]);
      assert RenderGpuLines(rows) == [line] + rest;
      GpuLineRoundTrip(rows[0]);
      GpuRowsCons(line, rest, rows[0]);
      GpuRowsRoundTrip(rows[1..]);
      assert rows == [rows[0]] + rows[1..];
    }
  }

  lemma GpuRowsCons(line: string, lines: seq<string>, row: GpuRow)
    requires ParseGpuLine(line) == Some(row)
    ensures GpuRows([line] + lines) == [row] + GpuRows(lines)
  {
    assert ([line] + lines)[0] == line;
    assert ([line] + lines)[1..] == lines;
  }

  /** `get_gpu_list` without the memory conversion: no rows when the query fails. */
  function GpuList(host: Host): (r: seq<GpuRow>)
    ensures host.run(GpuQuery).Err? ==> r == []
    ensures host.run(GpuQuery).Ok? ==> |r| <= |Lines(host.run(GpuQuery).value)|
    ensures forall k :: 0 <= k < |r| ==> IsCell(r[k].name) && IsCell(r[k].memory)
  {
    match host.run(GpuQuery)
    case Ok(output) =>
      GpuRowsAreCells(Lines(output));
      GpuRows(Lines(output))
    case Err(_) => []
  }

  // ---------------------------------------------------------------------------
  // Python interpreter and driver
  // ---------------------------------------------------------------------------

  /** `get_python_version`: the trimmed output of the first interpreter that
      runs, even when it printed nothing to standard output. */
  function PythonVersion(host: Host): (r: Option<string>)
    ensures r.None? <==> host.run("python --version").Err? && host.run("python3 --version").Err?
    ensures host.run("python --version").Ok? ==> r == Some(Trim(host.run("python --version").value))
    ensures host.run("python --version").Err? && host.run("python3 --version").Ok? ==>
      r == Some(Trim(host.run("python3 --version").value))
    ensures r.Some? ==> IsTrimmed(r.value)
  {
    match host.run("python --version")
    case Ok(output) => Some(Trim(output))
    case Err(_) =>
      match host.run("python3 --version")
      case Ok(output) => Some(Trim(output))
      case Err(_) => None
  }

  /** `get_nvidia_driver_version` returns the query's standard output as is. */
  const DriverQuery: string := "nvidia-smi --query-gpu=driver_version --format=csv,noheader"
}
