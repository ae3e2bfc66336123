# cudadoctor detection and reconciliation core, in Dafny

cudadoctor diagnoses a machine's GPU computing stack: the NVIDIA driver, the CUDA
toolkit, cuDNN, TensorFlow and PyTorch. This project models the part of
`src/lib.rs` that holds its real decisions, and proves properties of the model:

- **Version parsers.** Each turns the raw text of one probe into an optional
  version token:
  - `pip show` output;
  - `conda list` output;
  - the output of a direct Python import;
  - a Python build-info query;
  - `nvcc --version` with its two patterns;
  - `/usr/local/cuda/version.txt`;
  - the `#define` lines of `cudnn_version.h`.

  The three regular expressions are replaced by a hand-written greedy matcher.
  It is proved to find the leftmost match and the longest numeral there, which
  is what the regex crate reports.
- **The ordered fallback chain** behind `get_tensorflow_version`,
  `get_pytorch_version`, `get_cuda_toolkit_version` and `get_cudnn_version`.
  Probes are tried in a fixed order. The first that both succeeds and parses
  gives the answer, and an exhausted list gives a fixed error. The outside
  world is an abstract `Host` with two operations:
  - `run`: a command line gives standard output on exit status zero, otherwise an error;
  - `read`: a path gives the file's text.

  The platform and the files a directory walk would find are parameters.
- **The snapshot** (`EnvironmentConfig` and its parts) and
  `collect_environment_config`.
- **Reconciliation**: `compare_versions` and `compare_environments`, with the
  printed report modelled as data.
- **Small helpers**:
  - the NVIDIA line filter of `check_nvidia_gpu`;
  - the CSV row parsing of `get_gpu_list`;
  - `get_python_version`;
  - the value shortening of `check_environment_variables`.

Rust's `str` operations are modelled in module `Text` over `seq<char>`:
- `trim`, using the Unicode White_Space set;
- `contains` and `starts_with`;
- `split(char)`;
- `split_whitespace`;
- `lines`, which also drops a `\r` before each `\n`.

Modules, in dependency order:

| module | contents |
|---|---|
| `Wrappers` (wrappers.dfy) | `Option`, `Result` |
| `Text` (text.dfy) | Rust string operations |
| `Patterns` (patterns.dfy) | the matcher for `prefix` + `\d+(\.\d+)*` |
| `Parsers` (parsers.dfy) | one parser per probe kind |
| `Chain` (chain.dfy) | `Parser` dispatch, `Host`, `Attempt`, `RunChain` |
| `Detection` (detection.dfy) | the four probe lists and detectors |
| `Hardware` (hardware.dfy) | device check, GPU rows, Python version |
| `Snapshot` (snapshot.dfy) | snapshot records and collection |
| `Reconcile` (reconcile.dfy) | comparison |
| `Display` (display.dfy) | environment-variable listing |

## Notes on the code

A few behaviours of the code are easy to misread. The model keeps each one as written:
- The driver version is not a normalized token. `get_nvidia_driver_version`
  (src/lib.rs:573-575) returns the query's standard output untrimmed, trailing
  newline included. The snapshot stores it as is, and `CollectEnvironmentConfig`
  claims token form for every version except the driver's.
- `get_cudnn_version` does not stop at the first header file that exists. It moves
  on to the next header file when one cannot be read or parsed (src/lib.rs:278-283).
  Each header is modelled as a strategy of its own.
- When `lspci` cannot run on Linux, `check_nvidia_gpu` reports success with the
  trimmed output of `nvidia-smi -L`, even when that output is empty
  (src/lib.rs:538-545).
- `get_python_version` returns `Some` of the trimmed output even when the
  interpreter printed its version to standard error and left standard output
  empty (src/lib.rs:1472-1480).

## Model

| member | source | states |
|---|---|---|
| Text.Trim | src/lib.rs:90 | the result has no whitespace at either end, is a contiguous slice of the input, and everything cut off on either side is whitespace |
| Text.TrimOfPadded | src/lib.rs:90 | whitespace + trimmed text + whitespace trims to exactly that text, so `Trim` is fully determined by its contract |
| Text.TrimIdempotent | src/lib.rs:90 | trimming an already trimmed string changes nothing |
| Text.Contains | src/lib.rs:91 | `contains` is true exactly when the pattern occurs at some position |
| Text.ContainsTrimmed | src/lib.rs:90-91 | for a pattern with non-whitespace ends, the trimmed text contains it iff the raw text does |
| Text.Split | src/lib.rs:94 | `split(sep)` yields at least one piece, no piece holds the separator, and joining the pieces with it gives the input back |
| Text.SplitJoin | src/lib.rs:94 | splitting a join of separator-free pieces gives the pieces back |
| Text.SplitNoSep | src/lib.rs:94 | text without the separator splits into itself alone |
| Text.SplitConcat | src/lib.rs:94 | a separator-free piece followed by the separator splits off as the first piece |
| Text.SplitCount | src/lib.rs:1488-1489 | there are two or more pieces iff the separator occurs |
| Text.Field | src/lib.rs:94 | `nth(k).unwrap_or("")` is the k-th piece of `split(sep)`, or empty past the last piece, and never holds the separator |
| Text.FieldOfJoin | src/lib.rs:94 | the k-th field of separator-free pieces joined by the separator is the k-th piece, or empty past the last piece |
| Text.SplitWhitespace | src/lib.rs:116 | the tokens are non-empty and whitespace-free |
| Text.SplitWhitespaceKeepsText | src/lib.rs:116 | the tokens laid end to end are the input with all whitespace removed |
| Text.RemoveWhitespaceAppend | src/lib.rs:116 | removing whitespace distributes over concatenation |
| Text.SplitWhitespaceOfBlank | src/lib.rs:116 | whitespace alone has no tokens |
| Text.SplitWhitespaceOfWord | src/lib.rs:116 | a non-empty whitespace-free string is a single token |
| Text.SplitWhitespaceAppend | src/lib.rs:116 | no token straddles whitespace: when whitespace ends the first part or starts the second, the tokens of a + b are those of a followed by those of b |
| Text.SplitWhitespaceJoin | src/lib.rs:116 | non-empty whitespace-free words joined by single spaces split back into the same words |
| Text.SplitWhitespacePadded | src/lib.rs:116 | the same holds with whitespace padding at both ends |
| Text.Lines | src/lib.rs:93 | no line holds a newline; empty text has no lines; text without a newline is one line |
| Text.StripCr | src/lib.rs:93 | removes exactly one final carriage return: a line not ending in `\r` is unchanged, and otherwise one character shorter and a prefix of the line |
| Text.LinesRejoin | src/lib.rs:93 | text without carriage returns is its lines joined by newlines, with one more newline when the text ends with one, so no character is lost |
| Text.LinesOfJoin | src/lib.rs:93 | lines free of line endings joined by newlines, with or without a final newline, are read back as exactly those lines |
| Text.LinesOfCrLf | src/lib.rs:93 | lines each ended by `\r\n` are read back without the endings |
| Text.LinesMention | src/lib.rs:93 | a pattern without line endings occurs in the text iff it occurs in one of its lines |
| Text.JoinContains | src/lib.rs:93 | a joined text contains every piece that went into it |
| Text.FindFirst | src/lib.rs:93 | `find` returns the first index whose line passes the test, or none passes |
| Text.FirstUnique | src/lib.rs:93 | the first passing index is unique |
| Patterns.DigitRunEnd | src/lib.rs:362 | the end of the maximal run of ASCII digits from a position |
| Patterns.NumeralEnd | src/lib.rs:362 | when the greedy matcher succeeds, it consumed at least one character and stopped before a non-digit or at the end |
| Patterns.NumeralEndSound | src/lib.rs:362 | what the greedy matcher consumes is n non-empty digit groups joined by dots |
| Patterns.NumeralEndComplete | src/lib.rs:362 | whenever some numeral of n groups starts at a position, the matcher succeeds there and consumes at least as much |
| Patterns.NumeralHead | src/lib.rs:367 | a numeral of n ≥ 2 groups is a digit group, a dot and a numeral of n-1 groups |
| Patterns.MatchEnd | src/lib.rs:362 | the pattern matches at a position iff the matcher succeeds there, and then it consumes the longest numeral |
| Patterns.FirstMatchFrom | src/lib.rs:363 | the search returns the leftmost matching position, or none matches |
| Patterns.Capture | src/lib.rs:362-364 | no capture iff the pattern matches nowhere; otherwise the capture is a numeral of n groups and is the longest one at the leftmost match |
| Parsers.NonEmpty | src/lib.rs:95 | a value is accepted iff it is non-empty, and then unchanged |
| Parsers.VersionLineValue | src/lib.rs:93-97 | the value is the trimmed second `:` field of the first line containing `Version:`; no such line means no value; a value is a token without `:` |
| Parsers.PipShowVersion | src/lib.rs:88-100 | output containing the not-found sentinel is rejected even if a `Version:` line is present; otherwise the first `Version:` line of the trimmed output decides |
| Parsers.SecondToken | src/lib.rs:115-118 | the value is the second whitespace token of the line, present iff the line has at least two tokens |
| Parsers.SecondTokenOfWords | src/lib.rs:115-118 | on words joined by spaces with whitespace padding, the value is the second word, and a single word gives none |
| Parsers.PackageLineVersion | src/lib.rs:114-119 | only the first line starting with the package name is consulted, and its second token is the value; no such line means no value |
| Parsers.CondaListVersion | src/lib.rs:109-121 | no value when no line of the trimmed output starts with the package name; otherwise the second whitespace token of the first such line, a whitespace-free token |
| Parsers.CondaListOfListing | src/lib.rs:109-121 | for a listing of comment lines, the package row of space-separated columns and further rows, ended by a newline, the version is the second column of the package row |
| Parsers.TrimmedLinesOfJoin | src/lib.rs:110-113 | whitespace-padded lines whose text starts and ends with non-whitespace are exactly the lines of the trimmed output |
| Parsers.ImportedVersion | src/lib.rs:138-143 | rejected iff the trimmed output is empty or mentions `not found`, `No module` or `WARNING`; accepted output is the trimmed text |
| Parsers.ImportedVersionStable | src/lib.rs:140-143 | an accepted value passes the filter again unchanged |
| Parsers.ReportedVersion | src/lib.rs:291-292 | rejected iff the trimmed output is empty or exactly `None`; otherwise the trimmed text |
| Parsers.ReportedVersionStable | src/lib.rs:393-394 | an accepted build-info value passes the filter again unchanged |
| Parsers.ReleaseVersion | src/lib.rs:362-364 | a capture exists iff `release X.Y` matches somewhere; it is the longest two-group numeral after `release ` at the leftmost match |
| Parsers.BuildVersion | src/lib.rs:367-369 | a capture exists iff `VX.Y.Z` matches somewhere; it is the longest three-group numeral after `V` at the leftmost match |
| Parsers.VersionFileVersion | src/lib.rs:379-382 | a capture exists iff `CUDA Version X.Y` matches somewhere; it is the longest two-group numeral after `CUDA Version ` at the leftmost match |
| Parsers.NvccVersion | src/lib.rs:359-373 | a release match wins even when a build string is also present; the build pattern is used only when no release match exists; no result iff neither matches |
| Parsers.NumeralIsToken | src/lib.rs:364 | every captured numeral is a non-empty trimmed token |
| Parsers.LastToken | src/lib.rs:326 | the value is the last whitespace token of the line, or empty when it has none |
| Parsers.LastTokenOfWords | src/lib.rs:326 | on words joined by spaces with whitespace padding, the value is the last word |
| Parsers.DirectiveValue | src/lib.rs:324-327 | the value is the last token of the first line mentioning the directive; empty iff no line mentions it |
| Parsers.HeaderVersion | src/lib.rs:340-344 | a version exists iff all three directives are mentioned; it is major.minor.patch from the first mentioning line of each, and a token |
| Parsers.HeaderValues | src/lib.rs:324-344 | given the first lines mentioning each directive, the version is their last tokens joined by dots |
| Parsers.CudnnHeaderVersion | src/lib.rs:321-345 | a version exists iff all three `#define` directives occur in the header text; it is the last tokens of the first line mentioning each, joined by dots, and a token |
| Parsers.FirstLineSwap | src/lib.rs:326 | swapping two adjacent lines that do not both pass a test does not change the first passing line |
| Parsers.DirectiveValueSwap | src/lib.rs:324-327 | the same for one directive's value |
| Parsers.HeaderVersionSwap | src/lib.rs:324-338 | the relative order of the three directive lines does not matter |
| Chain.Parse | src/lib.rs:138-143 | every parser yields a normalized token or nothing |
| Chain.Attempt | src/lib.rs:136-146 | whatever a single probe yields is a normalized token |
| Chain.AttemptDelivered | src/lib.rs:138 | a strategy whose source delivers some text yields what its parser makes of that text |
| Chain.AttemptFailed | src/lib.rs:138-145 | a strategy whose command fails or whose file cannot be read yields nothing, whatever its parser |
| Chain.ChainSkip | src/lib.rs:134-146 | a failing first strategy passes the result of the remaining list through, with the first success index shifted by one |
| Chain.RunChain | src/lib.rs:127-171 | a result is the version of the first strategy that yields one; an error occurs iff every strategy yields nothing, and it carries the fixed not-found message |
| Chain.ChainFirstSuccess | src/lib.rs:134-146 | the first strategy that yields decides the result |
| Chain.ChainHead | src/lib.rs:134-146 | a first strategy that yields a version is the result |
| Chain.ChainAppend | src/lib.rs:148-170 | running two lists in sequence runs the second only when the first finds nothing |
| Chain.ChainIgnoresLaterProbes | src/lib.rs:134-146 | hosts that agree on every strategy up to the first success give the same result, whatever later probes would do |
| Detection.TensorFlowVersion | src/lib.rs:127-171 | the result comes from the first of python, python3, pip, pip3 and conda that yields a version; otherwise `TensorFlow not found or not installed` |
| Detection.TensorFlowProbeOrder | src/lib.rs:127-171 | the probes are `python -c` and `python3 -c` with the version import, `pip show`, `pip3 show` and `conda list` for `tensorflow`, in that order, each with its parser |
| Detection.TensorFlowImportWins | src/lib.rs:134-146 | an acceptable version printed by `python` is the answer, whatever the package managers say |
| Detection.TensorFlowPackageManagersLast | src/lib.rs:148-168 | when neither interpreter yields, the result is the chain of pip, pip3 and conda alone |
| Detection.PyTorchVersion | src/lib.rs:173-220 | the same for PyTorch, with conda asked about `pytorch` and then `torch`; otherwise `PyTorch not found or not installed` |
| Detection.PyTorchProbeOrder | src/lib.rs:173-220 | the probes are the two imports of `torch`, `pip show torch`, `pip3 show torch`, `conda list pytorch` and `conda list torch`, in that order |
| Detection.RejectedImportFallsThrough | src/lib.rs:184-190 | an import whose output is noise counts as a failed probe and the chain goes on with the next |
| Detection.PyTorchCondaOrder | src/lib.rs:207-217 | when the four earlier probes fail, conda's answer for `pytorch` wins |
| Detection.PathNvccProbes | src/lib.rs:414-468 | one probe per nvcc found on PATH on Linux and Windows, none on macOS; `<path> --version` unquoted on Linux and quoted on Windows; each read with the release pattern only |
| Detection.WalkNvccProbes | src/lib.rs:470-495 | one probe per nvcc found by the directory walk on Linux and Windows, none on macOS; the path is quoted; each read with the release pattern only |
| Detection.CudaToolkitVersion | src/lib.rs:347-498 | the result comes from the first toolkit probe that yields, or is `CUDA Toolkit not found` |
| Detection.ToolkitProbeOrder | src/lib.rs:347-498 | the probes are the three nvcc commands, the version file on Linux only, the four build-info queries, then the PATH and walk candidates, in that order |
| Detection.ToolkitProbesStart | src/lib.rs:349-359 | the first probe on every platform is `nvcc --version`, read with both nvcc patterns |
| Detection.NvccReleaseWins | src/lib.rs:359-365 | a `release X.Y` line from `nvcc --version` is the answer, even with a build string present |
| Detection.NvccBuildFallback | src/lib.rs:366-370 | an `nvcc --version` output with only a build string yields that string's numeral |
| Detection.ToolkitSearchesLast | src/lib.rs:412-497 | PATH and walk candidates are tried only after every fixed probe found nothing |
| Detection.DiscoveredNvccNeedsRelease | src/lib.rs:429-434 | a discovered nvcc yields iff its output matches the release pattern |
| Detection.HeaderProbes | src/lib.rs:222-286 | one header-file probe per candidate on Linux and Windows, none on macOS |
| Detection.CudnnVersion | src/lib.rs:222-319 | the result comes from the first header or Python probe that yields, or is `cuDNN version not found` |
| Detection.CudnnProbeOrder | src/lib.rs:222-319 | the header probes come first, then the torch and tensorflow cuDNN queries through `python` and `python3`, in that order |
| Detection.CudnnMacOSIgnoresHeaders | src/lib.rs:222-286 | on macOS the header candidates play no part in the result |
| Detection.CudnnHeaderWins | src/lib.rs:276-285 | the first header that reads and parses decides, and the Python probes are not consulted |
| Hardware.ToLower | src/lib.rs:530 | ASCII capitals become their small letters, every other character is kept, no capital remains, and the length is kept |
| Hardware.ToLowerIdempotent | src/lib.rs:530 | lowercasing twice is lowercasing once, and the nvidia test gives the same answer on the lowered text |
| Hardware.NvidiaLines | src/lib.rs:527-531 | the kept lines are exactly the lines that mention "nvidia" in any case, and none kept means none mentions it |
| Hardware.NvidiaLinesIdempotent | src/lib.rs:527-531 | filtering twice is filtering once |
| Hardware.NvidiaLinesAppend | src/lib.rs:527-531 | filtering distributes over concatenation |
| Hardware.WindowsConditionsRedundant | src/lib.rs:508 | the Windows filter's blank-line and `Name` tests never reject a line that mentions nvidia |
| Hardware.WindowsLines | src/lib.rs:505-509 | the Windows filter keeps exactly the lines the Linux filter keeps |
| Hardware.CheckNvidiaGpu | src/lib.rs:500-566 | when the listing runs, success iff some line mentions nvidia; otherwise the platform's no-GPU message. On Linux without lspci, the trimmed `nvidia-smi -L` output or the tools-missing message; elsewhere the listing's error |
| Hardware.ParseGpuLine | src/lib.rs:1487-1494 | a line gives a row iff it holds a comma, and both cells are trimmed and comma-free |
| Hardware.GpuLineRoundTrip | src/lib.rs:1485-1494 | parsing a line printed as `name, memory` gives the row back |
| Hardware.GpuLineExtraColumns | src/lib.rs:1488-1489 | columns after the second are ignored |
| Hardware.GpuRows | src/lib.rs:1486-1496 | at most one row per line |
| Hardware.GpuRowsAppend | src/lib.rs:1486-1496 | the rows of two outputs laid end to end are the rows of the first followed by those of the second |
| Hardware.GpuRowsOfLine | src/lib.rs:1487-1494 | one line gives exactly its parsed row when it holds a comma, and nothing otherwise |
| Hardware.GpuRowsComplete | src/lib.rs:1486-1496 | every line with a comma contributes its row, after the rows of the lines before it and before the rows of the lines after it |
| Hardware.GpuRowsFromLines | src/lib.rs:1486-1496 | every row is the parse of some output line |
| Hardware.GpuRowsAreCells | src/lib.rs:1488 | every cell of every row is trimmed and comma-free |
| Hardware.GpuRowsRoundTrip | src/lib.rs:1486-1496 | printing rows one per line and parsing them back gives the same rows |
| Hardware.GpuList | src/lib.rs:1482-1499 | a failing query gives no rows; otherwise at most one row per output line |
| Hardware.PythonVersion | src/lib.rs:1472-1480 | no version iff both `python --version` and `python3 --version` fail; the trimmed output of `python` when it runs, otherwise that of `python3` |
| Snapshot.CollectSystemInfo | src/lib.rs:1441-1447 | the OS is name, space, version; architecture and CPU are passed through; the Python version is that of `python`, else `python3`, trimmed, and absent iff neither runs |
| Snapshot.CollectCudaInfo | src/lib.rs:1450-1455 | the driver field is the query's raw output, present iff the query runs; the toolkit and cuDNN fields are the first yield of their chains, absent iff every probe fails; one GPU record per row, with its name and memory and no compute capability |
| Snapshot.GpuInfos | src/lib.rs:1453 | one record per GPU row, carrying that row's name and memory, each a trimmed comma-free cell, and no compute capability |
| Snapshot.CollectFrameworks | src/lib.rs:1458-1461 | each framework field is the first yield of its chain, a token, and absent iff every probe of the chain fails |
| Snapshot.CollectEnvironmentConfig | src/lib.rs:1436-1470 | every recorded version except the driver's is a token; the OS, architecture, CPU and Python value (`python`, else `python3`, trimmed) are those of the machine; the driver field is the raw query output; the toolkit, cuDNN and framework fields are the first yields of their chains; one GPU record per row with its name and memory; the snapshot carries the collection time and host name |
| Reconcile.CompareVersions | src/lib.rs:1526-1538 | Match iff both present and equal, Mismatch iff both present and different, LocalOnly and RemoteOnly for one side present, BothAbsent otherwise; the outcome reports both input versions |
| Reconcile.CompareVersionsOfSides | src/lib.rs:1526-1538 | every valid outcome is the classification of the two versions it reports |
| Reconcile.Swap | src/lib.rs:1526-1538 | the swapped outcome reports the two sides exchanged |
| Reconcile.CompareVersionsSwap | src/lib.rs:1526-1538 | swapping the arguments swaps LocalOnly and RemoteOnly and the two versions of a Mismatch, and keeps Match and BothAbsent |
| Reconcile.CompareEnvironments | src/lib.rs:1501-1524 | entries come in the order Driver, CUDA, cuDNN, TensorFlow, PyTorch, each classifying that field of both snapshots; both sides' OS and architecture are shown as recorded; the OS warning appears iff the OS names differ; the import details come from the imported snapshot |
| Reconcile.ReportRecoversVersions | src/lib.rs:1513-1519 | both snapshots' versions can be read back from the report |
| Reconcile.SelfComparison | src/lib.rs:1508-1519 | a snapshot compared with itself shows only matches and absences and no OS warning |
| Reconcile.CompareEnvironmentsSwap | src/lib.rs:1508-1519 | comparing the other way round keeps the labels and swaps every outcome |
| Display.BoundaryFrom | src/lib.rs:961 | the scan finds a prefix of exactly b bytes, or none exists |
| Display.Utf8Width | src/lib.rs:960 | a character takes 1 to 4 bytes, and 1 exactly when it is ASCII |
| Display.Utf8Len | src/lib.rs:960 | the byte length lies between the character count and four times it |
| Display.Utf8LenOfAscii | src/lib.rs:960 | an ASCII string has as many bytes as characters |
| Display.CharBoundary | src/lib.rs:961 | a byte offset is a character boundary iff some prefix has exactly that many bytes |
| Display.Utf8LenAppend | src/lib.rs:960 | the byte length of a concatenation is the sum of the byte lengths |
| Display.Utf8LenPrefixGrows | src/lib.rs:961 | longer prefixes have strictly more bytes |
| Display.TruncateAsWritten | src/lib.rs:959-963 | a value of at most 60 bytes is shown unchanged; the program panics iff a value longer than 60 bytes has no character boundary at byte 57; otherwise it shows the prefix of exactly 57 bytes followed by `...`; any shown value is at most 60 bytes |
| Display.TruncateAsWrittenPanics | src/lib.rs:961 | the 62-byte value of 56 `a`, `é` and `bbbb` panics |
| Display.Truncate | src/lib.rs:959-963 | at most 60 characters are shown; a value of at most 60 is unchanged; a longer one shows its first 57 characters followed by `...` |
| Display.TruncateKeepsPrefix | src/lib.rs:960-962 | the shown text is the value itself or a prefix of it followed by `...` |
| Display.TruncateIdempotent | src/lib.rs:959-963 | shortening a shown value again changes nothing |
| Display.TruncateAgreesOnAscii | src/lib.rs:959-963 | on ASCII values the byte rule and the character rule agree |
| Display.EnvLine | src/lib.rs:958-967 | a line reads `   NAME: ` followed by `Not set` for a missing variable, the value itself when it has at most 60 characters, or its first 57 characters and `...` |
| Display.EnvReport | src/lib.rs:952-968 | one line per variable, in the program's order, each reading `   NAME: ` followed by `Not set` or the shortened value |

## Left out

- `run_command` (src/lib.rs:52-83): process spawning, stdout and stderr capture, and the exit status are the abstract `Host.run`. Its error text is never inspected by the modelled code.
- Directory walks, `Path::exists` and PATH and LD_LIBRARY_PATH splitting: these are file-system I/O. The model takes the files they would find as ordered lists, and `fs::read_to_string`, including its UTF-8 errors, is the abstract `Host.read`.
- `#[cfg(target_os)]`: the platform is a parameter that selects the probe list and the device-check command.
- The `verbose` flag and every `println!`: logging only. The comparison report is data rather than printed text.
- JSON export and import (`serde_json`, src/lib.rs:1401-1434): derived library code and file I/O. Only the record shapes are modelled.
- `chrono` and `sysinfo` (src/lib.rs:1436-1470): foreign calls. The OS name, architecture, CPU brand, host name and formatted time are inputs.
- All `f64` arithmetic (`total_memory_gb`, `memory_gb = mb / 1024.0`): `SystemInfo` has no memory field, and `GpuInfo.memory` keeps the MiB column as text.
- `get_nvidia_driver_version`: modelled only as the constant query string `Hardware.DriverQuery` and the `driverVersion` field of `Snapshot.CollectCudaInfo`, because it has no logic of its own.
- `Patterns.IsDigit`: `\d` is taken as the ASCII digits. The regex crate's `\d` also matches other Unicode decimal digits, which nvcc never prints.
- `Hardware.LowerChar`: `to_lowercase` is modelled on ASCII letters only. Full Unicode case mapping is out of scope.
- `Hardware.CheckNvidiaGpu`: states the result through `JoinWith` of the filtered lines. It does not prove that the joined text can be split back into lines, because device lines may themselves contain ", ".
- `Hardware.GpuRows`: its own contract only bounds the number of rows. `Hardware.GpuRowsAppend` and `Hardware.GpuRowsOfLine` together fix the rows, in order, for every output.
- `Hardware.GpuList`: bounds the number of rows by the number of output lines but does not restate which lines they are. `Hardware.GpuRowsComplete` and `Hardware.GpuRowsFromLines` carry that.
- `Display.EnvLine`: shortens values with the corrected character rule `Display.Truncate`, not with the byte rule of the program, so it does not reproduce the panic recorded under Findings. The byte rule is `Display.TruncateAsWritten`.
- `Display.EnvReport`: the same, line by line.
- `Chain.Attempt`: states only that a yield is a token. What a probe yields is stated by `Chain.AttemptDelivered` and `Chain.AttemptFailed`.
- `Text.SplitWhitespace`: states only the shape of the tokens. Their content is stated by `Text.SplitWhitespaceKeepsText` and the other SplitWhitespace lemmas.
- The `suggest_*_fix` texts, `show_compatibility_matrix`, benchmarks, `validate_*`, `check_for_updates`, `get_detailed_gpu_info`, `check_multiple_gpus` and `src/main.rs`: static text, printing and CLI dispatch outside the detection core.

## Findings

| source | as written | input that shows it | evidently intended | confidence | as-written member | corrected member |
|---|---|---|---|---|---|---|
| src/lib.rs:959-963 | `value.len() > 60` and `&value[..57]` measure and slice in UTF-8 bytes; slicing at a byte offset inside a multi-byte character panics | an environment variable whose value is 56 `a`, then `é`, then `bbbb` (62 bytes, byte 57 inside `é`) | show at most 60 characters, keeping the first 57 of a longer value followed by `...` | high; derived from the definition of `str` slicing, not executed | Display.TruncateAsWritten, Display.TruncateAsWrittenPanics | Display.Truncate |
