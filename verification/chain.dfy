/** The ordered fallback that every detection function of `src/lib.rs` follows:
    try the probes in a fixed order and return the version of the first one that
    both succeeds and parses; a probe that fails, or succeeds with output its
    parser rejects, is passed over; when the list runs out the answer is an
    error with a fixed message, never a made-up version. */
module Chain {
  import opened Wrappers
  import opened Text
  import opened Patterns
  import opened Parsers

  /** How the raw text of a probe is read. */
  datatype Parser =
    | Import                  // a framework's `__version__`, printed by a direct import
    | BuildInfo               // a build-info value printed by Python (`torch.version.cuda`, ...)
    | PipShow                 // `pip show <package>`
    | CondaList(package: string)  // `conda list <package>`
    | Nvcc                    // `nvcc --version`: release pattern, then build pattern
    | NvccRelease             // an nvcc found on PATH or by a directory walk: release pattern only
    | VersionFile             // `cat /usr/local/cuda/version.txt`
    | CudnnHeader             // the text of `cudnn_version.h`

  /** Every parser yields a normalized token or nothing. */
  function Parse(p: Parser, raw: string): (r: Option<string>)
    ensures r.Some? ==> IsToken(r.value)
  {
    match p
    case Import => ImportedVersion(raw)
    case BuildInfo => ReportedVersion(raw)
    case PipShow => PipShowVersion(raw)
    case CondaList(package) => CondaListVersion(package, raw)
    case Nvcc =>
      var r := NvccVersion(raw);
      assert r.Some? ==> IsToken(r.value) by {
        if r.Some? {
          if HasMatch(raw, ReleasePrefix, 2) {
            NumeralIsToken(r.value, 2);
          } else {
            NumeralIsToken(r.value, 3);
          }
        }
      }
      r
    case NvccRelease =>
      var r := ReleaseVersion(raw);
      assert r.Some? ==> IsToken(r.value) by {
        if r.Some? { NumeralIsToken(r.value, 2); }
      }
      r
    case VersionFile =>
      var r := VersionFileVersion(raw);
      assert r.Some? ==> IsToken(r.value) by {
        if r.Some? { NumeralIsToken(r.value, 2); }
      }
      r
    case CudnnHeader => CudnnHeaderVersion(raw)
  }

  lemma ParseHeader(raw: string)
    ensures Parse(CudnnHeader, raw) == CudnnHeaderVersion(raw)
  {
  }

  lemma ParseNvcc(raw: string)
    ensures Parse(Nvcc, raw) == NvccVersion(raw)
  {
  }

  /** Where a probe's raw text comes from. */
  datatype Source = Command(command: string) | File(path: string)

  /** One probing strategy: a source and the parser for its text. */
  datatype Strategy = Strategy(source: Source, parser: Parser)

  /** The outside world, left abstract: `run_command` (Ok carries the standard
      output of a command that exited with status zero) and `fs::read_to_string`. */
  datatype Host = Host(run: string -> Result<string, string>, read: string -> Result<string, string>)

  function Fetch(host: Host, source: Source): Result<string, string>
  {
    match source
    case Command(c) => host.run(c)
    case File(p) => host.read(p)
  }

  /** The outcome of trying one strategy: the parsed version, or nothing when the
      probe failed or its text was rejected. */
  function Attempt(host: Host, s: Strategy): (r: Option<string>)
    ensures r.Some? ==> IsToken(r.value)
  {
    match Fetch(host, s.source)
    case Ok(raw) => Parse(s.parser, raw)
    case Err(_) => None
  }

  /** A strategy whose source delivers `raw` yields what its parser makes of it. */
  lemma AttemptDelivered(host: Host, s: Strategy, raw: string)
    requires Fetch(host, s.source) == Ok(raw)
    ensures Attempt(host, s) == Parse(s.parser, raw)
  {
  }

  /** A strategy whose source fails yields nothing, whatever its parser. */
  lemma AttemptFailed(host: Host, s: Strategy)
    requires Fetch(host, s.source).Err?
    ensures Attempt(host, s).None?
  {
  }

  /** Strategy `i` is the first one that yields a version. */
  ghost predicate IsFirstSuccess(host: Host, strategies: seq<Strategy>, i: nat)
  {
    i < |strategies| && Attempt(host, strategies[i]).Some?
    && forall j :: 0 <= j < i ==> Attempt(host, strategies[j]).None?
  }

  /** The fallback chain: the version of the first strategy that yields one, or
      `Err(notFound)` when none does. */
  function RunChain(host: Host, strategies: seq<Strategy>, notFound: string): (r: Result<string, string>)
    ensures r.Ok? ==> exists i: nat :: IsFirstSuccess(host, strategies, i) && Attempt(host, strategies[i]) == Some(r.value)
    ensures r.Err? <==> forall i :: 0 <= i < |strategies| ==> Attempt(host, strategies[i]).None?
    ensures r.Err? ==> r.error == notFound
    ensures r.Ok? ==> IsToken(r.value)
    decreases |strategies|
  {
    if |strategies| == 0 then Err(notFound)
    else
      match Attempt(host, strategies[0])
      case Some(v) =>
        assert IsFirstSuccess(host, strategies, 0);
        Ok(v)
      case None =>
        var r := RunChain(host, strategies[1..], notFound);
        ChainSkip(host, strategies, r);
        r
  }

  /** What the chain over all but a failing first strategy finds is what the
      chain over all of them finds. */
  lemma ChainSkip(host: Host, strategies: seq<Strategy>, r: Result<string, string>)
    requires |strategies| > 0 && Attempt(host, strategies[0]).None?
    requires r.Ok? ==> exists i: nat :: IsFirstSuccess(host, strategies[1..], i) && Attempt(host, strategies[1..][i]) == Some(r.value)
    requires r.Err? <==> forall i :: 0 <= i < |strategies[1..]| ==> Attempt(host, strategies[1..][i]).None?
    ensures r.Ok? ==> exists i: nat :: IsFirstSuccess(host, strategies, i) && Attempt(host, strategies[i]) == Some(r.value)
    ensures r.Err? <==> forall i :: 0 <= i < |strategies| ==> Attempt(host, strategies[i]).None?
  {
    var rest := strategies[1..];
    assert forall i :: 1 <= i < |strategies| ==> strategies[i] == rest[i - 1];
    if r.Ok? {
      var i: nat :| IsFirstSuccess(host, rest, i) && Attempt(host, rest[i]) == Some(r.value);
      assert strategies[i + 1] == rest[i];
      assert IsFirstSuccess(host, strategies, i + 1);
    }
  }

  /** The first strategy that yields decides the result. */
  lemma {:induction false} ChainFirstSuccess(host: Host, strategies: seq<Strategy>, i: nat, notFound: string)
    requires IsFirstSuccess(host, strategies, i)
    ensures RunChain(host, strategies, notFound) == Ok(Attempt(host, strategies[i]).value)
    decreases i
  {
    if i > 0 {
      var rest := strategies[1..];
      assert forall j :: 1 <= j < |strategies| ==> strategies[j] == rest[j - 1];
      assert IsFirstSuccess(host, rest, i - 1);
      ChainFirstSuccess(host, rest, i - 1, notFound);
    }
  }

  /** A first strategy that yields decides the result. */
  lemma ChainHead(host: Host, strategies: seq<Strategy>, v: string, notFound: string)
    requires |strategies| > 0 && Attempt(host, strategies[0]) == Some(v)
    ensures RunChain(host, strategies, notFound) == Ok(v)
  {
  }

  /** Running two lists one after the other is running the second only when
      the first finds nothing. */
  lemma {:induction false} ChainAppend(host: Host, first: seq<Strategy>, second: seq<Strategy>, notFound: string)
    ensures RunChain(host, first + second, notFound)
            == if RunChain(host, first, notFound).Ok? then RunChain(host, first, notFound)
               else RunChain(host, second, notFound)
    decreases |first|
  {
    if |first| > 0 {
      assert (first + second)[0] == first[0];
      assert (first + second)[1..] == first[1..] + second;
      ChainAppend(host, first[1..], second, notFound);
    } else {
      assert first + second == second;
    }
  }

  /** No later probe affects the result: two hosts that agree on every strategy
      up to the first one that yields give the same answer, whatever they do
      with the rest. */
  lemma ChainIgnoresLaterProbes(h1: Host, h2: Host, strategies: seq<Strategy>, k: nat, notFound: string)
    requires k < |strategies| && Attempt(h1, strategies[k]).Some?
    requires forall j :: 0 <= j <= k ==> Attempt(h1, strategies[j]) == Attempt(h2, strategies[j])
    ensures RunChain(h1, strategies, notFound) == RunChain(h2, strategies, notFound)
  {
    var r1 := RunChain(h1, strategies, notFound);
    assert r1.Ok?;
    var i: nat :| IsFirstSuccess(h1, strategies, i) && Attempt(h1, strategies[i]) == Some(r1.value);
    assert i <= k;
    assert IsFirstSuccess(h2, strategies, i);
    ChainFirstSuccess(h1, strategies, i, notFound);
    ChainFirstSuccess(h2, strategies, i, notFound);
  }
}
