/** The four version detectors of `src/lib.rs`, each an ordered list of probes
    handed to the fallback chain. Commands are the exact strings the program
    passes to `run_command`; the host platform (`#[cfg(target_os)]`) is a
    parameter, and the files a directory walk or a PATH search would find are
    given as lists, in the order the program would visit them. */
module Detection {
  import opened Wrappers
  import opened Text
  import opened Parsers
  import opened Chain

  datatype Platform = Linux | Windows | MacOS

  /** `<interpreter> -c "<code>"`. */
  function PythonCommand(interpreter: string, code: string): string
  {
    interpreter + " -c \"" + code + "\""
  }

  /** The same snippet run by `python`, then by `python3`. */
  function PythonProbes(code: string, parser: Parser): seq<Strategy>
  {
    [Strategy(Command(PythonCommand("python", code)), parser),
     Strategy(Command(PythonCommand("python3", code)), parser)]
  }

  /** `get_pip_package_version`: `<pip> show <package>`. */
  function PipProbe(pip: string, package: string): Strategy
  {
    Strategy(Command(pip + " show " + package), PipShow)
  }

  /** `get_conda_package_version`: `conda list <package>`. */
  function CondaProbe(package: string): Strategy
  {
    Strategy(Command("conda list " + package), CondaList(package))
  }

  const TensorFlowImportCode: string := "import tensorflow as tf; print(tf.__version__)"
  const TorchImportCode: string := "import torch; print(torch.__version__)"
  const TorchCudaCode: string := "import torch; print(torch.version.cuda)"
  const TensorFlowCudaCode: string := "import tensorflow as tf; print(tf.sysconfig.get_build_info()['cuda_version'])"
  const TorchCudnnCode: string := "import torch; print(torch.backends.cudnn.version())"
  const TensorFlowCudnnCode: string := "import tensorflow as tf; print(tf.sysconfig.get_build_info()['cudnn_version'])"

  const TensorFlowNotFound: string := "TensorFlow not found or not installed"
  const PyTorchNotFound: string := "PyTorch not found or not installed"
  const ToolkitNotFound: string := "CUDA Toolkit not found"
  const CudnnNotFound: string := "cuDNN version not found"

  // ---------------------------------------------------------------------------
  // Frameworks
  // ---------------------------------------------------------------------------

  /** python, python3, pip, pip3, conda. */
  const TensorFlowProbes: seq<Strategy> :=
    PythonProbes(TensorFlowImportCode, Import)
    + [PipProbe("pip", "tensorflow"), PipProbe("pip3", "tensorflow"), CondaProbe("tensorflow")]

  /** python, python3, pip, pip3, then conda under the names `pytorch` and `torch`. */
  const PyTorchProbes: seq<Strategy> :=
    PythonProbes(TorchImportCode, Import)
    + [PipProbe("pip", "torch"), PipProbe("pip3", "torch"), CondaProbe("pytorch"), CondaProbe("torch")]

  /** The TensorFlow probes, spelled out: both interpreters import the package,
      then `pip` and `pip3` show it, then conda lists it. */
  lemma TensorFlowProbeOrder()
    ensures TensorFlowProbes == [
      Strategy(Command(PythonCommand("python", "import tensorflow as tf; print(tf.__version__)")), Import),
      Strategy(Command(PythonCommand("python3", "import tensorflow as tf; print(tf.__version__)")), Import),
      Strategy(Command("pip show tensorflow"), PipShow),
      Strategy(Command("pip3 show tensorflow"), PipShow),
      Strategy(Command("conda list tensorflow"), CondaList("tensorflow"))]
  {
    assert "pip" + " show " + "tensorflow" == "pip show tensorflow";
    assert "pip3" + " show " + "tensorflow" == "pip3 show tensorflow";
    assert "conda list " + "tensorflow" == "conda list tensorflow";
  }

  /** The PyTorch probes, spelled out: as for TensorFlow with the package `torch`,
      and conda asked under the name `pytorch` before `torch`. */
  lemma PyTorchProbeOrder()
    ensures PyTorchProbes == [
      Strategy(Command(PythonCommand("python", "import torch; print(torch.__version__)")), Import),
      Strategy(Command(PythonCommand("python3", "import torch; print(torch.__version__)")), Import),
      Strategy(Command("pip show torch"), PipShow),
      Strategy(Command("pip3 show torch"), PipShow),
      Strategy(Command("conda list pytorch"), CondaList("pytorch")),
      Strategy(Command("conda list torch"), CondaList("torch"))]
  {
    assert "pip" + " show " + "torch" == "pip show torch";
    assert "pip3" + " show " + "torch" == "pip3 show torch";
    assert "conda list " + "pytorch" == "conda list pytorch";
    assert "conda list " + "torch" == "conda list torch";
  }

  /** `get_tensorflow_version`. */
  function TensorFlowVersion(host: Host): (r: Result<string, string>)
    ensures r.Ok? ==> IsToken(r.value)
    ensures r.Ok? ==> exists i: nat :: IsFirstSuccess(host, TensorFlowProbes, i) && Attempt(host, TensorFlowProbes[i]) == Some(r.value)
    ensures r.Err? <==> forall i :: 0 <= i < |TensorFlowProbes| ==> Attempt(host, TensorFlowProbes[i]).None?
    ensures r.Err? ==> r.error == TensorFlowNotFound
  {
    RunChain(host, TensorFlowProbes, TensorFlowNotFound)
  }

  /** `get_pytorch_version`. */
  function PyTorchVersion(host: Host): (r: Result<string, string>)
    ensures r.Ok? ==> IsToken(r.value)
    ensures r.Ok? ==> exists i: nat :: IsFirstSuccess(host, PyTorchProbes, i) && Attempt(host, PyTorchProbes[i]) == Some(r.value)
    ensures r.Err? <==> forall i :: 0 <= i < |PyTorchProbes| ==> Attempt(host, PyTorchProbes[i]).None?
    ensures r.Err? ==> r.error == PyTorchNotFound
  {
    RunChain(host, PyTorchProbes, PyTorchNotFound)
  }

  /** A version printed by `python` wins over anything the package managers say. */
  lemma TensorFlowImportWins(host: Host, v: string)
    requires host.run(PythonCommand("python", TensorFlowImportCode)) == Ok(v)
    requires ImportedVersion(v).Some?
    ensures TensorFlowVersion(host) == Ok(Trim(v))
  {
    assert Attempt(host, TensorFlowProbes[0]) == Some(Trim(v));
    ChainFirstSuccess(host, TensorFlowProbes, 0, TensorFlowNotFound);
  }

  /** The package managers are consulted only when neither interpreter printed an
      acceptable version, and then in the order pip, pip3, conda. */
  lemma TensorFlowPackageManagersLast(host: Host)
    requires Attempt(host, TensorFlowProbes[0]).None? && Attempt(host, TensorFlowProbes[1]).None?
    ensures TensorFlowVersion(host)
            == RunChain(host, [PipProbe("pip", "tensorflow"), PipProbe("pip3", "tensorflow"), CondaProbe("tensorflow")], TensorFlowNotFound)
  {
    var imports := PythonProbes(TensorFlowImportCode, Import);
    ChainAppend(host, imports, TensorFlowProbes[2..], TensorFlowNotFound);
    assert TensorFlowProbes == imports + TensorFlowProbes[2..];
    assert RunChain(host, imports, TensorFlowNotFound).Err?;
  }

  /** An import whose output is noise counts as a failed probe: the chain goes
      on exactly as if the interpreter had not run at all. */
  lemma RejectedImportFallsThrough(host: Host, output: string)
    requires host.run(PythonCommand("python", TorchImportCode)) == Ok(output)
    requires IsImportNoise(output)
    ensures PyTorchVersion(host) == RunChain(host, PyTorchProbes[1..], PyTorchNotFound)
  {
    assert Attempt(host, PyTorchProbes[0]).None?;
  }

  /** conda is asked about `pytorch` before `torch`. */
  lemma PyTorchCondaOrder(host: Host, v: string)
    requires forall i :: 0 <= i < 4 ==> Attempt(host, PyTorchProbes[i]).None?
    requires Attempt(host, CondaProbe("pytorch")) == Some(v)
    ensures PyTorchVersion(host) == Ok(v)
  {
    assert IsFirstSuccess(host, PyTorchProbes, 4);
    ChainFirstSuccess(host, PyTorchProbes, 4, PyTorchNotFound);
  }

  // ---------------------------------------------------------------------------
  // CUDA toolkit
  // ---------------------------------------------------------------------------

  /** `nvcc` on the search path, then at the two usual install locations. */
  const NvccProbes: seq<Strategy> := [
    Strategy(Command("nvcc --version"), Nvcc),
    Strategy(Command("/usr/local/cuda/bin/nvcc --version"), Nvcc),
    Strategy(Command("/opt/cuda/bin/nvcc --version"), Nvcc)
  ]

  /** `version.txt` is read on Linux only. */
  function VersionFileProbes(platform: Platform): seq<Strategy>
  {
    if platform == Linux then [Strategy(Command("cat /usr/local/cuda/version.txt"), VersionFile)] else []
  }

  const ToolkitBuildInfoProbes: seq<Strategy> :=
    PythonProbes(TorchCudaCode, BuildInfo) + PythonProbes(TensorFlowCudaCode, BuildInfo)

  /** A path in double quotes, as `format!("\"{}\"", path.display())`. */
  function Quoted(path: string): string
  {
    "\"" + path + "\""
  }

  /** The command for an `nvcc` found in a PATH directory: quoted on Windows, bare
      on Linux; other platforms do not search PATH. */
  function PathNvccProbes(platform: Platform, found: seq<string>): (r: seq<Strategy>)
    ensures platform == MacOS ==> r == []
    ensures platform != MacOS ==> |r| == |found|
    ensures platform == Linux ==> forall i :: 0 <= i < |r| ==> r[i] == Strategy(Command(found[i] + " --version"), NvccRelease)
    ensures platform == Windows ==> forall i :: 0 <= i < |r| ==> r[i] == Strategy(Command(Quoted(found[i]) + " --version"), NvccRelease)
  {
    match platform
    case Linux => seq(|found|, i requires 0 <= i < |found| => Strategy(Command(found[i] + " --version"), NvccRelease))
    case Windows => seq(|found|, i requires 0 <= i < |found| => Strategy(Command(Quoted(found[i]) + " --version"), NvccRelease))
    case MacOS => []
  }

  /** The command for an `nvcc` found by walking the install directories (Linux
      and Windows only), always quoted. */
  function WalkNvccProbes(platform: Platform, found: seq<string>): (r: seq<Strategy>)
    ensures platform == MacOS ==> r == []
    ensures platform != MacOS ==> |r| == |found|
    ensures platform != MacOS ==> forall i :: 0 <= i < |r| ==> r[i] == Strategy(Command(Quoted(found[i]) + " --version"), NvccRelease)
  {
    if platform == MacOS then []
    else seq(|found|, i requires 0 <= i < |found| => Strategy(Command(Quoted(found[i]) + " --version"), NvccRelease))
  }

  /** Probes that need no search of the file system. */
  function FixedToolkitProbes(platform: Platform): seq<Strategy>
  {
    NvccProbes + VersionFileProbes(platform) + ToolkitBuildInfoProbes
  }

  function ToolkitProbes(platform: Platform, pathNvcc: seq<string>, walkNvcc: seq<string>): seq<Strategy>
  {
    FixedToolkitProbes(platform) + PathNvccProbes(platform, pathNvcc) + WalkNvccProbes(platform, walkNvcc)
  }

  /** The toolkit probes in order: the three nvcc commands read with both
      patterns, `version.txt` on Linux only, the four Python build-info queries
      (PyTorch, then TensorFlow, each with `python` then `python3`), then every
      nvcc found on PATH, then every nvcc the directory walk finds. */
  lemma ToolkitProbeOrder(platform: Platform, pathNvcc: seq<string>, walkNvcc: seq<string>)
    ensures var probes := ToolkitProbes(platform, pathNvcc, walkNvcc);
      var v := if platform == Linux then 1 else 0;
      var path := PathNvccProbes(platform, pathNvcc);
      && |probes| == 7 + v + |path| + |WalkNvccProbes(platform, walkNvcc)|
      && probes[..3] == [
           Strategy(Command("nvcc --version"), Nvcc),
           Strategy(Command("/usr/local/cuda/bin/nvcc --version"), Nvcc),
           Strategy(Command("/opt/cuda/bin/nvcc --version"), Nvcc)]
      && (platform == Linux ==> probes[3] == Strategy(Command("cat /usr/local/cuda/version.txt"), VersionFile))
      && probes[3 + v..7 + v] == [
           Strategy(Command(PythonCommand("python", "import torch; print(torch.version.cuda)")), BuildInfo),
           Strategy(Command(PythonCommand("python3", "import torch; print(torch.version.cuda)")), BuildInfo),
           Strategy(Command(PythonCommand("python", "import tensorflow as tf; print(tf.sysconfig.get_build_info()['cuda_version'])")), BuildInfo),
           Strategy(Command(PythonCommand("python3", "import tensorflow as tf; print(tf.sysconfig.get_build_info()['cuda_version'])")), BuildInfo)]
      && probes[7 + v..7 + v + |path|] == path
      && probes[7 + v + |path|..] == WalkNvccProbes(platform, walkNvcc)
  {
    var fixed := FixedToolkitProbes(platform);
    var v := if platform == Linux then 1 else 0;
    assert |fixed| == 7 + v;
    assert fixed[..3] == NvccProbes;
    assert fixed[3 + v..] == ToolkitBuildInfoProbes;
  }

  /** `get_cuda_toolkit_version`. */
  function CudaToolkitVersion(host: Host, platform: Platform, pathNvcc: seq<string>, walkNvcc: seq<string>): (r: Result<string, string>)
    ensures r.Ok? ==> IsToken(r.value)
    ensures var probes := ToolkitProbes(platform, pathNvcc, walkNvcc);
      && (r.Ok? ==> exists i: nat :: IsFirstSuccess(host, probes, i) && Attempt(host, probes[i]) == Some(r.value))
      && (r.Err? <==> forall i :: 0 <= i < |probes| ==> Attempt(host, probes[i]).None?)
    ensures r.Err? ==> r.error == ToolkitNotFound
  {
    RunChain(host, ToolkitProbes(platform, pathNvcc, walkNvcc), ToolkitNotFound)
  }

  /** The plain `nvcc --version` probe comes first on every platform. */
  lemma ToolkitProbesStart(platform: Platform, pathNvcc: seq<string>, walkNvcc: seq<string>)
    ensures var probes := ToolkitProbes(platform, pathNvcc, walkNvcc);
      |probes| > 0 && probes[0] == Strategy(Command("nvcc --version"), Nvcc)
  {
    var fixed := FixedToolkitProbes(platform);
    assert fixed[0] == NvccProbes[0];
  }

  /** When `nvcc --version` prints a `release X.Y` line, that capture is the
      answer, even if a `VX.Y.Z` build string also appears. */
  lemma NvccReleaseWins(host: Host, platform: Platform, pathNvcc: seq<string>, walkNvcc: seq<string>, output: string)
    requires host.run("nvcc --version") == Ok(output)
    requires HasMatch(output, ReleasePrefix, 2)
    ensures CudaToolkitVersion(host, platform, pathNvcc, walkNvcc) == Ok(ReleaseVersion(output).value)
  {
    var s := Strategy(Command("nvcc --version"), Nvcc);
    ToolkitProbesStart(platform, pathNvcc, walkNvcc);
    AttemptDelivered(host, s, output);
    ParseNvcc(output);
    ChainHead(host, ToolkitProbes(platform, pathNvcc, walkNvcc), ReleaseVersion(output).value, ToolkitNotFound);
  }

  /** An `nvcc --version` output with only a build string is parsed by the
      second pattern. */
  lemma NvccBuildFallback(host: Host, platform: Platform, pathNvcc: seq<string>, walkNvcc: seq<string>, output: string)
    requires host.run("nvcc --version") == Ok(output)
    requires !HasMatch(output, ReleasePrefix, 2) && HasMatch(output, BuildPrefix, 3)
    ensures CudaToolkitVersion(host, platform, pathNvcc, walkNvcc) == Ok(BuildVersion(output).value)
  {
    var s := Strategy(Command("nvcc --version"), Nvcc);
    ToolkitProbesStart(platform, pathNvcc, walkNvcc);
    AttemptDelivered(host, s, output);
    ParseNvcc(output);
    ChainHead(host, ToolkitProbes(platform, pathNvcc, walkNvcc), BuildVersion(output).value, ToolkitNotFound);
  }

  /** The PATH and directory-walk candidates are tried only after every fixed
      probe found nothing. */
  lemma ToolkitSearchesLast(host: Host, platform: Platform, pathNvcc: seq<string>, walkNvcc: seq<string>)
    ensures var fixed := RunChain(host, FixedToolkitProbes(platform), ToolkitNotFound);
      CudaToolkitVersion(host, platform, pathNvcc, walkNvcc)
      == if fixed.Ok? then fixed
         else RunChain(host, PathNvccProbes(platform, pathNvcc) + WalkNvccProbes(platform, walkNvcc), ToolkitNotFound)
  {
    var fixed := FixedToolkitProbes(platform);
    var found := PathNvccProbes(platform, pathNvcc) + WalkNvccProbes(platform, walkNvcc);
    assert ToolkitProbes(platform, pathNvcc, walkNvcc) == fixed + found;
    ChainAppend(host, fixed, found, ToolkitNotFound);
  }

  /** A discovered `nvcc` is read with the release pattern only: an output with
      nothing but a build string is passed over. */
  lemma DiscoveredNvccNeedsRelease(host: Host, s: Strategy, output: string)
    requires s.parser == NvccRelease && Fetch(host, s.source) == Ok(output)
    ensures Attempt(host, s).Some? <==> HasMatch(output, ReleasePrefix, 2)
  {
  }

  // ---------------------------------------------------------------------------
  // cuDNN
  // ---------------------------------------------------------------------------

  /** Header files found by the PATH (Windows) or LD_LIBRARY_PATH (Linux) search
      and by the directory walk; macOS has no search paths. */
  function HeaderProbes(platform: Platform, headers: seq<string>): (r: seq<Strategy>)
    ensures platform == MacOS ==> r == []
    ensures platform != MacOS ==> |r| == |headers| && forall i :: 0 <= i < |r| ==> r[i] == Strategy(File(headers[i]), CudnnHeader)
  {
    if platform == MacOS then []
    else seq(|headers|, i requires 0 <= i < |headers| => Strategy(File(headers[i]), CudnnHeader))
  }

  const CudnnBuildInfoProbes: seq<Strategy> :=
    PythonProbes(TorchCudnnCode, BuildInfo) + PythonProbes(TensorFlowCudnnCode, BuildInfo)

  function CudnnProbes(platform: Platform, headers: seq<string>): seq<Strategy>
  {
    HeaderProbes(platform, headers) + CudnnBuildInfoProbes
  }

  /** The cuDNN probes in order: every header candidate, then the four Python
      build-info queries (PyTorch, then TensorFlow, each with `python` then
      `python3`). */
  lemma CudnnProbeOrder(platform: Platform, headers: seq<string>)
    ensures var probes := CudnnProbes(platform, headers);
      var h := HeaderProbes(platform, headers);
      && |probes| == |h| + 4
      && probes[..|h|] == h
      && probes[|h|..] == [
           Strategy(Command(PythonCommand("python", "import torch; print(torch.backends.cudnn.version())")), BuildInfo),
           Strategy(Command(PythonCommand("python3", "import torch; print(torch.backends.cudnn.version())")), BuildInfo),
           Strategy(Command(PythonCommand("python", "import tensorflow as tf; print(tf.sysconfig.get_build_info()['cudnn_version'])")), BuildInfo),
           Strategy(Command(PythonCommand("python3", "import tensorflow as tf; print(tf.sysconfig.get_build_info()['cudnn_version'])")), BuildInfo)]
  {
    var h := HeaderProbes(platform, headers);
    assert CudnnProbes(platform, headers)[|h|..] == CudnnBuildInfoProbes;
  }

  /** `get_cudnn_version`. */
  function CudnnVersion(host: Host, platform: Platform, headers: seq<string>): (r: Result<string, string>)
    ensures r.Ok? ==> IsToken(r.value)
    ensures var probes := CudnnProbes(platform, headers);
      && (r.Ok? ==> exists i: nat :: IsFirstSuccess(host, probes, i) && Attempt(host, probes[i]) == Some(r.value))
      && (r.Err? <==> forall i :: 0 <= i < |probes| ==> Attempt(host, probes[i]).None?)
    ensures r.Err? ==> r.error == CudnnNotFound
  {
    RunChain(host, CudnnProbes(platform, headers), CudnnNotFound)
  }

  /** The first header that reads and parses decides the version; the Python
      probes are not consulted. */
  lemma CudnnHeaderWins(host: Host, platform: Platform, headers: seq<string>, k: nat, content: string, v: string)
    requires platform != MacOS && k < |headers|
    requires forall j :: 0 <= j < k ==> Attempt(host, Strategy(File(headers[j]), CudnnHeader)).None?
    requires host.read(headers[k]) == Ok(content) && CudnnHeaderVersion(content) == Some(v)
    ensures CudnnVersion(host, platform, headers) == Ok(v)
  {
    var hp := HeaderProbes(platform, headers);
    assert CudnnProbes(platform, headers) == hp + CudnnBuildInfoProbes;
    ChainAppend(host, hp, CudnnBuildInfoProbes, CudnnNotFound);
    forall j | 0 <= j < k
      ensures Attempt(host, hp[j]).None?
    {
    }
    assert hp[k] == Strategy(File(headers[k]), CudnnHeader);
    AttemptDelivered(host, hp[k], content);
    ParseHeader(content);
    assert IsFirstSuccess(host, hp, k);
    ChainFirstSuccess(host, hp, k, CudnnNotFound);
    assert RunChain(host, hp, CudnnNotFound) == Ok(v);
  }

  /** On macOS no header is ever read. */
  lemma CudnnMacOSIgnoresHeaders(host: Host, headers: seq<string>)
    ensures CudnnVersion(host, MacOS, headers) == CudnnVersion(host, MacOS, [])
  {
  }
}
