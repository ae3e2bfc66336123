/** The environment snapshot that `export_environment` writes and
    `import_environment` reads back (`EnvironmentConfig` and its parts in
    `src/lib.rs`), and `collect_environment_config`, which fills it in from the
    detectors. A detector that fails leaves its field empty. */
module Snapshot {
  import opened Wrappers
  import opened Text
  import opened Parsers
  import opened Chain
  import opened Detection
  import opened Hardware

  /** `total_memory_gb` is not modelled. */
  datatype SystemInfo = SystemInfo(os: string, arch: string, cpu: string, pythonVersion: Option<string>)

  /** `memory` is the MiB column as printed, before the conversion to GiB. */
  datatype GpuInfo = GpuInfo(name: string, memory: string, computeCapability: Option<string>)

  datatype CudaInfo = CudaInfo(
    driverVersion: Option<string>,
    cudaVersion: Option<string>,
    cudnnVersion: Option<string>,
    gpus: seq<GpuInfo>)

  datatype FrameworkInfo = FrameworkInfo(tensorflow: Option<string>, pytorch: Option<string>)

  /** `timestamp` is the export time, already formatted. */
  datatype EnvironmentConfig = EnvironmentConfig(
    systemInfo: SystemInfo,
    cudaInfo: CudaInfo,
    frameworks: FrameworkInfo,
    timestamp: string,
    hostname: string)

  /** What collection reads from the machine: command output and files through
      the host, the platform, the candidate files a search would find, and the
      facts `sysinfo`, `std::env::consts` and the clock supply. */
  datatype Machine = Machine(
    host: Host,
    platform: Platform,
    pathNvcc: seq<string>,
    walkNvcc: seq<string>,
    cudnnHeaders: seq<string>,
    osName: string,
    osVersion: string,
    arch: string,
    cpu: string,
    hostname: string,
    now: string)

  /** The fields that are versions, in the order they are compared. */
  function Versions(c: EnvironmentConfig): seq<Option<string>>
  {
    [c.cudaInfo.driverVersion, c.cudaInfo.cudaVersion, c.cudaInfo.cudnnVersion,
     c.frameworks.tensorflow, c.frameworks.pytorch]
  }

  function GpuInfoOf(row: GpuRow): GpuInfo
  {
    GpuInfo(row.name, row.memory, None)
  }

  /** `v` is what the fallback chain over `probes` finds: the version of the
      first probe that yields one, or nothing when none does. */
  ghost predicate RecordsFirst(host: Host, probes: seq<Strategy>, v: Option<string>)
  {
    && (v.Some? ==> exists i: nat :: IsFirstSuccess(host, probes, i) && Attempt(host, probes[i]) == v)
    && (v.None? <==> forall i :: 0 <= i < |probes| ==> Attempt(host, probes[i]).None?)
  }

  /** The framework half of `collect_environment_config`. */
  function CollectFrameworks(host: Host): (f: FrameworkInfo)
    ensures f.tensorflow.Some? ==> IsToken(f.tensorflow.value)
    ensures RecordsFirst(host, TensorFlowProbes, f.tensorflow)
    ensures f.pytorch.Some? ==> IsToken(f.pytorch.value)
    ensures RecordsFirst(host, PyTorchProbes, f.pytorch)
  {
    FrameworkInfo(TensorFlowVersion(host).ToOption(), PyTorchVersion(host).ToOption())
  }

  /** The CUDA half of `collect_environment_config`. */
  function CollectCudaInfo(m: Machine): (ci: CudaInfo)
    ensures ci.driverVersion.Some? <==> m.host.run(DriverQuery).Ok?
    ensures m.host.run(DriverQuery).Ok? ==> ci.driverVersion.value == m.host.run(DriverQuery).value
    ensures ci.cudaVersion.Some? ==> IsToken(ci.cudaVersion.value)
    ensures RecordsFirst(m.host, ToolkitProbes(m.platform, m.pathNvcc, m.walkNvcc), ci.cudaVersion)
    ensures ci.cudnnVersion.Some? ==> IsToken(ci.cudnnVersion.value)
    ensures RecordsFirst(m.host, CudnnProbes(m.platform, m.cudnnHeaders), ci.cudnnVersion)
    ensures m.host.run(GpuQuery).Err? ==> ci.gpus == []
    ensures |ci.gpus| == |GpuList(m.host)|
    ensures forall k :: 0 <= k < |ci.gpus| ==>
      && ci.gpus[k].name == GpuList(m.host)[k].name
      && ci.gpus[k].memory == GpuList(m.host)[k].memory
      && ci.gpus[k].computeCapability.None?
  {
    CudaInfo(
      m.host.run(DriverQuery).ToOption(),
      CudaToolkitVersion(m.host, m.platform, m.pathNvcc, m.walkNvcc).ToOption(),
      CudnnVersion(m.host, m.platform, m.cudnnHeaders).ToOption(),
      GpuInfos(m.host))
  }

  /** The GPU list, with no compute capability recorded. */
  function GpuInfos(host: Host): (gpus: seq<GpuInfo>)
    ensures host.run(GpuQuery).Err? ==> gpus == []
    ensures |gpus| == |GpuList(host)|
    ensures forall k :: 0 <= k < |gpus| ==>
      && gpus[k].name == GpuList(host)[k].name
      && gpus[k].memory == GpuList(host)[k].memory
      && gpus[k].computeCapability.None?
    ensures forall k :: 0 <= k < |gpus| ==> IsCell(gpus[k].name) && IsCell(gpus[k].memory)
  {
    var rows := GpuList(host);
    seq(|rows|, k requires 0 <= k < |rows| => GpuInfoOf(rows[k]))
  }

  /** The system half of `collect_environment_config`. */
  function CollectSystemInfo(m: Machine): (si: SystemInfo)
    ensures si.os == m.osName + " " + m.osVersion
    ensures si.arch == m.arch && si.cpu == m.cpu
    ensures si.pythonVersion.Some? ==> IsTrimmed(si.pythonVersion.value)
    ensures si.pythonVersion.None? <==> m.host.run("python --version").Err? && m.host.run("python3 --version").Err?
    ensures m.host.run("python --version").Ok? ==> si.pythonVersion == Some(Trim(m.host.run("python --version").value))
    ensures m.host.run("python --version").Err? && m.host.run("python3 --version").Ok? ==>
      si.pythonVersion == Some(Trim(m.host.run("python3 --version").value))
  {
    SystemInfo(m.osName + " " + m.osVersion, m.arch, m.cpu, PythonVersion(m.host))
  }

  /** Every recorded version except the driver's is a normalized token. */
  predicate DetectedAreTokens(c: EnvironmentConfig)
  {
    && (c.cudaInfo.cudaVersion.Some? ==> IsToken(c.cudaInfo.cudaVersion.value))
    && (c.cudaInfo.cudnnVersion.Some? ==> IsToken(c.cudaInfo.cudnnVersion.value))
    && (c.frameworks.tensorflow.Some? ==> IsToken(c.frameworks.tensorflow.value))
    && (c.frameworks.pytorch.Some? ==> IsToken(c.frameworks.pytorch.value))
  }

  /** `collect_environment_config`: every version it records, except the
      driver's raw query output, is a normalized token. */
  function CollectEnvironmentConfig(m: Machine): (c: EnvironmentConfig)
    ensures DetectedAreTokens(c)
    ensures c.systemInfo.os == m.osName + " " + m.osVersion
    ensures c.systemInfo.arch == m.arch && c.systemInfo.cpu == m.cpu
    ensures c.systemInfo.pythonVersion.None? <==> m.host.run("python --version").Err? && m.host.run("python3 --version").Err?
    ensures c.systemInfo.pythonVersion.Some? ==> IsTrimmed(c.systemInfo.pythonVersion.value)
    ensures m.host.run("python --version").Ok? ==>
      c.systemInfo.pythonVersion == Some(Trim(m.host.run("python --version").value))
    ensures m.host.run("python --version").Err? && m.host.run("python3 --version").Ok? ==>
      c.systemInfo.pythonVersion == Some(Trim(m.host.run("python3 --version").value))
    ensures c.cudaInfo.driverVersion.Some? <==> m.host.run(DriverQuery).Ok?
    ensures m.host.run(DriverQuery).Ok? ==> c.cudaInfo.driverVersion.value == m.host.run(DriverQuery).value
    ensures RecordsFirst(m.host, ToolkitProbes(m.platform, m.pathNvcc, m.walkNvcc), c.cudaInfo.cudaVersion)
    ensures RecordsFirst(m.host, CudnnProbes(m.platform, m.cudnnHeaders), c.cudaInfo.cudnnVersion)
    ensures |c.cudaInfo.gpus| == |GpuList(m.host)|
    ensures forall k :: 0 <= k < |c.cudaInfo.gpus| ==>
      && c.cudaInfo.gpus[k].name == GpuList(m.host)[k].name
      && c.cudaInfo.gpus[k].memory == GpuList(m.host)[k].memory
      && c.cudaInfo.gpus[k].computeCapability.None?
    ensures RecordsFirst(m.host, TensorFlowProbes, c.frameworks.tensorflow)
    ensures RecordsFirst(m.host, PyTorchProbes, c.frameworks.pytorch)
    ensures c.timestamp == m.now && c.hostname == m.hostname
  {
    var ci := CollectCudaInfo(m);
    var f := CollectFrameworks(m.host);
    EnvironmentConfig(CollectSystemInfo(m), ci, f, m.now, m.hostname)
  }
}
