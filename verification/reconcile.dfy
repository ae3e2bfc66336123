/** `compare_versions` and `compare_environments`: the reconciliation of the
    current snapshot with an imported one. The report that the program prints
    is modelled as data: one classified outcome per version field, in the
    program's fixed order, plus the system and import details it shows. */
module Reconcile {
  import opened Wrappers
  import opened Snapshot

  /** The five cases `compare_versions` prints, with the versions it shows. */
  datatype Outcome =
    | Match(version: string)
    | Mismatch(current: string, imported: string)
    | LocalOnly(current: string)    // "not in import"
    | RemoteOnly(imported: string)  // "missing locally"
    | BothAbsent                    // "Not available in either"

  /** The current-side version an outcome reports. */
  function CurrentSide(o: Outcome): Option<string>
  {
    match o
    case Match(v) => Some(v)
    case Mismatch(c, _) => Some(c)
    case LocalOnly(c) => Some(c)
    case RemoteOnly(_) => None
    case BothAbsent => None
  }

  /** The imported-side version an outcome reports. */
  function ImportedSide(o: Outcome): Option<string>
  {
    match o
    case Match(v) => Some(v)
    case Mismatch(_, i) => Some(i)
    case LocalOnly(_) => None
    case RemoteOnly(i) => Some(i)
    case BothAbsent => None
  }

  /** A mismatch always names two different versions. */
  predicate Valid(o: Outcome)
  {
    o.Mismatch? ==> o.current != o.imported
  }

  /** `compare_versions`: exact string equality decides Match against Mismatch. */
  function CompareVersions(current: Option<string>, imported: Option<string>): (o: Outcome)
    ensures o.Match? <==> current.Some? && imported == current
    ensures o.Mismatch? <==> current.Some? && imported.Some? && current != imported
    ensures o.LocalOnly? <==> current.Some? && imported.None?
    ensures o.RemoteOnly? <==> current.None? && imported.Some?
    ensures o.BothAbsent? <==> current.None? && imported.None?
    ensures Valid(o) && CurrentSide(o) == current && ImportedSide(o) == imported
  {
    match (current, imported)
    case (Some(c), Some(i)) => if c == i then Match(c) else Mismatch(c, i)
    case (Some(c), None) => LocalOnly(c)
    case (None, Some(i)) => RemoteOnly(i)
    case (None, None) => BothAbsent
  }

  /** Classification loses nothing: every valid outcome is the classification
      of the two versions it reports. */
  lemma CompareVersionsOfSides(o: Outcome)
    requires Valid(o)
    ensures CompareVersions(CurrentSide(o), ImportedSide(o)) == o
  {
  }

  /** The outcome seen from the other side. */
  function Swap(o: Outcome): (s: Outcome)
    ensures CurrentSide(s) == ImportedSide(o) && ImportedSide(s) == CurrentSide(o)
  {
    match o
    case Match(v) => Match(v)
    case Mismatch(c, i) => Mismatch(i, c)
    case LocalOnly(c) => RemoteOnly(c)
    case RemoteOnly(i) => LocalOnly(i)
    case BothAbsent => BothAbsent
  }

  /** Swapping the arguments swaps LocalOnly with RemoteOnly, swaps the two
      versions of a Mismatch and leaves Match and BothAbsent alone. */
  lemma CompareVersionsSwap(current: Option<string>, imported: Option<string>)
    ensures CompareVersions(imported, current) == Swap(CompareVersions(current, imported))
  {
    var o := CompareVersions(current, imported);
    CompareVersionsOfSides(Swap(o));
  }

  /** The component labels, in the order the comparison prints them. */
  const Components: seq<string> := ["Driver", "CUDA", "cuDNN", "TensorFlow", "PyTorch"]

  datatype Entry = Entry(component: string, outcome: Outcome)

  datatype Report = Report(
    currentOs: string,
    currentArch: string,
    importedOs: string,
    importedArch: string,
    osDiffers: bool,
    cuda: seq<Entry>,          // Driver, CUDA, cuDNN
    frameworks: seq<Entry>,    // TensorFlow, PyTorch
    exportedAt: string,
    importedHostname: string)

  function Entries(r: Report): seq<Entry>
  {
    r.cuda + r.frameworks
  }

  /** `compare_environments`. */
  function CompareEnvironments(current: EnvironmentConfig, imported: EnvironmentConfig): (r: Report)
    ensures r.currentOs == current.systemInfo.os && r.currentArch == current.systemInfo.arch
    ensures r.importedOs == imported.systemInfo.os && r.importedArch == imported.systemInfo.arch
    ensures r.osDiffers <==> current.systemInfo.os != imported.systemInfo.os
    ensures |r.cuda| == 3 && |r.frameworks| == 2
    ensures forall k :: 0 <= k < |Entries(r)| ==>
              Entries(r)[k] == Entry(Components[k], CompareVersions(Versions(current)[k], Versions(imported)[k]))
    ensures r.exportedAt == imported.timestamp && r.importedHostname == imported.hostname
  {
    var cuda := [
      Entry("Driver", CompareVersions(current.cudaInfo.driverVersion, imported.cudaInfo.driverVersion)),
      Entry("CUDA", CompareVersions(current.cudaInfo.cudaVersion, imported.cudaInfo.cudaVersion)),
      Entry("cuDNN", CompareVersions(current.cudaInfo.cudnnVersion, imported.cudaInfo.cudnnVersion))
    ];
    var frameworks := [
      Entry("TensorFlow", CompareVersions(current.frameworks.tensorflow, imported.frameworks.tensorflow)),
      Entry("PyTorch", CompareVersions(current.frameworks.pytorch, imported.frameworks.pytorch))
    ];
    Report(current.systemInfo.os, current.systemInfo.arch, imported.systemInfo.os, imported.systemInfo.arch,
           current.systemInfo.os != imported.systemInfo.os, cuda, frameworks,
           imported.timestamp, imported.hostname)
  }

  /** Both snapshots' versions can be read back from the report. */
  lemma ReportRecoversVersions(current: EnvironmentConfig, imported: EnvironmentConfig)
    ensures var es := Entries(CompareEnvironments(current, imported));
      forall k :: 0 <= k < |es| ==>
        CurrentSide(es[k].outcome) == Versions(current)[k] && ImportedSide(es[k].outcome) == Versions(imported)[k]
  {
  }

  /** A snapshot compared with itself shows only matches and absences, and no
      operating-system warning. */
  lemma SelfComparison(c: EnvironmentConfig)
    ensures var r := CompareEnvironments(c, c);
      && !r.osDiffers
      && forall k :: 0 <= k < |Entries(r)| ==> Entries(r)[k].outcome.Match? || Entries(r)[k].outcome.BothAbsent?
  {
  }

  /** Comparing the other way round swaps every outcome and keeps the labels. */
  lemma CompareEnvironmentsSwap(a: EnvironmentConfig, b: EnvironmentConfig)
    ensures var ab := Entries(CompareEnvironments(a, b)); var ba := Entries(CompareEnvironments(b, a));
      && |ab| == |ba|
      && forall k :: 0 <= k < |ab| ==> ba[k] == Entry(ab[k].component, Swap(ab[k].outcome))
    ensures CompareEnvironments(a, b).osDiffers == CompareEnvironments(b, a).osDiffers
  {
    var ab := Entries(CompareEnvironments(a, b));
    forall k | 0 <= k < |ab|
      ensures Entries(CompareEnvironments(b, a))[k] == Entry(ab[k].component, Swap(ab[k].outcome))
    {
      CompareVersionsSwap(Versions(a)[k], Versions(b)[k]);
    }
  }
}
