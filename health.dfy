/**
 * scripts/health-check.js: four checks of the application checkout, a
 * report summarising them, the report saved under `reports/`, and an exit
 * code. Loading a dependency (`require`) and parsing a script
 * (`new Function`) are the oracles `loadable` and `parses`; decoding a file
 * as UTF-8, `JSON.parse` of `package.json` and `JSON.stringify` of the
 * report are the parameters `utf8`, `parse` and `stringify`; the two
 * readings of the clock are the ISO strings `stampIso` and `nameIso`.
 */
module Health {
  import opened Fs
  import opened Text
  import opened Wrappers

  const SrcPath: Path := ["src"]
  const PublicPath: Path := ["public"]
  const PackageJson: Path := ["package.json"]
  const RunJs: Path := ["run.js"]

  /** What `checkFileSystem` requires to exist, in this order. */
  const RequiredPaths: seq<Path> := [SrcPath, PublicPath, PackageJson, RunJs]

  /** The scripts `checkApplicationLogic` parses, in this order. */
  const MainFiles: seq<Path> := [RunJs, ["src", "satellite.js"], ["src", "iridium.js"], ["src", "utils.js"]]

  const DataDir: Path := ["public", "data"]
  const ReportsDir: Path := ["reports"]

  // ---------------------------------------------------------- file system

  /** The paths among `paths` that do not exist in `t`, in their order. */
  function Absent(t: Tree, paths: seq<Path>): seq<Path> {
    if paths == [] then []
    else
      var pre := Absent(t, paths[..|paths| - 1]);
      var p := paths[|paths| - 1];
      if p in t then pre else pre + [p]
  }

  lemma {:induction false} AbsentMembers(t: Tree, paths: seq<Path>)
    ensures forall p :: p in Absent(t, paths) <==> p in paths && p !in t
  {
    if paths != [] {
      var pre := paths[..|paths| - 1];
      assert paths == pre + [paths[|paths| - 1]];
      AbsentMembers(t, pre);
    }
  }

  /** Every required path exists, a file or a directory. */
  predicate FileSystemOk(t: Tree) {
    forall p | p in RequiredPaths :: p in t
  }

  /** `checkFileSystem()`: collects the required paths that are missing, in
      order, and passes when there are none. */
  method CheckFileSystem(disk: Disk) returns (ok: bool, missing: seq<Path>)
    ensures missing == Absent(disk.tree, RequiredPaths)
    ensures forall p :: p in missing <==> p in RequiredPaths && p !in disk.tree
    ensures ok <==> FileSystemOk(disk.tree)
  {
    missing := [];
    for i := 0 to |RequiredPaths|
      invariant missing == Absent(disk.tree, RequiredPaths[..i])
    {
      var p := RequiredPaths[i];
      assert RequiredPaths[..i + 1][..i] == RequiredPaths[..i];
      if p !in disk.tree {
        missing := missing + [p];
      }
    }
    assert RequiredPaths[..|RequiredPaths|] == RequiredPaths;
    AbsentMembers(disk.tree, RequiredPaths);
    ok := |missing| == 0;
    if !ok {
      assert missing[0] in missing;
    }
  }

  // --------------------------------------------------------- dependencies

  /** The part of `package.json` the check reads: the names of the
      `dependencies` object, absent when the manifest has none. */
  datatype Manifest = Manifest(dependencies: Option<seq<string>>)

  /** `Object.keys(packageJson.dependencies || {})`. */
  function DependencyNames(m: Manifest): seq<string> {
    match m.dependencies
    case None => []
    case Some(names) => names
  }

  /** `package.json` is a readable file that parses, and every dependency
      it names loads. */
  predicate DependenciesOk(t: Tree, utf8: Bytes -> string, parse: string -> Option<Manifest>,
                           loadable: string -> bool) {
    && IsFile(t, PackageJson)
    && parse(utf8(t[PackageJson].data)).Some?
    && forall d | d in DependencyNames(parse(utf8(t[PackageJson].data)).value) :: loadable(d)
  }

  /** `checkDependencies()`: reading or parsing `package.json` failing fails
      the check; otherwise every dependency is tried, and one that does not
      load fails it. */
  method CheckDependencies(disk: Disk, utf8: Bytes -> string, parse: string -> Option<Manifest>,
                           loadable: string -> bool) returns (ok: bool)
    ensures ok <==> DependenciesOk(disk.tree, utf8, parse, loadable)
  {
    if !IsFile(disk.tree, PackageJson) {
      return false;
    }
    var manifest := parse(utf8(disk.tree[PackageJson].data));
    if manifest.None? {
      return false;
    }
    var deps := DependencyNames(manifest.value);
    ok := true;
    for i := 0 to |deps|
      invariant ok <==> forall j | 0 <= j < i :: loadable(deps[j])
    {
      if !loadable(deps[i]) {
        ok := false;
      }
    }
  }

  /** Without `package.json` both the file-system check and the dependency
      check fail. */
  lemma MissingManifestFailsTwice(t: Tree, utf8: Bytes -> string, parse: string -> Option<Manifest>,
                                  loadable: string -> bool)
    requires PackageJson !in t
    ensures !FileSystemOk(t) && !DependenciesOk(t, utf8, parse, loadable)
    ensures Absent(t, RequiredPaths) != []
  {
    assert PackageJson in RequiredPaths;
    AbsentMembers(t, RequiredPaths);
  }

  // ---------------------------------------------------- application logic

  /** A main file passes when it is missing, or is a file whose text parses
      (reading a directory throws and fails it). */
  predicate Examined(t: Tree, f: Path, utf8: Bytes -> string, parses: string -> bool) {
    f in t ==> IsFile(t, f) && parses(utf8(t[f].data))
  }

  predicate AppLogicOk(t: Tree, utf8: Bytes -> string, parses: string -> bool) {
    forall f | f in MainFiles :: Examined(t, f, utf8, parses)
  }

  /** `checkApplicationLogic()`: every main file that exists must parse; one
      that does not exist is skipped. */
  method CheckApplicationLogic(disk: Disk, utf8: Bytes -> string, parses: string -> bool) returns (ok: bool)
    ensures ok <==> AppLogicOk(disk.tree, utf8, parses)
    ensures (forall f | f in MainFiles :: f !in disk.tree) ==> ok
  {
    ok := true;
    for i := 0 to |MainFiles|
      invariant ok <==> forall j | 0 <= j < i :: Examined(disk.tree, MainFiles[j], utf8, parses)
    {
      var f := MainFiles[i];
      if f in disk.tree {
        if !IsFile(disk.tree, f) || !parses(utf8(disk.tree[f].data)) {
          ok := false;
        }
      }
    }
    if !ok {
      var j :| 0 <= j < |MainFiles| && !Examined(disk.tree, MainFiles[j], utf8, parses);
      assert MainFiles[j] in MainFiles;
    }
  }

  /** The check is decided by the main files that exist: two trees that
      agree on those pass or fail together. */
  lemma OnlyPresentFilesMatter(t: Tree, u: Tree, utf8: Bytes -> string, parses: string -> bool)
    requires forall f | f in MainFiles && f in t :: f in u && u[f] == t[f]
    requires forall f | f in MainFiles && f in u :: f in t
    ensures AppLogicOk(t, utf8, parses) <==> AppLogicOk(u, utf8, parses)
  {
    forall f | f in MainFiles ensures Examined(t, f, utf8, parses) <==> Examined(u, f, utf8, parses) {
      if f in t {
        assert f in u && u[f] == t[f];
      }
    }
  }

  // ------------------------------------------------------- data directory

  /** `checkDataDirectory()`: a missing directory is normal and an empty one
      is fine; only listing a path that is a file fails. */
  function CheckDataDirectory(t: Tree): (ok: bool)
    ensures ok <==> !IsFile(t, DataDir)
    ensures DataDir !in t ==> ok
    ensures IsDir(t, DataDir) && t[DataDir].listing == [] ==> ok
  {
    if DataDir !in t then true
    else t[DataDir].Dir?
  }

  // --------------------------------------------------------------- report

  datatype Check = Check(name: string, result: bool)
  datatype CheckLine = CheckLine(name: string, status: string)
  datatype Summary = Summary(total: nat, passed: nat, failed: nat)
  datatype HealthReport = HealthReport(timestamp: string, status: string, checks: seq<CheckLine>, summary: Summary)

  const Healthy := "healthy"
  const Unhealthy := "unhealthy"
  const Pass := "pass"
  const Fail := "fail"

  /** `checks.filter(check => check.result).length`. */
  function Passed(checks: seq<Check>): nat {
    if checks == [] then 0 else (if checks[0].result then 1 else 0) + Passed(checks[1..])
  }

  /** `checks.filter(check => !check.result).length`. */
  function Failed(checks: seq<Check>): nat {
    if checks == [] then 0 else (if checks[0].result then 0 else 1) + Failed(checks[1..])
  }

  /** `checks.every(check => check.result)`. */
  predicate AllPassed(checks: seq<Check>) {
    forall i | 0 <= i < |checks| :: checks[i].result
  }

  function Line(c: Check): CheckLine {
    CheckLine(c.name, if c.result then Pass else Fail)
  }

  /** The report `generateHealthReport` builds from its checks. */
  function BuildReport(timestamp: string, checks: seq<Check>): HealthReport {
    HealthReport(timestamp,
                 if AllPassed(checks) then Healthy else Unhealthy,
                 seq(|checks|, i requires 0 <= i < |checks| => Line(checks[i])),
                 Summary(|checks|, Passed(checks), Failed(checks)))
  }

  /** Every check counts once, as passed or as failed. */
  lemma {:induction false} PassedPlusFailed(checks: seq<Check>)
    ensures Passed(checks) + Failed(checks) == |checks|
  {
    if checks != [] {
      PassedPlusFailed(checks[1..]);
    }
  }

  /** All checks passed exactly when the passed count is the total. */
  lemma {:induction false} PassedAllIff(checks: seq<Check>)
    ensures Passed(checks) <= |checks|
    ensures Passed(checks) == |checks| <==> AllPassed(checks)
  {
    if checks != [] {
      PassedAllIff(checks[1..]);
      if AllPassed(checks) {
        assert AllPassed(checks[1..]) by {
          forall i | 0 <= i < |checks| - 1 ensures checks[1..][i].result {
            assert checks[1..][i] == checks[i + 1];
          }
        }
      }
      if Passed(checks) == |checks| {
        assert checks[0].result;
        forall i | 0 <= i < |checks| ensures checks[i].result {
          if i > 0 {
            assert checks[i] == checks[1..][i - 1];
          }
        }
      }
    }
  }

  /** The report mirrors its checks: one line per check, in order, `pass`
      exactly for a passing one; the summary adds up; the status is healthy
      exactly when every check passed, that is, when none failed. */
  lemma ReportMirrorsChecks(timestamp: string, checks: seq<Check>)
    ensures var r := BuildReport(timestamp, checks);
      && |r.checks| == |checks|
      && (forall i | 0 <= i < |checks| :: r.checks[i].name == checks[i].name
                                          && (r.checks[i].status == Pass <==> checks[i].result))
      && r.summary.total == |checks|
      && r.summary.passed + r.summary.failed == r.summary.total
      && (r.status == Healthy <==> AllPassed(checks))
      && (r.status == Healthy <==> r.summary.passed == r.summary.total)
      && (r.status == Healthy <==> r.summary.failed == 0)
  {
    PassedPlusFailed(checks);
    PassedAllIff(checks);
  }

  /** The four checks, run in this order. */
  function Checks(t: Tree, utf8: Bytes -> string, parse: string -> Option<Manifest>,
                  loadable: string -> bool, parses: string -> bool): seq<Check>
  {
    [ Check("File System", FileSystemOk(t)),
      Check("Dependencies", DependenciesOk(t, utf8, parse, loadable)),
      Check("Application Logic", AppLogicOk(t, utf8, parses)),
      Check("Data Directory", CheckDataDirectory(t)) ]
  }

  /** The report has four checks, named in the fixed order, and is healthy
      exactly when all four pass. */
  lemma FourChecks(t: Tree, timestamp: string, utf8: Bytes -> string, parse: string -> Option<Manifest>,
                   loadable: string -> bool, parses: string -> bool)
    ensures var r := BuildReport(timestamp, Checks(t, utf8, parse, loadable, parses));
      && r.summary.total == 4
      && r.summary.passed + r.summary.failed == 4
      && |r.checks| == 4
      && r.checks[0].name == "File System" && r.checks[1].name == "Dependencies"
      && r.checks[2].name == "Application Logic" && r.checks[3].name == "Data Directory"
      && (r.status == Healthy <==>
            FileSystemOk(t) && DependenciesOk(t, utf8, parse, loadable)
            && AppLogicOk(t, utf8, parses) && !IsFile(t, DataDir))
  {
    var checks := Checks(t, utf8, parse, loadable, parses);
    ReportMirrorsChecks(timestamp, checks);
    assert AllPassed(checks) <==> checks[0].result && checks[1].result && checks[2].result && checks[3].result;
  }

  // ------------------------------------------------------------ save, main

  /** `health-check-<date>.json`, the date being the part of the ISO time before `T`. */
  function ReportName(iso: string): (r: Name)
    ensures |r| >= 18 && StartsWith(r, "health-check-") && EndsWith(r, ".json")
    ensures var date := r[13..|r| - 5];
      date <= iso && 'T' !in date && (|date| < |iso| ==> iso[|date|] == 'T')
  {
    "health-check-" + BeforeFirst(iso, 'T') + ".json"
  }

  /** The tree after `reports/` is created when missing. */
  function WithReportsDir(t: Tree, now: int): (r: Tree)
    requires Valid(t)
    ensures Valid(r)
    ensures ReportsDir in r
    ensures ReportsDir in t ==> r == t
  {
    if ReportsDir in t then t
    else
      var root: Path := [];
      assert root in t && t[root].Dir?;
      assert root + ["reports"] == ReportsDir;
      PutValid(t, root, "reports", Dir([], now));
      Put(t, root, "reports", Dir([], now))
  }

  /** Whether the report could be written, and the tree left behind. */
  datatype Saved = Saved(ok: bool, tree: Tree)

  /** Saving the report: `reports/` is created when missing, then the file
      is written; writing throws when `reports` is a file or the report path
      is a directory. */
  function SaveReport(t: Tree, nameIso: string, data: Bytes, now: int): (s: Saved)
    requires Valid(t)
    ensures Valid(s.tree)
    ensures s.ok <==> !IsFile(t, ReportsDir) && !IsDir(t, ReportsDir + [ReportName(nameIso)])
    ensures s.ok ==> s.tree == Put(WithReportsDir(t, now), ReportsDir, ReportName(nameIso), File(data, now))
    ensures !s.ok ==> s.tree == WithReportsDir(t, now)
  {
    var t1 := WithReportsDir(t, now);
    var name := ReportName(nameIso);
    if IsDir(t1, ReportsDir) && !IsDir(t1, ReportsDir + [name]) then
      PutValid(t1, ReportsDir, name, File(data, now));
      Saved(true, Put(t1, ReportsDir, name, File(data, now)))
    else Saved(false, t1)
  }

  /** `generateHealthReport()`: runs the four checks, builds the report and
      saves it; `saved` is false where writing throws. */
  method GenerateHealthReport(disk: Disk, utf8: Bytes -> string, parse: string -> Option<Manifest>,
                              loadable: string -> bool, parses: string -> bool,
                              stampIso: string, nameIso: string, now: int,
                              stringify: HealthReport -> Bytes)
    returns (report: HealthReport, saved: bool)
    requires Valid(disk.tree)
    modifies disk
    ensures report == BuildReport(stampIso, Checks(old(disk.tree), utf8, parse, loadable, parses))
    ensures Saved(saved, disk.tree) == SaveReport(old(disk.tree), nameIso, stringify(report), now)
  {
    var fsOk, _ := CheckFileSystem(disk);
    var depsOk := CheckDependencies(disk, utf8, parse, loadable);
    var logicOk := CheckApplicationLogic(disk, utf8, parses);
    var dataOk := CheckDataDirectory(disk.tree);
    var checks := [ Check("File System", fsOk), Check("Dependencies", depsOk),
                    Check("Application Logic", logicOk), Check("Data Directory", dataOk) ];
    report := BuildReport(stampIso, checks);
    saved := Save(disk, nameIso, stringify(report), now);
  }

  /** The saving part of `generateHealthReport()`: `mkdirSync` of `reports`
      when it does not exist, then `writeFileSync` of the report. */
  method Save(disk: Disk, nameIso: string, data: Bytes, now: int) returns (saved: bool)
    requires Valid(disk.tree)
    modifies disk
    ensures Saved(saved, disk.tree) == SaveReport(old(disk.tree), nameIso, data, now)
  {
    if ReportsDir !in disk.tree {
      assert Parent(ReportsDir) == [] && Last(ReportsDir) == "reports";
      var made := disk.Mkdir(ReportsDir, now);
    }
    var path := ReportsDir + [ReportName(nameIso)];
    assert Parent(path) == ReportsDir && Last(path) == ReportName(nameIso);
    saved := disk.WriteFile(path, data, now);
  }

  /** How `main` ends: its exit code and the tree it leaves. */
  datatype Exit = Exit(code: int, tree: Tree)

  /** `main()`: exit code 0 when the report was saved and is healthy; 1 when
      it is unhealthy or saving it threw. */
  function HealthRun(t: Tree, utf8: Bytes -> string, parse: string -> Option<Manifest>,
                     loadable: string -> bool, parses: string -> bool,
                     stampIso: string, nameIso: string, now: int,
                     stringify: HealthReport -> Bytes): (e: Exit)
    requires Valid(t)
    ensures Valid(e.tree)
    ensures e.code == 0 || e.code == 1
  {
    var report := BuildReport(stampIso, Checks(t, utf8, parse, loadable, parses));
    var s := SaveReport(t, nameIso, stringify(report), now);
    Exit(if s.ok && report.status == Healthy then 0 else 1, s.tree)
  }

  /** `main()` over the filesystem. */
  method Run(disk: Disk, utf8: Bytes -> string, parse: string -> Option<Manifest>,
             loadable: string -> bool, parses: string -> bool,
             stampIso: string, nameIso: string, now: int,
             stringify: HealthReport -> Bytes) returns (code: int)
    requires Valid(disk.tree)
    modifies disk
    ensures Exit(code, disk.tree) == HealthRun(old(disk.tree), utf8, parse, loadable, parses,
                                               stampIso, nameIso, now, stringify)
  {
    var report, saved := GenerateHealthReport(disk, utf8, parse, loadable, parses,
                                              stampIso, nameIso, now, stringify);
    if saved && report.status == Healthy {
      return 0;
    }
    return 1;
  }

  /** The run exits with 0 exactly when all four checks pass and the report
      can be saved: `reports` is not a file and the report path not a
      directory. The saved report is then in place under `reports/`. */
  lemma ExitZeroIffHealthy(t: Tree, utf8: Bytes -> string, parse: string -> Option<Manifest>,
                           loadable: string -> bool, parses: string -> bool,
                           stampIso: string, nameIso: string, now: int,
                           stringify: HealthReport -> Bytes)
    requires Valid(t)
    ensures var e := HealthRun(t, utf8, parse, loadable, parses, stampIso, nameIso, now, stringify);
      e.code == 0 <==>
        && FileSystemOk(t) && DependenciesOk(t, utf8, parse, loadable)
        && AppLogicOk(t, utf8, parses) && !IsFile(t, DataDir)
        && !IsFile(t, ReportsDir) && !IsDir(t, ReportsDir + [ReportName(nameIso)])
    ensures var e := HealthRun(t, utf8, parse, loadable, parses, stampIso, nameIso, now, stringify);
      var report := BuildReport(stampIso, Checks(t, utf8, parse, loadable, parses));
      var p := ReportsDir + [ReportName(nameIso)];
      e.code == 0 ==> p in e.tree && e.tree[p] == File(stringify(report), now)
  {
    FourChecks(t, stampIso, utf8, parse, loadable, parses);
    var p := ReportsDir + [ReportName(nameIso)];
    if ReportsDir !in t {
      assert p != ReportsDir;
      assert p !in t;
    }
  }
}
