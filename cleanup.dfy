/**
 * scripts/cleanup.js: the daily maintenance run. `cleanOldLogs`,
 * `cleanTempFiles` and `cleanOldReports` each walk one directory's listing
 * and unlink the entries a rule selects; `main` runs them in that order and
 * then writes `reports/cleanup-<date>.json`. The three share one loop,
 * `Sweep`, parameterised by the rule. `Date.now()` and `toISOString()` are
 * parameters.
 */
module Cleanup {
  import opened Fs
  import opened Text

  const DayMs := 24 * 60 * 60 * 1000
  /** Logs older than seven days go: 604800000 ms. */
  const LogMaxAge := 7 * DayMs
  /** Reports older than thirty days go: 2592000000 ms. */
  const ReportMaxAge := 30 * DayMs

  const LogDir: Path := ["logs"]
  const TempDir: Path := ["temp"]
  const ReportsDir: Path := ["reports"]

  const ReportStatus := "success"
  const ReportMessage := "Daily cleanup completed successfully"

  /** `readdirSync` on a file throws; so does `unlinkSync` on a directory. */
  datatype SweepError = NotADir | CannotUnlink(name: Name)

  /** What one cleaning function ends with: the directory is missing, or it
      unlinked `count` entries, or it threw. */
  datatype Swept = NoDir | Cleaned(count: nat) | SweepFailed(err: SweepError)

  /** The rule of `cleanOldLogs` and `cleanOldReports`: modified strictly
      before `cutoff`. */
  function OlderThan(cutoff: int): Node -> bool {
    (n: Node) => n.mtime < cutoff
  }

  /** The rule of `cleanTempFiles`: every entry. */
  function AnyEntry(): Node -> bool {
    (n: Node) => true
  }

  /** The rule selects the entry `n` of `dir`. */
  predicate Doomed(t: Tree, dir: Path, doom: Node -> bool, n: Name) {
    dir + [n] in t && doom(t[dir + [n]])
  }

  /** The rule selects `n`, and unlinking it throws because it is a directory. */
  predicate Blocks(t: Tree, dir: Path, doom: Node -> bool, n: Name) {
    Doomed(t, dir, doom, n) && t[dir + [n]].Dir?
  }

  /** The names among `names` the rule selects, in order. */
  function Selected(t: Tree, dir: Path, names: seq<Name>, doom: Node -> bool): (r: seq<Name>)
    ensures forall n :: n in r <==> n in names && Doomed(t, dir, doom, n)
    ensures Distinct(names) ==> Distinct(r)
    ensures |r| <= |names|
  {
    if names == [] then []
    else
      var pre := names[..|names| - 1];
      var n := names[|names| - 1];
      assert names == pre + [n];
      var r := Selected(t, dir, pre, doom);
      assert Distinct(names) ==> Distinct(pre) && n !in pre;
      if Doomed(t, dir, doom, n) then r + [n] else r
  }

  /** The position of the first name whose unlink would throw, or `|names|`. */
  function Blocked(t: Tree, dir: Path, names: seq<Name>, doom: Node -> bool): (k: nat)
    ensures k <= |names|
    ensures forall j | 0 <= j < k :: !Blocks(t, dir, doom, names[j])
    ensures k < |names| ==> Blocks(t, dir, doom, names[k])
  {
    if names == [] then 0
    else if Blocks(t, dir, doom, names[0]) then 0
    else 1 + Blocked(t, dir, names[1..], doom)
  }

  /** `q` is one of the entries `gone` of `dir`, or lies below one. */
  predicate Below(q: Path, dir: Path, gone: seq<Name>) {
    |dir| < |q| && q[..|dir|] == dir && q[|dir|] in gone
  }

  /** `l` without the names in `gone`. */
  function Minus(l: seq<Name>, gone: seq<Name>): seq<Name> {
    if l == [] then [] else (if l[0] in gone then [] else [l[0]]) + Minus(l[1..], gone)
  }

  /** Dropping the names `gone` and then `x` drops the names `gone + [x]`. */
  lemma {:induction false} WithoutMinus(l: seq<Name>, gone: seq<Name>, x: Name)
    ensures Without(Minus(l, gone), x) == Minus(l, gone + [x])
  {
    if l != [] {
      WithoutMinus(l[1..], gone, x);
      var rest := Minus(l[1..], gone);
      var rest' := Minus(l[1..], gone + [x]);
      if l[0] in gone {
        assert l[0] in gone + [x];
        assert Minus(l, gone) == [] + rest == rest;
        assert Minus(l, gone + [x]) == [] + rest' == rest';
      } else if l[0] == x {
        assert l[0] in gone + [x];
        assert Minus(l, gone) == [l[0]] + rest;
        assert ([l[0]] + rest)[0] == x && ([l[0]] + rest)[1..] == rest;
        assert Minus(l, gone + [x]) == [] + rest' == rest';
      } else {
        assert l[0] !in gone + [x];
        assert Minus(l, gone) == [l[0]] + rest;
        assert ([l[0]] + rest)[0] == l[0] && ([l[0]] + rest)[1..] == rest;
        assert Minus(l, gone + [x]) == [l[0]] + rest';
      }
    }
  }

  /** Dropping every name of `l` leaves nothing. */
  lemma {:induction false} MinusAll(l: seq<Name>, gone: seq<Name>)
    requires forall n | n in l :: n in gone
    ensures Minus(l, gone) == []
  {
    if l != [] {
      assert l[0] in l;
      assert forall n | n in l[1..] :: n in l;
      MinusAll(l[1..], gone);
    }
  }

  lemma SnocPrefixIff(dir: Path, x: Name, q: Path)
    ensures dir + [x] <= q <==> |dir| < |q| && q[..|dir|] == dir && q[|dir|] == x
  {
    if |dir| < |q| && q[..|dir|] == dir && q[|dir|] == x {
      assert q[..|dir| + 1] == dir + [x];
    }
  }

  /** The tree once the files `gone` of `dir` are unlinked one after the other. */
  function RemoveAll(t: Tree, dir: Path, gone: seq<Name>): (r: Tree)
    requires Valid(t) && IsDir(t, dir) && Distinct(gone)
    requires forall n | n in gone :: dir + [n] in t
    ensures Valid(r) && IsDir(r, dir)
    ensures forall q :: q in r <==> q in t && !Below(q, dir, gone)
    ensures forall q | q in r && q != dir :: r[q] == t[q]
    ensures r[dir] == t[dir].(listing := Minus(t[dir].listing, gone))
    decreases |gone|
  {
    if gone == [] then
      assert Minus(t[dir].listing, []) == t[dir].listing by {
        MinusNothing(t[dir].listing);
      }
      t
    else
      var g := gone[..|gone| - 1];
      var x := gone[|gone| - 1];
      assert gone == g + [x];
      var pre := RemoveAll(t, dir, g);
      var p := dir + [x];
      assert x !in g;
      assert p[..|dir|] == dir && p[|dir|] == x;
      assert Parent(p) == dir && Last(p) == x;
      RemoveValid(pre, p);
      var r := Remove(pre, p);
      forall q ensures q in r <==> q in t && !Below(q, dir, gone) {
        SnocPrefixIff(dir, x, q);
      }
      WithoutMinus(t[dir].listing, g, x);
      assert !(p <= dir);
      r
  }

  lemma {:induction false} MinusNothing(l: seq<Name>)
    ensures Minus(l, []) == l
  {
    if l != [] {
      MinusNothing(l[1..]);
      assert l == [l[0]] + l[1..];
    }
  }

  /** What a cleaning function returns. */
  function SweepResult(t: Tree, dir: Path, doom: Node -> bool): Swept {
    if dir !in t then NoDir
    else if t[dir].File? then SweepFailed(NotADir)
    else
      var l := t[dir].listing;
      var k := Blocked(t, dir, l, doom);
      if k < |l| then SweepFailed(CannotUnlink(l[k]))
      else Cleaned(|Selected(t, dir, l, doom)|)
  }

  /** The tree a cleaning function leaves: the selected entries before the
      first one that throws are gone. */
  function SweepTree(t: Tree, dir: Path, doom: Node -> bool): (r: Tree)
    requires Valid(t)
    ensures Valid(r)
  {
    if !IsDir(t, dir) then t
    else
      var l := t[dir].listing;
      var k := Blocked(t, dir, l, doom);
      DistinctPrefix(l, k);
      RemoveAll(t, dir, Selected(t, dir, l[..k], doom))
  }

  lemma DistinctPrefix<T>(s: seq<T>, k: nat)
    requires Distinct(s) && k <= |s|
    ensures Distinct(s[..k])
  {
  }

  /** The state after the first `i` entries of `dir` were looked at: the
      next entry is still there and unchanged, and the selection grows by it
      when the rule picks it. */
  lemma SweepStep(t: Tree, dir: Path, doom: Node -> bool, i: nat)
    requires Valid(t) && IsDir(t, dir) && i < |t[dir].listing|
    ensures Distinct(t[dir].listing[..i]) && Distinct(t[dir].listing[..i + 1])
    ensures var l := t[dir].listing; var g := Selected(t, dir, l[..i], doom);
      dir + [l[i]] in t && dir + [l[i]] in RemoveAll(t, dir, g)
    ensures var l := t[dir].listing; var g := Selected(t, dir, l[..i], doom);
      RemoveAll(t, dir, g)[dir + [l[i]]] == t[dir + [l[i]]]
    ensures var l := t[dir].listing; var g := Selected(t, dir, l[..i], doom);
      Selected(t, dir, l[..i + 1], doom) == (if Doomed(t, dir, doom, l[i]) then g + [l[i]] else g)
  {
    var l := t[dir].listing;
    var x := l[i];
    DistinctPrefix(l, i);
    DistinctPrefix(l, i + 1);
    assert l[..i + 1][..i] == l[..i] && l[..i + 1][i] == x;
    assert x !in l[..i];
    var g := Selected(t, dir, l[..i], doom);
    assert x !in g;
    var p := dir + [x];
    assert p[..|dir|] == dir && p[|dir|] == x;
    assert !Below(p, dir, g);
    assert x in t[dir].listing;
    assert p in t;
    var r := RemoveAll(t, dir, g);
    assert p in r;
    assert p != dir;
  }

  /** One cleaning function: walks the listing of `dir` and unlinks every
      entry `doom` selects, counting them; a missing `dir` is left alone. */
  method Sweep(disk: Disk, dir: Path, doom: Node -> bool) returns (r: Swept)
    requires Valid(disk.tree)
    modifies disk
    ensures r == SweepResult(old(disk.tree), dir, doom)
    ensures disk.tree == SweepTree(old(disk.tree), dir, doom)
  {
    if dir !in disk.tree {
      return NoDir;
    }
    if disk.tree[dir].File? {
      return SweepFailed(NotADir);
    }
    ghost var t0 := disk.tree;
    var files := disk.tree[dir].listing;
    var count := 0;
    for i := 0 to |files|
      invariant Distinct(files[..i])
      invariant forall j | 0 <= j < i :: !Blocks(t0, dir, doom, files[j])
      invariant disk.tree == RemoveAll(t0, dir, Selected(t0, dir, files[..i], doom))
      invariant count == |Selected(t0, dir, files[..i], doom)|
    {
      SweepStep(t0, dir, doom, i);
      ghost var g := Selected(t0, dir, files[..i], doom);
      var entry := dir + [files[i]];
      if doom(disk.tree[entry]) {
        var ok := disk.Unlink(entry);
        if !ok {
          BlockedIs(t0, dir, files, doom, i);
          return SweepFailed(CannotUnlink(files[i]));
        }
        RemoveAllSnoc(t0, dir, g, files[i]);
        count := count + 1;
      }
    }
    assert files[..|files|] == files;
    BlockedIs(t0, dir, files, doom, |files|);
    return Cleaned(count);
  }

  /** Unlinking one more selected entry extends the removal by it. */
  lemma RemoveAllSnoc(t: Tree, dir: Path, g: seq<Name>, x: Name)
    requires Valid(t) && IsDir(t, dir) && Distinct(g + [x])
    requires forall n | n in g + [x] :: dir + [n] in t
    ensures Distinct(g) && forall n | n in g :: dir + [n] in t
    ensures dir + [x] in RemoveAll(t, dir, g)
    ensures RemoveAll(t, dir, g + [x]) == Remove(RemoveAll(t, dir, g), dir + [x])
  {
    var gx := g + [x];
    assert gx[..|gx| - 1] == g;
    assert gx[|gx| - 1] == x;
    assert forall n | n in g :: n in gx;
    var p := dir + [x];
    assert p[..|dir|] == dir && p[|dir|] == x;
    assert x !in g;
    assert !Below(p, dir, g);
    assert forall n | n in gx[..|gx| - 1] :: dir + [n] in t;
    RemoveAllUnfold(t, dir, gx);
  }

  lemma RemoveAllUnfold(t: Tree, dir: Path, gone: seq<Name>)
    requires Valid(t) && IsDir(t, dir) && Distinct(gone) && gone != []
    requires forall n | n in gone :: dir + [n] in t
    requires Distinct(gone[..|gone| - 1])
    requires forall n | n in gone[..|gone| - 1] :: dir + [n] in t
    ensures RemoveAll(t, dir, gone) == Remove(RemoveAll(t, dir, gone[..|gone| - 1]), dir + [gone[|gone| - 1]])
  {
  }

  /** The first blocking position, recognised from below and above. */
  lemma {:induction false} BlockedIs(t: Tree, dir: Path, names: seq<Name>, doom: Node -> bool, i: nat)
    requires i <= |names|
    requires forall j | 0 <= j < i :: !Blocks(t, dir, doom, names[j])
    requires i < |names| ==> Blocks(t, dir, doom, names[i])
    ensures Blocked(t, dir, names, doom) == i
  {
    if names != [] && i > 0 {
      assert !Blocks(t, dir, doom, names[0]);
      forall j | 0 <= j < i - 1 ensures !Blocks(t, dir, doom, names[1..][j]) {
        assert names[1..][j] == names[j + 1];
      }
      BlockedIs(t, dir, names[1..], doom, i - 1);
    }
  }

  /** `cleanOldLogs()` at time `now` (ms). */
  method CleanOldLogs(disk: Disk, now: int) returns (r: Swept)
    requires Valid(disk.tree)
    modifies disk
    ensures r == SweepResult(old(disk.tree), LogDir, OlderThan(now - LogMaxAge))
    ensures disk.tree == SweepTree(old(disk.tree), LogDir, OlderThan(now - LogMaxAge))
  {
    r := Sweep(disk, LogDir, OlderThan(now - LogMaxAge));
  }

  /** `cleanTempFiles()`. */
  method CleanTempFiles(disk: Disk) returns (r: Swept)
    requires Valid(disk.tree)
    modifies disk
    ensures r == SweepResult(old(disk.tree), TempDir, AnyEntry())
    ensures disk.tree == SweepTree(old(disk.tree), TempDir, AnyEntry())
  {
    r := Sweep(disk, TempDir, AnyEntry());
  }

  /** `cleanOldReports()` at time `now` (ms). */
  method CleanOldReports(disk: Disk, now: int) returns (r: Swept)
    requires Valid(disk.tree)
    modifies disk
    ensures r == SweepResult(old(disk.tree), ReportsDir, OlderThan(now - ReportMaxAge))
    ensures disk.tree == SweepTree(old(disk.tree), ReportsDir, OlderThan(now - ReportMaxAge))
  {
    r := Sweep(disk, ReportsDir, OlderThan(now - ReportMaxAge));
  }

  // ------------------------------------------------------- what is proved

  /** A missing directory: nothing is deleted. */
  lemma MissingDirIsNoOp(t: Tree, dir: Path, doom: Node -> bool)
    requires Valid(t) && dir !in t
    ensures SweepResult(t, dir, doom) == NoDir && SweepTree(t, dir, doom) == t
  {
  }

  /** When a cleaning function completes, an entry of `dir` is gone
      exactly when the rule selects it, and every entry it selected was a
      file. */
  lemma SweepDeletesSelected(t: Tree, dir: Path, doom: Node -> bool, n: Name)
    requires Valid(t) && SweepResult(t, dir, doom).Cleaned?
    requires n in t[dir].listing
    ensures IsDir(SweepTree(t, dir, doom), dir)
    ensures dir + [n] in SweepTree(t, dir, doom) <==> !Doomed(t, dir, doom, n)
    ensures Doomed(t, dir, doom, n) ==> IsFile(t, dir + [n])
  {
    var l := t[dir].listing;
    assert l[..|l|] == l;
    var p := dir + [n];
    assert p[..|dir|] == dir && p[|dir|] == n;
    var j :| 0 <= j < |l| && l[j] == n;
    assert !Blocks(t, dir, doom, l[j]);
  }

  /** A cleaning function touches only the entries of `dir` and `dir`'s
      listing: every other path is kept as it was, and nothing is created. */
  lemma SweepFrame(t: Tree, dir: Path, doom: Node -> bool, q: Path)
    requires Valid(t)
    ensures q in SweepTree(t, dir, doom) ==> q in t
    ensures q in t && q != dir && !(|dir| < |q| && q[..|dir|] == dir) ==>
      q in SweepTree(t, dir, doom) && SweepTree(t, dir, doom)[q] == t[q]
    ensures q in SweepTree(t, dir, doom) && q != dir ==> SweepTree(t, dir, doom)[q] == t[q]
  {
  }

  /** When a cleaning function completes, the count it reports is the
      number of entries it deleted. */
  lemma SweepCount(t: Tree, dir: Path, doom: Node -> bool)
    requires Valid(t) && SweepResult(t, dir, doom).Cleaned?
    ensures var s := Selected(t, dir, t[dir].listing, doom);
      && SweepResult(t, dir, doom).count == |s|
      && Distinct(s)
      && forall n :: n in s <==> n in t[dir].listing && dir + [n] in t && dir + [n] !in SweepTree(t, dir, doom)
  {
    var l := t[dir].listing;
    assert l[..|l|] == l;
    var u := SweepTree(t, dir, doom);
    forall n ensures n in Selected(t, dir, l, doom) <==> n in l && dir + [n] in t && dir + [n] !in u {
      var p := dir + [n];
      assert p[..|dir|] == dir && p[|dir|] == n;
    }
  }

  /** `cleanOldLogs` keeps a log exactly when it was modified at or after
      `now - 604800000`. */
  lemma OldLogsRule(t: Tree, now: int, n: Name)
    requires Valid(t) && IsDir(t, LogDir) && n in t[LogDir].listing
    requires SweepResult(t, LogDir, OlderThan(now - LogMaxAge)).Cleaned?
    ensures LogDir + [n] in SweepTree(t, LogDir, OlderThan(now - LogMaxAge))
        <==> t[LogDir + [n]].mtime >= now - 604800000
  {
    SweepDeletesSelected(t, LogDir, OlderThan(now - LogMaxAge), n);
  }

  /** `cleanOldReports` keeps a report exactly when it was modified at or
      after `now - 2592000000`. */
  lemma OldReportsRule(t: Tree, now: int, n: Name)
    requires Valid(t) && IsDir(t, ReportsDir) && n in t[ReportsDir].listing
    requires SweepResult(t, ReportsDir, OlderThan(now - ReportMaxAge)).Cleaned?
    ensures ReportsDir + [n] in SweepTree(t, ReportsDir, OlderThan(now - ReportMaxAge))
        <==> t[ReportsDir + [n]].mtime >= now - 2592000000
  {
    SweepDeletesSelected(t, ReportsDir, OlderThan(now - ReportMaxAge), n);
  }

  /** `cleanTempFiles` empties the temp directory when it completes, and
      reports how many entries it held. */
  lemma TempEmptied(t: Tree)
    requires Valid(t) && SweepResult(t, TempDir, AnyEntry()).Cleaned?
    ensures var u := SweepTree(t, TempDir, AnyEntry());
      && IsDir(u, TempDir) && u[TempDir].listing == []
      && SweepResult(t, TempDir, AnyEntry()).count == |t[TempDir].listing|
  {
    var l := t[TempDir].listing;
    assert l[..|l|] == l;
    SelectedAll(t, TempDir, l, AnyEntry());
    MinusAll(l, l);
  }

  /** When the rule selects every name, all of them are selected. */
  lemma {:induction false} SelectedAll(t: Tree, dir: Path, names: seq<Name>, doom: Node -> bool)
    requires forall n | n in names :: Doomed(t, dir, doom, n)
    ensures Selected(t, dir, names, doom) == names
  {
    if names != [] {
      var pre := names[..|names| - 1];
      assert names == pre + [names[|names| - 1]];
      assert forall n | n in pre :: n in names;
      SelectedAll(t, dir, pre, doom);
    }
  }

  // ------------------------------------------------------------------ main

  datatype CleanupReport = CleanupReport(timestamp: string, status: string, message: string)

  /** `cleanup-<date>.json`, the date being the part of the ISO time before `T`. */
  function ReportName(iso: string): (r: Name)
    ensures |r| >= 13 && StartsWith(r, "cleanup-") && EndsWith(r, ".json")
    ensures var date := r[8..|r| - 5];
      date <= iso && 'T' !in date && (|date| < |iso| ==> iso[|date|] == 'T')
  {
    "cleanup-" + BeforeFirst(iso, 'T') + ".json"
  }

  /** How `main` ends: its exit code and the tree it leaves. */
  datatype Finish = Finish(code: int, tree: Tree)

  /** `main()`: logs, then temp, then reports; the first step that throws
      ends the run with exit code 1, and only when all three complete is the
      cleanup report written. */
  function CleanupRun(t: Tree, logsNow: int, reportsNow: int, stampIso: string, nameIso: string,
                      now: int, stringify: CleanupReport -> Bytes): (f: Finish)
    requires Valid(t)
    ensures Valid(f.tree)
    ensures f.code == 0 || f.code == 1
  {
    var t1 := SweepTree(t, LogDir, OlderThan(logsNow - LogMaxAge));
    var t2 := SweepTree(t1, TempDir, AnyEntry());
    var t3 := SweepTree(t2, ReportsDir, OlderThan(reportsNow - ReportMaxAge));
    if SweepResult(t, LogDir, OlderThan(logsNow - LogMaxAge)).SweepFailed? then Finish(1, t1)
    else if SweepResult(t1, TempDir, AnyEntry()).SweepFailed? then Finish(1, t2)
    else if SweepResult(t2, ReportsDir, OlderThan(reportsNow - ReportMaxAge)).SweepFailed? then Finish(1, t3)
    else
      var name := ReportName(nameIso);
      if IsDir(t3, ReportsDir) && !IsDir(t3, ReportsDir + [name]) then
        var report := CleanupReport(stampIso, ReportStatus, ReportMessage);
        var f := File(stringify(report), now);
        PutValid(t3, ReportsDir, name, f);
        Finish(0, Put(t3, ReportsDir, name, f))
      else Finish(1, t3)
  }

  /** `main()` over the filesystem. */
  method Run(disk: Disk, logsNow: int, reportsNow: int, stampIso: string, nameIso: string,
             now: int, stringify: CleanupReport -> Bytes) returns (code: int)
    requires Valid(disk.tree)
    modifies disk
    ensures Finish(code, disk.tree) == CleanupRun(old(disk.tree), logsNow, reportsNow, stampIso, nameIso, now, stringify)
  {
    var r := CleanOldLogs(disk, logsNow);
    if r.SweepFailed? {
      return 1;
    }
    r := CleanTempFiles(disk);
    if r.SweepFailed? {
      return 1;
    }
    r := CleanOldReports(disk, reportsNow);
    if r.SweepFailed? {
      return 1;
    }
    var report := CleanupReport(stampIso, ReportStatus, ReportMessage);
    var reportPath := ReportsDir + [ReportName(nameIso)];
    var ok := disk.WriteFile(reportPath, stringify(report), now);
    if !ok {
      return 1;
    }
    return 0;
  }

  /** A run that exits with 0 completed all three steps and leaves its
      report in `reports`, holding the serialised report: it is written
      after `cleanOldReports`, so the run never prunes its own report. */
  lemma ReportWrittenLast(t: Tree, logsNow: int, reportsNow: int, stampIso: string, nameIso: string,
                          now: int, stringify: CleanupReport -> Bytes)
    requires Valid(t)
    requires CleanupRun(t, logsNow, reportsNow, stampIso, nameIso, now, stringify).code == 0
    ensures var t1 := SweepTree(t, LogDir, OlderThan(logsNow - LogMaxAge));
      var t2 := SweepTree(t1, TempDir, AnyEntry());
      && !SweepResult(t, LogDir, OlderThan(logsNow - LogMaxAge)).SweepFailed?
      && !SweepResult(t1, TempDir, AnyEntry()).SweepFailed?
      && !SweepResult(t2, ReportsDir, OlderThan(reportsNow - ReportMaxAge)).SweepFailed?
    ensures IsDir(t, ReportsDir)
    ensures var u := CleanupRun(t, logsNow, reportsNow, stampIso, nameIso, now, stringify).tree;
      var p := ReportsDir + [ReportName(nameIso)];
      p in u && u[p] == File(stringify(CleanupReport(stampIso, ReportStatus, ReportMessage)), now)
  {
    var t1 := SweepTree(t, LogDir, OlderThan(logsNow - LogMaxAge));
    var t2 := SweepTree(t1, TempDir, AnyEntry());
    SweepKeepsDirs(t, LogDir, OlderThan(logsNow - LogMaxAge), ReportsDir);
    SweepKeepsDirs(t1, TempDir, AnyEntry(), ReportsDir);
    SweepKeepsDirs(t2, ReportsDir, OlderThan(reportsNow - ReportMaxAge), ReportsDir);
  }

  /** A sweep never removes or adds a directory that is not one of the
      entries of `dir`. */
  lemma SweepKeepsDirs(t: Tree, dir: Path, doom: Node -> bool, d: Path)
    requires Valid(t) && |d| <= |dir|
    ensures IsDir(t, d) <==> IsDir(SweepTree(t, dir, doom), d)
  {
  }
}
