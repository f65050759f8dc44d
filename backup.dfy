/**
 * scripts/backup.js: `createBackup`, `uploadBackup`, `verifyBackup`,
 * `cleanupOldBackups` and the command dispatch of `main`, over the in-memory
 * filesystem. The script lives in `scripts/`, so `../backup`, `../src`, ...
 * are the paths `["backup"]`, `["src"]`, ... relative to the application root.
 * The clock, `JSON.stringify`, `JSON.parse` and SHA-256 are parameters.
 */
module Backup {
  import opened Fs
  import opened Wrappers
  import opened Snapshot
  import opened TreeDigest
  import opened TreeCopy

  const BackupRoot: Path := ["backup"]
  const ManifestName: Name := "manifest.json"
  const UploadLogName: Name := "upload-log.json"
  const ManifestVersion := "1.0.0"
  const UploadStatus := "uploaded"
  const UploadUrl := "https://example-bucket.s3.amazonaws.com/backups/"

  /** The configured items: each is copied from `[name]` at the application
      root to `name` in the snapshot, in this order. */
  const ItemNames: seq<Name> := ["src", "public", "package.json", "run.js"]

  datatype Manifest = Manifest(timestamp: string, version: string, files: seq<Name>, checksum: Digest)

  /** What `JSON.parse` of `manifest.json` yields, as far as `verify` looks at
      it: it throws (or gives a value without properties), it gives an object
      whose `checksum` is not a string, or it gives the stored checksum. */
  datatype ParsedManifest = Malformed | NoChecksum | WithChecksum(checksum: Digest)

  datatype UploadLog = UploadLog(timestamp: string, backupPath: Path, status: string, url: string)

  datatype BackupError =
    | NoBackupFound(action: string)
    | ManifestNotFound
    | ManifestUnreadable
    | ManifestMalformed
    | IntegrityCheckFailed
    | UploadLogUnwritable
    | BackupRootNotDir

  datatype Outcome = Ok | Fail(err: BackupError)

  /** The `message` of the errors the script throws itself. */
  function Message(e: BackupError): Option<string> {
    match e
    case NoBackupFound(action) => Some("No backup found to " + action)
    case ManifestNotFound => Some("Backup manifest not found")
    case IntegrityCheckFailed => Some("Backup integrity check failed")
    case _ => None
  }

  /** `JSON.parse(JSON.stringify(m)).checksum` is `m.checksum`. */
  ghost predicate JsonRoundTrip(stringify: Manifest -> Bytes, parse: Bytes -> ParsedManifest) {
    forall m: Manifest :: parse(stringify(m)) == WithChecksum(m.checksum)
  }

  // ---------------------------------------------------------------- create

  /** The items copied into a snapshot by the first `k` turns of `create`'s
      loop: those whose source exists in `t0`. */
  function CopiedNames(t0: Tree, k: nat): (r: seq<Name>)
    requires k <= |ItemNames|
    ensures forall j | 0 <= j < |ItemNames| :: ItemNames[j] in r <==> j < k && [ItemNames[j]] in t0
    ensures forall x | x in r :: x in ItemNames
  {
    if k == 0 then []
    else CopiedNames(t0, k - 1) + if [ItemNames[k - 1]] in t0 then [ItemNames[k - 1]] else []
  }

  /** The state of `createBackup` after `k` turns of its loop over the items. */
  ghost predicate CreateState(t0: Tree, bp: Path, t: Tree, k: nat)
    requires k <= |ItemNames|
  {
    && Valid(t0) && Valid(t)
    && |bp| == 2 && bp[..1] == BackupRoot && bp[1] !in ItemNames
    && (forall q | q in t0 :: !(bp <= q))
    && (forall i | 0 <= i <= |bp| :: IsDir(t, bp[..i]))
    && (forall q | q in t0 && !(q <= bp) :: q in t && t[q] == t0[q])
    && (forall q | q in t && q !in t0 :: bp <= q)
    && (forall q | q in t && bp < q :: q[|bp|] in CopiedNames(t0, k))
    && (forall j | 0 <= j < k && [ItemNames[j]] in t0 :: Mirrors(t0, [ItemNames[j]], t, bp + [ItemNames[j]]))
  }

  /** What `createBackup` leaves behind in `t`, starting from `t0`: the
      snapshot `bp` mirrors every item whose source exists and holds nothing
      for the others; `manifest.json` in it holds `m`, which lists all four
      items and whose checksum covers `payload`, the snapshot's stream before
      the manifest was written. Nothing outside the snapshot changes. */
  ghost predicate Created(t0: Tree, t: Tree, bp: Path, clock: string, m: Manifest, payload: Bytes,
                          sha256: Bytes -> Digest, stringify: Manifest -> Bytes) {
    && Valid(t) && IsDir(t, bp)
    && m == Manifest(clock, ManifestVersion, ItemNames, m.checksum)
    && (forall j | 0 <= j < |ItemNames| && [ItemNames[j]] in t0 ::
          Mirrors(t0, [ItemNames[j]], t, bp + [ItemNames[j]]))
    && (forall j | 0 <= j < |ItemNames| && [ItemNames[j]] !in t0 :: bp + [ItemNames[j]] !in t)
    && (forall q | q in t && bp < q :: q == bp + [ManifestName] || q[|bp|] in CopiedNames(t0, |ItemNames|))
    && IsFile(t, bp + [ManifestName]) && t[bp + [ManifestName]].data == stringify(m)
    && m.checksum == sha256(payload) && Stream(t, bp) == payload + stringify(m)
    && (forall q | q in t0 && !(q <= bp) :: q in t && t[q] == t0[q])
    && (forall q | q in t && q !in t0 :: bp <= q)
  }

  /** `createBackup()`: makes the snapshot directory, copies every item whose
      source exists, then hashes the snapshot and writes `manifest.json`.
      `nameClock` and `manifestClock` are the two `toISOString()` calls;
      `payload` is the stream the checksum covers. */
  method CreateBackup(disk: Disk, nameClock: string, manifestClock: string, now: int,
                      sha256: Bytes -> Digest, stringify: Manifest -> Bytes)
    returns (bp: Path, m: Manifest, ghost payload: Bytes)
    requires Valid(disk.tree) && IsDir(disk.tree, BackupRoot)
    requires BackupRoot + [SnapshotName(nameClock)] !in disk.tree
    modifies disk
    ensures bp == BackupRoot + [SnapshotName(nameClock)]
    ensures Created(old(disk.tree), disk.tree, bp, manifestClock, m, payload, sha256, stringify)
  {
    ghost var t0 := disk.tree;
    bp := BackupRoot + [SnapshotName(nameClock)];
    MakeSnapshot(disk, bp, nameClock, now);
    m, payload := FinishSnapshot(disk, t0, bp, manifestClock, now, sha256, stringify);
  }

  /** The first part of `createBackup`: the snapshot directory is made and
      every item whose source exists is copied into it. */
  method MakeSnapshot(disk: Disk, bp: Path, nameClock: string, now: int)
    requires Valid(disk.tree) && IsDir(disk.tree, BackupRoot)
    requires bp == BackupRoot + [SnapshotName(nameClock)] && bp !in disk.tree
    modifies disk
    ensures CreateState(old(disk.tree), bp, disk.tree, |ItemNames|)
  {
    ghost var t0 := disk.tree;
    SnapshotNotAnItem(nameClock);
    FreshSnapshotPath(t0, bp);
    var made := disk.MkdirP(bp, now);
    CreateStarts(t0, disk.tree, bp, now);
    for k := 0 to |ItemNames|
      invariant CreateState(t0, bp, disk.tree, k)
    {
      CopyItem(disk, t0, bp, k, now);
    }
  }

  /** The last part of `createBackup`: the snapshot is hashed and
      `manifest.json` written into it. */
  method FinishSnapshot(disk: Disk, ghost t0: Tree, bp: Path, manifestClock: string, now: int,
                        sha256: Bytes -> Digest, stringify: Manifest -> Bytes)
    returns (m: Manifest, ghost payload: Bytes)
    requires CreateState(t0, bp, disk.tree, |ItemNames|)
    modifies disk
    ensures Created(t0, disk.tree, bp, manifestClock, m, payload, sha256, stringify)
  {
    ghost var t := disk.tree;
    ManifestIsNew(t0, bp, t);
    var checksum := CalculateChecksum(disk, sha256, bp);
    payload := Stream(t, bp);
    m := Manifest(manifestClock, ManifestVersion, ItemNames, checksum);
    var ok := disk.WriteFile(bp + [ManifestName], stringify(m), now);
    ManifestWritten(t0, bp, t, stringify(m), now);
  }

  /** One turn of `createBackup`'s `forEach`: item `k` is copied into the
      snapshot when its source exists, and skipped otherwise. */
  method CopyItem(disk: Disk, ghost t0: Tree, bp: Path, k: nat, now: int)
    requires k < |ItemNames| && CreateState(t0, bp, disk.tree, k)
    modifies disk
    ensures CreateState(t0, bp, disk.tree, k + 1)
  {
    var src := [ItemNames[k]];
    var dest := bp + [ItemNames[k]];
    ghost var t := disk.tree;
    ItemPreconditions(t0, bp, t, k);
    if src in disk.tree {
      if disk.tree[src].Dir? {
        CopyDirectory(disk, src, dest, now);
      } else {
        var ok := disk.CopyFile(src, dest, now);
        FileCopied(t, src, dest, now);
      }
      CreateStep(t0, bp, t, disk.tree, k);
    } else {
      CreateSkip(t0, bp, t, k);
    }
  }

  lemma SnapshotNotAnItem(iso: string)
    ensures SnapshotName(iso) !in ItemNames && SnapshotName(iso) != ManifestName
  {
    var n := SnapshotName(iso);
    assert n[0] == "backup-"[0] == 'b';
    assert forall x | x in ItemNames + [ManifestName] :: x[0] != 'b';
  }

  lemma FreshSnapshotPath(t0: Tree, bp: Path)
    requires Valid(t0) && IsDir(t0, BackupRoot) && |bp| == 2 && bp[..1] == BackupRoot && bp !in t0
    ensures NoFileOnPath(t0, bp)
    ensures forall q | q in t0 :: !(bp <= q)
  {
    assert bp[..2] == bp;
    forall i | 0 <= i <= |bp| && bp[..i] in t0 ensures t0[bp[..i]].Dir? {
      assert i == 1 ==> bp[..i] == BackupRoot;
    }
    forall q | q in t0 ensures !(bp <= q) {
      AncestorPresent(t0, bp, q);
    }
  }

  lemma CreateStarts(t0: Tree, t1: Tree, bp: Path, now: int)
    requires Valid(t0) && IsDir(t0, BackupRoot) && |bp| == 2 && bp[..1] == BackupRoot && bp[1] !in ItemNames
    requires forall q | q in t0 :: !(bp <= q)
    requires Valid(t1) && MkdirFrame(t0, t1, bp, now) && forall i | 0 <= i <= |bp| :: IsDir(t1, bp[..i])
    ensures CreateState(t0, bp, t1, 0)
  {
    forall q | q in t0 && !(q <= bp) ensures q in t1 && t1[q] == t0[q] {
      assert MkdirChanged(t0, t1, bp, q);
    }
    forall q | q in t1 && q !in t0 ensures bp <= q {
      assert q == bp[..|q|];
      assert bp[..0] == [] && bp[..1] == BackupRoot;
    }
  }

  /** Before turn `k`: the source of item `k` is as in `t0`, its destination
      is absent, and copying one onto the other meets the preconditions of
      `CopyDirectory` and of `copyFileSync`. */
  lemma ItemPreconditions(t0: Tree, bp: Path, t: Tree, k: nat)
    requires k < |ItemNames| && CreateState(t0, bp, t, k)
    ensures var src, dest := [ItemNames[k]], bp + [ItemNames[k]];
      && (src in t <==> src in t0)
      && SameBelow(t0, t, src)
      && dest !in t
      && Apart(src, dest)
      && NoFileOnPath(t, dest)
      && Compatible(t, src, dest)
      && dest != [] && Parent(dest) == bp && IsDir(t, bp) && !IsDir(t, dest)
  {
    var src, dest := [ItemNames[k]], bp + [ItemNames[k]];
    assert bp[0] == "backup" && ItemNames[k] != "backup";
    forall r | r in t0 && src <= r ensures r in t && t[r] == t0[r] {
      assert r[0] == ItemNames[k];
      HeadOfPrefix(r, bp);
    }
    forall r | r in t && src <= r ensures r in t0 {
      assert r[0] == ItemNames[k];
      HeadOfPrefix(bp, r);
    }
    assert bp < dest && dest[|bp|] == ItemNames[k];
    assert dest !in t;
    assert dest[..|dest|] == dest;
    forall i | 0 <= i <= |dest| && dest[..i] in t ensures t[dest[..i]].Dir? {
      assert i <= |bp| ==> dest[..i] == bp[..i];
    }
    forall q | q in t && src <= q ensures Rebase(q, src, dest) !in t {
      var r := Rebase(q, src, dest);
      RebaseRoundTrip(q, src, dest);
      TransIf(bp, dest, r);
      assert bp < r && r[|bp|] == ItemNames[k];
    }
    assert bp[..|bp|] == bp;
    assert !(src <= dest) && !(dest <= src);
  }

  /** The first name of a path is the first name of its prefixes. */
  lemma HeadOfPrefix(a: Path, b: Path)
    ensures a != [] && a <= b ==> b[0] == a[0]
  {
  }

  lemma CreateSkip(t0: Tree, bp: Path, t: Tree, k: nat)
    requires k < |ItemNames| && CreateState(t0, bp, t, k) && [ItemNames[k]] !in t0
    ensures CreateState(t0, bp, t, k + 1)
  {
  }

  /** A turn that copied item `k` keeps the state. */
  lemma CreateStep(t0: Tree, bp: Path, t: Tree, t': Tree, k: nat)
    requires k < |ItemNames| && CreateState(t0, bp, t, k)
    requires [ItemNames[k]] in t0 && SameBelow(t0, t, [ItemNames[k]]) && bp + [ItemNames[k]] !in t
    requires Valid(t')
    requires Mirrors(t, [ItemNames[k]], t', bp + [ItemNames[k]])
    requires CopyFrame(t, [ItemNames[k]], bp + [ItemNames[k]], t')
    ensures CreateState(t0, bp, t', k + 1)
  {
    var src, d := [ItemNames[k]], bp + [ItemNames[k]];
    forall i | 0 <= i <= |bp| ensures IsDir(t', bp[..i]) {
      assert bp[..i] in t;
    }
    forall q | q in t0 && !(q <= bp) ensures q in t' && t'[q] == t0[q] {
      PrefixOfSnoc(q, bp, ItemNames[k]);
      TransIf(bp, d, q);
    }
    forall q | q in t' && q !in t0 ensures bp <= q {
      PrefixOfSnoc(q, bp, ItemNames[k]);
      TransIf(bp, d, q);
      assert q !in t ==> q <= d || d <= q;
      assert q <= bp ==> q == bp[..|q|];
    }
    forall q | q in t' && bp < q ensures q[|bp|] in CopiedNames(t0, k + 1) {
      PrefixOfSnoc(q, bp, ItemNames[k]);
      if q !in t {
        assert q <= d || d <= q;
        assert q[|bp|] == ItemNames[k];
      }
    }
    forall j | 0 <= j < k + 1 && [ItemNames[j]] in t0 ensures Mirrors(t0, [ItemNames[j]], t', bp + [ItemNames[j]]) {
      if j < k {
        var dj := bp + [ItemNames[j]];
        ItemsDistinct(j, k);
        forall r | r in t && dj <= r ensures r in t' && t'[r] == t[r] {
          SiblingsApart(bp, ItemNames[j], ItemNames[k], r);
        }
        MirrorsFrame(t0, [ItemNames[j]], t, t', dj);
      } else {
        MirrorsOfSame(t0, t, src, t', d);
      }
    }
  }

  /** The copied items have different names. */
  lemma ItemsDistinct(i: nat, j: nat)
    requires i < j < |ItemNames|
    ensures ItemNames[i] != ItemNames[j]
  {
  }

  /** No copied item is called like the manifest. */
  lemma ManifestNotAnItem()
    ensures ManifestName !in ItemNames
  {
  }

  lemma ManifestIsNew(t0: Tree, bp: Path, t: Tree)
    requires CreateState(t0, bp, t, |ItemNames|)
    ensures bp + [ManifestName] !in t && IsDir(t, bp)
  {
    var p := bp + [ManifestName];
    assert bp[..|bp|] == bp;
    if p in t {
      assert p[|bp|] == ManifestName;
    }
  }

  /** Writing `manifest.json` as the last step of `createBackup` appends its
      bytes to the stream of the snapshot and leaves the copies alone. */
  lemma ManifestWritten(t0: Tree, bp: Path, t: Tree, data: Bytes, now: int)
    requires CreateState(t0, bp, t, |ItemNames|)
    requires bp + [ManifestName] !in t && IsDir(t, bp)
    ensures var t2 := Put(t, bp, ManifestName, File(data, now));
      && Valid(t2)
      && Stream(t2, bp) == Stream(t, bp) + data
      && (forall j | 0 <= j < |ItemNames| && [ItemNames[j]] in t0 :: Mirrors(t0, [ItemNames[j]], t2, bp + [ItemNames[j]]))
      && (forall j | 0 <= j < |ItemNames| && [ItemNames[j]] !in t0 :: bp + [ItemNames[j]] !in t2)
      && (forall q | q in t2 && bp < q :: q == bp + [ManifestName] || q[|bp|] in CopiedNames(t0, |ItemNames|))
      && (forall q | q in t0 && !(q <= bp) :: q in t2 && t2[q] == t0[q])
      && (forall q | q in t2 && q !in t0 :: bp <= q)
  {
    var p := bp + [ManifestName];
    var t2 := Put(t, bp, ManifestName, File(data, now));
    PutValid(t, bp, ManifestName, File(data, now));
    NewFileExtendsStream(t, bp, ManifestName, File(data, now));
    ManifestKeepsItems(t0, bp, t, data, now);
    forall q | q in t0 && !(q <= bp) ensures q in t2 && t2[q] == t0[q] {
      assert q != p;
    }
  }

  /** Writing `manifest.json` leaves each item's copy, or its absence, alone. */
  lemma ManifestKeepsItems(t0: Tree, bp: Path, t: Tree, data: Bytes, now: int)
    requires CreateState(t0, bp, t, |ItemNames|)
    requires bp + [ManifestName] !in t && IsDir(t, bp)
    ensures var t2 := Put(t, bp, ManifestName, File(data, now));
      && (forall j | 0 <= j < |ItemNames| && [ItemNames[j]] in t0 :: Mirrors(t0, [ItemNames[j]], t2, bp + [ItemNames[j]]))
      && (forall j | 0 <= j < |ItemNames| && [ItemNames[j]] !in t0 :: bp + [ItemNames[j]] !in t2)
  {
    var p := bp + [ManifestName];
    var t2 := Put(t, bp, ManifestName, File(data, now));
    ManifestNotAnItem();
    forall j | 0 <= j < |ItemNames| && [ItemNames[j]] in t0 ensures Mirrors(t0, [ItemNames[j]], t2, bp + [ItemNames[j]]) {
      var dj := bp + [ItemNames[j]];
      SiblingsApart(bp, ItemNames[j], ManifestName, dj);
      PutKeepsMirrors(t0, [ItemNames[j]], t, bp, ManifestName, File(data, now), dj);
    }
    forall j | 0 <= j < |ItemNames| && [ItemNames[j]] !in t0 ensures bp + [ItemNames[j]] !in t2 {
      var dj := bp + [ItemNames[j]];
      SiblingsApart(bp, ItemNames[j], ManifestName, dj);
      assert ItemNames[j] !in CopiedNames(t0, |ItemNames|);
      assert dj[|bp|] == ItemNames[j] && bp < dj;
      assert dj !in t && dj != p;
    }
  }

  // ---------------------------------------------------------------- upload

  /** What `uploadBackup` does to snapshot `bp`, from tree `t` to `t'`:
      `upload-log.json` is written with `log`, which fails, changing nothing,
      exactly when that name is a directory. */
  ghost predicate Uploaded(t: Tree, t': Tree, bp: Path, log: Bytes, now: int, r: Outcome) {
    && IsDir(t, bp) && Valid(t')
    && (r.Ok? <==> !IsDir(t, bp + [UploadLogName]))
    && (r.Ok? ==> t' == Put(t, bp, UploadLogName, File(log, now)))
    && (r.Fail? ==> r == Fail(UploadLogUnwritable) && t' == t)
  }

  /** `uploadBackup(backupPath)`: writes `upload-log.json` into the snapshot;
      nothing is transferred. */
  method UploadBackup(disk: Disk, bp: Path, clock: string, now: int, stringify: UploadLog -> Bytes)
    returns (r: Outcome)
    requires Valid(disk.tree) && IsDir(disk.tree, bp)
    modifies disk
    ensures Uploaded(old(disk.tree), disk.tree, bp, stringify(UploadLog(clock, bp, UploadStatus, UploadUrl)), now, r)
  {
    var log := UploadLog(clock, bp, UploadStatus, UploadUrl);
    assert Parent(bp + [UploadLogName]) == bp && Last(bp + [UploadLogName]) == UploadLogName;
    var ok := disk.WriteFile(bp + [UploadLogName], stringify(log), now);
    r := if ok then Ok else Fail(UploadLogUnwritable);
  }

  // ---------------------------------------------------------------- verify

  /** What `verifyBackup(bp)` does on tree `t`. */
  ghost function VerifyOutcome(t: Tree, bp: Path, sha256: Bytes -> Digest, parse: Bytes -> ParsedManifest): Outcome {
    var mp := bp + [ManifestName];
    if mp !in t then Fail(ManifestNotFound)
    else if t[mp].Dir? then Fail(ManifestUnreadable)
    else match parse(t[mp].data)
      case Malformed => Fail(ManifestMalformed)
      case NoChecksum => Fail(IntegrityCheckFailed)
      case WithChecksum(c) => if c == sha256(Stream(t, bp)) then Ok else Fail(IntegrityCheckFailed)
  }

  /** `verifyBackup(backupPath)`: reads the manifest, re-hashes the snapshot
      (with `manifest.json` and anything else now in it) and compares. */
  method VerifyBackup(disk: Disk, bp: Path, sha256: Bytes -> Digest, parse: Bytes -> ParsedManifest)
    returns (r: Outcome)
    requires Valid(disk.tree) && IsDir(disk.tree, bp)
    ensures r == VerifyOutcome(disk.tree, bp, sha256, parse)
    ensures r.Ok? <==> (IsFile(disk.tree, bp + [ManifestName])
                        && parse(disk.tree[bp + [ManifestName]].data) == WithChecksum(sha256(Stream(disk.tree, bp))))
    ensures r == Fail(ManifestNotFound) <==> bp + [ManifestName] !in disk.tree
  {
    var mp := bp + [ManifestName];
    if mp !in disk.tree {
      return Fail(ManifestNotFound);
    }
    if disk.tree[mp].Dir? {
      return Fail(ManifestUnreadable);
    }
    var parsed := parse(disk.tree[mp].data);
    if parsed.Malformed? {
      return Fail(ManifestMalformed);
    }
    var current := CalculateChecksum(disk, sha256, bp);
    if parsed.NoChecksum? || parsed.checksum != current {
      return Fail(IntegrityCheckFailed);
    }
    r := Ok;
  }

  /** Verifying a snapshot just as `createBackup` left it fails whenever the
      hash tells different streams apart: the stored checksum covers the
      snapshot without `manifest.json`, the recomputed one covers it with. */
  lemma FreshSnapshotFailsVerify(t: Tree, bp: Path, m: Manifest, payload: Bytes,
                                 sha256: Bytes -> Digest, stringify: Manifest -> Bytes, parse: Bytes -> ParsedManifest)
    requires IsFile(t, bp + [ManifestName]) && t[bp + [ManifestName]].data == stringify(m)
    requires m.checksum == sha256(payload) && Stream(t, bp) == payload + stringify(m)
    requires CollisionFree(sha256) && JsonRoundTrip(stringify, parse) && stringify(m) != []
    ensures VerifyOutcome(t, bp, sha256, parse) == Fail(IntegrityCheckFailed)
  {
    assert parse(stringify(m)) == WithChecksum(m.checksum);
    assert |payload + stringify(m)| > |payload|;
  }

  /** When the manifest serialises to nothing, the stored checksum matches
      right after `createBackup`. (The converse, for a collision-free hash,
      is `FreshSnapshotFailsVerify`.) */
  lemma FreshSnapshotVerifiesIfEmptyManifest(t: Tree, bp: Path, m: Manifest, payload: Bytes,
                                                 sha256: Bytes -> Digest, stringify: Manifest -> Bytes, parse: Bytes -> ParsedManifest)
    requires IsFile(t, bp + [ManifestName]) && t[bp + [ManifestName]].data == stringify(m)
    requires m.checksum == sha256(payload) && Stream(t, bp) == payload + stringify(m)
    requires JsonRoundTrip(stringify, parse)
    ensures stringify(m) == [] ==> VerifyOutcome(t, bp, sha256, parse) == Ok
  {
    assert parse(stringify(m)) == WithChecksum(m.checksum);
    assert stringify(m) == [] ==> payload + stringify(m) == payload;
  }

  // --------------------------------------------------------------- cleanup

  /** The directories directly under the backup root, in listing order
      (`readdirSync(backupDir).filter(isDirectory)`); none when the root is
      missing. */
  function SnapshotDirs(t: Tree): (r: seq<Name>)
    ensures forall x :: x in r <==> IsDir(t, BackupRoot) && x in t[BackupRoot].listing && IsDir(t, BackupRoot + [x])
    ensures Valid(t) ==> Distinct(r)
  {
    if IsDir(t, BackupRoot) then DirsAmong(t, t[BackupRoot].listing) else []
  }

  function DirsAmong(t: Tree, names: seq<Name>): (r: seq<Name>)
    ensures forall x :: x in r <==> x in names && IsDir(t, BackupRoot + [x])
    ensures Distinct(names) ==> Distinct(r)
  {
    if names == [] then []
    else
      var rest := DirsAmong(t, names[1..]);
      assert Distinct(names) ==> names[0] !in names[1..] && Distinct(names[1..]);
      (if IsDir(t, BackupRoot + [names[0]]) then [names[0]] else []) + rest
  }

  /** `q` lies in one of the snapshots `names`. */
  predicate InSnapshot(q: Path, names: seq<Name>) {
    |q| >= 2 && q[..1] == BackupRoot && q[1] in names
  }

  lemma InSnapshotPrefix(q: Path, b: Name)
    ensures BackupRoot + [b] <= q <==> |q| >= 2 && q[..1] == BackupRoot && q[1] == b
  {
    if |q| >= 2 && q[..1] == BackupRoot && q[1] == b {
      assert q[..2] == BackupRoot + [b];
    }
  }

  /** `cleanupOldBackups()`: removes the snapshots `ToDelete` picks. Files
      under the backup root are never candidates. */
  method CleanupOldBackups(disk: Disk) returns (deleted: seq<Name>)
    requires Valid(disk.tree) && IsDir(disk.tree, BackupRoot)
    modifies disk
    ensures Valid(disk.tree) && IsDir(disk.tree, BackupRoot)
    ensures deleted == ToDelete(SnapshotDirs(old(disk.tree)))
    ensures forall q :: q in disk.tree <==> q in old(disk.tree) && !InSnapshot(q, deleted)
    ensures forall q | q in disk.tree && q != BackupRoot :: disk.tree[q] == old(disk.tree)[q]
    ensures forall x :: x in disk.tree[BackupRoot].listing <==> x in old(disk.tree)[BackupRoot].listing && x !in deleted
  {
    ghost var t0 := disk.tree;
    var backups := SnapshotDirs(disk.tree);
    deleted := ToDelete(backups);
    CleanupStarts(t0);
    for i := 0 to |deleted|
      invariant CleanupState(t0, disk.tree, deleted[..i])
    {
      TakeOneMore(deleted, i);
      RemoveSnapshot(disk, t0, deleted[..i], deleted[i]);
    }
    assert deleted[..|deleted|] == deleted;
  }

  /** One turn of the `forEach` of `cleanupOldBackups`: `rmSync` of one
      snapshot. */
  method RemoveSnapshot(disk: Disk, ghost t0: Tree, ghost names: seq<Name>, b: Name)
    requires CleanupState(t0, disk.tree, names)
    modifies disk
    ensures CleanupState(t0, disk.tree, names + [b])
  {
    ghost var t := disk.tree;
    disk.RemoveTree(BackupRoot + [b]);
    RemoveKeepsCleanupState(t0, t, disk.tree, names, b);
  }

  lemma CleanupStarts(t0: Tree)
    requires Valid(t0) && IsDir(t0, BackupRoot)
    ensures CleanupState(t0, t0, [])
  {
  }

  /** The tree after `cleanup` removed the snapshots `names`. */
  ghost predicate CleanupState(t0: Tree, t: Tree, names: seq<Name>) {
    && Valid(t0) && IsDir(t0, BackupRoot)
    && Valid(t) && IsDir(t, BackupRoot)
    && (forall q :: q in t <==> q in t0 && !InSnapshot(q, names))
    && (forall q | q in t && q != BackupRoot :: t[q] == t0[q])
    && (forall x :: x in t[BackupRoot].listing <==> x in t0[BackupRoot].listing && x !in names)
  }

  lemma RemoveKeepsCleanupState(t0: Tree, t: Tree, t': Tree, names: seq<Name>, b: Name)
    requires CleanupState(t0, t, names)
    requires var p := BackupRoot + [b];
      && (p in t ==> t' == Remove(t, p))
      && (p !in t ==> t' == t)
    ensures CleanupState(t0, t', names + [b])
  {
    var p := BackupRoot + [b];
    assert Parent(p) == BackupRoot && Last(p) == b;
    forall q ensures p <= q <==> |q| >= 2 && q[..1] == BackupRoot && q[1] == b {
      InSnapshotPrefix(q, b);
    }
    if p in t {
      RemoveValid(t, p);
    } else {
      assert b !in t[BackupRoot].listing;
      forall q | q in t0 && |q| >= 2 && q[..1] == BackupRoot && q[1] == b ensures q !in t {
        AncestorPresent(t, p, q);
      }
    }
  }

  /** Everything `cleanup` removes is a snapshot directory, and the snapshot
      `upload` and `verify` would pick survives. */
  lemma CleanupRemovesOnlyOldSnapshots(t: Tree)
    requires Valid(t)
    ensures forall x | x in ToDelete(SnapshotDirs(t)) :: IsDir(t, BackupRoot + [x])
    ensures SnapshotDirs(t) != [] ==> Latest(SnapshotDirs(t)).value !in ToDelete(SnapshotDirs(t))
  {
    var names := SnapshotDirs(t);
    RetentionSplits(names);
    forall x | x in ToDelete(names) ensures IsDir(t, BackupRoot + [x]) {
      assert x in multiset(names);
    }
    if names != [] {
      LatestIsKept(names);
      var l := Latest(names).value;
      DistinctOnce(names, l);
      assert multiset(Kept(names))[l] >= 1;
      assert multiset(ToDelete(names))[l] == 0;
    }
  }

  lemma DistinctOnce<T>(s: seq<T>, x: T)
    requires Distinct(s)
    ensures multiset(s)[x] <= 1
  {
    if s != [] {
      assert s == [s[0]] + s[1..];
      DistinctOnce(s[1..], x);
      if x == s[0] {
        assert x !in s[1..];
      }
    }
  }

  // ------------------------------------------------------------------ main

  datatype Command = Create | Upload | Verify | Cleanup | Help

  /** `process.argv[2]`; anything else, or nothing, prints the help text. */
  function ParseCommand(arg: Option<string>): Command {
    match arg
    case Some("create") => Create
    case Some("upload") => Upload
    case Some("verify") => Verify
    case Some("cleanup") => Cleanup
    case _ => Help
  }

  /** `process.exit(1)` on any thrown error, 0 otherwise. */
  function ExitCode(r: Outcome): int {
    if r.Fail? then 1 else 0
  }

  /** The tree once the script has started: `backup/` is created when
      missing (`mkdirSync` at load time). */
  function WithBackupRoot(t: Tree, now: int): (r: Tree)
    requires Valid(t)
    ensures Valid(r) && BackupRoot in r
    ensures BackupRoot in t ==> r == t
    ensures BackupRoot !in t ==> r[BackupRoot] == Dir([], now) && SnapshotDirs(r) == []
  {
    if BackupRoot in t then t
    else
      var root: Path := [];
      assert root + ["backup"] == BackupRoot;
      PutValid(t, root, "backup", Dir([], now));
      Put(t, root, "backup", Dir([], now))
  }

  /** The whole script: the backup root is created when missing, then the
      command runs on the tree that leaves. `upload` and `verify` act on the
      greatest snapshot name. */
  method Run(disk: Disk, arg: Option<string>, nameClock: string, manifestClock: string, uploadClock: string, now: int,
             sha256: Bytes -> Digest, stringify: Manifest -> Bytes, parse: Bytes -> ParsedManifest,
             stringifyLog: UploadLog -> Bytes)
    returns (r: Outcome)
    requires Valid(disk.tree)
    requires ParseCommand(arg) == Create ==> BackupRoot + [SnapshotName(nameClock)] !in disk.tree
    modifies disk
    ensures Valid(disk.tree)
    ensures ParseCommand(arg) == Help ==> r == Ok
    ensures ParseCommand(arg) in {Help, Verify} ==> disk.tree == WithBackupRoot(old(disk.tree), now)
    ensures ParseCommand(arg) != Help && IsFile(old(disk.tree), BackupRoot) ==>
      r == Fail(BackupRootNotDir) && disk.tree == old(disk.tree)
    ensures ParseCommand(arg) == Create && !IsFile(old(disk.tree), BackupRoot) ==>
      && r == Ok
      && exists m: Manifest, payload: Bytes ::
           Created(WithBackupRoot(old(disk.tree), now), disk.tree, BackupRoot + [SnapshotName(nameClock)],
                   manifestClock, m, payload, sha256, stringify)
    ensures ParseCommand(arg) == Upload && !IsFile(old(disk.tree), BackupRoot) ==>
      match Latest(SnapshotDirs(old(disk.tree)))
      case None => r == Fail(NoBackupFound("upload")) && disk.tree == WithBackupRoot(old(disk.tree), now)
      case Some(n) =>
        var bp := BackupRoot + [n];
        Uploaded(old(disk.tree), disk.tree, bp, stringifyLog(UploadLog(uploadClock, bp, UploadStatus, UploadUrl)), now, r)
    ensures ParseCommand(arg) == Verify && !IsFile(old(disk.tree), BackupRoot) ==>
      r == match Latest(SnapshotDirs(old(disk.tree)))
           case None => Fail(NoBackupFound("verify"))
           case Some(n) => VerifyOutcome(old(disk.tree), BackupRoot + [n], sha256, parse)
    ensures ParseCommand(arg) == Cleanup && !IsFile(old(disk.tree), BackupRoot) ==>
      r == Ok && CleanupState(WithBackupRoot(old(disk.tree), now), disk.tree, ToDelete(SnapshotDirs(old(disk.tree))))
  {
    ghost var t0 := disk.tree;
    var cmd := ParseCommand(arg);
    if BackupRoot !in disk.tree {
      assert Parent(BackupRoot) == [] && Last(BackupRoot) == "backup";
      var made := disk.Mkdir(BackupRoot, now);
    }
    assert disk.tree == WithBackupRoot(t0, now);
    assert SnapshotDirs(disk.tree) == SnapshotDirs(t0) by {
      if BackupRoot !in t0 {
        NewBackupRootIsEmpty(t0);
      }
    }
    if cmd == Help {
      return Ok;
    }
    if !IsDir(disk.tree, BackupRoot) {
      return Fail(BackupRootNotDir);
    }
    match cmd {
      case Create =>
        var bp, m, payload := CreateBackup(disk, nameClock, manifestClock, now, sha256, stringify);
        r := Ok;
      case Upload =>
        var latest := Latest(SnapshotDirs(disk.tree));
        if latest.None? {
          return Fail(NoBackupFound("upload"));
        }
        r := UploadBackup(disk, BackupRoot + [latest.value], uploadClock, now, stringifyLog);
      case Verify =>
        var latest := Latest(SnapshotDirs(disk.tree));
        if latest.None? {
          return Fail(NoBackupFound("verify"));
        }
        r := VerifyBackup(disk, BackupRoot + [latest.value], sha256, parse);
      case Cleanup =>
        ghost var t1 := disk.tree;
        var deleted := CleanupOldBackups(disk);
        assert CleanupState(t1, disk.tree, deleted);
        r := Ok;
    }
  }

  /** A backup root made at start holds no snapshot. */
  lemma NewBackupRootIsEmpty(t0: Tree)
    requires Valid(t0) && BackupRoot !in t0
    ensures SnapshotDirs(t0) == []
  {
    NoMembersEmpty(SnapshotDirs(t0));
  }

  lemma NoMembersEmpty<T>(s: seq<T>)
    ensures (forall x :: x !in s) ==> s == []
  {
    if s != [] {
      assert s[0] in s;
    }
  }
}
