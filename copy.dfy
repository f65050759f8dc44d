/**
 * `copyDirectory(src, dest)` of scripts/backup.js: creates `dest` when it is
 * missing, then walks `src`'s listing, recursing into directories and copying
 * files with `copyFileSync`. Existing entries of `dest` stay unless a copied
 * file replaces them.
 */
module TreeCopy {
  import opened Fs

  /** `q`, below `from`, moved to the same place below `to`. */
  function Rebase(q: Path, from: Path, to: Path): Path
    requires from <= q
  {
    to + q[|from|..]
  }

  /** Neither path lies at or below the other. */
  predicate Apart(a: Path, b: Path) {
    !(a <= b) && !(b <= a)
  }

  /** Copying `src` onto `dest` never meets an entry of the other kind: where
      `dest` already has an entry, it is a directory exactly when the entry of
      `src` it corresponds to is one. */
  ghost predicate Compatible(t: Tree, src: Path, dest: Path) {
    forall q | q in t && src <= q && Rebase(q, src, dest) in t ::
      t[Rebase(q, src, dest)].Dir? == t[q].Dir?
  }

  predicate Matches(a: Node, b: Node) {
    (a.Dir? && b.Dir?) || (a.File? && b.File? && a.data == b.data)
  }

  /** Every entry at or below `src` in `t0` has its counterpart below `dest` in
      `t`: a directory for a directory, a file with the same bytes for a file. */
  ghost predicate Mirrors(t0: Tree, src: Path, t: Tree, dest: Path) {
    forall q | q in t0 && src <= q ::
      Rebase(q, src, dest) in t && Matches(t0[q], t[Rebase(q, src, dest)])
  }

  /** What else a copy of `src` onto `dest` may do to `t0`: nothing is removed
      and no entry changes kind; outside `dest` only the directories on the
      way to `dest` change; entries below `dest` with no counterpart in `src`
      are unchanged; new entries are on the way to `dest` or copies. */
  ghost predicate CopyFrame(t0: Tree, src: Path, dest: Path, t: Tree) {
    && (forall q | q in t0 :: q in t && t[q].Dir? == t0[q].Dir?)
    && (forall q | q in t0 && !(dest <= q) && !(q < dest) :: t[q] == t0[q])
    && (forall q | q in t0 && dest <= q && Rebase(q, dest, src) !in t0 :: t[q] == t0[q])
    && (forall q | q in t && q !in t0 :: q <= dest || (dest <= q && Rebase(q, dest, src) in t0))
  }

  /** The entries of `src` whose first name below `src` is in `done` are copied. */
  ghost predicate MirrorsChildren(t0: Tree, src: Path, t: Tree, dest: Path, done: seq<Name>) {
    forall q | q in t0 && src < q && q[|src|] in done ::
      Rebase(q, src, dest) in t && Matches(t0[q], t[Rebase(q, src, dest)])
  }

  ghost predicate CopyInvariant(t0: Tree, src: Path, dest: Path, t: Tree, done: seq<Name>) {
    && Valid(t)
    && SameBelow(t0, t, src)
    && (forall k | 0 <= k <= |dest| :: IsDir(t, dest[..k]))
    && Compatible(t, src, dest)
    && MirrorsChildren(t0, src, t, dest, done)
    && CopyFrame(t0, src, dest, t)
  }


  /** `copyDirectory(src, dest)`. The fs calls it makes throw when `src` and
      `dest` overlap, when a prefix of `dest` is a file, or when a file meets a
      directory; the precondition rules those out. */
  method CopyDirectory(disk: Disk, src: Path, dest: Path, now: int)
    requires Valid(disk.tree) && IsDir(disk.tree, src) && Apart(src, dest)
    requires NoFileOnPath(disk.tree, dest) && Compatible(disk.tree, src, dest)
    modifies disk
    ensures Valid(disk.tree)
    ensures Mirrors(old(disk.tree), src, disk.tree, dest)
    ensures CopyFrame(old(disk.tree), src, dest, disk.tree)
    decreases Under(disk.tree, src), 1
  {
    ghost var t0 := disk.tree;
    if dest !in disk.tree {
      var ok := disk.MkdirP(dest, now);
      MkdirStartsCopy(t0, disk.tree, src, dest, now);
    } else {
      AncestorsAreDirs(t0, dest);
      NothingStartsCopy(t0, src, dest);
    }
    var items := disk.tree[src].listing;
    var i := 0;
    while i < |items|
      invariant 0 <= i <= |items|
      invariant items == t0[src].listing
      invariant CopyInvariant(t0, src, dest, disk.tree, items[..i])
    {
      assert items[..i + 1] == items[..i] + [items[i]];
      ghost var t1 := disk.tree;
      SameBelowUnder(t0, t1, src);
      assert items[i] in t1[src].listing;
      CopyEntry(disk, src, dest, items[i], now);
      StepKeepsInvariant(t0, t1, disk.tree, src, dest, items[..i], items[i]);
      i := i + 1;
    }
    assert items[..i] == items;
    FinishCopy(t0, disk.tree, src, dest);
  }

  /** One turn of `copyDirectory`'s loop: the entry `c` of `src` is copied to
      `dest`, recursively for a directory and with `copyFileSync` for a file. */
  method CopyEntry(disk: Disk, src: Path, dest: Path, c: Name, now: int)
    requires Valid(disk.tree) && IsDir(disk.tree, src) && c in disk.tree[src].listing
    requires Apart(src, dest) && Compatible(disk.tree, src, dest)
    requires forall k | 0 <= k <= |dest| :: IsDir(disk.tree, dest[..k])
    modifies disk
    ensures Valid(disk.tree)
    ensures Mirrors(old(disk.tree), src + [c], disk.tree, dest + [c])
    ensures CopyFrame(old(disk.tree), src + [c], dest + [c], disk.tree)
    decreases Under(disk.tree, src), 0
  {
    ghost var t1 := disk.tree;
    EntryPreconditions(t1, src, dest, c);
    if disk.tree[src + [c]].Dir? {
      CopyDirectory(disk, src + [c], dest + [c], now);
    } else {
      var ok := disk.CopyFile(src + [c], dest + [c], now);
      FileCopied(t1, src + [c], dest + [c], now);
    }
  }

  lemma SameBelowUnder(t: Tree, u: Tree, p: Path)
    requires SameBelow(t, u, p)
    ensures Under(t, p) == Under(u, p)
  {
  }

  /** Implication forms of the prefix facts, usable in every case split. */
  lemma TransIf(a: Path, b: Path, c: Path)
    ensures a <= b && b <= c ==> a <= c
  {
    if a <= b && b <= c {
      PrefixTrans(a, b, c);
    }
  }

  lemma ComparableIf(a: Path, b: Path, q: Path)
    ensures a <= q && b <= q ==> a <= b || b <= a
  {
    if a <= q && b <= q {
      PrefixesComparable(a, b, q);
    }
  }

  lemma AntisymmetricIf(a: Path, b: Path)
    ensures a <= b && b <= a ==> a == b
  {
    if a <= b && b <= a {
      assert b == b[..|b|];
    }
  }

  lemma SnocPrefix(a: Path, b: Path, c: Name)
    ensures a + [c] <= b + [c] ==> a <= b
  {
    PrefixOfSnoc(a + [c], b, c);
    TransIf(a, a + [c], b);
    if a + [c] == b + [c] {
      assert a == (a + [c])[..|a|];
    }
  }

  /** Rebasing below a child of `from` is rebasing below `from`. */
  lemma RebaseChild(q: Path, from: Path, to: Path, c: Name)
    ensures from + [c] <= q ==>
      && from <= q
      && Rebase(q, from + [c], to + [c]) == Rebase(q, from, to)
      && to + [c] <= Rebase(q, from, to)
  {
    TransIf(from, from + [c], q);
    if from + [c] <= q {
      assert q[|from|] == c;
      assert q[|from|..] == [c] + q[|from| + 1..];
    }
  }

  lemma RebaseRoundTrip(q: Path, src: Path, dest: Path)
    requires src <= q
    ensures dest <= Rebase(q, src, dest)
    ensures Rebase(Rebase(q, src, dest), dest, src) == q
  {
    assert Rebase(q, src, dest)[|dest|..] == q[|src|..];
    assert q == src + q[|src|..];
  }

  /** A path below `p` whose next name is `c` lies below `p + [c]`. */
  lemma ChildOnPath(p: Path, c: Name, q: Path)
    requires p < q && q[|p|] == c
    ensures p + [c] <= q
  {
    assert q[..|p| + 1] == q[..|p|] + [q[|p|]];
  }

  /** Paths below two different children of `p` are apart, and below `p`. */
  lemma SiblingsApart(p: Path, a: Name, b: Name, r: Path)
    requires a != b && p + [a] <= r
    ensures !(p + [b] <= r) && !(r <= p + [b]) && !(r <= p)
  {
    assert r[|p|] == a;
  }

  /** A mirror survives a change that keeps everything at or below its
      destination. */
  lemma MirrorsFrame(t0: Tree, src: Path, t: Tree, u: Tree, dest: Path)
    requires Mirrors(t0, src, t, dest)
    requires forall r | r in t && dest <= r :: r in u && u[r] == t[r]
    ensures Mirrors(t0, src, u, dest)
  {
    forall q | q in t0 && src <= q ensures Rebase(q, src, dest) in u && Matches(t0[q], u[Rebase(q, src, dest)]) {
      RebaseRoundTrip(q, src, dest);
    }
  }

  /** Adding an entry outside a mirror's destination keeps the mirror. */
  lemma PutKeepsMirrors(t0: Tree, src: Path, t: Tree, dir: Path, name: Name, n: Node, dest: Path)
    requires dir in t && t[dir].Dir? && Mirrors(t0, src, t, dest)
    requires !(dest <= dir) && !(dest <= dir + [name])
    ensures Mirrors(t0, src, Put(t, dir, name, n), dest)
  {
    var u := Put(t, dir, name, n);
    forall r | r in t && dest <= r ensures r in u && u[r] == t[r] {
      assert r != dir && r != dir + [name];
    }
    MirrorsFrame(t0, src, t, u, dest);
  }

  /** A mirror of `src` taken from `t` is one of `t0` when `src` is the same
      in both. */
  lemma MirrorsOfSame(t0: Tree, t: Tree, src: Path, u: Tree, dest: Path)
    requires SameBelow(t0, t, src) && Mirrors(t, src, u, dest)
    ensures Mirrors(t0, src, u, dest)
  {
  }

  lemma AncestorsAreDirs(t: Tree, p: Path)
    requires Valid(t) && p in t && NoFileOnPath(t, p)
    ensures forall k | 0 <= k <= |p| :: IsDir(t, p[..k])
    decreases |p|
  {
    if p != [] {
      ParentListed(t, p);
      assert NoFileOnPath(t, Parent(p)) by {
        forall i | 0 <= i <= |Parent(p)| ensures Parent(p)[..i] == p[..i] { }
      }
      AncestorsAreDirs(t, Parent(p));
      forall k | 0 <= k <= |p| ensures IsDir(t, p[..k]) {
        if k < |p| {
          assert p[..k] == Parent(p)[..k];
        } else {
          assert p[..k] == p;
        }
      }
    }
  }

  /** Nothing at or below `src` is at, below or on the way to `dest`. */
  lemma ApartFacts(src: Path, dest: Path, q: Path)
    requires Apart(src, dest) && src <= q
    ensures !(dest <= q) && !(q <= dest)
  {
    ComparableIf(src, dest, q);
    TransIf(src, q, dest);
  }

  lemma ApartChildren(src: Path, dest: Path, c: Name)
    requires Apart(src, dest)
    ensures Apart(src + [c], dest + [c])
  {
    SnocPrefix(src, dest, c);
    SnocPrefix(dest, src, c);
  }

  lemma MkdirStartsCopy(t0: Tree, t1: Tree, src: Path, dest: Path, now: int)
    requires Valid(t0) && IsDir(t0, src) && Apart(src, dest) && dest !in t0
    requires NoFileOnPath(t0, dest) && Compatible(t0, src, dest)
    requires Valid(t1) && MkdirFrame(t0, t1, dest, now)
    requires forall i | 0 <= i <= |dest| :: IsDir(t1, dest[..i])
    ensures CopyInvariant(t0, src, dest, t1, [])
  {
    forall q | q in t0 && src <= q ensures q in t1 && t1[q] == t0[q] {
      ApartFacts(src, dest, q);
      assert MkdirChanged(t0, t1, dest, q);
    }
    forall q | q in t1 && src <= q ensures q in t0 {
      ApartFacts(src, dest, q);
    }
    forall q | q in t1 && src <= q && Rebase(q, src, dest) in t1
      ensures t1[Rebase(q, src, dest)].Dir? == t1[q].Dir?
    {
      var r := Rebase(q, src, dest);
      RebaseRoundTrip(q, src, dest);
      ApartFacts(src, dest, q);
      assert q in t0 && MkdirChanged(t0, t1, dest, q);
      if r in t0 {
        assert MkdirChanged(t0, t1, dest, r);
      } else {
        assert r <= dest;
        assert r == dest && q == src;
      }
    }
    forall q | q in t0 && !(dest <= q) && !(q < dest) ensures t1[q] == t0[q] {
      assert MkdirChanged(t0, t1, dest, q);
    }
    forall q | q in t0 && dest <= q ensures t1[q] == t0[q] {
      assert MkdirChanged(t0, t1, dest, q);
    }
    forall q | q in t0 ensures q in t1 && t1[q].Dir? == t0[q].Dir? {
      assert MkdirChanged(t0, t1, dest, q);
    }
  }

  lemma NothingStartsCopy(t0: Tree, src: Path, dest: Path)
    requires Valid(t0) && IsDir(t0, src) && Apart(src, dest)
    requires Compatible(t0, src, dest)
    requires forall k | 0 <= k <= |dest| :: IsDir(t0, dest[..k])
    ensures CopyInvariant(t0, src, dest, t0, [])
  {
  }

  /** What copying entry `c` of `src` to `dest + [c]` needs. */
  lemma EntryPreconditions(t: Tree, src: Path, dest: Path, c: Name)
    requires Valid(t) && IsDir(t, src) && c in t[src].listing
    requires Apart(src, dest) && Compatible(t, src, dest)
    requires forall k | 0 <= k <= |dest| :: IsDir(t, dest[..k])
    ensures src + [c] in t
    ensures Apart(src + [c], dest + [c])
    ensures t[src + [c]].Dir? ==> NoFileOnPath(t, dest + [c]) && Compatible(t, src + [c], dest + [c])
    ensures Under(t, src + [c]) < Under(t, src)
    ensures t[src + [c]].File? ==> IsDir(t, Parent(dest + [c])) && !IsDir(t, dest + [c])
    ensures dest + [c] != [] && Parent(dest + [c]) == dest && Last(dest + [c]) == c
  {
    var s, d := src + [c], dest + [c];
    ApartChildren(src, dest, c);
    assert Rebase(s, src, dest) == d;
    assert dest[..|dest|] == dest;
    forall i | 0 <= i <= |d| && d[..i] in t && i <= |dest| ensures t[d[..i]].Dir? {
      assert d[..i] == dest[..i];
    }
    assert d[..|d|] == d;
    forall q | q in t && s <= q && Rebase(q, s, d) in t ensures t[Rebase(q, s, d)].Dir? == t[q].Dir? {
      RebaseChild(q, src, dest, c);
    }
    ChildUnderSmaller(t, src, c);
  }

  /** Copying a single file onto `d` meets the contract of a recursive copy. */
  lemma FileCopied(t1: Tree, s: Path, d: Path, now: int)
    requires Valid(t1) && IsFile(t1, s) && d != [] && IsDir(t1, Parent(d)) && !IsDir(t1, d)
    requires Apart(s, d)
    ensures var t2 := Put(t1, Parent(d), Last(d), File(t1[s].data, now));
      Mirrors(t1, s, t2, d) && CopyFrame(t1, s, d, t2)
  {
    var t2 := Put(t1, Parent(d), Last(d), File(t1[s].data, now));
    assert d == Parent(d) + [Last(d)];
    forall q | q in t1 && s <= q ensures q == s {
      if s < q {
        ListedOnTheWay(t1, s, q);
      }
    }
    assert Rebase(s, s, d) == d;
    forall q | q in t1 && d <= q ensures q == d {
      if d < q {
        ListedOnTheWay(t1, d, q);
      }
    }
    assert Rebase(d, d, s) == s;
  }

  /** One turn of the loop keeps the loop invariant: entry `c` was copied
      with the contract of `CopyEntry`. */
  lemma StepKeepsInvariant(t0: Tree, t1: Tree, t2: Tree, src: Path, dest: Path, done: seq<Name>, c: Name)
    requires Valid(t0) && IsDir(t0, src) && Apart(src, dest) && c in t0[src].listing
    requires CopyInvariant(t0, src, dest, t1, done)
    requires Valid(t2)
    requires Mirrors(t1, src + [c], t2, dest + [c]) && CopyFrame(t1, src + [c], dest + [c], t2)
    ensures CopyInvariant(t0, src, dest, t2, done + [c])
  {
    assert dest[..|dest|] == dest;
    StepKeepsSource(t0, t1, t2, src, dest, c);
    StepKeepsDest(t1, t2, src, dest, c);
    StepKeepsCompatible(t0, t1, t2, src, dest, c);
    StepKeepsMirrors(t0, t1, t2, src, dest, done, c);
    StepKeepsFrame(t0, t1, t2, src, dest, c);
  }

  lemma StepKeepsSource(t0: Tree, t1: Tree, t2: Tree, src: Path, dest: Path, c: Name)
    requires Apart(src, dest) && SameBelow(t0, t1, src)
    requires CopyFrame(t1, src + [c], dest + [c], t2)
    ensures SameBelow(t0, t2, src)
  {
    var d := dest + [c];
    forall q | q in t0 && src <= q ensures q in t2 && t2[q] == t0[q] {
      ApartFacts(src, dest, q);
      PrefixOfSnoc(q, dest, c);
      TransIf(dest, d, q);
    }
    forall q | q in t2 && src <= q ensures q in t0 {
      ApartFacts(src, dest, q);
      PrefixOfSnoc(q, dest, c);
      TransIf(dest, d, q);
    }
  }

  lemma StepKeepsDest(t1: Tree, t2: Tree, src: Path, dest: Path, c: Name)
    requires forall k | 0 <= k <= |dest| :: IsDir(t1, dest[..k])
    requires CopyFrame(t1, src + [c], dest + [c], t2)
    ensures forall k | 0 <= k <= |dest| :: IsDir(t2, dest[..k])
  {
    forall k | 0 <= k <= |dest| ensures IsDir(t2, dest[..k]) {
      assert dest[..k] in t1;
    }
  }

  lemma StepKeepsCompatible(t0: Tree, t1: Tree, t2: Tree, src: Path, dest: Path, c: Name)
    requires Apart(src, dest)
    requires SameBelow(t0, t1, src) && SameBelow(t0, t2, src)
    requires IsDir(t1, dest) && Compatible(t1, src, dest)
    requires Mirrors(t1, src + [c], t2, dest + [c]) && CopyFrame(t1, src + [c], dest + [c], t2)
    ensures Compatible(t2, src, dest)
  {
    var s, d := src + [c], dest + [c];
    assert Rebase(d, dest, src) == s;
    assert s[..|s|] == s;
    forall q | q in t2 && src <= q && Rebase(q, src, dest) in t2
      ensures t2[Rebase(q, src, dest)].Dir? == t2[q].Dir?
    {
      var r := Rebase(q, src, dest);
      RebaseRoundTrip(q, src, dest);
      RebaseChild(q, src, dest, c);
      if !(s <= q) {
        RebaseChild(r, dest, src, c);
        PrefixOfSnoc(r, dest, c);
        AntisymmetricIf(r, dest);
        assert r in t1;
      }
    }
  }

  lemma StepKeepsMirrors(t0: Tree, t1: Tree, t2: Tree, src: Path, dest: Path, done: seq<Name>, c: Name)
    requires SameBelow(t0, t1, src)
    requires MirrorsChildren(t0, src, t1, dest, done)
    requires Mirrors(t1, src + [c], t2, dest + [c]) && CopyFrame(t1, src + [c], dest + [c], t2)
    ensures MirrorsChildren(t0, src, t2, dest, done + [c])
  {
    var s, d := src + [c], dest + [c];
    forall q | q in t0 && src < q && q[|src|] in done + [c]
      ensures Rebase(q, src, dest) in t2 && Matches(t0[q], t2[Rebase(q, src, dest)])
    {
      var r := Rebase(q, src, dest);
      if q[|src|] == c {
        ChildOnPath(src, c, q);
        RebaseChild(q, src, dest, c);
      } else {
        assert r[|dest|] == q[|src|];
        PrefixOfSnoc(r, dest, c);
      }
    }
  }

  lemma StepKeepsFrame(t0: Tree, t1: Tree, t2: Tree, src: Path, dest: Path, c: Name)
    requires Valid(t0) && Apart(src, dest) && SameBelow(t0, t1, src) && IsDir(t0, src) && c in t0[src].listing
    requires CopyFrame(t0, src, dest, t1)
    requires CopyFrame(t1, src + [c], dest + [c], t2)
    ensures CopyFrame(t0, src, dest, t2)
  {
    StepKeepsOutside(t0, t1, t2, src, dest, c);
    StepKeepsUnshadowed(t0, t1, t2, src, dest, c);
    assert src + [c] in t0;
    StepKeepsNewEntries(t0, t1, t2, src, dest, c);
  }

  lemma StepKeepsOutside(t0: Tree, t1: Tree, t2: Tree, src: Path, dest: Path, c: Name)
    requires CopyFrame(t0, src, dest, t1)
    requires CopyFrame(t1, src + [c], dest + [c], t2)
    ensures forall q | q in t0 && !(dest <= q) && !(q < dest) :: t2[q] == t0[q]
  {
    var d := dest + [c];
    forall q | q in t0 && !(dest <= q) && !(q < dest) ensures t2[q] == t0[q] {
      PrefixOfSnoc(q, dest, c);
      TransIf(dest, d, q);
    }
  }

  lemma StepKeepsUnshadowed(t0: Tree, t1: Tree, t2: Tree, src: Path, dest: Path, c: Name)
    requires SameBelow(t0, t1, src) && IsDir(t0, src)
    requires CopyFrame(t0, src, dest, t1)
    requires CopyFrame(t1, src + [c], dest + [c], t2)
    ensures forall q | q in t0 && dest <= q && Rebase(q, dest, src) !in t0 :: t2[q] == t0[q]
  {
    var d := dest + [c];
    assert Rebase(dest, dest, src) == src;
    forall q | q in t0 && dest <= q && Rebase(q, dest, src) !in t0 ensures t2[q] == t0[q] {
      RebaseChild(q, dest, src, c);
      PrefixOfSnoc(q, dest, c);
      RebaseRoundTrip(q, dest, src);
      AntisymmetricIf(q, dest);
    }
  }

  lemma StepKeepsNewEntries(t0: Tree, t1: Tree, t2: Tree, src: Path, dest: Path, c: Name)
    requires SameBelow(t0, t1, src) && src + [c] in t0
    requires CopyFrame(t0, src, dest, t1)
    requires CopyFrame(t1, src + [c], dest + [c], t2)
    ensures forall q | q in t2 && q !in t0 :: q <= dest || (dest <= q && Rebase(q, dest, src) in t0)
  {
    var s, d := src + [c], dest + [c];
    assert Rebase(d, dest, src) == s;
    forall q | q in t2 && q !in t0 ensures q <= dest || (dest <= q && Rebase(q, dest, src) in t0) {
      if q in t1 {
      } else if q <= d {
        PrefixOfSnoc(q, dest, c);
      } else {
        assert d <= q && Rebase(q, d, s) in t1;
        RebaseChild(q, dest, src, c);
        var x := Rebase(q, dest, src);
        TransIf(src, s, x);
        assert src <= x && x in t1;
      }
    }
  }

  lemma FinishCopy(t0: Tree, t: Tree, src: Path, dest: Path)
    requires Valid(t0) && IsDir(t0, src)
    requires CopyInvariant(t0, src, dest, t, t0[src].listing)
    ensures Mirrors(t0, src, t, dest)
  {
    forall q | q in t0 && src <= q ensures Rebase(q, src, dest) in t && Matches(t0[q], t[Rebase(q, src, dest)]) {
      if q == src {
        assert Rebase(q, src, dest) == dest;
        assert dest[..|dest|] == dest;
      } else {
        ListedOnTheWay(t0, src, q);
      }
    }
  }
}
