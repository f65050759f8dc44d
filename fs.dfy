/**
 * An in-memory model of the part of Node's `fs` module that the maintenance
 * scripts use. Paths are sequences of names relative to the application root
 * (the directory that holds `scripts/`, `src/`, `backup/`, ...). A directory
 * keeps its listing in the order `readdirSync` returns it; that order is input
 * to the model, and a newly created entry is appended at the end of it.
 */
module Fs {
  type Byte = b: int | 0 <= b < 256
  type Bytes = seq<Byte>
  type Name = string
  type Path = seq<Name>

  datatype Node = Dir(listing: seq<Name>, mtime: int) | File(data: Bytes, mtime: int)

  type Tree = map<Path, Node>

  predicate Distinct<T(==)>(s: seq<T>) {
    forall i, j | 0 <= i < j < |s| :: s[i] != s[j]
  }

  function Parent(p: Path): Path
    requires p != []
  {
    p[..|p| - 1]
  }

  function Last(p: Path): Name
    requires p != []
  {
    p[|p| - 1]
  }

  /** A tree as a real filesystem has it: a root directory, listings without
      repetition that name exactly the children present, and no orphans. */
  ghost predicate Valid(t: Tree) {
    && [] in t && t[[]].Dir?
    && (forall p | p in t && t[p].Dir? :: Distinct(t[p].listing))
    && (forall p, c {:trigger c in t[p].listing} | p in t && t[p].Dir? && c in t[p].listing :: p + [c] in t)
    && (forall p, c {:trigger p + [c] in t} | p + [c] in t :: p in t && t[p].Dir? && c in t[p].listing)
  }

  predicate IsDir(t: Tree, p: Path) {
    p in t && t[p].Dir?
  }

  predicate IsFile(t: Tree, p: Path) {
    p in t && t[p].File?
  }

  /** No prefix of `p` is a file, so `mkdirSync(p, { recursive: true })` succeeds. */
  predicate NoFileOnPath(t: Tree, p: Path) {
    forall i | 0 <= i <= |p| :: p[..i] in t ==> t[p[..i]].Dir?
  }

  /** The paths at or below `p`; walks below `p` recurse on a strictly smaller set. */
  ghost function Under(t: Tree, p: Path): set<Path> {
    set q | q in t && p <= q
  }

  /** Growing a prefix of `s` by one element. */
  lemma TakeOneMore<T>(s: seq<T>, i: nat)
    requires i < |s|
    ensures s[..i + 1] == s[..i] + [s[i]]
  {
  }

  lemma PrefixTrans(a: Path, b: Path, c: Path)
    requires a <= b && b <= c
    ensures a <= c
  {
    assert c[..|a|] == c[..|b|][..|a|];
  }

  /** A prefix of `d + [x]` is that path itself or a prefix of `d`. */
  lemma PrefixOfSnoc(p: Path, d: Path, x: Name)
    ensures p <= d + [x] ==> p == d + [x] || p <= d
  {
    if p <= d + [x] && |p| <= |d| {
      assert p == (d + [x])[..|p|] == d[..|p|];
    }
  }

  lemma ChildUnderSmaller(t: Tree, p: Path, c: Name)
    requires p in t
    ensures Under(t, p + [c]) < Under(t, p)
  {
    forall q | q in Under(t, p + [c]) ensures q in Under(t, p) {
      PrefixTrans(p, p + [c], q);
    }
    assert p in Under(t, p) && p !in Under(t, p + [c]);
  }

  /** Two prefixes of one path are prefixes of each other. */
  lemma PrefixesComparable(a: Path, b: Path, q: Path)
    requires a <= q && b <= q
    ensures a <= b || b <= a
  {
    if |a| <= |b| {
      assert a == q[..|a|] == b[..|a|];
    } else {
      assert b == q[..|b|] == a[..|b|];
    }
  }

  /** Every entry but the root is listed by its parent directory. */
  lemma ParentListed(t: Tree, q: Path)
    requires Valid(t) && q in t && q != []
    ensures Parent(q) in t && t[Parent(q)].Dir? && Last(q) in t[Parent(q)].listing
  {
    assert q == Parent(q) + [Last(q)];
  }

  /** The first name below `p` on the way to `q` is listed in directory `p`. */
  lemma ListedOnTheWay(t: Tree, p: Path, q: Path)
    requires Valid(t) && q in t && p < q
    ensures p in t && t[p].Dir? && q[|p|] in t[p].listing && p + [q[|p|]] in t
    decreases |q|
  {
    ParentListed(t, q);
    if |q| == |p| + 1 {
      assert Parent(q) == p && Last(q) == q[|p|];
    } else {
      assert p < Parent(q);
      ListedOnTheWay(t, p, Parent(q));
      assert Parent(q)[|p|] == q[|p|];
    }
  }

  /** Every prefix of an entry is present. */
  lemma AncestorPresent(t: Tree, p: Path, q: Path)
    ensures Valid(t) && q in t && p <= q ==> p in t
  {
    if Valid(t) && q in t && p <= q {
      if |p| < |q| {
        ListedOnTheWay(t, p, q);
      } else {
        assert p == q;
      }
    }
  }

  /** The subtree at `p` is the same in `t` and `u`. */
  ghost predicate SameBelow(t: Tree, u: Tree, p: Path) {
    && (forall r | r in t && p <= r :: r in u && u[r] == t[r])
    && (forall r | r in u && p <= r :: r in t)
  }

  lemma SameBelowChild(t: Tree, u: Tree, p: Path, c: Name)
    requires SameBelow(t, u, p)
    ensures SameBelow(t, u, p + [c])
  {
    forall r | r in t && p + [c] <= r ensures r in u && u[r] == t[r] {
      PrefixTrans(p, p + [c], r);
    }
    forall r | r in u && p + [c] <= r ensures r in t {
      PrefixTrans(p, p + [c], r);
    }
  }

  /** `t` with entry `name` of directory `dir` created or replaced by `n`; a new
      name goes to the end of the listing. */
  function Put(t: Tree, dir: Path, name: Name, n: Node): (r: Tree)
    requires dir in t && t[dir].Dir?
    ensures r.Keys == t.Keys + {dir + [name]}
    ensures r[dir + [name]] == n
    ensures forall q | q in t && q != dir && q != dir + [name] :: r[q] == t[q]
    ensures r[dir].Dir? && r[dir].mtime == t[dir].mtime
    ensures r[dir].listing == if name in t[dir].listing then t[dir].listing else t[dir].listing + [name]
  {
    var l := t[dir].listing;
    var t' := if name in l then t else t[dir := t[dir].(listing := l + [name])];
    t'[dir + [name] := n]
  }

  lemma PutValid(t: Tree, dir: Path, name: Name, n: Node)
    requires Valid(t) && dir in t && t[dir].Dir?
    requires dir + [name] in t ==> t[dir + [name]].File? && n.File?
    requires n.Dir? ==> n.listing == []
    ensures Valid(Put(t, dir, name, n))
  {
    PutKeepsParents(t, dir, name, n);
    PutKeepsChildren(t, dir, name, n);
    PutKeepsDistinct(t, dir, name, n);
  }

  lemma PutKeepsParents(t: Tree, dir: Path, name: Name, n: Node)
    requires Valid(t) && dir in t && t[dir].Dir?
    requires dir + [name] in t ==> t[dir + [name]].File? && n.File?
    ensures var r := Put(t, dir, name, n);
      forall d, x | d + [x] in r :: d in r && r[d].Dir? && x in r[d].listing
  {
    var r := Put(t, dir, name, n);
    var c := dir + [name];
    forall d, x | d + [x] in r ensures d in r && r[d].Dir? && x in r[d].listing {
      if d + [x] != c {
        assert d + [x] in t;
        assert d in t && t[d].Dir? && x in t[d].listing;
      } else {
        assert d == Parent(c) && x == Last(c);
      }
    }
  }

  lemma PutKeepsChildren(t: Tree, dir: Path, name: Name, n: Node)
    requires Valid(t) && dir in t && t[dir].Dir?
    requires dir + [name] in t ==> t[dir + [name]].File? && n.File?
    requires n.Dir? ==> n.listing == []
    ensures var r := Put(t, dir, name, n);
      forall d, x | d in r && r[d].Dir? && x in r[d].listing :: d + [x] in r
  {
    var r := Put(t, dir, name, n);
    var c := dir + [name];
    forall d, x | d in r && r[d].Dir? && x in r[d].listing ensures d + [x] in r {
      if d != dir && d != c {
        assert d in t && r[d] == t[d];
        assert x in t[d].listing;
      } else if d == dir {
        if x != name {
          assert x in t[d].listing;
        }
      }
    }
  }

  lemma PutKeepsDistinct(t: Tree, dir: Path, name: Name, n: Node)
    requires Valid(t) && dir in t && t[dir].Dir?
    requires n.Dir? ==> n.listing == []
    ensures var r := Put(t, dir, name, n);
      forall d | d in r && r[d].Dir? :: Distinct(r[d].listing)
  {
    var r := Put(t, dir, name, n);
    forall d | d in r && r[d].Dir? ensures Distinct(r[d].listing) {
      if d == dir && name !in t[dir].listing {
        assert Distinct(t[dir].listing);
      } else if d != dir + [name] {
        assert d in t;
      }
    }
  }

  function Without(l: seq<Name>, x: Name): (r: seq<Name>)
    ensures forall y :: y in r <==> y in l && y != x
    ensures Distinct(l) ==> Distinct(r)
    ensures |r| <= |l|
  {
    if l == [] then []
    else if l[0] == x then Without(l[1..], x)
    else
      var rest := Without(l[1..], x);
      assert Distinct(l) ==> l[0] !in l[1..] && Distinct(l[1..]);
      [l[0]] + rest
  }

  /** `t` with the whole subtree at `p` gone and `p`'s name dropped from its
      parent's listing, as `rmSync(p, { recursive: true })` leaves it. */
  function Remove(t: Tree, p: Path): (r: Tree)
    requires Valid(t) && p in t && p != []
    ensures Parent(p) in t && t[Parent(p)].Dir?
    ensures forall q :: q in r <==> q in t && !(p <= q)
    ensures forall q | q in r && q != Parent(p) :: r[q] == t[q]
    ensures r[Parent(p)] == t[Parent(p)].(listing := Without(t[Parent(p)].listing, Last(p)))
  {
    ParentListed(t, p);
    var kept := map q | q in t && !(p <= q) :: t[q];
    var d := t[Parent(p)];
    kept[Parent(p) := d.(listing := Without(d.listing, Last(p)))]
  }

  lemma RemoveValid(t: Tree, p: Path)
    requires Valid(t) && p != [] && p in t
    ensures Valid(Remove(t, p))
  {
    var r := Remove(t, p);
    RemoveKeepsParents(t, p);
    RemoveKeepsChildren(t, p);
    assert [] in r by {
      assert !(p <= []);
    }
  }

  lemma RemoveKeepsParents(t: Tree, p: Path)
    requires Valid(t) && p != [] && p in t
    ensures var r := Remove(t, p);
      forall d, x | d + [x] in r :: d in r && r[d].Dir? && x in r[d].listing
  {
    var r := Remove(t, p);
    ParentListed(t, p);
    forall d, x | d + [x] in r ensures d in r && r[d].Dir? && x in r[d].listing {
      var q := d + [x];
      assert q in t && !(p <= q);
      assert d in t && t[d].Dir? && x in t[d].listing;
      PrefixOfSnoc(p, d, x);
      assert !(p <= d);
      if d == Parent(p) {
        assert x != Last(p) by {
          assert p == Parent(p) + [Last(p)];
        }
      }
    }
  }

  lemma RemoveKeepsChildren(t: Tree, p: Path)
    requires Valid(t) && p != [] && p in t
    ensures var r := Remove(t, p);
      forall d, x | d in r && r[d].Dir? && x in r[d].listing :: d + [x] in r
  {
    var r := Remove(t, p);
    forall d, x | d in r && r[d].Dir? && x in r[d].listing ensures d + [x] in r {
      assert d in t && !(p <= d);
      if d == Parent(p) {
        assert x in t[d].listing && x != Last(p);
        assert d + [x] != p;
      } else {
        assert r[d] == t[d];
        assert d + [x] != p;
      }
      assert d + [x] in t;
      PrefixOfSnoc(p, d, x);
    }
  }

  /** The filesystem the scripts run against. */
  class Disk {
    var tree: Tree

    constructor (t: Tree)
      requires Valid(t)
      ensures tree == t
    {
      tree := t;
    }

    /** `mkdirSync(p, { recursive: true })`: creates every missing directory on
        the way to `p`; it fails, changing nothing, when a prefix of `p` is a file. */
    method MkdirP(p: Path, now: int) returns (ok: bool)
      requires Valid(tree)
      modifies this
      ensures Valid(tree)
      ensures ok <==> NoFileOnPath(old(tree), p)
      ensures !ok ==> tree == old(tree)
      ensures ok ==> forall i | 0 <= i <= |p| :: IsDir(tree, p[..i])
      ensures ok ==> MkdirFrame(old(tree), tree, p, now)
    {
      ok := forall i | 0 <= i <= |p| :: p[..i] in tree ==> tree[p[..i]].Dir?;
      if !ok {
        return;
      }
      ghost var t0 := tree;
      MkdirStarts(t0, p, now);
      var i := 1;
      while i <= |p|
        invariant MkdirState(t0, tree, p, i, now)
      {
        MkdirStep(t0, tree, p, i, now);
        if p[..i] !in tree {
          tree := Put(tree, p[..i - 1], p[i - 1], Dir([], now));
        }
        i := i + 1;
      }
    }

    /** `mkdirSync(p)`: creates the empty directory `p` with modification
        time `now`. It fails, changing nothing, when the parent of `p` is not a
        directory or `p` already exists. */
    method Mkdir(p: Path, now: int) returns (ok: bool)
      requires Valid(tree) && p != []
      modifies this
      ensures Valid(tree)
      ensures ok <==> IsDir(old(tree), Parent(p)) && p !in old(tree)
      ensures ok ==> tree == Put(old(tree), Parent(p), Last(p), Dir([], now))
      ensures !ok ==> tree == old(tree)
    {
      ok := IsDir(tree, Parent(p)) && p !in tree;
      if ok {
        assert p == Parent(p) + [Last(p)];
        PutValid(tree, Parent(p), Last(p), Dir([], now));
        tree := Put(tree, Parent(p), Last(p), Dir([], now));
      }
    }

    /** `writeFileSync(p, data)`: creates or replaces the file `p` with
        modification time `now`. It fails, changing nothing, when the parent of
        `p` is not a directory or `p` is a directory. */
    method WriteFile(p: Path, data: Bytes, now: int) returns (ok: bool)
      requires Valid(tree) && p != []
      modifies this
      ensures Valid(tree)
      ensures ok <==> IsDir(old(tree), Parent(p)) && !IsDir(old(tree), p)
      ensures ok ==> tree == Put(old(tree), Parent(p), Last(p), File(data, now))
      ensures !ok ==> tree == old(tree)
    {
      ok := IsDir(tree, Parent(p)) && !IsDir(tree, p);
      if ok {
        assert p == Parent(p) + [Last(p)];
        PutValid(tree, Parent(p), Last(p), File(data, now));
        tree := Put(tree, Parent(p), Last(p), File(data, now));
      }
    }

    /** `copyFileSync(src, dest)`: `dest` becomes a file with the bytes of the
        file `src` and modification time `now`; it fails, changing nothing,
        when `dest`'s parent is not a directory or `dest` is a directory. */
    method CopyFile(src: Path, dest: Path, now: int) returns (ok: bool)
      requires Valid(tree) && IsFile(tree, src) && dest != []
      modifies this
      ensures Valid(tree)
      ensures ok <==> IsDir(old(tree), Parent(dest)) && !IsDir(old(tree), dest)
      ensures ok ==> tree == Put(old(tree), Parent(dest), Last(dest), File(old(tree)[src].data, now))
      ensures !ok ==> tree == old(tree)
    {
      ok := WriteFile(dest, tree[src].data, now);
    }

    /** `unlinkSync(p)`: removes a file; it fails, changing nothing, on a
        directory or a missing path. */
    method Unlink(p: Path) returns (ok: bool)
      requires Valid(tree) && p != []
      modifies this
      ensures Valid(tree)
      ensures ok <==> IsFile(old(tree), p)
      ensures ok ==> tree == Remove(old(tree), p)
      ensures !ok ==> tree == old(tree)
    {
      ok := IsFile(tree, p);
      if ok {
        RemoveValid(tree, p);
        tree := Remove(tree, p);
      }
    }

    /** `rmSync(p, { recursive: true, force: true })`: removes the subtree at
        `p`; a missing `p` is not an error. */
    method RemoveTree(p: Path)
      requires Valid(tree) && p != []
      modifies this
      ensures Valid(tree)
      ensures p in old(tree) ==> tree == Remove(old(tree), p)
      ensures p !in old(tree) ==> tree == old(tree)
    {
      if p in tree {
        RemoveValid(tree, p);
        tree := Remove(tree, p);
      }
    }
  }

  /** `mkdir -p p` after the first `i - 1` components of `p` are handled. */
  ghost predicate MkdirState(t0: Tree, t: Tree, p: Path, i: int, now: int) {
    && 1 <= i <= |p| + 1
    && Valid(t)
    && (forall j | 0 <= j < i :: IsDir(t, p[..j]))
    && NoFileOnPath(t, p)
    && MkdirFrame(t0, t, p, now)
  }

  lemma MkdirStarts(t0: Tree, p: Path, now: int)
    requires Valid(t0) && NoFileOnPath(t0, p)
    ensures MkdirState(t0, t0, p, 1, now)
  {
    assert p[..0] == [];
    forall q | q in t0 && q < p ensures t0[q].Dir? {
      assert q == p[..|q|];
    }
  }

  /** Component `i` of `p` is created when missing. */
  lemma MkdirStep(t0: Tree, t: Tree, p: Path, i: int, now: int)
    requires MkdirState(t0, t, p, i, now) && i <= |p|
    ensures p[..i - 1] in t && t[p[..i - 1]].Dir?
    ensures p[..i] in t ==> MkdirState(t0, t, p, i + 1, now)
    ensures p[..i] !in t ==> MkdirState(t0, Put(t, p[..i - 1], p[i - 1], Dir([], now)), p, i + 1, now)
  {
    var dir := p[..i - 1];
    if p[..i] !in t {
      assert p[..i] == dir + [p[i - 1]];
      PutValid(t, dir, p[i - 1], Dir([], now));
      var u := Put(t, dir, p[i - 1], Dir([], now));
      forall j | 0 <= j <= |p| && p[..j] in u ensures u[p[..j]].Dir? {
        if j != i && j != i - 1 {
          assert p[..j] in t;
        }
      }
      forall q | q in t0 ensures MkdirChanged(t0, u, p, q) {
        assert q in t && MkdirChanged(t0, t, p, q);
        if q == dir {
          assert q < p;
        }
      }
      forall q | q in u && q !in t0 ensures q <= p && u[q].Dir? && u[q].mtime == now {
        if q != p[..i] {
          assert q in t;
        }
      }
    }
  }

  /** How one existing entry `q` may change under `mkdir -p p`: directories on the
      way to `p` may gain entries, nothing else changes. */
  ghost predicate MkdirChanged(t0: Tree, t: Tree, p: Path, q: Path)
    requires q in t0
  {
    && q in t
    && (!(q < p) ==> t[q] == t0[q])
    && (q < p ==> t[q].Dir? && t0[q].Dir? && t[q].mtime == t0[q].mtime && t0[q].listing <= t[q].listing)
  }

  ghost predicate MkdirFrame(t0: Tree, t: Tree, p: Path, now: int) {
    && (forall q | q in t0 :: MkdirChanged(t0, t, p, q))
    && (forall q | q in t && q !in t0 :: q <= p && t[q].Dir? && t[q].mtime == now)
  }
}
