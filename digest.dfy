/**
 * `calculateChecksum` of scripts/backup.js: one SHA-256 accumulator fed with the
 * bytes of every file below a directory, depth-first in listing order. SHA-256
 * itself is the parameter `sha256`; the accumulator's state is the byte stream
 * fed to it so far, and `hash.digest('hex')` is `sha256` of that stream.
 */
module TreeDigest {
  import opened Fs

  type Digest = string

  /** The bytes fed to the hash for the entry at `p`: a file's content, or a
      directory's entries depth-first in listing order. Names, modification
      times and empty directories contribute nothing. */
  ghost function Stream(t: Tree, p: Path): Bytes
    decreases Under(t, p), 1, 0
  {
    if p !in t then []
    else match t[p]
      case File(data, _) => data
      case Dir(listing, _) => StreamItems(t, p, listing)
  }

  /** The bytes fed for the entries `items` of directory `p`, in order. */
  ghost function StreamItems(t: Tree, p: Path, items: seq<Name>): Bytes
    requires p in t
    decreases Under(t, p), 0, |items|
  {
    if items == [] then []
    else
      var c := items[|items| - 1];
      ChildUnderSmaller(t, p, c);
      StreamItems(t, p, items[..|items| - 1]) + Stream(t, p + [c])
  }

  /** The hash accumulator is collision-free: different streams give different
      digests. Only the lemmas that need it assume it. */
  ghost predicate CollisionFree(sha256: Bytes -> Digest) {
    forall a: Bytes, b: Bytes | sha256(a) == sha256(b) :: a == b
  }

  /** `processPath`: feeds the files below directory `p` to the accumulator. */
  method ProcessPath(disk: Disk, p: Path, fed: Bytes) returns (fed': Bytes)
    requires Valid(disk.tree) && IsDir(disk.tree, p)
    ensures fed' == fed + Stream(disk.tree, p)
    decreases Under(disk.tree, p)
  {
    var items := disk.tree[p].listing;
    fed' := fed;
    var i := 0;
    while i < |items|
      invariant 0 <= i <= |items|
      invariant fed' == fed + StreamItems(disk.tree, p, items[..i])
    {
      var child := p + [items[i]];
      assert items[i] in disk.tree[p].listing;
      ChildUnderSmaller(disk.tree, p, items[i]);
      if disk.tree[child].Dir? {
        fed' := ProcessPath(disk, child, fed');
      } else {
        fed' := fed' + disk.tree[child].data;
      }
      assert items[..i + 1][..i] == items[..i];
      i := i + 1;
    }
    assert items[..i] == items;
  }

  /** `calculateChecksum(dirPath)`. */
  method CalculateChecksum(disk: Disk, sha256: Bytes -> Digest, dir: Path) returns (d: Digest)
    requires Valid(disk.tree) && IsDir(disk.tree, dir)
    ensures d == sha256(Stream(disk.tree, dir))
  {
    var fed := ProcessPath(disk, dir, []);
    assert fed == Stream(disk.tree, dir);
    d := sha256(fed);
  }

  /** Two entries hold the same content when both are files with equal bytes,
      or both are directories whose listings, position by position, hold the
      same content; names and modification times may differ. */
  ghost predicate SameContent(t: Tree, p: Path, u: Tree, q: Path)
    decreases Under(t, p), 1, 0
  {
    && p in t && q in u
    && match t[p]
      case File(data, _) => u[q].File? && u[q].data == data
      case Dir(l, _) => u[q].Dir? && SameItems(t, p, l, u, q, u[q].listing)
  }

  ghost predicate SameItems(t: Tree, p: Path, a: seq<Name>, u: Tree, q: Path, b: seq<Name>)
    requires p in t
    decreases Under(t, p), 0, |a|
  {
    && |a| == |b|
    && (a != [] ==>
          var n := |a| - 1;
          ChildUnderSmaller(t, p, a[n]);
          SameItems(t, p, a[..n], u, q, b[..n]) && SameContent(t, p + [a[n]], u, q + [b[n]]))
  }

  /** Same content gives the same stream, hence the same checksum, wherever
      the two trees live and whatever their entries are called. */
  lemma {:induction false} SameContentSameStream(t: Tree, p: Path, u: Tree, q: Path)
    requires SameContent(t, p, u, q)
    ensures Stream(t, p) == Stream(u, q)
    decreases Under(t, p), 1, 0
  {
    if t[p].Dir? {
      SameItemsSameStream(t, p, t[p].listing, u, q, u[q].listing);
    }
  }

  lemma {:induction false} SameItemsSameStream(t: Tree, p: Path, a: seq<Name>, u: Tree, q: Path, b: seq<Name>)
    requires p in t && q in u && SameItems(t, p, a, u, q, b)
    ensures StreamItems(t, p, a) == StreamItems(u, q, b)
    decreases Under(t, p), 0, |a|
  {
    if a != [] {
      var n := |a| - 1;
      ChildUnderSmaller(t, p, a[n]);
      SameItemsSameStream(t, p, a[..n], u, q, b[..n]);
      SameContentSameStream(t, p + [a[n]], u, q + [b[n]]);
    }
  }

  /** The stream of `p` depends only on the subtree at `p`. */
  lemma {:induction false} StreamFrame(t: Tree, u: Tree, p: Path)
    requires SameBelow(t, u, p)
    ensures Stream(t, p) == Stream(u, p)
    decreases Under(t, p), 1, 0
  {
    if p in t && t[p].Dir? {
      StreamItemsFrame(t, u, p, t[p].listing);
    }
  }

  lemma {:induction false} StreamItemsFrame(t: Tree, u: Tree, p: Path, items: seq<Name>)
    requires p in t && SameBelow(t, u, p)
    ensures StreamItems(t, p, items) == StreamItems(u, p, items)
    decreases Under(t, p), 0, |items|
  {
    if items != [] {
      var c := items[|items| - 1];
      ChildUnderSmaller(t, p, c);
      StreamItemsFrame(t, u, p, items[..|items| - 1]);
      SameBelowChild(t, u, p, c);
      StreamFrame(t, u, p + [c]);
    }
  }

  /** Writing a new file into directory `d` appends its bytes to the stream of
      `d`: the checksum then covers the new file, after everything else. */
  lemma NewFileExtendsStream(t: Tree, d: Path, name: Name, f: Node)
    requires Valid(t) && IsDir(t, d) && d + [name] !in t && f.File?
    ensures Stream(Put(t, d, name, f), d) == Stream(t, d) + f.data
  {
    var u := Put(t, d, name, f);
    var l := t[d].listing;
    assert name !in l;
    assert u[d].listing == l + [name];
    assert (l + [name])[..|l|] == l;
    forall c | c in l ensures Stream(t, d + [c]) == Stream(u, d + [c]) {
      assert c != name;
      forall r | r in t && d + [c] <= r ensures r in u && u[r] == t[r] {
        assert r[|d|] == c != (d + [name])[|d|];
      }
      forall r | r in u && d + [c] <= r ensures r in t {
        assert r[|d|] == c != (d + [name])[|d|];
      }
      StreamFrame(t, u, d + [c]);
    }
    ChildrenFrame(t, u, d, l);
    calc {
      Stream(u, d);
      StreamItems(u, d, l + [name]);
      StreamItems(u, d, l) + Stream(u, d + [name]);
      Stream(t, d) + f.data;
    }
  }

  lemma {:induction false} ChildrenFrame(t: Tree, u: Tree, d: Path, items: seq<Name>)
    requires d in t && d in u
    requires forall c | c in items :: Stream(t, d + [c]) == Stream(u, d + [c])
    ensures StreamItems(t, d, items) == StreamItems(u, d, items)
    decreases |items|
  {
    if items != [] {
      ChildrenFrame(t, u, d, items[..|items| - 1]);
    }
  }
}
