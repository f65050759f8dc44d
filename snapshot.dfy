/**
 * The pure parts of scripts/backup.js: the name of a new snapshot, the
 * snapshot that `upload` and `verify` pick, and the ones `cleanup` deletes.
 * Snapshot names are compared with the default `sort()` order, `Text.LexLe`.
 */
module Snapshot {
  import opened Text
  import opened Wrappers

  /** `cleanup` keeps this many snapshots. */
  const KeepCount := 10

  predicate IsSeparator(c: char) {
    c == ':' || c == '.'
  }

  /** `timestamp.replace(/[:.]/g, '-')`. */
  function Sanitize(s: string): (r: string)
    ensures |r| == |s|
    ensures forall i | 0 <= i < |s| :: r[i] == if IsSeparator(s[i]) then '-' else s[i]
    ensures ':' !in r && '.' !in r
  {
    if s == [] then []
    else [if IsSeparator(s[0]) then '-' else s[0]] + Sanitize(s[1..])
  }

  /** `backup-${timestamp}` for the ISO time `iso`. */
  function SnapshotName(iso: string): (r: string)
    ensures |r| == |iso| + 7
    ensures StartsWith(r, "backup-") && r[7..] == Sanitize(iso)
    ensures ':' !in r && '.' !in r
  {
    "backup-" + Sanitize(iso)
  }

  /** Two timestamps laid out alike: wherever either has a `:` or a `.`, both
      have the same character. Every ISO-8601 string of `toISOString` has its
      separators at the same places. */
  predicate SameShape(a: string, b: string) {
    forall i | 0 <= i < |a| && i < |b| :: IsSeparator(a[i]) || IsSeparator(b[i]) ==> a[i] == b[i]
  }

  /** Replacing separators keeps the order of timestamps laid out alike, so
      the name order of snapshots is their creation order. */
  lemma {:induction false} SanitizeKeepsOrder(a: string, b: string)
    requires SameShape(a, b)
    ensures LexLe(Sanitize(a), Sanitize(b)) <==> LexLe(a, b)
  {
    if a != [] && b != [] {
      assert SameShape(a[1..], b[1..]) by {
        forall i | 0 <= i < |a[1..]| && i < |b[1..]| && (IsSeparator(a[1..][i]) || IsSeparator(b[1..][i]))
          ensures a[1..][i] == b[1..][i]
        {
          assert a[1..][i] == a[i + 1] && b[1..][i] == b[i + 1];
        }
      }
      SanitizeKeepsOrder(a[1..], b[1..]);
      assert Sanitize(a)[1..] == Sanitize(a[1..]);
      assert Sanitize(b)[1..] == Sanitize(b[1..]);
    }
  }

  lemma {:induction false} CommonPrefixKeepsOrder(p: string, a: string, b: string)
    ensures LexLe(p + a, p + b) <==> LexLe(a, b)
  {
    if p != [] {
      assert (p + a)[0] == p[0] == (p + b)[0];
      assert (p + a)[1..] == p[1..] + a;
      assert (p + b)[1..] == p[1..] + b;
      CommonPrefixKeepsOrder(p[1..], a, b);
    } else {
      assert p + a == a && p + b == b;
    }
  }

  lemma SnapshotNameKeepsOrder(a: string, b: string)
    requires SameShape(a, b)
    ensures LexLe(SnapshotName(a), SnapshotName(b)) <==> LexLe(a, b)
  {
    CommonPrefixKeepsOrder("backup-", Sanitize(a), Sanitize(b));
    SanitizeKeepsOrder(a, b);
  }

  /** `names.sort().pop()`: the greatest name, or nothing when there is none. */
  function Latest(names: seq<string>): (r: Option<string>)
    ensures r.None? <==> names == []
    ensures r.Some? ==> r.value in names && forall y | y in names :: LexLe(y, r.value)
  {
    if names == [] then None
    else
      var s := Sort(names);
      assert s[|s| - 1] in multiset(s);
      forall y | y in names ensures LexLe(y, s[|s| - 1]) {
        assert y in multiset(s);
        var j :| 0 <= j < |s| && s[j] == y;
        if j < |s| - 1 {
          assert LexLe(s[j], s[|s| - 1]);
        } else {
          LexLeTotal(y, y);
        }
      }
      Some(s[|s| - 1])
  }

  /** `backups.slice(0, backups.length - 10)` on the sorted names. */
  function ToDelete(names: seq<string>): (r: seq<string>)
  {
    var s := Sort(names);
    if |s| > KeepCount then s[..|s| - KeepCount] else []
  }

  /** The names that stay after `cleanup`. */
  function Kept(names: seq<string>): (r: seq<string>)
  {
    var s := Sort(names);
    if |s| > KeepCount then s[|s| - KeepCount..] else s
  }

  /** Retention splits the sorted names: the first `n - 10` go, the 10
      greatest stay; with at most 10 names nothing goes. */
  lemma RetentionSplits(names: seq<string>)
    ensures ToDelete(names) + Kept(names) == Sort(names)
    ensures multiset(ToDelete(names)) + multiset(Kept(names)) == multiset(names)
    ensures |names| <= KeepCount ==> ToDelete(names) == [] && Kept(names) == Sort(names)
    ensures |names| > KeepCount ==> |ToDelete(names)| == |names| - KeepCount && |Kept(names)| == KeepCount
  {
    var s := Sort(names);
    assert |s| == |multiset(s)| == |names|;
    if |s| > KeepCount {
      assert s == s[..|s| - KeepCount] + s[|s| - KeepCount..];
    }
  }

  /** Every name retention deletes sorts before every name it keeps. */
  lemma RetentionOrder(names: seq<string>)
    ensures forall x, y | x in ToDelete(names) && y in Kept(names) :: LexLe(x, y)
  {
    var s := Sort(names);
    if |s| > KeepCount {
      var d, k := ToDelete(names), Kept(names);
      forall x, y | x in d && y in k ensures LexLe(x, y) {
        var i :| 0 <= i < |d| && d[i] == x;
        var j :| 0 <= j < |k| && k[j] == y;
        assert d[i] == s[i] && k[j] == s[j + |s| - KeepCount];
      }
    }
  }

  /** `cleanup` never deletes the snapshot `upload` and `verify` would pick. */
  lemma LatestIsKept(names: seq<string>)
    requires names != []
    ensures Latest(names).value in Kept(names)
  {
    var s := Sort(names);
    assert |s| == |multiset(s)| == |names|;
    assert Latest(names).value == s[|s| - 1];
    if |s| > KeepCount {
      assert Kept(names)[KeepCount - 1] == s[|s| - 1];
    }
  }
}
