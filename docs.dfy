/**
 * scripts/generate-docs.js: `extractFunctions`, which finds function
 * declarations line by line and gathers the JSDoc lines right above each,
 * and `generateApiDocs`, which runs it over the `.js` files of `src/`.
 * Decoding a file as UTF-8 is the parameter `utf8`.
 */
module Docs {
  import opened Fs
  import opened Text
  import opened Wrappers

  const NoDescription := "No description available"
  const SrcDir: Path := ["src"]

  // ------------------------------------------------------------ the regex

  /** `w` occurs in `s` at position `i`. */
  predicate StartsAt(s: string, i: nat, w: string) {
    i + |w| <= |s| && s[i..i + |w|] == w
  }

  /** End of the run of `\w` characters that starts at `i`. */
  function WordEnd(s: string, i: nat): (k: nat)
    requires i <= |s|
    ensures i <= k <= |s|
    ensures forall j | i <= j < k :: IsWordChar(s[j])
    ensures k < |s| ==> !IsWordChar(s[k])
    decreases |s| - i
  {
    if i < |s| && IsWordChar(s[i]) then WordEnd(s, i + 1) else i
  }

  /** `(?:async\s+)?function` at position `i`. */
  predicate FunctionKeywordAt(s: string, i: nat)
    requires i <= |s|
  {
    || StartsAt(s, i, "function")
    || (StartsAt(s, i, "async") && SkipSpaces(s, i + 5) > i + 5 && StartsAt(s, SkipSpaces(s, i + 5), "function"))
  }

  /** The first alternative, `function\s+(\w+)`, tried at position `i`. */
  function DeclarationAt(s: string, i: nat): Option<string>
    requires i <= |s|
  {
    if !StartsAt(s, i, "function") then None
    else
      var k := SkipSpaces(s, i + 8);
      var e := WordEnd(s, k);
      if k > i + 8 && e > k then Some(s[k..e]) else None
  }

  /** The second alternative, `const\s+(\w+)\s*=\s*(?:async\s+)?function`. */
  function ConstAt(s: string, i: nat): Option<string>
    requires i <= |s|
  {
    if !StartsAt(s, i, "const") then None
    else
      var k := SkipSpaces(s, i + 5);
      var e := WordEnd(s, k);
      var f := SkipSpaces(s, e);
      if k > i + 5 && e > k && f < |s| && s[f] == '=' && FunctionKeywordAt(s, SkipSpaces(s, f + 1))
      then Some(s[k..e]) else None
  }

  /** The third alternative, `(\w+)\s*:\s*(?:async\s+)?function`. */
  function PropertyAt(s: string, i: nat): Option<string>
    requires i <= |s|
  {
    var e := WordEnd(s, i);
    var f := SkipSpaces(s, e);
    if e > i && f < |s| && s[f] == ':' && FunctionKeywordAt(s, SkipSpaces(s, f + 1))
    then Some(s[i..e]) else None
  }

  /** The name the regex captures when its match starts at `i`: the
      alternatives are tried in order. Quantifiers are greedy, and giving
      back characters never helps, since what follows each `\s` run or `\w`
      run is neither a space nor a word character. */
  function MatchAt(s: string, i: nat): (r: Option<string>)
    requires i <= |s|
    ensures r.Some? ==> r.value != [] && forall c | c in r.value :: IsWordChar(c)
  {
    var d := DeclarationAt(s, i);
    var c := ConstAt(s, i);
    if d.Some? then d else if c.Some? then c else PropertyAt(s, i)
  }

  /** `line.match(...)`: the capture of the leftmost match from `i` on. */
  function FindName(s: string, i: nat): (r: Option<string>)
    requires i <= |s|
    ensures r.Some? ==> r.value != [] && forall c | c in r.value :: IsWordChar(c)
    decreases |s| - i
  {
    if MatchAt(s, i).Some? then MatchAt(s, i)
    else if i == |s| then None
    else FindName(s, i + 1)
  }

  predicate IsDeclaration(line: string) {
    FindName(line, 0).Some?
  }

  lemma {:induction false} SkipSpacesRun(s: string, i: nat, j: nat)
    requires i <= j <= |s| && (forall k | i <= k < j :: IsSpace(s[k])) && (j < |s| ==> !IsSpace(s[j]))
    ensures SkipSpaces(s, i) == j
    decreases j - i
  {
    if i < j {
      SkipSpacesRun(s, i + 1, j);
    }
  }

  lemma {:induction false} WordEndRun(s: string, i: nat, j: nat)
    requires i <= j <= |s| && (forall k | i <= k < j :: IsWordChar(s[k])) && (j < |s| ==> !IsWordChar(s[j]))
    ensures WordEnd(s, i) == j
    decreases j - i
  {
    if i < j {
      WordEndRun(s, i + 1, j);
    }
  }

  /** A line that opens with `function`, spaces and a name declares that name. */
  lemma DeclarationName(sp: string, w: string, rest: string)
    requires sp != [] && forall c | c in sp :: IsSpace(c)
    requires w != [] && forall c | c in w :: IsWordChar(c)
    requires rest != [] ==> !IsWordChar(rest[0])
    ensures FindName("function" + sp + w + rest, 0) == Some(w)
  {
    var s := "function" + sp + w + rest;
    var k := 8 + |sp|;
    var e := k + |w|;
    assert s[..8] == "function";
    assert forall j | 8 <= j < k :: s[j] == sp[j - 8];
    assert forall j | k <= j < e :: s[j] == w[j - k];
    assert e < |s| ==> s[e] == rest[0];
    assert w[0] in w && !IsSpace(w[0]);
    SkipSpacesRun(s, 8, k);
    WordEndRun(s, k, e);
    assert s[k..e] == w;
  }

  /** The keyword part of the last two alternatives as written in a line:
      `function`, or `async`, spaces `sa` and `function`. */
  function FunctionKeyword(isAsync: bool, sa: string): string {
    if isAsync then "async" + sa + "function" else "function"
  }

  lemma FunctionKeywordMatches(s: string, g: nat, isAsync: bool, sa: string)
    requires isAsync ==> sa != [] && forall c | c in sa :: IsSpace(c)
    requires StartsAt(s, g, FunctionKeyword(isAsync, sa))
    ensures FunctionKeywordAt(s, g)
  {
    if isAsync {
      var kw := FunctionKeyword(isAsync, sa);
      var h := g + 5 + |sa|;
      assert forall j | g <= j < g + |kw| :: s[j] == kw[j - g] by {
        forall j | g <= j < g + |kw| ensures s[j] == kw[j - g] {
          assert s[g..g + |kw|][j - g] == s[j];
        }
      }
      assert s[g..g + 5] == "async";
      assert forall j | g + 5 <= j < h :: s[j] == sa[j - g - 5];
      assert s[h..h + 8] == "function";
      SkipSpacesRun(s, g + 5, h);
    }
  }

  /** A line that opens with `const`, spaces, a name (from `k` to `e`),
      optional spaces, `=`, optional spaces and the function keyword, `async`
      or not (from `g` on, see `FunctionKeywordMatches`), declares that name. */
  lemma ConstName(s: string, k: nat, e: nat, f: nat, g: nat)
    requires 5 < k < e <= f < g <= |s|
    requires StartsAt(s, 0, "const")
    requires forall j | 5 <= j < k :: IsSpace(s[j])
    requires forall j | k <= j < e :: IsWordChar(s[j])
    requires forall j | e <= j < f :: IsSpace(s[j])
    requires s[f] == '='
    requires forall j | f + 1 <= j < g :: IsSpace(s[j])
    requires FunctionKeywordAt(s, g)
    ensures FindName(s, 0) == Some(s[k..e])
  {
    KeywordStart(s, g);
    SpaceRun(s, f + 1, g);
    SpaceRun(s, e, f);
    NameRun(s, k, e, f);
    SpaceRun(s, 5, k);
    ConstMatch(s, k, e, f, g);
  }

  /** The function keyword starts with a letter. */
  lemma KeywordStart(s: string, g: nat)
    requires g <= |s| && FunctionKeywordAt(s, g)
    ensures g < |s| && (s[g] == 'f' || s[g] == 'a')
  {
    if StartsAt(s, g, "function") {
      assert s[g..g + 8][0] == s[g];
    } else {
      assert s[g..g + 5][0] == s[g];
    }
  }

  /** A run of spaces from `i` to `k` followed by a non-space. */
  lemma SpaceRun(s: string, i: nat, k: nat)
    requires i <= k <= |s| && forall j | i <= j < k :: IsSpace(s[j])
    requires k < |s| ==> s[k] == '=' || s[k] == 'f' || s[k] == 'a' || IsWordChar(s[k])
    ensures SkipSpaces(s, i) == k
  {
    SkipSpacesRun(s, i, k);
  }

  /** A name from `k` to `e`, followed by spaces up to `f` where `=` stands. */
  lemma NameRun(s: string, k: nat, e: nat, f: nat)
    requires k <= e <= f < |s| && s[f] == '='
    requires forall j | k <= j < e :: IsWordChar(s[j])
    requires forall j | e <= j < f :: IsSpace(s[j])
    ensures WordEnd(s, k) == e
  {
    if e < f {
      SpaceIsNoWordChar(s[e]);
    }
    WordEndRun(s, k, e);
  }

  lemma SpaceIsNoWordChar(c: char)
    requires IsSpace(c)
    ensures !IsWordChar(c)
  {
  }

  /** The second alternative matched from the positions where its parts end:
      the name runs from `k` to `e`, `=` is at `f`, the keyword starts at `g`. */
  lemma ConstMatch(s: string, k: nat, e: nat, f: nat, g: nat)
    requires 5 < k < e <= f < g <= |s|
    requires StartsAt(s, 0, "const") && SkipSpaces(s, 5) == k && WordEnd(s, k) == e
    requires SkipSpaces(s, e) == f && s[f] == '=' && SkipSpaces(s, f + 1) == g && FunctionKeywordAt(s, g)
    ensures FindName(s, 0) == Some(s[k..e])
  {
    assert ConstAt(s, 0) == Some(s[k..e]);
    assert !StartsAt(s, 0, "function") by {
      assert s[0..5][0] == s[0] == 'c';
      if 8 <= |s| {
        assert s[0..8][0] == s[0];
      }
    }
    FirstAlternativeFails(s);
  }

  /** Where the first alternative fails, the capture is the second's. */
  lemma FirstAlternativeFails(s: string)
    requires !StartsAt(s, 0, "function") && ConstAt(s, 0).Some?
    ensures FindName(s, 0) == ConstAt(s, 0)
  {
    assert DeclarationAt(s, 0) == None;
  }

  /** A property whose value is a function declares the property's name,
      also when that name begins with `function` or `const`. */
  lemma PropertyName(w: string, sp: string, rest: string)
    requires w != [] && forall c | c in w :: IsWordChar(c)
    requires forall c | c in sp :: IsSpace(c)
    ensures FindName(w + ":" + sp + "function" + rest, 0) == Some(w)
  {
    var s := w + ":" + sp + "function" + rest;
    PropertyAtName(w, sp, rest);
    assert forall j | 0 <= j < |w| :: IsWordChar(s[j]) by {
      forall j | 0 <= j < |w| ensures IsWordChar(s[j]) {
        assert s[j] == w[j] && w[j] in w;
      }
    }
    assert s[|w|] == ':';
    KeywordsAreWords();
    if StartsAt(s, 0, "function") {
      KeywordInName(s, |w|, "function");
    }
    if StartsAt(s, 0, "const") {
      KeywordInName(s, |w|, "const");
    }
  }

  lemma KeywordsAreWords()
    ensures forall j | 0 <= j < |"function"| :: IsWordChar("function"[j])
    ensures forall j | 0 <= j < |"const"| :: IsWordChar("const"[j])
  {
  }

  /** A keyword at the start of `NAME:...`, `NAME` ending at `n`, lies within
      `NAME`, so no space follows it and neither of the first two
      alternatives matches. */
  lemma KeywordInName(s: string, n: nat, kw: string)
    requires n < |s| && s[n] == ':' && forall j | 0 <= j < n :: IsWordChar(s[j])
    requires forall j | 0 <= j < |kw| :: IsWordChar(kw[j])
    requires StartsAt(s, 0, kw)
    ensures |kw| <= n && SkipSpaces(s, |kw|) == |kw|
  {
    assert forall j | 0 <= j < |kw| :: s[j] == kw[j] by {
      forall j | 0 <= j < |kw| ensures s[j] == kw[j] {
        assert s[0..|kw|][j] == s[j];
      }
    }
    assert !IsWordChar(':');
    assert |kw| <= n;
    SkipSpacesRun(s, |kw|, |kw|);
  }

  /** The third alternative captures the property's name. */
  lemma PropertyAtName(w: string, sp: string, rest: string)
    requires w != [] && forall c | c in w :: IsWordChar(c)
    requires forall c | c in sp :: IsSpace(c)
    ensures PropertyAt(w + ":" + sp + "function" + rest, 0) == Some(w)
  {
    var s := w + ":" + sp + "function" + rest;
    var e := |w|;
    var g := e + 1 + |sp|;
    assert forall j | 0 <= j < e :: s[j] == w[j];
    assert s[e] == ':';
    assert forall j | e + 1 <= j < g :: s[j] == sp[j - e - 1];
    assert s[g..g + 8] == "function";
    WordEndRun(s, 0, e);
    SkipSpacesRun(s, e, e);
    SkipSpacesRun(s, e + 1, g);
    assert s[0..e] == w;
  }

  // ----------------------------------------------------------- the lines

  /** `content.split('\n')`. */
  function SplitLines(s: string): (r: seq<string>)
    ensures |r| >= 1
    ensures forall i | 0 <= i < |r| :: '\n' !in r[i]
    ensures JoinLines(r) == s
    decreases |s|
  {
    var head := BeforeFirst(s, '\n');
    if |head| == |s| then
      assert head == s;
      [s]
    else
      var tail := s[|head| + 1..];
      var rest := SplitLines(tail);
      assert s == head + "\n" + tail;
      [head] + rest
  }

  /** `lines.join('\n')`. */
  function JoinLines(ls: seq<string>): string {
    if ls == [] then []
    else if |ls| == 1 then ls[0]
    else ls[0] + "\n" + JoinLines(ls[1..])
  }

  /** Splitting undoes joining lines that hold no line break. */
  lemma {:induction false} SplitJoin(ls: seq<string>)
    requires |ls| >= 1 && forall i | 0 <= i < |ls| :: '\n' !in ls[i]
    ensures SplitLines(JoinLines(ls)) == ls
    decreases |ls|
  {
    var s := JoinLines(ls);
    BeforeFirstOfLine(ls[0], if |ls| == 1 then [] else "\n" + JoinLines(ls[1..]));
    if |ls| > 1 {
      assert s == ls[0] + ("\n" + JoinLines(ls[1..]));
      assert s[|ls[0]| + 1..] == JoinLines(ls[1..]);
      SplitJoin(ls[1..]);
      assert ls == [ls[0]] + ls[1..];
    } else {
      assert s == ls[0] + [];
    }
  }

  lemma {:induction false} BeforeFirstOfLine(a: string, b: string)
    requires '\n' !in a && (b != [] ==> b[0] == '\n')
    ensures BeforeFirst(a + b, '\n') == a
    decreases |a|
  {
    if a != [] {
      assert (a + b)[1..] == a[1..] + b;
      BeforeFirstOfLine(a[1..], b);
      assert a == [a[0]] + a[1..];
    } else {
      assert a + b == b;
    }
  }

  // ---------------------------------------------------- the descriptions

  /** A JSDoc line: its first character that is not whitespace is `*`. */
  predicate IsDocLine(line: string) {
    var k := SkipSpaces(line, 0);
    k < |line| && line[k] == '*'
  }

  /** That is `line.trim().startsWith('*')`. */
  lemma DocLineIsTrimmedStar(line: string)
    ensures IsDocLine(line) <==> Trim(line) != [] && Trim(line)[0] == '*'
  {
    var k := SkipSpaces(line, 0);
    if k < |line| {
      assert !IsSpace(line[k]);
    }
  }

  /** `line.replace(/^\s*\*\s?/, '')`: leading whitespace, a `*` and one
      optional whitespace character go; a line without the leading `*` stays. */
  function StripStar(line: string): string {
    var k := SkipSpaces(line, 0);
    if k < |line| && line[k] == '*' then
      if k + 1 < |line| && IsSpace(line[k + 1]) then line[k + 2..] else line[k + 1..]
    else line
  }

  /** Stripping keeps a suffix of the line: a doc line loses at least its
      `*`, any other line is kept whole. */
  lemma StripStarShape(line: string)
    ensures var r := StripStar(line);
      && |r| <= |line| && r == line[|line| - |r|..]
      && (IsDocLine(line) ==> |r| < |line|)
      && (!IsDocLine(line) ==> r == line)
  {
  }

  /** Where the block of doc lines that ends just above line `k` begins. */
  function DocStart(lines: seq<string>, k: nat): (s: nat)
    requires k <= |lines|
    ensures s <= k
  {
    if k > 0 && IsDocLine(lines[k - 1]) then DocStart(lines, k - 1) else k
  }

  /** The lines from `DocStart(lines, k)` up to `k` are doc lines, and the
      line above them is not. */
  lemma {:induction false} DocStartBlock(lines: seq<string>, k: nat)
    requires k <= |lines|
    ensures var s := DocStart(lines, k);
      && (forall j | s <= j < k :: IsDocLine(lines[j]))
      && (s == 0 || !IsDocLine(lines[s - 1]))
  {
    if k > 0 && IsDocLine(lines[k - 1]) {
      DocStartBlock(lines, k - 1);
    }
  }

  /** The description gathered from lines `from` up to `to`: each stripped
      line followed by one space, top to bottom. */
  function DocText(lines: seq<string>, from: nat, to: nat): string
    requires from <= to <= |lines|
    decreases (to as int) - (from as int)
  {
    if from == to then [] else StripStar(lines[from]) + " " + DocText(lines, from + 1, to)
  }

  /** The description of a declaration on line `k`. */
  function Describe(lines: seq<string>, k: nat): (d: string)
    requires k <= |lines|
    ensures d == NoDescription || Trim(d) != []
    ensures DocStart(lines, k) == k ==> d == NoDescription
  {
    var text := DocText(lines, DocStart(lines, k), k);
    if Trim(text) == [] then NoDescription else text
  }

  // -------------------------------------------------- extractFunctions

  datatype FunctionDoc = FunctionDoc(name: string, line: int, description: string)

  /** The name a declaration line declares. */
  function NameOf(line: string): string {
    match FindName(line, 0)
    case Some(name) => name
    case None => []
  }

  function EntryAt(lines: seq<string>, i: nat): FunctionDoc
    requires i < |lines|
  {
    FunctionDoc(NameOf(lines[i]), i + 1, Describe(lines, i))
  }

  /** The indices of the lines among the first `n` that `keep` holds of,
      ascending. */
  function Matching(lines: seq<string>, n: nat, keep: string -> bool): (ix: seq<nat>)
    requires n <= |lines|
    ensures forall k | 0 <= k < |ix| :: ix[k] < n && keep(lines[ix[k]])
    ensures forall a, b | 0 <= a < b < |ix| :: ix[a] < ix[b]
  {
    if n == 0 then []
    else
      var ix := Matching(lines, n - 1, keep);
      if keep(lines[n - 1]) then ix + [n - 1] else ix
  }

  /** Every line among the first `n` that `keep` holds of is listed. */
  lemma {:induction false} MatchingComplete(lines: seq<string>, n: nat, keep: string -> bool, i: nat)
    requires i < n <= |lines|
    ensures keep(lines[i]) ==> i in Matching(lines, n, keep)
  {
    if i < n - 1 {
      MatchingComplete(lines, n - 1, keep, i);
    }
  }

  /** The indices of the declarations among the first `n` lines, ascending. */
  function DeclarationLines(lines: seq<string>, n: nat): seq<nat>
    requires n <= |lines|
  {
    Matching(lines, n, IsDeclaration)
  }

  /** Looking at one more line adds its index when it declares a function. */
  lemma DeclarationLinesSnoc(lines: seq<string>, i: nat)
    requires i < |lines|
    ensures DeclarationLines(lines, i + 1)
         == if IsDeclaration(lines[i]) then DeclarationLines(lines, i) + [i] else DeclarationLines(lines, i)
  {
  }

  /** `EntryAt` on the lines of one file, as a function of the line index. */
  function EntryOn(lines: seq<string>): nat --> FunctionDoc {
    (i: nat) requires i < |lines| => EntryAt(lines, i)
  }

  /** `entry` applied to each of `ix`, in order. */
  function MapEntries(ix: seq<nat>, entry: nat --> FunctionDoc): (r: seq<FunctionDoc>)
    requires forall k | 0 <= k < |ix| :: entry.requires(ix[k])
    ensures |r| == |ix|
    ensures forall k {:trigger entry(ix[k])} | 0 <= k < |ix| :: r[k] == entry(ix[k])
  {
    if ix == [] then []
    else MapEntries(ix[..|ix| - 1], entry) + [entry(ix[|ix| - 1])]
  }

  /** The entries `extractFunctions` lists for `lines`. */
  function ExtractLines(lines: seq<string>): seq<FunctionDoc> {
    MapEntries(DeclarationLines(lines, |lines|), EntryOn(lines))
  }

  /** The result of `extractFunctions(content)`. */
  function ExtractSpec(content: string): seq<FunctionDoc> {
    ExtractLines(SplitLines(content))
  }

  /** Entry `k` is the entry of the `k`-th declaration line. */
  lemma EntryOfDeclaration(lines: seq<string>, k: nat)
    requires k < |ExtractLines(lines)|
    ensures var ix := DeclarationLines(lines, |lines|);
      k < |ix| && ExtractLines(lines)[k] == EntryAt(lines, ix[k])
  {
    var ix := DeclarationLines(lines, |lines|);
    assert ExtractLines(lines)[k] == EntryOn(lines)(ix[k]);
  }

  /** Every entry sits on a line that declares a function: its 1-based line
      number, the name the regex captures there and the description gathered
      above it. */
  lemma ExtractSound(lines: seq<string>, k: nat)
    requires k < |ExtractLines(lines)|
    ensures var e := ExtractLines(lines)[k];
      && 1 <= e.line <= |lines| && IsDeclaration(lines[e.line - 1])
      && Some(e.name) == FindName(lines[e.line - 1], 0)
      && e.description == Describe(lines, e.line - 1)
  {
    EntryOfDeclaration(lines, k);
    var i := DeclarationLines(lines, |lines|)[k];
    assert IsDeclaration(lines[i]);
  }

  /** The entries come in ascending line order, one per line that declares
      a function. */
  lemma ExtractOrdered(lines: seq<string>)
    ensures var r := ExtractLines(lines);
      forall a, b | 0 <= a < b < |r| :: r[a].line < r[b].line
    ensures |ExtractLines(lines)| == |DeclarationLines(lines, |lines|)|
  {
    var r := ExtractLines(lines);
    forall a, b | 0 <= a < b < |r| ensures r[a].line < r[b].line {
      EntryOfDeclaration(lines, a);
      EntryOfDeclaration(lines, b);
    }
  }

  /** Nothing is listed exactly when no line declares a function. */
  lemma ExtractEmpty(lines: seq<string>)
    ensures ExtractLines(lines) == [] <==> forall i | 0 <= i < |lines| :: !IsDeclaration(lines[i])
  {
    var ix := DeclarationLines(lines, |lines|);
    assert |ExtractLines(lines)| == |ix|;
    forall i | 0 <= i < |lines| ensures IsDeclaration(lines[i]) ==> i in ix {
      MatchingComplete(lines, |lines|, IsDeclaration, i);
    }
    if ix != [] {
      assert IsDeclaration(lines[ix[0]]);
    }
  }

  function Pending(current: Option<FunctionDoc>): seq<FunctionDoc> {
    if current.Some? then [current.value] else []
  }

  /** The JSDoc lines right above line `index`, read bottom up; each is
      put in front of what was gathered so far. */
  method ReadDocLines(lines: seq<string>, index: nat) returns (description: string)
    requires index < |lines|
    ensures description == DocText(lines, DocStart(lines, index), index)
  {
    description := "";
    var top: nat := index;
    while top > 0 && IsDocLine(lines[top - 1])
      invariant top <= index
      invariant description == DocText(lines, top, index)
      invariant DocStart(lines, top) == DocStart(lines, index)
    {
      DocStep(lines, top - 1, index);
      description := StripStar(lines[top - 1]) + " " + description;
      top := top - 1;
    }
    DocStop(lines, top);
  }

  /** One more doc line above the block read so far. */
  lemma DocStep(lines: seq<string>, d: nat, index: nat)
    requires d < index <= |lines| && IsDocLine(lines[d])
    ensures DocStart(lines, d) == DocStart(lines, d + 1)
    ensures DocText(lines, d, index) == StripStar(lines[d]) + " " + DocText(lines, d + 1, index)
  {
  }

  /** The block ends where the line above is not a doc line. */
  lemma DocStop(lines: seq<string>, k: nat)
    requires k <= |lines| && (k == 0 || !IsDocLine(lines[k - 1]))
    ensures DocStart(lines, k) == k
  {
  }

  /** The description of the declaration on line `index`. */
  method GatherDescription(lines: seq<string>, index: nat) returns (description: string)
    requires index < |lines|
    ensures description == Describe(lines, index)
  {
    description := ReadDocLines(lines, index);
    if Trim(description) == [] {
      description := NoDescription;
    }
  }

  /** `extractFunctions(content)`: keeps the latest declaration in
      `currentFunction` and pushes it when the next one is found or the
      lines run out; the doc lines above a declaration are read bottom up. */
  method ExtractFunctions(content: string) returns (functions: seq<FunctionDoc>)
    ensures functions == ExtractSpec(content)
  {
    var lines := SplitLines(content);
    functions := [];
    var current: Option<FunctionDoc> := None;
    for index := 0 to |lines|
      invariant functions + Pending(current) == MapEntries(DeclarationLines(lines, index), EntryOn(lines))
    {
      var found := FindName(lines[index], 0);
      if found.Some? {
        functions, current := PushDeclaration(lines, index, found.value, functions, current);
      } else {
        NonDeclarationStep(lines, index);
      }
    }
    functions := functions + Pending(current);
  }

  /** A declaration on line `index`: the pending one is pushed and the new
      one becomes `currentFunction`, with the doc lines above it. */
  method PushDeclaration(lines: seq<string>, index: nat, name: string,
                         functions: seq<FunctionDoc>, current: Option<FunctionDoc>)
    returns (functions': seq<FunctionDoc>, current': Option<FunctionDoc>)
    requires index < |lines| && FindName(lines[index], 0) == Some(name)
    requires functions + Pending(current) == MapEntries(DeclarationLines(lines, index), EntryOn(lines))
    ensures functions' + Pending(current') == MapEntries(DeclarationLines(lines, index + 1), EntryOn(lines))
  {
    functions' := functions;
    if current.Some? {
      functions' := functions + [current.value];
    }
    assert functions' == functions + Pending(current);
    var description := GatherDescription(lines, index);
    current' := Some(FunctionDoc(name, index + 1, description));
    DeclarationStep(lines, index, current'.value);
  }

  /** A line that declares nothing adds no entry. */
  lemma NonDeclarationStep(lines: seq<string>, i: nat)
    requires i < |lines| && FindName(lines[i], 0).None?
    ensures DeclarationLines(lines, i + 1) == DeclarationLines(lines, i)
  {
    DeclarationLinesSnoc(lines, i);
  }

  /** A declaration on line `i` adds its entry at the end. */
  lemma DeclarationStep(lines: seq<string>, i: nat, entry: FunctionDoc)
    requires i < |lines| && FindName(lines[i], 0) == Some(entry.name)
    requires entry.line == i + 1 && entry.description == Describe(lines, i)
    ensures MapEntries(DeclarationLines(lines, i + 1), EntryOn(lines))
         == MapEntries(DeclarationLines(lines, i), EntryOn(lines)) + [entry]
  {
    DeclarationLinesSnoc(lines, i);
    var ix := DeclarationLines(lines, i);
    MapEntriesSnoc(ix, i, EntryOn(lines));
    EntryOnIs(lines, i, entry);
  }

  lemma MapEntriesSnoc(ix: seq<nat>, x: nat, entry: nat --> FunctionDoc)
    requires forall k | 0 <= k < |ix| :: entry.requires(ix[k])
    requires entry.requires(x)
    ensures forall k | 0 <= k < |ix + [x]| :: entry.requires((ix + [x])[k])
    ensures MapEntries(ix + [x], entry) == MapEntries(ix, entry) + [entry(x)]
  {
    assert (ix + [x])[..|ix|] == ix;
  }

  lemma EntryOnIs(lines: seq<string>, i: nat, entry: FunctionDoc)
    requires i < |lines| && FindName(lines[i], 0) == Some(entry.name)
    requires entry.line == i + 1 && entry.description == Describe(lines, i)
    ensures EntryOn(lines)(i) == entry
  {
  }

  // --------------------------------------------------- generateApiDocs

  datatype FileDoc = FileDoc(file: Name, functions: seq<FunctionDoc>)

  /** `readdirSync` of `src` throws when it is a file; `readFileSync` of a
      `.js` entry throws when it is a directory. */
  datatype DocsError = SrcNotDir | EntryNotFile(file: Name)

  datatype DocsResult = Docs(files: seq<FileDoc>) | DocsFailed(err: DocsError)

  function ContentOf(t: Tree, p: Path, utf8: Bytes -> string): string
    requires IsFile(t, p)
  {
    utf8(t[p].data)
  }

  /** The functions `extractFunctions` finds in the file `src/<n>`. */
  function FileFunctions(t: Tree, utf8: Bytes -> string, n: Name): seq<FunctionDoc>
    requires IsFile(t, SrcDir + [n])
  {
    ExtractSpec(utf8(t[SrcDir + [n]].data))
  }

  /** The documents for the entries `names` of `src`, in order; the first
      `.js` entry that is not a file stops everything. */
  function FilesDocs(t: Tree, utf8: Bytes -> string, names: seq<Name>): DocsResult
    decreases |names|
  {
    if names == [] then Docs([])
    else
      var n := names[|names| - 1];
      var pre := FilesDocs(t, utf8, names[..|names| - 1]);
      if pre.DocsFailed? then pre
      else if !EndsWith(n, ".js") then pre
      else if !IsFile(t, SrcDir + [n]) then DocsFailed(EntryNotFile(n))
      else
        var fs := FileFunctions(t, utf8, n);
        Docs(pre.files + if fs != [] then [FileDoc(n, fs)] else [])
  }

  /** Every document is that of a `.js` file among `names` in which
      `extractFunctions` finds something. */
  lemma {:induction false} FilesDocsSound(t: Tree, utf8: Bytes -> string, names: seq<Name>)
    ensures var r := FilesDocs(t, utf8, names);
      r.Docs? ==> forall d | d in r.files ::
        && d.file in names && EndsWith(d.file, ".js") && IsFile(t, SrcDir + [d.file])
        && d.functions != [] && d.functions == FileFunctions(t, utf8, d.file)
    decreases |names|
  {
    if names != [] {
      var pre := names[..|names| - 1];
      FilesDocsSound(t, utf8, pre);
      assert forall n | n in pre :: n in names;
    }
  }

  /** Every `.js` file among `names` in which `extractFunctions` finds
      something has its document. */
  lemma {:induction false} FilesDocsComplete(t: Tree, utf8: Bytes -> string, names: seq<Name>)
    ensures var r := FilesDocs(t, utf8, names);
      r.Docs? ==> forall n | n in names && EndsWith(n, ".js") ::
        && IsFile(t, SrcDir + [n])
        && (FileFunctions(t, utf8, n) != [] ==> FileDoc(n, FileFunctions(t, utf8, n)) in r.files)
    decreases |names|
  {
    if names != [] {
      var last := names[|names| - 1];
      var pre := names[..|names| - 1];
      FilesDocsComplete(t, utf8, pre);
      assert names == pre + [last];
    }
  }

  /** The documents are produced exactly when every `.js` entry among
      `names` is a file; otherwise the error names such an entry. */
  lemma {:induction false} FilesDocsFails(t: Tree, utf8: Bytes -> string, names: seq<Name>)
    ensures var r := FilesDocs(t, utf8, names);
      r.Docs? <==> forall n | n in names && EndsWith(n, ".js") :: IsFile(t, SrcDir + [n])
    ensures var r := FilesDocs(t, utf8, names);
      r.DocsFailed? ==>
        && r.err.EntryNotFile? && r.err.file in names
        && EndsWith(r.err.file, ".js") && !IsFile(t, SrcDir + [r.err.file])
    decreases |names|
  {
    if names != [] {
      var last := names[|names| - 1];
      var pre := names[..|names| - 1];
      FilesDocsFails(t, utf8, pre);
      assert names == pre + [last];
    }
  }

  /** `generateApiDocs()`. */
  function ApiDocs(t: Tree, utf8: Bytes -> string): (r: DocsResult)
    ensures SrcDir !in t ==> r == Docs([])
    ensures IsFile(t, SrcDir) ==> r == DocsFailed(SrcNotDir)
  {
    if SrcDir !in t then Docs([])
    else if t[SrcDir].File? then DocsFailed(SrcNotDir)
    else FilesDocs(t, utf8, t[SrcDir].listing)
  }

  /** Once an entry has failed, the later entries change nothing. */
  lemma {:induction false} FailureStops(t: Tree, utf8: Bytes -> string, names: seq<Name>, k: nat)
    requires k <= |names| && FilesDocs(t, utf8, names[..k]).DocsFailed?
    ensures FilesDocs(t, utf8, names) == FilesDocs(t, utf8, names[..k])
    decreases |names| - k
  {
    if k < |names| {
      assert names[..k + 1][..k] == names[..k];
      FailureStops(t, utf8, names, k + 1);
    } else {
      assert names[..k] == names;
    }
  }

  /** One more entry of `src` is looked at. */
  lemma FilesDocsStep(t: Tree, utf8: Bytes -> string, names: seq<Name>, i: nat)
    requires i < |names| && FilesDocs(t, utf8, names[..i]).Docs?
    ensures var n := names[i]; var pre := FilesDocs(t, utf8, names[..i]);
      FilesDocs(t, utf8, names[..i + 1]) ==
        if !EndsWith(n, ".js") then pre
        else if !IsFile(t, SrcDir + [n]) then DocsFailed(EntryNotFile(n))
        else if FileFunctions(t, utf8, n) == [] then pre
        else Docs(pre.files + [FileDoc(n, FileFunctions(t, utf8, n))])
  {
    assert names[..i + 1][..i] == names[..i];
  }

  /** `generateApiDocs()` over the filesystem, calling `extractFunctions`
      on every `.js` file of `src` in listing order. */
  method GenerateApiDocs(disk: Disk, utf8: Bytes -> string) returns (r: DocsResult)
    ensures r == ApiDocs(disk.tree, utf8)
  {
    if SrcDir !in disk.tree {
      return Docs([]);
    }
    if disk.tree[SrcDir].File? {
      return DocsFailed(SrcNotDir);
    }
    var files := disk.tree[SrcDir].listing;
    var apiDocs: seq<FileDoc> := [];
    for i := 0 to |files|
      invariant FilesDocs(disk.tree, utf8, files[..i]) == Docs(apiDocs)
    {
      var file := files[i];
      FilesDocsStep(disk.tree, utf8, files, i);
      if EndsWith(file, ".js") {
        var filePath := SrcDir + [file];
        if !IsFile(disk.tree, filePath) {
          FailureStops(disk.tree, utf8, files, i + 1);
          return DocsFailed(EntryNotFile(file));
        }
        var content := utf8(disk.tree[filePath].data);
        var functions := ExtractFunctions(content);
        assert functions == FileFunctions(disk.tree, utf8, file);
        if |functions| > 0 {
          apiDocs := apiDocs + [FileDoc(file, functions)];
        }
      }
    }
    assert files[..|files|] == files;
    r := Docs(apiDocs);
  }
}
