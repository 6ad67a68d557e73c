/**
 * Entry discovery (config/utils/Project.js): list the files under the source
 * root and under the build root, add `.sass`/`.scss` candidates for every
 * built `.css` file, intersect the two sorted lists with a merge, and turn
 * the common paths into webpack's `entry` map and the whitelist of output
 * names the build may emit.
 */
module Project {
  import opened JsString

  // ---------------------------------------------------------------------
  // Directory walk over an abstract tree
  // ---------------------------------------------------------------------

  /** One directory entry as `fs.readdirSync` and `fs.statSync` report it. */
  datatype Node = File(name: string) | Dir(name: string, children: seq<Node>)

  /**
   * The file system as the walk sees it: each existing root directory
   * (by its path) with its listing, in `readdirSync` order.
   */
  type FileSystem = map<string, seq<Node>>

  /** The files under one entry of directory `dir`, as `walkDirectory` names them. */
  function WalkNode(dir: string, n: Node): seq<string>
    decreases n, 1
  {
    match n
    case File(name) => [dir + "/" + name]
    case Dir(name, children) => WalkList(dir + "/" + name, children)
  }

  /** The files under a listing of directory `dir`, in walk order. */
  function WalkList(dir: string, ns: seq<Node>): seq<string>
    decreases ns, 0
  {
    if ns == [] then [] else WalkNode(dir, ns[0]) + WalkList(dir, ns[1..])
  }

  lemma {:induction false} WalkListAppend(dir: string, a: seq<Node>, b: seq<Node>)
    ensures WalkList(dir, a + b) == WalkList(dir, a) + WalkList(dir, b)
  {
    if a != [] {
      assert (a + b)[0] == a[0] && (a + b)[1..] == a[1..] + b;
      WalkListAppend(dir, a[1..], b);
    } else {
      assert a + b == b;
    }
  }

  /**
   * Walking from `p + q` gives the paths of walking from `q`, each with `p`
   * in front: every path the walk reports starts with the directory walked.
   */
  lemma {:induction false} WalkNodePrefix(p: string, q: string, n: Node)
    ensures |WalkNode(p + q, n)| == |WalkNode(q, n)|
    ensures forall k :: 0 <= k < |WalkNode(q, n)| ==> WalkNode(p + q, n)[k] == p + WalkNode(q, n)[k]
    decreases n, 1
  {
    match n
    case File(name) =>
      assert p + q + "/" + name == p + (q + "/" + name);
    case Dir(name, children) =>
      assert p + q + "/" + name == p + (q + "/" + name);
      WalkListPrefix(p, q + "/" + name, children);
  }

  lemma {:induction false} WalkListPrefix(p: string, q: string, ns: seq<Node>)
    ensures |WalkList(p + q, ns)| == |WalkList(q, ns)|
    ensures forall k :: 0 <= k < |WalkList(q, ns)| ==> WalkList(p + q, ns)[k] == p + WalkList(q, ns)[k]
    decreases ns, 0
  {
    if ns != [] {
      WalkNodePrefix(p, q, ns[0]);
      WalkListPrefix(p, q, ns[1..]);
    }
  }

  /**
   * `walkDirectory(dir)` below the root: every file of the listing is
   * reported as `dir + '/' + name`, every sub-directory is walked in turn.
   */
  method WalkDirectory(dir: string, list: seq<Node>) returns (results: seq<string>)
    ensures results == WalkList(dir, list)
    decreases list
  {
    results := [];
    var i := 0;
    while i < |list|
      invariant 0 <= i <= |list|
      invariant results == WalkList(dir, list[..i])
      decreases |list| - i
    {
      var file := dir + "/" + list[i].name;
      match list[i] {
        case Dir(_, children) =>
          var sub := WalkDirectory(file, children);
          results := results + sub;
        case File(_) =>
          results := results + [file];
      }
      assert list[..i + 1] == list[..i] + [list[i]];
      WalkListAppend(dir, list[..i], [list[i]]);
      i := i + 1;
    }
    assert list[..i] == list;
  }

  /**
   * `listFiles(directory)`: the walk of an existing root, each path with the
   * first occurrence of the root's own path removed. A missing root is the
   * `process.exit(1)` of `walkDirectory`, written `None`.
   */
  method ListFiles(fs: FileSystem, directory: string) returns (files: Option<seq<string>>)
    ensures files.None? <==> directory !in fs
    ensures files.Some? ==> files.value == WalkList("", fs[directory])
  {
    if directory !in fs {
      return None;
    }
    var walked := WalkDirectory(directory, fs[directory]);
    files := Some(seq(|walked|, k requires 0 <= k < |walked| => ReplaceFirst(walked[k], directory, "")));
    WalkListPrefix(directory, "", fs[directory]);
    assert directory + "" == directory;
    forall k | 0 <= k < |walked| ensures files.value[k] == WalkList("", fs[directory])[k] {
      ReplacePrefix(directory, WalkList("", fs[directory])[k]);
    }
  }

  // ---------------------------------------------------------------------
  // Extensions and preprocessor candidates
  // ---------------------------------------------------------------------

  /** `filename.split('.').pop()`: the last piece between dots. */
  function GetExtension(filename: string): string {
    if filename == [] then []
    else if filename[|filename| - 1] == '.' then []
    else
      var front := filename[..|filename| - 1];
      GetExtension(front) + [filename[|filename| - 1]]
  }

  /**
   * The extension is the longest suffix without a `.`: the text after the
   * last `.`, or the whole name when it holds no `.` at all.
   */
  lemma {:induction false} ExtensionIsLastDotSegment(filename: string)
    ensures var ext := GetExtension(filename);
      && |ext| <= |filename| && ext == filename[|filename| - |ext|..]
      && '.' !in ext
      && (|ext| < |filename| ==> filename[|filename| - |ext| - 1] == '.')
  {
    if filename != [] && filename[|filename| - 1] != '.' {
      var n := |filename|;
      var front, last := filename[..n - 1], filename[n - 1];
      ExtensionIsLastDotSegment(front);
      var e := GetExtension(front);
      var ext := e + [last];
      assert GetExtension(filename) == ext;
      var k := n - 1 - |e|;
      assert front[k..] == filename[k..n - 1];
      assert filename[k..] == filename[k..n - 1] + [last];
      assert ext == filename[n - |ext|..];
      assert '.' !in ext;
      if |ext| < n {
        assert filename[n - |ext| - 1] == front[|front| - |e| - 1];
      }
    }
  }

  /** The extension of `p.e`, for a dotless `e`, is `e`. */
  lemma {:induction false} ExtensionAfterLastDot(p: string, e: string)
    requires '.' !in e
    ensures GetExtension(p + "." + e) == e
  {
    var file := p + "." + e;
    if e == [] {
      assert file[|file| - 1] == '.';
    } else {
      var front := e[..|e| - 1];
      assert e == front + [e[|e| - 1]];
      ExtensionAfterLastDot(p, front);
      assert file[..|file| - 1] == p + "." + front;
    }
  }

  /** A name with no `.` is its own extension. */
  lemma ExtensionOfDotlessName(filename: string)
    requires '.' !in filename
    ensures GetExtension(filename) == filename
  {
    ExtensionIsLastDotSegment(filename);
    var ext := GetExtension(filename);
    assert |ext| == |filename|;
  }

  /** The destination paths whose extension is exactly `css`, in their order. */
  function CssFiles(destination: seq<string>): (css: seq<string>)
    ensures forall x :: x in css <==> x in destination && GetExtension(x) == "css"
    ensures |css| <= |destination|
  {
    if destination == [] then []
    else
      (if GetExtension(destination[0]) == "css" then [destination[0]] else [])
      + CssFiles(destination[1..])
  }

  /** Each path with its first `css` replaced by `rep`, in order. */
  function Rewrites(css: seq<string>, rep: string): (r: seq<string>)
    ensures |r| == |css|
    ensures forall x :: x in r <==> exists d :: d in css && x == ReplaceFirst(d, "css", rep)
  {
    if css == [] then [] else [ReplaceFirst(css[0], "css", rep)] + Rewrites(css[1..], rep)
  }

  /**
   * The destination list after `destination.concat(sass, scss)`: every
   * built path, then each `.css` path with its first `css` replaced by
   * `sass`, then the same with `scss`.
   */
  function Candidates(destination: seq<string>): seq<string> {
    var css := CssFiles(destination);
    destination + Rewrites(css, "sass") + Rewrites(css, "scss")
  }

  /** `x` is the `sass` or `scss` rewrite of the built `.css` path `d`. */
  predicate IsSourceRewrite(x: string, d: string) {
    GetExtension(d) == "css" && (x == ReplaceFirst(d, "css", "sass") || x == ReplaceFirst(d, "css", "scss"))
  }

  /**
   * Only `.css` paths yield candidates: a string is a candidate exactly
   * when it is a built path or the `sass`/`scss` rewrite of a built `.css` path.
   * The built paths come first, in their order.
   */
  lemma CandidateMembership(destination: seq<string>, x: string)
    ensures Candidates(destination)[..|destination|] == destination
    ensures x in Candidates(destination) <==>
      x in destination || exists d :: d in destination && IsSourceRewrite(x, d)
  {
    var css := CssFiles(destination);
    var sass, scss := Rewrites(css, "sass"), Rewrites(css, "scss");
    assert Candidates(destination) == destination + sass + scss;
    assert (destination + sass + scss)[..|destination|] == destination;
    assert x in destination + sass + scss <==> x in destination || x in sass || x in scss;
    if x in sass {
      var d :| d in css && x == ReplaceFirst(d, "css", "sass");
      assert IsSourceRewrite(x, d);
    }
    if x in scss {
      var d :| d in css && x == ReplaceFirst(d, "css", "scss");
      assert IsSourceRewrite(x, d);
    }
    if exists d :: d in destination && IsSourceRewrite(x, d) {
      var d :| d in destination && IsSourceRewrite(x, d);
      assert d in css;
    }
  }

  /**
   * The first-occurrence replacement rewrites the first `css` in the path,
   * not the extension: a built `/css/a.css` is matched against the source
   * candidates `/sass/a.css` and `/scss/a.css`, never `/css/a.sass`.
   */
  lemma CandidateRewritesDirectory(path: string)
    requires path == "/css/a.css"
    ensures GetExtension(path) == "css"
    ensures "/sass/a.css" in Candidates([path])
    ensures "/css/a.sass" !in Candidates([path])
  {
    CssPathRewrites(path);
    var sass, scss := ReplaceFirst(path, "css", "sass"), ReplaceFirst(path, "css", "scss");
    assert IsSourceRewrite(sass, path);
    CandidateMembership([path], sass);
    var wrong := "/css/a.sass";
    assert wrong[1] != sass[1] && wrong[1] != scss[1] && wrong[8] != path[8];
    assert !IsSourceRewrite(wrong, path);
    CandidateMembership([path], wrong);
  }

  /** The extension of `/css/a.css`, and its two rewrites. */
  lemma CssPathExtension(path: string)
    requires path == "/css/a.css"
    ensures GetExtension(path) == "css"
  {
    assert path == "/css/a" + "." + "css";
    ExtensionAfterLastDot("/css/a", "css");
  }

  lemma CssPathRewrites(path: string)
    requires path == "/css/a.css"
    ensures GetExtension(path) == "css"
    ensures ReplaceFirst(path, "css", "sass") == "/sass/a.css"
    ensures ReplaceFirst(path, "css", "scss") == "/scss/a.css"
  {
    CssPathExtension(path);
    var pre, post := "/", "/a.css";
    var p := pre + "css" + post;
    OccursAfter(pre, "css", post);
    assert p[0] == '/';
    MismatchAt(p, "css", 0, 0);
    IndexOfIs(p, "css", 1);
    ReplaceFirstSplit(pre, "css", post, "sass");
    ReplaceFirstSplit(pre, "css", post, "scss");
    assert p == path;
  }

  // ---------------------------------------------------------------------
  // Sort-merge intersection
  // ---------------------------------------------------------------------

  /**
   * What `intersection_destructive` computes: advance the side whose head
   * is smaller, and on equal heads emit the head and advance both.
   */
  function MergeIntersect(a: seq<string>, b: seq<string>): (r: seq<string>)
    ensures |r| <= |a| && |r| <= |b|
    ensures forall x :: x in r ==> x in a && x in b
    decreases |a| + |b|
  {
    if a == [] || b == [] then []
    else if Less(a[0], b[0]) then MergeIntersect(a[1..], b)
    else if Less(b[0], a[0]) then MergeIntersect(a, b[1..])
    else
      LessTrichotomy(a[0], b[0]);
      [a[0]] + MergeIntersect(a[1..], b[1..])
  }

  /** The naive intersection: the elements of `a`, in order, that occur in `b`. */
  function KeepIn(a: seq<string>, b: seq<string>): (r: seq<string>)
    ensures forall x :: x in r <==> x in a && x in b
  {
    if a == [] then []
    else (if a[0] in b then [a[0]] else []) + KeepIn(a[1..], b)
  }

  /** A string below the head of a sorted list does not occur in it. */
  lemma BelowSortedHead(x: string, b: seq<string>)
    requires Sorted(b) && b != [] && Less(x, b[0])
    ensures x !in b
  {
    forall j | 0 <= j < |b| ensures b[j] != x {
      assert LessEq(b[0], b[j]);
      LessAsymmetric(x, b[0]);
      LessIrreflexive(x);
    }
  }

  lemma {:induction false} KeepInNothing(a: seq<string>, b: seq<string>)
    requires forall x :: x in a ==> x !in b
    ensures KeepIn(a, b) == []
  {
    if a != [] {
      KeepInNothing(a[1..], b);
    }
  }

  lemma {:induction false} KeepInCongruent(a: seq<string>, b: seq<string>, c: seq<string>)
    requires forall x :: x in a ==> (x in b <==> x in c)
    ensures KeepIn(a, b) == KeepIn(a, c)
  {
    if a != [] {
      KeepInCongruent(a[1..], b, c);
    }
  }

  /** Dropping a head of `b` that `a` does not hold keeps the intersection. */
  lemma KeepInDropHead(a: seq<string>, b: seq<string>)
    requires b != [] && forall x :: x in a ==> x != b[0]
    ensures KeepIn(a, b[1..]) == KeepIn(a, b)
  {
    assert b == [b[0]] + b[1..];
    KeepInCongruent(a, b[1..], b);
  }

  /** With both inputs sorted, the merge keeps the order. */
  lemma {:induction false} MergeIntersectSorted(a: seq<string>, b: seq<string>)
    requires Sorted(a) && Sorted(b)
    ensures Sorted(MergeIntersect(a, b))
    decreases |a| + |b|
  {
    if a == [] || b == [] {
    } else if Less(a[0], b[0]) {
      MergeIntersectSorted(a[1..], b);
    } else if Less(b[0], a[0]) {
      MergeIntersectSorted(a, b[1..]);
    } else {
      MergeIntersectSorted(a[1..], b[1..]);
      var rest := MergeIntersect(a[1..], b[1..]);
      forall j | 0 <= j < |rest| ensures LessEq(a[0], rest[j]) {
        assert rest[j] in a[1..];
      }
    }
  }

  /**
   * With both inputs sorted (duplicates allowed), nothing that occurs in
   * both is skipped: the merge misses no common element.
   */
  lemma {:induction false} MergeIntersectComplete(a: seq<string>, b: seq<string>, x: string)
    requires Sorted(a) && Sorted(b)
    requires x in a && x in b
    ensures x in MergeIntersect(a, b)
    decreases |a| + |b|
  {
    if Less(a[0], b[0]) {
      BelowSortedHead(a[0], b);
      MergeIntersectComplete(a[1..], b, x);
    } else if Less(b[0], a[0]) {
      BelowSortedHead(b[0], a);
      MergeIntersectComplete(a, b[1..], x);
    } else if x != a[0] {
      LessTrichotomy(a[0], b[0]);
      assert x in a[1..] && x in b[1..];
      MergeIntersectComplete(a[1..], b[1..], x);
    }
  }

  /**
   * When the first input is strictly sorted and the second sorted, the
   * merge equals the naive intersection: each common string exactly once,
   * in order.
   */
  lemma {:induction false} MergeIntersectIsKeepIn(a: seq<string>, b: seq<string>)
    requires StrictlySorted(a) && Sorted(b)
    ensures MergeIntersect(a, b) == KeepIn(a, b)
    decreases |a| + |b|
  {
    if a == [] {
    } else if b == [] {
      KeepInNothing(a, b);
    } else if Less(a[0], b[0]) {
      MergeIntersectIsKeepIn(a[1..], b);
      BelowSortedHead(a[0], b);
    } else if Less(b[0], a[0]) {
      MergeIntersectIsKeepIn(a, b[1..]);
      forall x | x in a ensures x != b[0] {
        var j :| 0 <= j < |a| && a[j] == x;
        if j > 0 {
          LessTransitive(b[0], a[0], a[j]);
        }
        LessIrreflexive(b[0]);
      }
      KeepInDropHead(a, b);
    } else {
      LessTrichotomy(a[0], b[0]);
      MergeIntersectIsKeepIn(a[1..], b[1..]);
      forall x | x in a[1..] ensures x != b[0] {
        var j :| 1 <= j < |a| && a[j] == x;
        LessIrreflexive(a[0]);
      }
      KeepInDropHead(a[1..], b);
    }
  }

  /** A sub-list of a strictly sorted list keeps it free of duplicates. */
  lemma {:induction false} KeepInNoDuplicates(a: seq<string>, b: seq<string>)
    requires NoDuplicates(a)
    ensures NoDuplicates(KeepIn(a, b))
  {
    if a != [] {
      KeepInNoDuplicates(a[1..], b);
      var rest := KeepIn(a[1..], b);
      assert a[0] !in a[1..];
    }
  }

  /**
   * `intersection_destructive(a, b)`: shift the smaller head off its array,
   * and on equal heads push one onto the result and shift both. It stops
   * when either array is empty, since `|a| + |b|` shrinks each round.
   */
  method IntersectionDestructive(a: seq<string>, b: seq<string>) returns (result: seq<string>)
    ensures result == MergeIntersect(a, b)
    ensures |result| <= |a| && |result| <= |b|
    ensures Sorted(a) && Sorted(b) ==> Sorted(result)
    ensures Sorted(a) && Sorted(b) ==> forall x :: x in result <==> x in a && x in b
    ensures StrictlySorted(a) && StrictlySorted(b) ==>
      forall x :: x in a && x in b ==> multiset(result)[x] == 1
  {
    result := [];
    var restA, restB := a, b;
    while |restA| > 0 && |restB| > 0
      invariant result + MergeIntersect(restA, restB) == MergeIntersect(a, b)
      decreases |restA| + |restB|
    {
      if Less(restA[0], restB[0]) {
        restA := restA[1..];
      } else if Less(restB[0], restA[0]) {
        restB := restB[1..];
      } else {
        result := result + [restA[0]];
        restA, restB := restA[1..], restB[1..];
      }
    }
    assert result == MergeIntersect(a, b);
    MergeIntersectProperties(a, b);
  }

  /**
   * On sorted inputs the merge is sorted and holds exactly the common
   * strings; on strictly sorted inputs, each of them exactly once.
   */
  lemma MergeIntersectProperties(a: seq<string>, b: seq<string>)
    ensures Sorted(a) && Sorted(b) ==> Sorted(MergeIntersect(a, b))
    ensures Sorted(a) && Sorted(b) ==> forall x :: x in MergeIntersect(a, b) <==> x in a && x in b
    ensures StrictlySorted(a) && StrictlySorted(b) ==>
      forall x :: x in a && x in b ==> multiset(MergeIntersect(a, b))[x] == 1
  {
    var result := MergeIntersect(a, b);
    if Sorted(a) && Sorted(b) {
      MergeIntersectSorted(a, b);
      forall x | x in a && x in b ensures x in result {
        MergeIntersectComplete(a, b, x);
      }
    }
    if StrictlySorted(a) && StrictlySorted(b) {
      StrictlySortedIsSortedWithoutDuplicates(a);
      StrictlySortedIsSortedWithoutDuplicates(b);
      MergeIntersectIsKeepIn(a, b);
      KeepInNoDuplicates(a, b);
      forall x | x in a && x in b ensures multiset(result)[x] == 1 {
        CountAtMostOne(result, x);
      }
    }
  }

  /** The common files of `findCommonFiles`: sorted source against sorted candidates. */
  function CommonFiles(source: seq<string>, destination: seq<string>): seq<string> {
    MergeIntersect(Sort(source), Sort(Candidates(destination)))
  }

  /**
   * `findCommonFiles(source, destination)`: the source paths that are also
   * built paths or preprocessor candidates of built `.css` paths, sorted.
   */
  method FindCommonFiles(source: seq<string>, destination: seq<string>) returns (common: seq<string>)
    ensures common == CommonFiles(source, destination)
    ensures Sorted(common) && |common| <= |source|
    ensures forall x :: x in common <==> x in source && x in Candidates(destination)
    ensures NoDuplicates(source) ==> common == KeepIn(Sort(source), Candidates(destination))
  {
    var candidates := Candidates(destination);
    var sortedSource, sortedCandidates := Sort(source), Sort(candidates);
    common := IntersectionDestructive(sortedSource, sortedCandidates);
    SortedIntersection(source, candidates);
  }

  /**
   * Intersecting the sorted copies of two lists gives a sorted list of
   * exactly the strings in both; when the first has no duplicates, it is
   * the naive intersection of its sorted copy with the second.
   */
  lemma SortedIntersection(source: seq<string>, candidates: seq<string>)
    ensures var common := MergeIntersect(Sort(source), Sort(candidates));
      && Sorted(common) && |common| <= |source|
      && (forall x :: x in common <==> x in source && x in candidates)
      && (NoDuplicates(source) ==> common == KeepIn(Sort(source), candidates))
  {
    var sortedSource, sortedCandidates := Sort(source), Sort(candidates);
    MergeIntersectProperties(sortedSource, sortedCandidates);
    assert forall x :: x in sortedSource <==> x in multiset(source);
    assert forall x :: x in sortedCandidates <==> x in multiset(candidates);
    if NoDuplicates(source) {
      PermutationKeepsNoDuplicates(source, sortedSource);
      StrictlySortedIsSortedWithoutDuplicates(sortedSource);
      MergeIntersectIsKeepIn(sortedSource, sortedCandidates);
      KeepInCongruent(sortedSource, sortedCandidates, candidates);
    }
  }

  // ---------------------------------------------------------------------
  // Entries and output whitelist
  // ---------------------------------------------------------------------

  /**
   * The entry name of a common path: the first `./` removed, then the first
   * occurrence of `.` + extension removed.
   */
  function EntryName(file: string): string {
    ReplaceFirst(ReplaceFirst(file, "./", ""), "." + GetExtension(file), "")
  }

  /** `scss` and `sass` sources are emitted as `css`; other extensions are kept. */
  function OutputExtension(extension: string): string {
    if extension == "scss" || extension == "sass" then "css" else extension
  }

  /** The name under which the bundle built from `file` is emitted. */
  function OutputName(file: string): string {
    EntryName(file) + "." + OutputExtension(GetExtension(file))
  }

  /** The entry names of the common files, in order. */
  function EntryNames(files: seq<string>): (names: seq<string>)
    ensures |names| == |files|
    ensures forall i :: 0 <= i < |files| ==> names[i] == EntryName(files[i])
  {
    seq(|files|, i requires 0 <= i < |files| => EntryName(files[i]))
  }

  /** The output names of the common files, in order. */
  function OutputNames(files: seq<string>): (names: seq<string>)
    ensures |names| == |files|
    ensures forall i :: 0 <= i < |files| ==> names[i] == OutputName(files[i])
  {
    seq(|files|, i requires 0 <= i < |files| => OutputName(files[i]))
  }

  /** The source paths of the common files, in order. */
  function SourcePaths(src: string, files: seq<string>): (paths: seq<string>)
    ensures |paths| == |files|
    ensures forall i :: 0 <= i < |files| ==> paths[i] == Join(src, files[i])
  {
    seq(|files|, i requires 0 <= i < |files| => Join(src, files[i]))
  }

  /** An object after `obj[keys[i]] = values[i]` for each i in turn. */
  function Assign(keys: seq<string>, values: seq<string>): map<string, string>
    requires |keys| == |values|
  {
    if keys == [] then map[]
    else Assign(keys[..|keys| - 1], values[..|keys| - 1])[keys[|keys| - 1] := values[|keys| - 1]]
  }

  /** One more assignment extends the object by one key. */
  lemma AssignStep(keys: seq<string>, values: seq<string>, i: int)
    requires |keys| == |values| && 0 <= i < |keys|
    ensures Assign(keys[..i + 1], values[..i + 1]) == Assign(keys[..i], values[..i])[keys[i] := values[i]]
  {
    assert keys[..i + 1][..i] == keys[..i] && values[..i + 1][..i] == values[..i];
  }

  lemma {:induction false} AssignKeys(keys: seq<string>, values: seq<string>)
    requires |keys| == |values|
    ensures Assign(keys, values).Keys == set k | k in keys
  {
    if keys != [] {
      var n := |keys| - 1;
      AssignKeys(keys[..n], values[..n]);
      assert keys == keys[..n] + [keys[n]];
    }
  }

  lemma {:induction false} AssignLastWins(keys: seq<string>, values: seq<string>, i: int)
    requires |keys| == |values| && 0 <= i < |keys|
    requires forall j :: i < j < |keys| ==> keys[j] != keys[i]
    ensures keys[i] in Assign(keys, values) && Assign(keys, values)[keys[i]] == values[i]
  {
    var n := |keys| - 1;
    if i < n {
      AssignLastWins(keys[..n], values[..n], i);
    }
  }

  /** A list of names, each followed by the name of its source map. */
  function WithMaps(names: seq<string>): seq<string> {
    if names == [] then []
    else
      var last := names[|names| - 1];
      WithMaps(names[..|names| - 1]) + [last, last + ".map"]
  }

  lemma WithMapsStep(names: seq<string>, i: int)
    requires 0 <= i < |names|
    ensures WithMaps(names[..i + 1]) == WithMaps(names[..i]) + [names[i], names[i] + ".map"]
  {
    assert names[..i + 1][..i] == names[..i];
  }

  lemma {:induction false} WithMapsLayout(names: seq<string>)
    ensures |WithMaps(names)| == 2 * |names|
    ensures forall i :: 0 <= i < |names| ==>
      WithMaps(names)[2 * i] == names[i] && WithMaps(names)[2 * i + 1] == names[i] + ".map"
  {
    if names != [] {
      var front := names[..|names| - 1];
      WithMapsLayout(front);
      forall i | 0 <= i < |names|
        ensures WithMaps(names)[2 * i] == names[i] && WithMaps(names)[2 * i + 1] == names[i] + ".map"
      {
        if i < |front| {
          assert names[i] == front[i];
        }
      }
    }
  }

  /** Each name in the list is one of the names or the name of its map. */
  lemma {:induction false} WithMapsMembership(names: seq<string>, x: string)
    requires x in WithMaps(names)
    ensures exists i :: 0 <= i < |names| && (x == names[i] || x == names[i] + ".map")
  {
    var n := |names| - 1;
    if x in WithMaps(names[..n]) {
      WithMapsMembership(names[..n], x);
      var i :| 0 <= i < n && (x == names[..n][i] || x == names[..n][i] + ".map");
      assert names[..n][i] == names[i];
    } else {
      assert x == names[n] || x == names[n] + ".map";
    }
  }

  /** The `entries` object that `setIO` builds from the common files. */
  function EntryMap(src: string, files: seq<string>): map<string, string> {
    Assign(EntryNames(files), SourcePaths(src, files))
  }

  /** The `whitelist` array that `setIO` builds from the common files. */
  function Whitelist(files: seq<string>): seq<string> {
    WithMaps(OutputNames(files))
  }

  /**
   * The whitelist holds, for the i-th common file, its output name at
   * position 2i and the name of its source map at 2i+1, and nothing else.
   */
  lemma WhitelistLayout(files: seq<string>)
    ensures |Whitelist(files)| == 2 * |files|
    ensures forall i :: 0 <= i < |files| ==>
      Whitelist(files)[2 * i] == OutputName(files[i]) && Whitelist(files)[2 * i + 1] == OutputName(files[i]) + ".map"
  {
    WithMapsLayout(OutputNames(files));
  }

  /** Every entry name of a common file is a key, and there are no others. */
  lemma EntryMapKeys(src: string, files: seq<string>)
    ensures forall k :: k in EntryMap(src, files) <==> exists i :: 0 <= i < |files| && EntryName(files[i]) == k
  {
    var names := EntryNames(files);
    AssignKeys(names, SourcePaths(src, files));
    forall k | k in names ensures exists i :: 0 <= i < |files| && EntryName(files[i]) == k {
      var i :| 0 <= i < |names| && names[i] == k;
    }
  }

  /**
   * Each entry points at the source path of the LAST common file with that
   * name: a later file with the same name overwrites an earlier one.
   */
  lemma EntryMapLastWins(src: string, files: seq<string>, i: int)
    requires 0 <= i < |files|
    requires forall j :: i < j < |files| ==> EntryName(files[j]) != EntryName(files[i])
    ensures EntryName(files[i]) in EntryMap(src, files)
    ensures EntryMap(src, files)[EntryName(files[i])] == Join(src, files[i])
  {
    AssignLastWins(EntryNames(files), SourcePaths(src, files), i);
  }

  /** No common file, no entry and no whitelisted name, and conversely. */
  lemma NoEntriesIffNoCommonFiles(src: string, files: seq<string>)
    ensures EntryMap(src, files) == map[] <==> files == []
    ensures Whitelist(files) == [] <==> files == []
  {
    if files != [] {
      AssignKeys(EntryNames(files), SourcePaths(src, files));
      assert EntryNames(files)[0] in EntryMap(src, files);
      WhitelistLayout(files);
    }
  }

  /**
   * A source `.sass` or `.scss` file is whitelisted under a `.css` name,
   * whatever candidate it was matched against; any other file keeps its
   * own extension.
   */
  lemma OutputNameExtension(file: string, ext: string)
    requires ext == GetExtension(file)
    ensures ext == "sass" || ext == "scss" ==> OutputName(file) == EntryName(file) + ".css"
    ensures ext != "sass" && ext != "scss" ==> OutputName(file) == EntryName(file) + "." + ext
  {
    var name := EntryName(file);
    assert OutputName(file) == name + "." + OutputExtension(ext);
    OutputExtensionAppended(name, ext);
  }

  lemma OutputExtensionAppended(name: string, ext: string)
    ensures ext == "sass" || ext == "scss" ==> name + "." + OutputExtension(ext) == name + ".css"
    ensures ext != "sass" && ext != "scss" ==> OutputExtension(ext) == ext
  {
    if ext == "sass" || ext == "scss" {
      assert OutputExtension(ext) == "css";
      assert name + "." + "css" == name + ".css";
    }
  }

  /**
   * When the path holds no `./` and its first `.` + extension is its
   * suffix, the entry name is the path without its extension:
   * `/js/app.min.js` is entry `/js/app.min`.
   */
  lemma EntryNameStripsSuffix(file: string, stem: string, ext: string)
    requires file == stem + "." + ext && '.' !in ext
    requires IndexOf(file, "./") == None
    requires IndexOf(file, "." + ext) == Some(|stem|)
    ensures GetExtension(file) == ext
    ensures EntryName(file) == stem
  {
    ExtensionAfterLastDot(stem, ext);
    EntryNameWithExtension(file, stem, ext);
  }

  lemma EntryNameWithExtension(file: string, stem: string, ext: string)
    requires file == stem + "." + ext && GetExtension(file) == ext
    requires IndexOf(file, "./") == None
    requires IndexOf(file, "." + ext) == Some(|stem|)
    ensures EntryName(file) == stem
  {
    assert file[..|stem|] == stem;
  }

  /** Entry names for the example of `app.min.js`: the extension is `js`. */
  lemma EntryNameUsesLastDot(file: string)
    requires file == "/app.min.js"
    ensures GetExtension(file) == "js"
    ensures EntryName(file) == "/app.min"
  {
    var stem, ext := "/app.min", "js";
    NoDotSlash(file);
    assert forall j :: 0 <= j < 8 && j + 1 < |file| ==> file[j] != '.' || file[j + 1] != 'j';
    NoOccurrenceBefore(file, ".js", 8);
    assert file == stem + ".js" + "";
    OccursAfter(stem, ".js", "");
    IndexOfIs(file, ".js", 8);
    assert file == stem + "." + ext;
    assert ext[0] != '.' && ext[1] != '.';
    assert "." + ext == ".js";
    EntryNameStripsSuffix(file, stem, ext);
  }

  /** `./` occurs nowhere in a path without a `.` directly before a `/`. */
  lemma NoDotSlash(file: string)
    requires forall j :: 0 <= j && j + 1 < |file| ==> file[j] != '.' || file[j + 1] != '/'
    ensures IndexOf(file, "./") == None
  {
    NoOccurrenceBefore(file, "./", |file|);
    IndexOfNone(file, "./");
  }

  /**
   * The hazard of removing `.` + extension by first occurrence: a directory
   * whose name contains it is cut instead of the suffix, so `/a.js/b.js`
   * becomes entry `/a/b.js`.
   */
  lemma EntryNameCutsDirectory(file: string)
    requires file == "/a.js/b.js"
    ensures GetExtension(file) == "js"
    ensures EntryName(file) == "/a/b.js"
  {
    DirectoryExample(file);
    var pre, post := "/a", "/b.js";
    var f := pre + ".js" + post;
    OccursAfter(pre, ".js", post);
    assert f[0] == '/' && f[1] == 'a';
    MismatchAt(f, ".js", 0, 0);
    MismatchAt(f, ".js", 1, 0);
    IndexOfIs(f, ".js", 2);
    ReplaceFirstSplit(pre, ".js", post, "");
    assert f == file && "." + "js" == ".js";
    EntryNameWithoutDotSlash(file);
  }

  /** `/a.js/b.js` has extension `js` and holds no `./`. */
  lemma DirectoryExample(file: string)
    requires file == "/a.js/b.js"
    ensures GetExtension(file) == "js"
    ensures IndexOf(file, "./") == None
  {
    assert file == "/a.js/b" + "." + "js";
    ExtensionAfterLastDot("/a.js/b", "js");
    NoDotSlash(file);
  }

  /** Without `./`, the entry name is the path with its first `.` + extension removed. */
  lemma EntryNameWithoutDotSlash(file: string)
    requires IndexOf(file, "./") == None
    ensures EntryName(file) == ReplaceFirst(file, "." + GetExtension(file), "")
  {
  }

  /**
   * The `forEach` of `setIO` over the common files: each one sets
   * `entries[name]` to its source path and appends its output name and the
   * name of its source map to the whitelist.
   */
  method EntriesAndWhitelist(src: string, commonFiles: seq<string>)
    returns (entries: map<string, string>, whitelist: seq<string>)
    ensures entries == EntryMap(src, commonFiles)
    ensures whitelist == Whitelist(commonFiles)
  {
    entries, whitelist := map[], [];
    var i := 0;
    while i < |commonFiles|
      invariant 0 <= i <= |commonFiles|
      invariant entries == EntryMap(src, commonFiles[..i])
      invariant whitelist == Whitelist(commonFiles[..i])
    {
      var file := commonFiles[i];
      var extension := GetExtension(file);
      var name := EntryName(file);
      entries := entries[name := Join(src, file)];
      var outputExtension := OutputExtension(extension);
      var outputName := name + "." + outputExtension;
      whitelist := whitelist + [outputName];
      whitelist := whitelist + [outputName + ".map"];
      EntryMapStep(src, commonFiles, i);
      WhitelistStep(commonFiles, i);
      i := i + 1;
    }
    assert commonFiles[..i] == commonFiles;
  }

  /** One more common file extends the entry map by its name and source path. */
  lemma EntryMapStep(src: string, files: seq<string>, i: nat)
    requires i < |files|
    ensures EntryMap(src, files[..i + 1]) == EntryMap(src, files[..i])[EntryName(files[i]) := Join(src, files[i])]
  {
    var names, paths := EntryNames(files[..i + 1]), SourcePaths(src, files[..i + 1]);
    assert names[..i] == EntryNames(files[..i]);
    assert paths[..i] == SourcePaths(src, files[..i]);
    AssignStep(names, paths, i);
    assert names[..i + 1] == names && paths[..i + 1] == paths;
  }

  /** One more common file extends the whitelist by its output name and that of its map. */
  lemma WhitelistStep(files: seq<string>, i: nat)
    requires i < |files|
    ensures Whitelist(files[..i + 1]) == Whitelist(files[..i]) + [OutputName(files[i])] + [OutputName(files[i]) + ".map"]
  {
    var outputs := OutputNames(files[..i + 1]);
    assert outputs[..i] == OutputNames(files[..i]);
    WithMapsStep(outputs, i);
    assert outputs[..i + 1] == outputs;
  }

  /** Outcome of a step that may end the process. */
  datatype Status = Continue | Exit(code: int)

  /**
   * The project: its configuration (`src`, `build`), the two absolute
   * roots, and the `entries` and `whitelist` that `setIO` fills in.
   */
  class Project {
    const root: string
    const src: string
    const build: string
    const srcPath: string
    const buildPath: string
    var entries: map<string, string>
    var whitelist: seq<string>

    /**
     * `readConfig` then `setPaths`: the roots are the configured folders
     * joined to the working directory. Reading and parsing
     * `project.config.json` is not part of this model; its `src` and
     * `build` come in as arguments.
     */
    constructor (cwd: string, configSrc: string, configBuild: string)
      ensures root == cwd && src == configSrc && build == configBuild
      ensures srcPath == Join(cwd, configSrc) && buildPath == Join(cwd, configBuild)
      ensures entries == map[] && whitelist == []
    {
      root, src, build := cwd, configSrc, configBuild;
      srcPath, buildPath := Join(cwd, configSrc), Join(cwd, configBuild);
      entries, whitelist := map[], [];
    }

    /**
     * `setIO`: list both roots, find the common files, and store the
     * entries and the whitelist. A missing root ends the process with
     * code 1 before anything is stored.
     */
    method SetIO(fs: FileSystem) returns (status: Status)
      modifies this`entries, this`whitelist
      ensures status == Exit(1) <==> srcPath !in fs || buildPath !in fs
      ensures status != Exit(1) ==> status == Continue
      ensures status == Exit(1) ==> entries == old(entries) && whitelist == old(whitelist)
      ensures status == Continue ==>
        var common := CommonFiles(WalkList("", fs[srcPath]), WalkList("", fs[buildPath]));
        entries == EntryMap(srcPath, common) && whitelist == Whitelist(common)
    {
      var srcFiles := ListFiles(fs, srcPath);
      if srcFiles.None? {
        return Exit(1);
      }
      var buildFiles := ListFiles(fs, buildPath);
      if buildFiles.None? {
        return Exit(1);
      }
      var commonFiles := FindCommonFiles(srcFiles.value, buildFiles.value);
      var newEntries, newWhitelist := EntriesAndWhitelist(srcPath, commonFiles);
      entries, whitelist := newEntries, newWhitelist;
      status := Continue;
    }
  }

  /**
   * `new Project()` as the webpack configurations use it, followed by their
   * bail-out: with no entries the script prints "No files to watch" and
   * exits with code 0 before webpack is configured.
   */
  method LoadProject(cwd: string, configSrc: string, configBuild: string, fs: FileSystem)
    returns (project: Project, status: Status)
    ensures fresh(project)
    ensures status == Exit(1) <==> project.srcPath !in fs || project.buildPath !in fs
    ensures status == Exit(0) <==>
      project.srcPath in fs && project.buildPath in fs
      && CommonFiles(WalkList("", fs[project.srcPath]), WalkList("", fs[project.buildPath])) == []
    ensures status == Continue <==>
      project.srcPath in fs && project.buildPath in fs
      && CommonFiles(WalkList("", fs[project.srcPath]), WalkList("", fs[project.buildPath])) != []
    ensures status == Continue ==>
      var common := CommonFiles(WalkList("", fs[project.srcPath]), WalkList("", fs[project.buildPath]));
      && project.entries == EntryMap(project.srcPath, common) && project.whitelist == Whitelist(common)
      && project.entries != map[] && |project.whitelist| > 0
  {
    project := new Project(cwd, configSrc, configBuild);
    status := project.SetIO(fs);
    if status == Continue {
      var common := CommonFiles(WalkList("", fs[project.srcPath]), WalkList("", fs[project.buildPath]));
      NoEntriesIffNoCommonFiles(project.srcPath, common);
      if |project.entries| == 0 {
        status := Exit(0);
      }
    }
  }
}
