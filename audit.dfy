/** audit_script.py: `audit_codebase` walks the source trees, scans every TypeScript or
    JavaScript file it can read, and collects findings into category lists: whole-file
    checks per file, then line checks per line. The directory walk and the file reads are
    given as data (`WalkDir`, one list per root directory); printing the JSON is left out. */
module Audit {
  import opened Wrappers
  import opened Text

  // ---------------------------------------------------------------------------------------
  // `str.strip()` and `str.splitlines()`

  /** `c.isspace()` */
  predicate IsSpace(c: char) {
    c in {' ', '\t', '\n', '\r', '\U{0B}', '\U{0C}', '\U{1C}', '\U{1D}', '\U{1E}', '\U{1F}', '\U{85}', '\U{A0}',
          '\U{1680}', '\U{2028}', '\U{2029}', '\U{202F}', '\U{205F}', '\U{3000}'} ||
    ('\U{2000}' <= c <= '\U{200A}')
  }

  /** The number of white-space characters `s` starts with. */
  function LeadingSpace(s: string): (n: nat)
    ensures n <= |s|
    ensures forall k :: 0 <= k < n ==> IsSpace(s[k])
    ensures n < |s| ==> !IsSpace(s[n])
    decreases |s|
  {
    if |s| > 0 && IsSpace(s[0]) then 1 + LeadingSpace(s[1..]) else 0
  }

  /** The length of `s` without the white space it ends with. */
  function TrimmedEnd(s: string): (n: nat)
    ensures n <= |s|
    ensures forall k :: n <= k < |s| ==> IsSpace(s[k])
    ensures n > 0 ==> !IsSpace(s[n - 1])
    decreases |s|
  {
    if |s| > 0 && IsSpace(s[|s| - 1]) then TrimmedEnd(s[..|s| - 1]) else |s|
  }

  /** `s.strip()`: `s` without its leading and trailing white space. */
  function Strip(s: string): string {
    var t := s[LeadingSpace(s)..];
    t[..TrimmedEnd(t)]
  }

  /** `strip` removes exactly the leading and trailing white space: the result is a slice of
      `s`, everything cut off is white space, and the result neither starts nor ends with it. */
  lemma StripSlice(s: string)
    ensures var i := LeadingSpace(s);
            i + |Strip(s)| <= |s| && Strip(s) == s[i..i + |Strip(s)|] &&
            (forall k :: 0 <= k < i ==> IsSpace(s[k])) &&
            (forall k :: i + |Strip(s)| <= k < |s| ==> IsSpace(s[k])) &&
            (|Strip(s)| > 0 ==> !IsSpace(Strip(s)[0]) && !IsSpace(Strip(s)[|Strip(s)| - 1]))
  {
    var i := LeadingSpace(s);
    var t := s[i..];
    var n := TrimmedEnd(t);
    var r := t[..n];
    assert Strip(s) == r;
    assert r == s[i..i + n];
    forall k | i + n <= k < |s|
      ensures IsSpace(s[k])
    {
      assert s[k] == t[k - i];
    }
    if n > 0 {
      assert r[0] == s[i];
      assert r[n - 1] == t[n - 1];
    }
  }
  /** Stripping twice is stripping once. */
  lemma StripIdempotent(s: string)
    ensures Strip(Strip(s)) == Strip(s)
  {
    var r := Strip(s);
    StripSlice(s);
    if |r| > 0 {
      assert LeadingSpace(r) == 0;
      assert TrimmedEnd(r) == |r| by {
        assert r[..|r| - 1] + [r[|r| - 1]] == r;
      }
      assert r[0..] == r && r[..|r|] == r;
    }
  }

  /** The characters `str.splitlines()` breaks lines at (`\r\n` counts as one break). */
  predicate IsLineBreak(c: char) {
    c in {'\n', '\r', '\U{0B}', '\U{0C}', '\U{1C}', '\U{1D}', '\U{1E}', '\U{85}', '\U{2028}', '\U{2029}'}
  }

  /** The index of the first line break of `s`, or `|s|`. */
  function LineEnd(s: string): (r: nat)
    ensures r <= |s|
    ensures forall k :: 0 <= k < r ==> !IsLineBreak(s[k])
    ensures r < |s| ==> IsLineBreak(s[r])
    decreases |s|
  {
    if |s| == 0 || IsLineBreak(s[0]) then 0 else 1 + LineEnd(s[1..])
  }

  /** `s.splitlines()`: the lines of `s` without their breaks; a final break does not start
      an empty last line, and the empty text has no lines. */
  function SplitLines(s: string): (r: seq<string>)
    ensures forall i, k :: 0 <= i < |r| && 0 <= k < |r[i]| ==> !IsLineBreak(r[i][k])
    decreases |s|
  {
    if |s| == 0 then []
    else
      var k := LineEnd(s);
      if k == |s| then [s]
      else
        var next := if s[k] == '\r' && k + 1 < |s| && s[k + 1] == '\n' then k + 2 else k + 1;
        [s[..k]] + SplitLines(s[next..])
  }

  /** A line followed by any single break (other than a `\r` that begins `\r\n`) is the
      first line; the rest of the text gives the others. */
  lemma SplitLinesCons(line: string, b: char, rest: string)
    requires forall k :: 0 <= k < |line| ==> !IsLineBreak(line[k])
    requires IsLineBreak(b) && !(b == '\r' && |rest| > 0 && rest[0] == '\n')
    ensures SplitLines(line + [b] + rest) == [line] + SplitLines(rest)
  {
    var s := line + [b] + rest;
    LineEndAt(s, line);
    assert s[..|line|] == line;
    assert s[|line| + 1..] == rest;
  }

  /** `\r\n` is one break: the line before it is the first line, and no empty line follows. */
  lemma SplitLinesCrLf(line: string, rest: string)
    requires forall k :: 0 <= k < |line| ==> !IsLineBreak(line[k])
    ensures SplitLines(line + "\r\n" + rest) == [line] + SplitLines(rest)
  {
    var s := line + "\r\n" + rest;
    assert s[|line|] == '\r' && s[|line| + 1] == '\n';
    LineEndAt(s, line);
    assert s[..|line|] == line;
    assert s[|line| + 2..] == rest;
  }

  lemma {:induction false} LineEndAt(s: string, line: string)
    requires |line| < |s| && s[..|line|] == line && IsLineBreak(s[|line|])
    requires forall k :: 0 <= k < |line| ==> !IsLineBreak(line[k])
    ensures LineEnd(s) == |line|
    decreases |line|
  {
    if |line| > 0 {
      assert s[1..][..|line| - 1] == line[1..];
      LineEndAt(s[1..], line[1..]);
    }
  }

  /** A text without line breaks is one line. */
  lemma SplitLinesSingle(s: string)
    requires |s| > 0 && forall k :: 0 <= k < |s| ==> !IsLineBreak(s[k])
    ensures SplitLines(s) == [s]
  {
  }

  // ---------------------------------------------------------------------------------------
  // The walk

  /** A file name reported by `os.walk`, with the text read from it, or None when reading it
      raised (the script prints the error and goes on). */
  datatype WalkFile = WalkFile(name: string, content: Option<string>)

  /** One `(subdir, dirs, files)` triple of `os.walk`. */
  datatype WalkDir = WalkDir(subdir: string, files: seq<WalkFile>)

  /** A file the audit scans: its joined path and its text. */
  datatype SourceFile = SourceFile(path: string, content: string)

  /** Walk directories whose path merely contains `node_modules` or `.git` are skipped. */
  predicate SkippedDir(subdir: string) {
    Contains(subdir, "node_modules") || Contains(subdir, ".git")
  }

  /** `file.endswith(('.ts', '.tsx', '.js', '.jsx'))` */
  predicate HasSourceExtension(name: string) {
    EndsWith(name, ".ts") || EndsWith(name, ".tsx") || EndsWith(name, ".js") || EndsWith(name, ".jsx")
  }

  /** `os.path.join(subdir, file)` for a plain file name. */
  function PathJoin(subdir: string, name: string): (r: string)
    ensures StartsWith(r, subdir) && EndsWith(r, name)
    ensures |r| == |subdir| + |name| || r == subdir + "/" + name
  {
    if |subdir| == 0 || EndsWith(subdir, "/") then subdir + name else subdir + "/" + name
  }

  /** `f`, listed in `subdir`, is scanned as `sf`: it has a source extension, it could be
      read, and `sf` carries its joined path and its text. */
  predicate ScannedAs(subdir: string, f: WalkFile, sf: SourceFile) {
    HasSourceExtension(f.name) && f.content.Some? && sf == SourceFile(PathJoin(subdir, f.name), f.content.value)
  }

  /** The results of `f` on `xs`, one after another. */
  function ConcatMap<A, B>(f: A -> seq<B>, xs: seq<A>): seq<B>
    decreases |xs|
  {
    if |xs| == 0 then [] else ConcatMap(f, xs[..|xs| - 1]) + f(xs[|xs| - 1])
  }

  lemma {:induction false} ConcatMapMembers<A, B>(f: A -> seq<B>, xs: seq<A>, y: B)
    ensures y in ConcatMap(f, xs) <==> exists i :: 0 <= i < |xs| && y in f(xs[i])
    decreases |xs|
  {
    if |xs| > 0 {
      var init := xs[..|xs| - 1];
      ConcatMapMembers(f, init, y);
      if y in ConcatMap(f, init) {
        var i :| 0 <= i < |init| && y in f(init[i]);
        assert xs[i] == init[i];
      }
      if exists i :: 0 <= i < |xs| && y in f(xs[i]) {
        var i :| 0 <= i < |xs| && y in f(xs[i]);
        if i < |init| {
          assert init[i] == xs[i];
        }
      }
    }
  }

  /** What one listed file contributes to the scan: itself, or nothing. */
  function FileScanned(subdir: string, f: WalkFile): seq<SourceFile> {
    if HasSourceExtension(f.name) && f.content.Some? then [SourceFile(PathJoin(subdir, f.name), f.content.value)] else []
  }

  /** The files of one walk directory that are scanned, in listing order. */
  function FilesScanned(subdir: string, files: seq<WalkFile>): seq<SourceFile> {
    ConcatMap((f: WalkFile) => FileScanned(subdir, f), files)
  }

  /** The files one walk directory contributes: none when it is skipped. */
  function DirScanned(d: WalkDir): seq<SourceFile> {
    if SkippedDir(d.subdir) then [] else FilesScanned(d.subdir, d.files)
  }

  /** The files of one root's walk that are scanned, in walk order. */
  function DirsScanned(dirs: seq<WalkDir>): seq<SourceFile> {
    ConcatMap(DirScanned, dirs)
  }

  /** The files of all roots that are scanned, root after root. */
  function Scanned(roots: seq<seq<WalkDir>>): seq<SourceFile> {
    ConcatMap(DirsScanned, roots)
  }

  /** Exactly the readable files with a source extension are scanned, under their joined path. */
  lemma FilesScannedMembers(subdir: string, files: seq<WalkFile>, sf: SourceFile)
    ensures sf in FilesScanned(subdir, files) <==> exists k :: 0 <= k < |files| && ScannedAs(subdir, files[k], sf)
  {
    var f := (w: WalkFile) => FileScanned(subdir, w);
    ConcatMapMembers(f, files, sf);
    assert forall k :: 0 <= k < |files| ==> (sf in f(files[k]) <==> ScannedAs(subdir, files[k], sf));
  }

  /** Exactly the files of the directories that are not skipped are scanned. */
  lemma DirsScannedMembers(dirs: seq<WalkDir>, sf: SourceFile)
    ensures sf in DirsScanned(dirs) <==>
              exists j :: 0 <= j < |dirs| && !SkippedDir(dirs[j].subdir) && sf in FilesScanned(dirs[j].subdir, dirs[j].files)
  {
    ConcatMapMembers(DirScanned, dirs, sf);
  }

  /** Exactly the files of some root's walk are scanned. */
  lemma ScannedMembers(roots: seq<seq<WalkDir>>, sf: SourceFile)
    ensures sf in Scanned(roots) <==> exists i :: 0 <= i < |roots| && sf in DirsScanned(roots[i])
  {
    ConcatMapMembers(DirsScanned, roots, sf);
  }

  // ---------------------------------------------------------------------------------------
  // `current_module`

  /** `current_module`: None unless the path contains `src/modules/`; otherwise the text
      after the first `src/modules/`, cut at the next `src/modules/` (the second field of
      `filepath.split("src/modules/")`), up to its first `/`. */
  function CurrentModule(filepath: string): Option<string> {
    SegmentAfter(filepath, "src/modules/")
  }

  /** The first `/`-field of the second field of `s.split(p)`, when there is one. */
  function SegmentAfter(s: string, p: string): Option<string> {
    match IndexOf(s, p)
    case None => None
    case Some(i) =>
      var after := s[i + |p|..];
      var part := match IndexOf(after, p) case None => after case Some(j) => after[..j];
      Some(Split(part, '/')[0])
  }

  /** A path has a current module exactly when it contains `src/modules/`. */
  lemma CurrentModuleDefined(filepath: string)
    ensures CurrentModule(filepath).Some? <==> Contains(filepath, "src/modules/")
  {
    ContainsIffFound(filepath, "src/modules/");
  }

  /** In `x/…`, where `x` has no `/` and does not end in `src`, a `src/modules/` can only
      start after the first `/`. */
  lemma ModulesMarkerAfter(after: string, x: string, p: string)
    requires p == "src/modules/"
    requires |x| < |after| && after[..|x|] == x && after[|x|] == '/'
    requires '/' !in x && !EndsWith(x, "src")
    ensures IndexOf(after, p).None? || IndexOf(after, p).value > |x|
  {
    match IndexOf(after, p)
    case None =>
    case Some(j) =>
      if j <= |x| {
        MarkerNotAt(after, x, p, j);
      }
  }

  lemma MarkerNotAt(after: string, x: string, p: string, j: nat)
    requires p == "src/modules/"
    requires |x| < |after| && after[..|x|] == x && after[|x|] == '/'
    requires '/' !in x && !EndsWith(x, "src")
    requires j <= |x| && j + 12 <= |after|
    ensures after[j..j + 12] != p
  {
    var w := after[j..j + 12];
    if |x| - j > 3 {
      assert w[3] == x[j + 3] != p[3];
    } else if |x| - j == 3 {
      assert x[|x| - 3..] == w[..3] ==> w[..3] != p[..3];
    } else {
      assert w[|x| - j] == '/' != p[|x| - j];
    }
  }

  /** A file under `src/modules/<x>/` is in module `x`, as long as `x` does not itself end in
      `src` (then `x/modules/…` would hold a second `src/modules/` that cuts `x` short). */
  lemma CurrentModuleOf(filepath: string, x: string, rest: string)
    requires filepath == "src/modules/" + x + "/" + rest
    requires '/' !in x && !EndsWith(x, "src")
    ensures CurrentModule(filepath) == Some(x)
  {
    SegmentAfterOf(filepath, "src/modules/", x, rest);
  }

  lemma SegmentAfterOf(s: string, p: string, x: string, rest: string)
    requires p == "src/modules/" && s == p + x + "/" + rest
    requires '/' !in x && !EndsWith(x, "src")
    ensures SegmentAfter(s, p) == Some(x)
  {
    assert s[..|p|] == p;
    var after := s[|p|..];
    assert after == x + "/" + rest;
    ModulesMarkerAfter(after, x, p);
    FirstFieldBeforeMarker(after, x, p);
  }

  lemma FirstFieldBeforeMarker(after: string, x: string, p: string)
    requires |x| < |after| && after[..|x|] == x && after[|x|] == '/' && '/' !in x
    requires IndexOf(after, p).None? || IndexOf(after, p).value > |x|
    ensures var part := match IndexOf(after, p) case None => after case Some(j) => after[..j];
            Split(part, '/')[0] == x
  {
    var part := match IndexOf(after, p) case None => after case Some(j) => after[..j];
    assert part == x + "/" + part[|x| + 1..];
    SplitFirstIsField(part, '/');
    FieldCons(x, '/', part[|x| + 1..]);
  }
  // ---------------------------------------------------------------------------------------
  // `deep_import_pattern`: from ['"]@/modules/([^/]+)/(.*)['"]

  predicate IsQuote(c: char) {
    c == '\'' || c == '"'
  }

  /** The two groups of a deep-import match: the module and what follows its `/`. */
  datatype DeepImport = DeepImport(target: string, internal: string)

  /** The index of the last quote of `u`, if any. */
  function LastQuote(u: string): (r: Option<nat>)
    ensures r.Some? ==> r.value < |u| && IsQuote(u[r.value]) && forall k :: r.value < k < |u| ==> !IsQuote(u[k])
    ensures r.None? ==> forall k :: 0 <= k < |u| ==> !IsQuote(u[k])
    decreases |u|
  {
    if |u| == 0 then None
    else if IsQuote(u[|u| - 1]) then Some(|u| - 1)
    else LastQuote(u[..|u| - 1])
  }

  /** `from `, a quote and `@/modules/` begin `line` at `s`. */
  predicate ImportHeadAt(line: string, s: nat) {
    s + 16 <= |line| && line[s..s + 5] == "from " && IsQuote(line[s + 5]) && line[s + 6..s + 16] == "@/modules/"
  }

  /** The groups of the pattern after its head, if they match `t`: `[^/]+` can only be the
      whole run up to the next `/`, and the greedy `(.*)` runs up to the last quote. */
  function GroupsOf(t: string): Option<DeepImport> {
    var g1 := Field(t, '/');
    if 0 < |g1| < |t| then
      var u := t[|g1| + 1..];
      match LastQuote(u)
      case None => None
      case Some(q) => Some(DeepImport(g1, u[..q]))
    else None
  }

  /** The match of the pattern that starts at `s`, if one does. */
  function DeepImportAt(line: string, s: nat): Option<DeepImport> {
    if ImportHeadAt(line, s) then GroupsOf(line[s + 16..]) else None
  }

  /** The groups part of the regex, read literally, matching all of `t` with groups `g1`
      and `g2`: a non-empty `g1` without `/`, a `/`, `g2`, a quote, and no quote after it
      (the `.*` is greedy, so it takes the longest text that a quote still follows). */
  predicate GroupsMatch(t: string, g1: string, g2: string) {
    var e := |g1| + 1 + |g2|;
    e < |t| && 0 < |g1| && '/' !in g1 && t[..|g1|] == g1 && t[|g1|] == '/' &&
    t[|g1| + 1..e] == g2 && IsQuote(t[e]) && (forall k :: e < k < |t| ==> !IsQuote(t[k]))
  }

  /** The regex matching at `s` with groups `g1` and `g2`. */
  predicate MatchesAt(line: string, s: nat, g1: string, g2: string) {
    ImportHeadAt(line, s) && GroupsMatch(line[s + 16..], g1, g2)
  }

  lemma {:induction false} LastQuoteIs(u: string, q: nat)
    requires q < |u| && IsQuote(u[q]) && forall k :: q < k < |u| ==> !IsQuote(u[k])
    ensures LastQuote(u) == Some(q)
    decreases |u|
  {
    if q < |u| - 1 {
      LastQuoteIs(u[..|u| - 1], q);
    }
  }

  /** GroupsOf finds exactly the groups the regex reading allows, and no others. */
  lemma GroupsOfMeans(t: string, g1: string, g2: string)
    ensures GroupsOf(t) == Some(DeepImport(g1, g2)) <==> GroupsMatch(t, g1, g2)
  {
    if GroupsOf(t) == Some(DeepImport(g1, g2)) {
      GroupsOfMatch(t);
    }
    if GroupsMatch(t, g1, g2) {
      MatchGroupsOf(t, g1, g2);
    }
  }

  lemma GroupsOfMatch(t: string)
    requires GroupsOf(t).Some?
    ensures GroupsMatch(t, GroupsOf(t).value.target, GroupsOf(t).value.internal)
  {
    var g1 := Field(t, '/');
    var u := t[|g1| + 1..];
    var q := LastQuote(u).value;
    var e := |g1| + 1 + q;
    assert t[|g1| + 1..e] == u[..q];
    assert t[e] == u[q];
    assert forall k :: e < k < |t| ==> t[k] == u[k - |g1| - 1];
  }

  lemma MatchGroupsOf(t: string, g1: string, g2: string)
    requires GroupsMatch(t, g1, g2)
    ensures GroupsOf(t) == Some(DeepImport(g1, g2))
  {
    var u := t[|g1| + 1..];
    assert t == g1 + "/" + u;
    FieldCons(g1, '/', u);
    var q := |g2|;
    assert forall k :: q <= k < |u| ==> u[k] == t[|g1| + 1 + k];
    LastQuoteIs(u, q);
    assert u[..q] == g2;
  }

  /** DeepImportAt finds exactly the match the regex reading allows, and no other. */
  lemma DeepImportAtMeans(line: string, s: nat, g1: string, g2: string)
    ensures DeepImportAt(line, s) == Some(DeepImport(g1, g2)) <==> MatchesAt(line, s, g1, g2)
  {
    if ImportHeadAt(line, s) {
      GroupsOfMeans(line[s + 16..], g1, g2);
    }
  }

  /** A left-to-right search: the first `f(p)` with `s <= p <= end` that is Some. */
  function FirstMatch<T>(f: nat -> Option<T>, s: nat, end: nat): Option<T>
    decreases end + 1 - s
  {
    if s > end then None
    else
      match f(s)
      case Some(m) => Some(m)
      case None => FirstMatch(f, s + 1, end)
  }

  lemma {:induction false} FirstMatchLeftmost<T>(f: nat -> Option<T>, s: nat, end: nat)
    ensures FirstMatch(f, s, end).None? <==> forall p :: s <= p <= end ==> f(p).None?
    ensures FirstMatch(f, s, end).Some? ==>
              exists p :: s <= p <= end && f(p) == FirstMatch(f, s, end) && forall p' :: s <= p' < p ==> f(p').None?
    decreases end + 1 - s
  {
    if s <= end && f(s).None? {
      FirstMatchLeftmost(f, s + 1, end);
      if FirstMatch(f, s, end).Some? {
        var p :| s + 1 <= p <= end && f(p) == FirstMatch(f, s + 1, end) && forall p' :: s + 1 <= p' < p ==> f(p').None?;
        assert forall p' :: s <= p' < p ==> f(p').None?;
      }
    }
  }

  lemma {:induction false} FirstMatchSkip<T>(f: nat -> Option<T>, s: nat, n: nat, end: nat)
    requires s <= n && forall k :: s <= k < n ==> f(k).None?
    ensures FirstMatch(f, s, end) == FirstMatch(f, n, end)
    decreases n - s
  {
    if s < n {
      FirstMatchSkip(f, s + 1, n, end);
    }
  }

  /** The match at each start of `line`. */
  function MatchesOf(line: string): nat -> Option<DeepImport> {
    (p: nat) => DeepImportAt(line, p)
  }

  /** `deep_import_pattern.search(line)` */
  function FindDeepImport(line: string): Option<DeepImport> {
    FirstMatch(MatchesOf(line), 0, |line|)
  }

  /** `search` reports the match at the leftmost start that has one, and None only when no
      start has one. */
  lemma DeepImportLeftmost(line: string)
    ensures FindDeepImport(line).None? <==> forall p :: 0 <= p <= |line| ==> DeepImportAt(line, p).None?
    ensures FindDeepImport(line).Some? ==>
              exists p :: 0 <= p <= |line| && DeepImportAt(line, p) == FindDeepImport(line) &&
                          forall p' :: 0 <= p' < p ==> DeepImportAt(line, p').None?
  {
    var f := MatchesOf(line);
    FirstMatchLeftmost(f, 0, |line|);
    assert forall p :: f(p) == DeepImportAt(line, p);
    if FindDeepImport(line).Some? {
      var p :| 0 <= p <= |line| && f(p) == FindDeepImport(line) && forall p' :: 0 <= p' < p ==> f(p').None?;
      assert DeepImportAt(line, p) == FindDeepImport(line);
    }
  }

  /** No `from ` starts inside text that holds none and is followed by an `f`: one that
      straddled the end would need an `f` where `from ` has `r`, `o`, `m` or a space. */
  lemma NoFromInside(line: string, pre: string, p: string, k: nat)
    requires p == "from " && |pre| < |line| && line[..|pre|] == pre && line[|pre|] == 'f'
    requires !Contains(pre, p) && k < |pre|
    ensures !(k + 5 <= |line| && line[k..k + 5] == p)
  {
    if k + 5 <= |pre| {
      assert pre[k..k + 5] == line[k..k + 5];
      if pre[k..k + 5] == p {
        ContainsAt(pre, p, k);
      }
    } else if k + 5 <= |line| {
      assert line[k..k + 5][|pre| - k] == line[|pre|];
      assert forall j :: 1 <= j < 5 ==> p[j] != 'f';
    }
  }

  /** No match can start inside text before `from '@/modules/` that holds no `from `. */
  lemma NoHeadBefore(line: string, pre: string, head: string, t: string, p: string)
    requires p == "from " && head == "from '@/modules/" && line == pre + head + t
    requires !Contains(pre, p)
    ensures FindDeepImport(line) == FirstMatch(MatchesOf(line), |pre|, |line|)
  {
    assert line[..|pre|] == pre;
    assert line[|pre|] == head[0] == 'f';
    forall k | 0 <= k < |pre|
      ensures DeepImportAt(line, k).None?
    {
      NoFromInside(line, pre, p, k);
    }
    FirstMatchSkip(MatchesOf(line), 0, |pre|, |line|);
  }

  /** A line `…from '@/modules/<x>/<y>'…` whose text before `from` holds no other `from `,
      and whose text after the opening quote holds only the closing quote, matches with
      groups `x` and `y`. */
  lemma DeepImportOf(line: string, pre: string, x: string, y: string, post: string)
    requires line == pre + "from '@/modules/" + x + "/" + y + "'" + post
    requires !Contains(pre, "from ") && 0 < |x| && '/' !in x
    requires forall k :: 0 <= k < |y| ==> !IsQuote(y[k])
    requires forall k :: 0 <= k < |post| ==> !IsQuote(post[k])
    ensures FindDeepImport(line) == Some(DeepImport(x, y))
  {
    var t := x + "/" + y + "'" + post;
    HeadAt(line, pre, "from '@/modules/", t);
    TailGroups(t, x, y, post);
    DeepImportAtMeans(line, |pre|, x, y);
    NoHeadBefore(line, pre, "from '@/modules/", t, "from ");
  }

  lemma TailGroups(t: string, x: string, y: string, post: string)
    requires t == x + "/" + y + "'" + post
    requires 0 < |x| && '/' !in x
    requires forall k :: 0 <= k < |y| ==> !IsQuote(y[k])
    requires forall k :: 0 <= k < |post| ==> !IsQuote(post[k])
    ensures GroupsMatch(t, x, y)
  {
    var e := |x| + 1 + |y|;
    assert t[e] == '\'';
    assert forall k :: e < k < |t| ==> t[k] == post[k - e - 1];
  }

  lemma HeadAt(line: string, pre: string, head: string, t: string)
    requires head == "from '@/modules/" && line == pre + head + t
    ensures ImportHeadAt(line, |pre|) && line[|pre| + 16..] == t
    ensures forall k :: 0 <= k < |pre| ==> line[k] == pre[k]
  {
    assert line[|pre|..|pre| + 16] == head;
    assert line[|pre|..|pre| + 5] == head[..5];
    assert line[|pre| + 6..|pre| + 16] == head[6..];
  }

  /** The module-violation rule: a deep-import match into a module other than the current
      one, whose internal part still has a `/`. */
  predicate ModuleViolation(current: Option<string>, line: string) {
    match FindDeepImport(line)
    case None => false
    case Some(m) => Some(m.target) != current && '/' in m.internal
  }

  /** For an import of `@/modules/<x>/<y>`, the line is flagged exactly when `x` is not the
      current module and `y` goes below the module's top level: `@/modules/x/index` and
      imports inside the same module are not flagged. */
  lemma ViolationOf(current: Option<string>, line: string, pre: string, x: string, y: string, post: string)
    requires line == pre + "from '@/modules/" + x + "/" + y + "'" + post
    requires !Contains(pre, "from ") && 0 < |x| && '/' !in x
    requires forall k :: 0 <= k < |y| ==> !IsQuote(y[k])
    requires forall k :: 0 <= k < |post| ==> !IsQuote(post[k])
    ensures ModuleViolation(current, line) <==> current != Some(x) && '/' in y
  {
    DeepImportOf(line, pre, x, y, post);
  }

  /** The rule seen from a file: in `src/modules/<a>/…`, an import of `@/modules/<x>/<y>` is
      flagged exactly when `x` is another module and `y` has a `/`. */
  lemma FileViolationOf(path: string, a: string, rest: string, line: string, pre: string, x: string, y: string, post: string)
    requires path == "src/modules/" + a + "/" + rest && '/' !in a && !EndsWith(a, "src")
    requires line == pre + "from '@/modules/" + x + "/" + y + "'" + post
    requires !Contains(pre, "from ") && 0 < |x| && '/' !in x
    requires forall k :: 0 <= k < |y| ==> !IsQuote(y[k])
    requires forall k :: 0 <= k < |post| ==> !IsQuote(post[k])
    ensures LineFires(ModuleViolations, path, line) <==> a != x && '/' in y
  {
    CurrentModuleOf(path, a, rest);
    ViolationOf(CurrentModule(path), line, pre, x, y, post);
  }

  // ---------------------------------------------------------------------------------------
  // The other patterns

  /** `from`, a quote, `zustand`, a quote: the tail of `zustand_pattern`. */
  predicate FromZustand(t: string) {
    |t| >= 14 && t[..5] == "from " && IsQuote(t[5]) && t[6..13] == "zustand" && IsQuote(t[13])
  }

  /** Some suffix of `t` starts with FromZustand. */
  predicate HasFromZustand(t: string)
    decreases |t|
  {
    FromZustand(t) || (|t| > 0 && HasFromZustand(t[1..]))
  }

  /** `import.*from ['"]zustand['"]` within one line: after the first `import` of the line
      (a later `import` would only leave less room) a `from 'zustand'` follows. */
  predicate ZustandLine(seg: string) {
    match IndexOf(seg, "import")
    case None => false
    case Some(i) => HasFromZustand(seg[i + 6..])
  }

  /** Some segment of `segs` holds a ZustandLine. */
  predicate SomeZustandLine(segs: seq<string>)
    decreases |segs|
  {
    |segs| > 0 && (ZustandLine(segs[|segs| - 1]) || SomeZustandLine(segs[..|segs| - 1]))
  }

  /** `zustand_pattern.search(content)`: `.` does not match `\n`, so the match lies within
      one `\n`-separated segment. */
  predicate ZustandMatch(content: string) {
    SomeZustandLine(Split(content, '\n'))
  }

  lemma {:induction false} SomeZustandLineMeans(segs: seq<string>)
    ensures SomeZustandLine(segs) <==> exists k :: 0 <= k < |segs| && ZustandLine(segs[k])
    decreases |segs|
  {
    if |segs| > 0 {
      var init := segs[..|segs| - 1];
      SomeZustandLineMeans(init);
      if exists k :: 0 <= k < |init| && ZustandLine(init[k]) {
        var k :| 0 <= k < |init| && ZustandLine(init[k]);
        assert segs[k] == init[k];
      }
      if exists k :: 0 <= k < |segs| && ZustandLine(segs[k]) {
        var k :| 0 <= k < |segs| && ZustandLine(segs[k]);
        if k < |init| {
          assert init[k] == segs[k];
        }
      }
    }
  }

  lemma {:induction false} FromZustandSomewhere(t: string)
    ensures HasFromZustand(t) <==> exists j :: 0 <= j <= |t| && FromZustand(t[j..])
    decreases |t|
  {
    if FromZustand(t) {
      assert t[0..] == t;
    } else if |t| > 0 {
      FromZustandSomewhere(t[1..]);
      if HasFromZustand(t[1..]) {
        var j :| 0 <= j <= |t| - 1 && FromZustand(t[1..][j..]);
        assert t[1..][j..] == t[j + 1..];
      }
      if exists j :: 0 <= j <= |t| && FromZustand(t[j..]) {
        var j :| 0 <= j <= |t| && FromZustand(t[j..]);
        assert t[0..] == t;
        assert t[1..][j - 1..] == t[j..];
      }
    }
  }

  /** The line form of `zustand_pattern` is the regex read literally: an `import`, then,
      at least six characters on, `from 'zustand'`. */
  lemma ZustandLineMeans(seg: string)
    ensures ZustandLine(seg) <==>
              exists i, j :: 0 <= i && i + 6 <= j <= |seg| && StartsWith(seg[i..], "import") && FromZustand(seg[j..])
  {
    match IndexOf(seg, "import")
    case None =>
    case Some(i0) =>
      var t := seg[i0 + 6..];
      FromZustandSomewhere(t);
      if ZustandLine(seg) {
        var j' :| 0 <= j' <= |t| && FromZustand(t[j'..]);
        assert t[j'..] == seg[i0 + 6 + j'..];
      }
      if exists i, j :: 0 <= i && i + 6 <= j <= |seg| && StartsWith(seg[i..], "import") && FromZustand(seg[j..]) {
        var i, j :| 0 <= i && i + 6 <= j <= |seg| && StartsWith(seg[i..], "import") && FromZustand(seg[j..]);
        assert i0 <= i;
        assert t[j - i0 - 6..] == seg[j..];
      }
  }

  predicate IsHexDigit(c: char) {
    '0' <= c <= '9' || 'a' <= c <= 'f' || 'A' <= c <= 'F'
  }

  /** Six hexadecimal digits. */
  predicate HexRun(s: string) {
    |s| == 6 && IsHexDigit(s[0]) && IsHexDigit(s[1]) && IsHexDigit(s[2]) &&
    IsHexDigit(s[3]) && IsHexDigit(s[4]) && IsHexDigit(s[5])
  }

  /** `['"]#[0-9a-fA-F]{6}['"]` at `i`. */
  predicate HexColorAt(line: string, i: nat) {
    i + 9 <= |line| && IsQuote(line[i]) && line[i + 1] == '#' && HexRun(line[i + 2..i + 8]) && IsQuote(line[i + 8])
  }

  /** A hexadecimal colour starts at `i` or later. */
  predicate HexColorFrom(line: string, i: nat)
    decreases |line| - i
  {
    i + 9 <= |line| && (HexColorAt(line, i) || HexColorFrom(line, i + 1))
  }

  /** `hex_color_pattern.search(line)` */
  predicate HasHexColor(line: string) {
    HexColorFrom(line, 0)
  }

  lemma {:induction false} HexColorFromMeans(line: string, i: nat)
    ensures HexColorFrom(line, i) <==> exists p: nat :: i <= p && HexColorAt(line, p)
    decreases |line| - i
  {
    if i + 9 <= |line| {
      HexColorFromMeans(line, i + 1);
      if exists p: nat :: i <= p && HexColorAt(line, p) {
        var p: nat :| i <= p && HexColorAt(line, p);
        assert p == i || i + 1 <= p;
      }
    }
  }

  /** HasHexColor is the pattern read literally: a quote, `#`, six hexadecimal digits and a
      quote somewhere in the line. */
  lemma HasHexColorMeans(line: string)
    ensures HasHexColor(line) <==> exists p: nat :: HexColorAt(line, p)
  {
    HexColorFromMeans(line, 0);
  }

  /** `\w` for the characters this model knows: ASCII letters, digits and `_`. */
  predicate IsWordChar(c: char) {
    'a' <= c <= 'z' || 'A' <= c <= 'Z' || '0' <= c <= '9' || c == '_'
  }

  /** The end of the run of white space that starts at `p`. */
  function SpaceRunEnd(line: string, p: nat): (r: nat)
    requires p <= |line|
    ensures p <= r <= |line|
    ensures forall m :: p <= m < r ==> IsSpace(line[m])
    ensures r < |line| ==> !IsSpace(line[r])
    decreases |line| - p
  {
    if p < |line| && IsSpace(line[p]) then SpaceRunEnd(line, p + 1) else p
  }

  /** `any` at `k`, not followed by a word character. */
  predicate AnyWordAt(line: string, k: nat) {
    k + 3 <= |line| && line[k..k + 3] == "any" && (k + 3 == |line| || !IsWordChar(line[k + 3]))
  }

  /** `:\s*any\b` at `i`: `\s*` is greedy and `a` is not white space, so the only
      candidate for `any` is right after the whole run of white space. */
  predicate AnyAt(line: string, i: nat) {
    i < |line| && line[i] == ':' && AnyWordAt(line, SpaceRunEnd(line, i + 1))
  }

  /** A `: any` starts at `i` or later. */
  predicate AnyFrom(line: string, i: nat)
    decreases |line| - i
  {
    i < |line| && (AnyAt(line, i) || AnyFrom(line, i + 1))
  }

  /** `any_pattern.search(line)` */
  predicate HasAnyAnnotation(line: string) {
    AnyFrom(line, 0)
  }

  lemma {:induction false} AnyFromMeans(line: string, i: nat)
    ensures AnyFrom(line, i) <==> exists p: nat :: i <= p && AnyAt(line, p)
    decreases |line| - i
  {
    if i < |line| {
      AnyFromMeans(line, i + 1);
      if exists p: nat :: i <= p && AnyAt(line, p) {
        var p: nat :| i <= p && AnyAt(line, p);
        assert p == i || i + 1 <= p;
      }
    }
  }

  /** AnyAt is the pattern read literally: a `:`, some white space, then the word `any`. */
  lemma AnyAtMeans(line: string, i: nat)
    ensures AnyAt(line, i) <==>
              i < |line| && line[i] == ':' &&
              exists k :: i + 1 <= k <= |line| && (forall m :: i + 1 <= m < k ==> IsSpace(line[m])) && AnyWordAt(line, k)
  {
    if i < |line| && line[i] == ':' {
      var r := SpaceRunEnd(line, i + 1);
      if exists k :: i + 1 <= k <= |line| && (forall m :: i + 1 <= m < k ==> IsSpace(line[m])) && AnyWordAt(line, k) {
        var k :| i + 1 <= k <= |line| && (forall m :: i + 1 <= m < k ==> IsSpace(line[m])) && AnyWordAt(line, k);
        assert line[k] == line[k..k + 3][0] == 'a';
      }
    }
  }

  /** `console_log_pattern.search(line)` */
  predicate HasConsoleLog(line: string) {
    Contains(line, "console.log(")
  }

  // ---------------------------------------------------------------------------------------
  // Findings

  /** A line-level finding: `{"file", "line", "content"}`. */
  datatype Entry = Entry(file: string, line: nat, content: string)

  /** The `findings` dictionary, category by category. */
  datatype Findings = Findings(
    moduleViolations: seq<Entry>, zustandUsage: seq<string>, deepImports: seq<Entry>,
    stylesheetCreate: seq<string>, hardcodedColors: seq<Entry>,
    anyUsage: seq<Entry>, consoleLog: seq<Entry>, todoComments: seq<Entry>,
    flashlistMissingSize: seq<string>, potentialNPlusOne: seq<Entry>,
    databaseWrite: seq<Entry>)

  const NoFindings := Findings([], [], [], [], [], [], [], [], [], [], [])

  /** The categories that collect lines. */
  datatype LineCategory = ModuleViolations | HardcodedColors | AnyUsage | ConsoleLog

  /** The categories that collect whole files. */
  datatype FileCategory = ZustandUsage | StylesheetCreate | FlashlistMissingSize

  function LineList(f: Findings, c: LineCategory): seq<Entry> {
    match c
    case ModuleViolations => f.moduleViolations
    case HardcodedColors => f.hardcodedColors
    case AnyUsage => f.anyUsage
    case ConsoleLog => f.consoleLog
  }

  function FileList(f: Findings, c: FileCategory): seq<string> {
    match c
    case ZustandUsage => f.zustandUsage
    case StylesheetCreate => f.stylesheetCreate
    case FlashlistMissingSize => f.flashlistMissingSize
  }

  /** Whether line `line` of the file at `path` belongs in category `c`. */
  predicate LineFires(c: LineCategory, path: string, line: string) {
    match c
    case ModuleViolations => ModuleViolation(CurrentModule(path), line)
    case HardcodedColors => HasHexColor(line)
    case AnyUsage => HasAnyAnnotation(line)
    case ConsoleLog => HasConsoleLog(line)
  }

  /** Whether a file with text `content` belongs in category `c`. */
  predicate FileFires(c: FileCategory, content: string) {
    match c
    case ZustandUsage => ZustandMatch(content)
    case StylesheetCreate => Contains(content, "StyleSheet.create")
    case FlashlistMissingSize => Contains(content, "<FlashList") && !Contains(content, "estimatedItemSize={")
  }

  /** The whole-content checks of one file. */
  function FileLevel(f: Findings, path: string, content: string): Findings {
    f.(zustandUsage := f.zustandUsage + (if FileFires(ZustandUsage, content) then [path] else []),
       stylesheetCreate := f.stylesheetCreate + (if FileFires(StylesheetCreate, content) then [path] else []),
       flashlistMissingSize := f.flashlistMissingSize + (if FileFires(FlashlistMissingSize, content) then [path] else []))
  }

  /** The line checks of line number `n` (1-based). */
  function AddLine(f: Findings, path: string, n: nat, line: string): Findings {
    var e := [Entry(path, n, Strip(line))];
    f.(moduleViolations := f.moduleViolations + (if LineFires(ModuleViolations, path, line) then e else []),
       hardcodedColors := f.hardcodedColors + (if LineFires(HardcodedColors, path, line) then e else []),
       anyUsage := f.anyUsage + (if LineFires(AnyUsage, path, line) then e else []),
       consoleLog := f.consoleLog + (if LineFires(ConsoleLog, path, line) then e else []))
  }

  /** The line loop over `lines`, numbering from 1. */
  function LinesScanned(f: Findings, path: string, lines: seq<string>): Findings
    decreases |lines|
  {
    if |lines| == 0 then f
    else AddLine(LinesScanned(f, path, lines[..|lines| - 1]), path, |lines|, lines[|lines| - 1])
  }

  /** Everything one readable source file adds. */
  function ScanFile(f: Findings, sf: SourceFile): Findings {
    LinesScanned(FileLevel(f, sf.path, sf.content), sf.path, SplitLines(sf.content))
  }

  /** The findings after scanning `files` in order. */
  function Collect(files: seq<SourceFile>): Findings
    decreases |files|
  {
    if |files| == 0 then NoFindings else ScanFile(Collect(files[..|files| - 1]), files[|files| - 1])
  }

  /** The line rule of category `c` in the file at `path`. */
  function Rule(c: LineCategory, path: string): string -> bool {
    (line: string) => LineFires(c, path, line)
  }

  /** The entries a line rule gets from the lines of one file, in line order. */
  function Hits(path: string, lines: seq<string>, fires: string -> bool): seq<Entry>
    decreases |lines|
  {
    if |lines| == 0 then []
    else
      var n := |lines|;
      Hits(path, lines[..n - 1], fires) + (if fires(lines[n - 1]) then [Entry(path, n, Strip(lines[n - 1]))] else [])
  }

  /** Every entry of a rule comes from a line that fires it. */
  lemma {:induction false} HitsSound(path: string, lines: seq<string>, fires: string -> bool, e: Entry)
    requires e in Hits(path, lines, fires)
    ensures exists n :: 0 <= n < |lines| && fires(lines[n]) && e == Entry(path, n + 1, Strip(lines[n]))
    decreases |lines|
  {
    var init := lines[..|lines| - 1];
    if e in Hits(path, init, fires) {
      HitsSound(path, init, fires, e);
      var n :| 0 <= n < |init| && fires(init[n]) && e == Entry(path, n + 1, Strip(init[n]));
      assert lines[n] == init[n];
    } else {
      assert fires(lines[|lines| - 1]);
    }
  }

  /** Every line that fires a rule gets its entry. */
  lemma {:induction false} HitsComplete(path: string, lines: seq<string>, fires: string -> bool, n: nat)
    requires n < |lines| && fires(lines[n])
    ensures Entry(path, n + 1, Strip(lines[n])) in Hits(path, lines, fires)
    decreases |lines|
  {
    var init := lines[..|lines| - 1];
    if n < |init| {
      assert init[n] == lines[n];
      HitsComplete(path, init, fires, n);
    }
  }

  /** A rule gets an entry for exactly the lines that fire it, with the file, the 1-based
      line number and the stripped line. */
  lemma HitsMembers(path: string, lines: seq<string>, fires: string -> bool, e: Entry)
    ensures e in Hits(path, lines, fires) <==>
              exists n :: 0 <= n < |lines| && fires(lines[n]) && e == Entry(path, n + 1, Strip(lines[n]))
  {
    if e in Hits(path, lines, fires) {
      HitsSound(path, lines, fires, e);
    }
    if exists n :: 0 <= n < |lines| && fires(lines[n]) && e == Entry(path, n + 1, Strip(lines[n])) {
      var n :| 0 <= n < |lines| && fires(lines[n]) && e == Entry(path, n + 1, Strip(lines[n]));
      HitsComplete(path, lines, fires, n);
    }
  }

  /** Line numbers of a rule's entries are 1-based, within the file, and strictly
      increasing: at most one entry per line, in line order. */
  lemma {:induction false} HitsOrdered(path: string, lines: seq<string>, fires: string -> bool)
    ensures forall a :: 0 <= a < |Hits(path, lines, fires)| ==>
              Hits(path, lines, fires)[a].file == path && 1 <= Hits(path, lines, fires)[a].line <= |lines|
    ensures forall a, b :: 0 <= a < b < |Hits(path, lines, fires)| ==>
              Hits(path, lines, fires)[a].line < Hits(path, lines, fires)[b].line
    decreases |lines|
  {
    if |lines| > 0 {
      HitsOrdered(path, lines[..|lines| - 1], fires);
    }
  }

  /** The line loop adds to each line category the hits of its rule. */
  lemma {:induction false} LinesScannedLines(f: Findings, path: string, lines: seq<string>, c: LineCategory)
    ensures LineList(LinesScanned(f, path, lines), c) == LineList(f, c) + Hits(path, lines, Rule(c, path))
    decreases |lines|
  {
    if |lines| > 0 {
      LinesScannedLines(f, path, lines[..|lines| - 1], c);
    }
  }

  /** The line loop leaves every other category as it was. */
  lemma {:induction false} LinesScannedKeeps(f: Findings, path: string, lines: seq<string>)
    ensures var g := LinesScanned(f, path, lines);
            g.zustandUsage == f.zustandUsage && g.stylesheetCreate == f.stylesheetCreate &&
            g.flashlistMissingSize == f.flashlistMissingSize && g.deepImports == f.deepImports &&
            g.todoComments == f.todoComments && g.potentialNPlusOne == f.potentialNPlusOne &&
            g.databaseWrite == f.databaseWrite
    decreases |lines|
  {
    if |lines| > 0 {
      LinesScannedKeeps(f, path, lines[..|lines| - 1]);
    }
  }

  /** What one file adds to line category `c`. */
  function LineHitsOf(c: LineCategory): SourceFile -> seq<Entry> {
    (sf: SourceFile) => Hits(sf.path, SplitLines(sf.content), Rule(c, sf.path))
  }

  /** What one file adds to file category `c`. */
  function FileHitsOf(c: FileCategory): SourceFile -> seq<string> {
    (sf: SourceFile) => if FileFires(c, sf.content) then [sf.path] else []
  }

  /** Each line category is the files' hits, one file after another. */
  lemma {:induction false} CollectLines(files: seq<SourceFile>, c: LineCategory)
    ensures LineList(Collect(files), c) == ConcatMap(LineHitsOf(c), files)
    decreases |files|
  {
    if |files| > 0 {
      var init := files[..|files| - 1];
      var sf := files[|files| - 1];
      CollectLines(init, c);
      var g := FileLevel(Collect(init), sf.path, sf.content);
      assert LineList(g, c) == LineList(Collect(init), c);
      LinesScannedLines(g, sf.path, SplitLines(sf.content), c);
    }
  }

  /** Each file category lists the files that fire it, in scanning order. */
  lemma {:induction false} CollectFiles(files: seq<SourceFile>, c: FileCategory)
    ensures FileList(Collect(files), c) == ConcatMap(FileHitsOf(c), files)
    decreases |files|
  {
    if |files| > 0 {
      var init := files[..|files| - 1];
      var sf := files[|files| - 1];
      CollectFiles(init, c);
      LinesScannedKeeps(FileLevel(Collect(init), sf.path, sf.content), sf.path, SplitLines(sf.content));
    }
  }

  /** `deep_imports`, `todo_comments`, `potential_n_plus_one` and `database_write` are never
      appended to. */
  lemma {:induction false} CollectUnused(files: seq<SourceFile>)
    ensures Collect(files).deepImports == [] && Collect(files).todoComments == []
    ensures Collect(files).potentialNPlusOne == [] && Collect(files).databaseWrite == []
    decreases |files|
  {
    if |files| > 0 {
      var init := files[..|files| - 1];
      var sf := files[|files| - 1];
      CollectUnused(init);
      LinesScannedKeeps(FileLevel(Collect(init), sf.path, sf.content), sf.path, SplitLines(sf.content));
    }
  }

  // ---------------------------------------------------------------------------------------
  // `audit_codebase`

  /** Scanning one more file continues the findings of the files before it. */
  lemma CollectSnoc(files: seq<SourceFile>, sf: SourceFile)
    ensures Collect(files + [sf]) == ScanFile(Collect(files), sf)
  {
    assert (files + [sf])[..|files|] == files;
  }

  lemma AppendAssoc<T>(a: seq<T>, b: seq<T>, c: seq<T>)
    ensures a + (b + c) == a + b + c
  {
  }

  /** `ConcatMap` over one more element. */
  lemma ConcatMapSnoc<A, B>(f: A -> seq<B>, xs: seq<A>, k: nat)
    requires k < |xs|
    ensures ConcatMap(f, xs[..k + 1]) == ConcatMap(f, xs[..k]) + f(xs[k])
  {
    assert xs[..k + 1][..k] == xs[..k];
  }

  /** The whole-content checks of one file (`zustand_pattern`, `stylesheet_pattern`, and
      `flashlist_pattern` without `estimated_size_pattern`). */
  method CheckContent(findings: Findings, filepath: string, content: string) returns (out: Findings)
    ensures out == FileLevel(findings, filepath, content)
  {
    out := findings;
    if ZustandMatch(content) {
      out := out.(zustandUsage := out.zustandUsage + [filepath]);
    }
    if FileFires(StylesheetCreate, content) {
      out := out.(stylesheetCreate := out.stylesheetCreate + [filepath]);
    }
    if FileFires(FlashlistMissingSize, content) {
      out := out.(flashlistMissingSize := out.flashlistMissingSize + [filepath]);
    }
  }

  /** The checks of line number `lineNum` of the file at `filepath`. */
  method CheckLine(findings: Findings, filepath: string, lineNum: nat, line: string) returns (out: Findings)
    ensures out == AddLine(findings, filepath, lineNum, line)
  {
    var entry := [Entry(filepath, lineNum, Strip(line))];
    var currentModule := CurrentModule(filepath);
    var m := FindDeepImport(line);
    var violation := m.Some? && Some(m.value.target) != currentModule && '/' in m.value.internal;
    var hexColor := HasHexColor(line);
    var anyAnnotation := HasAnyAnnotation(line);
    var consoleLog := HasConsoleLog(line);
    assert violation == LineFires(ModuleViolations, filepath, line);
    out := findings.(moduleViolations := findings.moduleViolations + (if violation then entry else []),
                     hardcodedColors := findings.hardcodedColors + (if hexColor then entry else []),
                     anyUsage := findings.anyUsage + (if anyAnnotation then entry else []),
                     consoleLog := findings.consoleLog + (if consoleLog then entry else []));
  }

  /** The body of the `try` for one readable file: the whole-content checks, then the line
      loop over `content.splitlines()`, numbering lines from 1. */
  method ScanSource(findings: Findings, filepath: string, content: string) returns (out: Findings)
    ensures out == ScanFile(findings, SourceFile(filepath, content))
  {
    var lines := SplitLines(content);
    out := CheckContent(findings, filepath, content);
    ghost var base := out;
    var i := 0;
    while i < |lines|
      invariant 0 <= i <= |lines|
      invariant out == LinesScanned(base, filepath, lines[..i])
    {
      out := CheckLine(out, filepath, i + 1, lines[i]);
      assert lines[..i + 1][..i] == lines[..i];
      i := i + 1;
    }
    assert lines[..i] == lines;
  }

  /** The `for file in files` loop of one walk directory: files without a source extension
      are skipped, and so is a file whose reading fails. */
  method ScanFiles(findings: Findings, ghost done: seq<SourceFile>, subdir: string, files: seq<WalkFile>)
      returns (out: Findings)
    requires findings == Collect(done)
    ensures out == Collect(done + FilesScanned(subdir, files))
  {
    out := findings;
    ghost var now := done;
    var k := 0;
    while k < |files|
      invariant 0 <= k <= |files|
      invariant now == done + FilesScanned(subdir, files[..k]) && out == Collect(now)
    {
      var file := files[k];
      ConcatMapSnoc((f: WalkFile) => FileScanned(subdir, f), files, k);
      AppendAssoc(done, FilesScanned(subdir, files[..k]), FileScanned(subdir, file));
      if !HasSourceExtension(file.name) {
        assert now + FileScanned(subdir, file) == now;
        k := k + 1;
        continue;
      }
      var filepath := PathJoin(subdir, file.name);
      if file.content.Some? {
        var sf := SourceFile(filepath, file.content.value);
        out := ScanSource(out, filepath, file.content.value);
        CollectSnoc(now, sf);
        now := now + [sf];
      } else {
        assert now + FileScanned(subdir, file) == now;
      }
      k := k + 1;
    }
    assert files[..k] == files;
  }

  /** The `os.walk` loop of one root: directories whose path contains `node_modules` or
      `.git` are skipped. */
  method ScanWalk(findings: Findings, ghost done: seq<SourceFile>, walk: seq<WalkDir>) returns (out: Findings)
    requires findings == Collect(done)
    ensures out == Collect(done + DirsScanned(walk))
  {
    out := findings;
    ghost var now := done;
    var j := 0;
    while j < |walk|
      invariant 0 <= j <= |walk|
      invariant now == done + DirsScanned(walk[..j]) && out == Collect(now)
    {
      var d := walk[j];
      ConcatMapSnoc(DirScanned, walk, j);
      if SkippedDir(d.subdir) {
        assert done + DirsScanned(walk[..j + 1]) == now + [];
        assert now + [] == now;
        j := j + 1;
        continue;
      }
      out := ScanFiles(out, now, d.subdir, d.files);
      assert DirScanned(d) == FilesScanned(d.subdir, d.files);
      assert DirsScanned(walk[..j + 1]) == DirsScanned(walk[..j]) + FilesScanned(d.subdir, d.files);
      AppendAssoc(done, DirsScanned(walk[..j]), FilesScanned(d.subdir, d.files));
      now := now + FilesScanned(d.subdir, d.files);
      j := j + 1;
    }
    assert walk[..j] == walk;
  }

  /** `audit_codebase`: the findings of every root's walk, root after root. */
  method AuditCodebase(roots: seq<seq<WalkDir>>) returns (findings: Findings)
    ensures findings == Collect(Scanned(roots))
  {
    findings := NoFindings;
    var i := 0;
    while i < |roots|
      invariant 0 <= i <= |roots|
      invariant findings == Collect(Scanned(roots[..i]))
    {
      ConcatMapSnoc(DirsScanned, roots, i);
      findings := ScanWalk(findings, Scanned(roots[..i]), roots[i]);
      i := i + 1;
    }
    assert roots[..i] == roots;
  }
}
