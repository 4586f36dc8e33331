/** Path arithmetic of refactor_imports.py: `os.path.dirname`, `os.path.abspath` (lexical
    normalisation of an absolute path), `os.path.relpath` against the repository root, and
    `resolve_path`, which puts them together. Paths are sequences of segments; the repository
    root is an absolute path given explicitly instead of being read from the process. */
module Paths {
  import opened Text

  /** A segment of a real path: non-empty, no separator, neither `.` nor `..`. */
  predicate IsName(x: string) {
    x != "" && x != "." && x != ".." && '/' !in x
  }

  /** A normalised path: every segment a name. */
  predicate Canonical(p: seq<string>) {
    forall k :: 0 <= k < |p| ==> IsName(p[k])
  }

  lemma CanonicalConcat(a: seq<string>, b: seq<string>)
    requires Canonical(a) && Canonical(b)
    ensures Canonical(a + b)
  {
    forall k | 0 <= k < |a + b|
      ensures IsName((a + b)[k])
    {
      if k < |a| { assert (a + b)[k] == a[k]; } else { assert (a + b)[k] == b[k - |a|]; }
    }
  }

  lemma CanonicalPrefix(a: seq<string>, n: nat)
    requires Canonical(a) && n <= |a|
    ensures Canonical(a[..n])
  {
    forall k | 0 <= k < n
      ensures IsName(a[..n][k])
    {
      assert a[..n][k] == a[k];
    }
  }

  /** `p` lies at or below `root`. */
  predicate Within(root: seq<string>, p: seq<string>) {
    |root| <= |p| && p[..|root|] == root
  }

  /** `os.path.dirname`: everything but the last segment. */
  function Dirname(p: seq<string>): seq<string> {
    if |p| == 0 then [] else p[..|p| - 1]
  }

  /** `os.path.normpath` on an absolute path, continuing from the already normal
      directory `dir` with the components `comps`: empty and `.` components vanish,
      `..` drops the last segment and is itself dropped at the file-system root. */
  function Normalize(dir: seq<string>, comps: seq<string>): seq<string>
    decreases |comps|
  {
    if |comps| == 0 then dir
    else if comps[0] == "" || comps[0] == "." then Normalize(dir, comps[1..])
    else if comps[0] == ".." then Normalize(Dirname(dir), comps[1..])
    else Normalize(dir + [comps[0]], comps[1..])
  }

  /** Normalisation yields a normal path: from a normal directory, components without a
      separator leave no empty, `.` or `..` segment behind. */
  lemma {:induction false} NormalizeCanonical(dir: seq<string>, comps: seq<string>)
    requires Canonical(dir)
    requires forall k :: 0 <= k < |comps| ==> '/' !in comps[k]
    ensures Canonical(Normalize(dir, comps))
    decreases |comps|
  {
    if |comps| > 0 {
      assert forall k :: 0 <= k < |comps[1..]| ==> comps[1..][k] == comps[k + 1];
      if comps[0] == "" || comps[0] == "." {
        NormalizeCanonical(dir, comps[1..]);
      } else if comps[0] == ".." {
        if |dir| > 0 {
          CanonicalPrefix(dir, |dir| - 1);
        }
        NormalizeCanonical(Dirname(dir), comps[1..]);
      } else {
        assert IsName(comps[0]);
        CanonicalConcat(dir, [comps[0]]);
        NormalizeCanonical(dir + [comps[0]], comps[1..]);
      }
    }
  }

  /** Names pass through normalisation unchanged: the directory of an absolute path is
      itself normal, so normalising `dir ++ rest` is normalising `rest` from `dir`. */
  lemma {:induction false} NormalizeNames(dir: seq<string>, names: seq<string>, comps: seq<string>)
    requires Canonical(names)
    ensures Normalize(dir, names + comps) == Normalize(dir + names, comps)
    decreases |names|
  {
    if |names| == 0 {
      assert names + comps == comps && dir + names == dir;
    } else {
      assert (names + comps)[0] == names[0] && IsName(names[0]);
      assert (names + comps)[1..] == names[1..] + comps;
      NormalizeNames(dir + [names[0]], names[1..], comps);
      assert dir + [names[0]] + names[1..] == dir + names;
    }
  }

  /** A parent step cancels the segment before it. */
  lemma NormalizeParent(dir: seq<string>, x: string, comps: seq<string>)
    requires IsName(x)
    ensures Normalize(dir, [x, ".."] + comps) == Normalize(dir, comps)
  {
    assert ([x, ".."] + comps)[1..] == [".."] + comps;
    assert ([".."] + comps)[1..] == comps;
    assert Dirname(dir + [x]) == dir;
  }

  /** `n` parent steps. */
  function Ups(n: nat): (r: seq<string>)
    ensures |r| == n && forall k :: 0 <= k < n ==> r[k] == ".."
  {
    if n == 0 then [] else [".."] + Ups(n - 1)
  }

  /** Climbing `n` levels and then naming segments: the last `n` segments of the directory
      are dropped and the names appended. */
  lemma {:induction false} NormalizeClimb(dir: seq<string>, n: nat, names: seq<string>)
    requires Canonical(names) && n <= |dir|
    ensures Normalize(dir, Ups(n) + names) == dir[..|dir| - n] + names
    decreases n
  {
    var comps := Ups(n) + names;
    if n == 0 {
      assert comps == names + [];
      NormalizeNames(dir, names, []);
      assert dir[..|dir|] == dir;
    } else {
      assert comps[0] == "..";
      assert comps[1..] == Ups(n - 1) + names;
      NormalizeClimb(Dirname(dir), n - 1, names);
      assert Dirname(dir)[..|Dirname(dir)| - (n - 1)] == dir[..|dir| - n];
    }
  }

  lemma DropFromConcat(a: seq<string>, b: seq<string>, n: nat)
    requires n <= |b|
    ensures (a + b)[..|a + b| - n] == a + b[..|b| - n]
  {
  }

  /** Length of the longest common prefix of two segment lists. */
  function CommonPrefixLen(a: seq<string>, b: seq<string>): (n: nat)
    ensures n <= |a| && n <= |b| && a[..n] == b[..n]
    ensures n < |a| && n < |b| ==> a[n] != b[n]
    decreases |a|
  {
    if |a| == 0 || |b| == 0 || a[0] != b[0] then 0
    else
      var n := CommonPrefixLen(a[1..], b[1..]);
      assert a[..n + 1] == [a[0]] + a[1..][..n];
      assert b[..n + 1] == [b[0]] + b[1..][..n];
      n + 1
  }

  /** A path as Python prints it: segments joined by `/`, `.` for the empty path. */
  function PathString(segs: seq<string>): string {
    if |segs| == 0 then "." else Join(segs, '/')
  }

  /** `os.path.relpath(path, start)` for absolute paths: one `..` for each segment of
      `start` past the common prefix, then the rest of `path`. */
  function RelPath(path: seq<string>, start: seq<string>): string {
    var n := CommonPrefixLen(start, path);
    PathString(Ups(|start| - n) + path[n..])
  }

  lemma {:induction false} JoinStartsWithFirst(parts: seq<string>, sep: char)
    requires |parts| >= 1
    ensures StartsWith(Join(parts, sep), parts[0])
  {
  }

  /** relpath against the root gives the part below the root for a path within it,
      and a string beginning with `..` for a path outside it. */
  lemma RelPathAgainstRoot(path: seq<string>, root: seq<string>)
    ensures Within(root, path) ==> RelPath(path, root) == PathString(path[|root|..])
    ensures !Within(root, path) ==> StartsWith(RelPath(path, root), "..")
  {
    var n := CommonPrefixLen(root, path);
    var rel := Ups(|root| - n) + path[n..];
    if Within(root, path) {
      assert n == |root|;
      assert rel == path[|root|..];
    } else {
      assert n < |root|;
      assert rel[0] == "..";
      JoinStartsWithFirst(rel, '/');
    }
  }

  lemma WithinBelow(root: seq<string>, below: seq<string>)
    ensures Within(root, root + below) && (root + below)[|root|..] == below
  {
  }

  /** The path that `resolve_path` normalises: the file's directory, below the root,
      joined with the specifier's components. */
  function Lexical(root: seq<string>, file: seq<string>, spec: string): seq<string> {
    Normalize(root + Dirname(file), Split(spec, '/'))
  }

  /** Every path a relative specifier resolves to is normal, whatever the specifier. */
  lemma LexicalCanonical(root: seq<string>, file: seq<string>, spec: string)
    requires Canonical(root) && Canonical(file)
    ensures Canonical(Lexical(root, file, spec))
  {
    if |file| > 0 {
      CanonicalPrefix(file, |file| - 1);
    }
    CanonicalConcat(root, Dirname(file));
    NormalizeCanonical(root + Dirname(file), Split(spec, '/'));
  }

  /** `resolve_path`: a specifier not starting with `.` is returned as it is; a relative
      one becomes the root-relative form of its lexical normalisation. A result that lies
      outside the root comes back as Python's relpath writes it, beginning with `..`. */
  function ResolvePath(root: seq<string>, file: seq<string>, spec: string): string {
    if StartsWith(spec, ".") then RelPath(Lexical(root, file, spec), root) else spec
  }

  /** The three cases of `resolve_path`. */
  lemma ResolvePathCases(root: seq<string>, file: seq<string>, spec: string)
    ensures !StartsWith(spec, ".") ==> ResolvePath(root, file, spec) == spec
    ensures StartsWith(spec, ".") && Within(root, Lexical(root, file, spec)) ==>
              ResolvePath(root, file, spec) == PathString(Lexical(root, file, spec)[|root|..])
    ensures StartsWith(spec, ".") && !Within(root, Lexical(root, file, spec)) ==>
              StartsWith(ResolvePath(root, file, spec), "..")
  {
    RelPathAgainstRoot(Lexical(root, file, spec), root);
  }

  /** A specifier whose first component is `..` is relative. */
  lemma ClimbSpecIsRelative(spec: string, comps: seq<string>)
    requires Split(spec, '/') == comps && comps[0] == ".."
    ensures StartsWith(spec, ".")
  {
    SplitFirstIsField(spec, '/');
    assert StartsWith(spec, "..");
    assert spec[..1] == ".."[..1];
  }

  lemma LexicalClimb(root: seq<string>, file: seq<string>, spec: string, n: nat, names: seq<string>)
    requires Canonical(names)
    requires Split(spec, '/') == Ups(n) + names
    requires n <= |Dirname(file)|
    ensures Lexical(root, file, spec) == root + Dirname(file)[..|Dirname(file)| - n] + names
  {
    var dir := Dirname(file);
    assert Lexical(root, file, spec) == Normalize(root + dir, Ups(n) + names);
    NormalizeClimb(root + dir, n, names);
    DropFromConcat(root, dir, n);
  }

  /** Resolution law for a specifier made of `n >= 1` parent steps followed by names:
      the last `n` segments of the file's directory are replaced by those names, and the
      result is written relative to the root. */
  lemma ResolveClimb(root: seq<string>, file: seq<string>, spec: string, n: nat, names: seq<string>)
    requires Canonical(names) && |names| >= 1
    requires Split(spec, '/') == Ups(n) + names
    requires 1 <= n <= |Dirname(file)|
    ensures ResolvePath(root, file, spec) == Join(Dirname(file)[..|Dirname(file)| - n] + names, '/')
  {
    var dir := Dirname(file);
    ClimbSpecIsRelative(spec, Ups(n) + names);
    LexicalClimb(root, file, spec, n, names);
    assert root + dir[..|dir| - n] + names == root + (dir[..|dir| - n] + names);
    WithinBelow(root, dir[..|dir| - n] + names);
    ResolvePathCases(root, file, spec);
  }

  /** A specifier whose first two segments are `..` begins with `../../`. */
  lemma ClimbsTwice(spec: string)
    requires |Split(spec, '/')| >= 3 && Split(spec, '/')[0] == ".." && Split(spec, '/')[1] == ".."
    ensures StartsWith(spec, "../../")
  {
    SplitMore(spec, '/');
    var t := spec[3..];
    SplitMore(t, '/');
    assert spec == ".." + "/" + (".." + "/" + t[3..]);
  }

  lemma TwoUpSegments(spec: string, names: seq<string>)
    requires spec == "../../d/e" && names == ["d", "e"]
    ensures Split(spec, '/') == Ups(2) + names
  {
    var comps := ["..", "..", "d", "e"];
    assert spec == Join(comps, '/');
    SplitJoin(spec, comps, '/');
    assert comps == Ups(2) + names;
  }

  /** The lexical law on a concrete case: from `a/b/c.ts`, `../../d/e` climbs out of `a/b`
      to the root and resolves to `d/e`. */
  lemma ResolveTwoUp(root: seq<string>, file: seq<string>, spec: string)
    requires file == ["a", "b", "c.ts"] && spec == "../../d/e"
    ensures ResolvePath(root, file, spec) == "d/e"
  {
    var names := ["d", "e"];
    TwoUpSegments(spec, names);
    ResolveClimb(root, file, spec, 2, names);
    assert Dirname(file)[..0] + names == names;
  }
}
