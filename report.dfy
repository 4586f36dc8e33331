/** analyze_report.py: reads an ESLint JSON report, keeps the `no-restricted-imports`
    messages as violations, and sorts each violation into cross-module, same-module or
    other, by the module of the importing file and the module of the imported specifier.
    Reading the report and printing the three lists are left to the caller; the working
    directory that the script strips from file paths is a parameter. */
module Report {
  import opened Wrappers
  import opened Text

  /** One lint message. A missing or null `ruleId` is None. */
  datatype Message = Message(ruleId: Option<string>, line: int, text: string)

  /** One file entry of the report. A missing `messages` key is the empty sequence. */
  datatype FileResult = FileResult(filePath: string, messages: seq<Message>)

  /** A kept message: the file path with the working directory removed, the line, the text. */
  datatype Violation = Violation(file: string, line: int, message: string)

  /** What is listed for each violation: its file, its import specifier and its line. */
  datatype Info = Info(file: string, importPath: string, line: int)

  datatype Bucket = Cross | Same | Other

  datatype Buckets = Buckets(cross: seq<Info>, same: seq<Info>, other: seq<Info>)

  /** `message.split("'")[1]` raises IndexError on a message without a quote; nothing
      catches it, so the run stops there. */
  datatype ReportError = MissingQuote(message: string)

  predicate IsRestricted(m: Message) {
    m.ruleId == Some("no-restricted-imports")
  }

  /** `path.replace(cwd + '/', '')`: every occurrence goes, not only a leading one. */
  function StripCwd(path: string, cwd: string): string {
    RemoveAll(path, cwd + "/")
  }

  /** A path under the working directory loses exactly that prefix. */
  lemma StripCwdPrefix(cwd: string, rel: string)
    requires !Contains(rel, cwd + "/")
    ensures StripCwd(cwd + "/" + rel, cwd) == rel
  {
    var pat := cwd + "/";
    var s := cwd + "/" + rel;
    assert s[..|pat|] == pat && s[|pat|..] == rel;
    RemoveAllAbsent(rel, pat);
  }

  /** A path that never mentions the working directory is kept as reported. */
  lemma StripCwdAbsent(path: string, cwd: string)
    requires !Contains(path, cwd + "/")
    ensures StripCwd(path, cwd) == path
  {
    RemoveAllAbsent(path, cwd + "/");
  }

  function ViolationFrom(path: string, m: Message, cwd: string): Violation {
    Violation(StripCwd(path, cwd), m.line, m.text)
  }

  /** The violations one file contributes, in message order. */
  function FileViolations(path: string, ms: seq<Message>, cwd: string): seq<Violation>
    decreases |ms|
  {
    if |ms| == 0 then []
    else
      var m := ms[|ms| - 1];
      FileViolations(path, ms[..|ms| - 1], cwd) + (if IsRestricted(m) then [ViolationFrom(path, m, cwd)] else [])
  }

  /** The `violations` list after the filtering loop over the report. */
  function ViolationsOf(report: seq<FileResult>, cwd: string): seq<Violation>
    decreases |report|
  {
    if |report| == 0 then []
    else
      var fr := report[|report| - 1];
      ViolationsOf(report[..|report| - 1], cwd) + FileViolations(fr.filePath, fr.messages, cwd)
  }

  /** The filtering loop of the script. */
  method CollectViolations(report: seq<FileResult>, cwd: string) returns (violations: seq<Violation>)
    ensures violations == ViolationsOf(report, cwd)
  {
    violations := [];
    var i := 0;
    while i < |report|
      invariant 0 <= i <= |report|
      invariant violations == ViolationsOf(report[..i], cwd)
    {
      var fr := report[i];
      var j := 0;
      while j < |fr.messages|
        invariant 0 <= j <= |fr.messages|
        invariant violations == ViolationsOf(report[..i], cwd) + FileViolations(fr.filePath, fr.messages[..j], cwd)
      {
        var m := fr.messages[j];
        if m.ruleId == Some("no-restricted-imports") {
          violations := violations + [Violation(RemoveAll(fr.filePath, cwd + "/"), m.line, m.text)];
        }
        assert fr.messages[..j + 1][..j] == fr.messages[..j];
        j := j + 1;
      }
      assert fr.messages[..j] == fr.messages;
      assert report[..i + 1][..i] == report[..i];
      i := i + 1;
    }
    assert report[..i] == report;
  }

  /** A file contributes exactly its restricted messages. */
  lemma {:induction false} FileViolationsMembers(path: string, ms: seq<Message>, cwd: string, v: Violation)
    ensures v in FileViolations(path, ms, cwd) <==>
              exists j :: 0 <= j < |ms| && IsRestricted(ms[j]) && v == ViolationFrom(path, ms[j], cwd)
    decreases |ms|
  {
    if |ms| > 0 {
      var n := |ms| - 1;
      FileViolationsMembers(path, ms[..n], cwd, v);
      if v in FileViolations(path, ms, cwd) {
        if v in FileViolations(path, ms[..n], cwd) {
          var j :| 0 <= j < n && IsRestricted(ms[..n][j]) && v == ViolationFrom(path, ms[..n][j], cwd);
          assert ms[..n][j] == ms[j];
        } else {
          assert IsRestricted(ms[n]) && v == ViolationFrom(path, ms[n], cwd);
        }
      }
      if exists j :: 0 <= j < |ms| && IsRestricted(ms[j]) && v == ViolationFrom(path, ms[j], cwd) {
        var j :| 0 <= j < |ms| && IsRestricted(ms[j]) && v == ViolationFrom(path, ms[j], cwd);
        if j < n {
          assert ms[..n][j] == ms[j];
        }
      }
    }
  }

  /** Every violation comes from some file of the report, and every restricted message of every
      file is a violation. */
  lemma {:induction false} ViolationsMembers(report: seq<FileResult>, cwd: string, v: Violation)
    ensures v in ViolationsOf(report, cwd) <==>
              exists i :: 0 <= i < |report| && v in FileViolations(report[i].filePath, report[i].messages, cwd)
    decreases |report|
  {
    if |report| > 0 {
      var n := |report| - 1;
      ViolationsMembers(report[..n], cwd, v);
      if v in ViolationsOf(report, cwd) {
        if v in ViolationsOf(report[..n], cwd) {
          var i :| 0 <= i < n && v in FileViolations(report[..n][i].filePath, report[..n][i].messages, cwd);
          assert report[..n][i] == report[i];
        }
      }
      if exists i :: 0 <= i < |report| && v in FileViolations(report[i].filePath, report[i].messages, cwd) {
        var i :| 0 <= i < |report| && v in FileViolations(report[i].filePath, report[i].messages, cwd);
        if i < n {
          assert report[..n][i] == report[i];
        }
      }
    }
  }

  /** Report order is kept: the violations of a report split in two are those of the first
      part followed by those of the second. */
  lemma {:induction false} ViolationsAppend(a: seq<FileResult>, b: seq<FileResult>, cwd: string)
    ensures ViolationsOf(a + b, cwd) == ViolationsOf(a, cwd) + ViolationsOf(b, cwd)
    decreases |b|
  {
    if |b| == 0 {
      assert a + b == a;
    } else {
      var n := |b| - 1;
      assert (a + b)[..|a + b| - 1] == a + b[..n];
      assert (a + b)[|a + b| - 1] == b[n];
      ViolationsAppend(a, b[..n], cwd);
    }
  }

  /** `import_path`: the text after the first quote, up to the next quote or the end. */
  function ImportPath(message: string): Result<string, ReportError> {
    var parts := Split(message, '\'');
    if |parts| > 1 then Success(parts[1]) else Failure(MissingQuote(message))
  }

  /** The specifier is the text between the first quote and the next one. */
  lemma ImportPathBetweenQuotes(before: string, after: string)
    requires '\'' !in before
    ensures ImportPath(before + "'" + after) == Success(Field(after, '\''))
  {
    assert before + "'" + after == before + ['\''] + after;
    SplitCons(before, '\'', after);
    SplitFirstIsField(after, '\'');
  }

  /** The extraction fails exactly on messages without a quote. */
  lemma ImportPathDefined(message: string)
    ensures ImportPath(message).Success? <==> '\'' in message
  {
    if '\'' in message {
      FieldSplitsAt(message, '\'');
      var before := Field(message, '\'');
      ImportPathBetweenQuotes(before, message[|before| + 1..]);
    } else {
      SplitNone(message, '\'');
    }
  }

  /** The third `/`-segment of `s` when `s` starts with `prefix`, the script's
      `parts = s.split('/'); if len(parts) > 2: parts[2]`. */
  function ModuleSegment(s: string, prefix: string): Option<string> {
    if StartsWith(s, prefix) then
      var parts := Split(s, '/');
      if |parts| > 2 then Some(parts[2]) else None
    else None
  }

  /** `source_module`: the module of the importing file. */
  function SourceModule(file: string): Option<string> {
    ModuleSegment(file, "src/modules/")
  }

  /** `target_module`: the module an `@/modules/…` specifier points into. */
  function TargetModule(importPath: string): Option<string> {
    ModuleSegment(importPath, "@/modules/")
  }

  /** Under a two-segment prefix the length check always passes: the module is the first
      field after the prefix. */
  lemma ModuleSegmentIsField(s: string, prefix: string, a: string, b: string)
    requires '/' !in a && '/' !in b && prefix == a + "/" + b + "/"
    requires StartsWith(s, prefix)
    ensures ModuleSegment(s, prefix) == Some(Field(s[|prefix|..], '/'))
  {
    var rest := s[|prefix|..];
    assert s == a + ['/'] + (b + ['/'] + rest);
    SplitCons(a, '/', b + ['/'] + rest);
    SplitCons(b, '/', rest);
    SplitFirstIsField(rest, '/');
  }

  lemma SourceModuleIsField(file: string)
    ensures StartsWith(file, "src/modules/") ==> SourceModule(file) == Some(Field(file[12..], '/'))
    ensures !StartsWith(file, "src/modules/") ==> SourceModule(file) == None
  {
    if StartsWith(file, "src/modules/") {
      assert "src/modules/" == "src" + "/" + "modules" + "/";
      ModuleSegmentIsField(file, "src/modules/", "src", "modules");
    }
  }

  lemma TargetModuleIsField(importPath: string)
    ensures StartsWith(importPath, "@/modules/") ==> TargetModule(importPath) == Some(Field(importPath[10..], '/'))
    ensures !StartsWith(importPath, "@/modules/") ==> TargetModule(importPath) == None
  {
    if StartsWith(importPath, "@/modules/") {
      assert "@/modules/" == "@" + "/" + "modules" + "/";
      ModuleSegmentIsField(importPath, "@/modules/", "@", "modules");
    }
  }

  /** Python truthiness of an optional string: present and non-empty. */
  predicate Truthy(o: Option<string>) {
    o.Some? && o.value != ""
  }

  /** The three-way decision of the bucketing loop. */
  function Classify(source: Option<string>, target: Option<string>): Bucket {
    if Truthy(source) && Truthy(target) then
      if source.value == target.value then Same else Cross
    else Other
  }

  function BucketOf(info: Info): Bucket {
    Classify(SourceModule(info.file), TargetModule(info.importPath))
  }

  /** A file outside `src/modules/`, or a specifier outside `@/modules/`, is always other. */
  lemma OtherOutsideModules(info: Info)
    requires !StartsWith(info.file, "src/modules/") || !StartsWith(info.importPath, "@/modules/")
    ensures BucketOf(info) == Other
  {
    SourceModuleIsField(info.file);
    TargetModuleIsField(info.importPath);
  }

  /** Between modules, the bucket compares the module named in the file path with the module
      named in the specifier; an empty module name makes the violation other. */
  lemma ModuleBuckets(info: Info)
    requires StartsWith(info.file, "src/modules/") && StartsWith(info.importPath, "@/modules/")
    ensures var x := Field(info.file[12..], '/');
            var y := Field(info.importPath[10..], '/');
            (BucketOf(info) == Same <==> x != "" && x == y) &&
            (BucketOf(info) == Cross <==> x != "" && y != "" && x != y) &&
            (BucketOf(info) == Other <==> x == "" || y == "")
  {
    SourceModuleIsField(info.file);
    TargetModuleIsField(info.importPath);
  }

  /** The module of `src/modules/<x>/<rest>` is `x`. */
  lemma SourceModuleOf(file: string, x: string, rest: string)
    requires '/' !in x && file == "src/modules/" + x + "/" + rest
    ensures SourceModule(file) == Some(x)
  {
    assert file[..12] == "src/modules/" && file[12..] == x + ['/'] + rest;
    SourceModuleIsField(file);
    FieldCons(x, '/', rest);
  }

  /** The module of `@/modules/<y>/<rest>` is `y`. */
  lemma TargetModuleOf(importPath: string, y: string, rest: string)
    requires '/' !in y && importPath == "@/modules/" + y + "/" + rest
    ensures TargetModule(importPath) == Some(y)
  {
    assert importPath[..10] == "@/modules/" && importPath[10..] == y + ['/'] + rest;
    TargetModuleIsField(importPath);
    FieldCons(y, '/', rest);
  }

  lemma BillingFileModule(file: string)
    requires file == "src/modules/billing/Bar.ts"
    ensures SourceModule(file) == Some("billing")
  {
    SourceModuleOf(file, "billing", "Bar.ts");
  }

  lemma InteractionsFileModule(file: string)
    requires file == "src/modules/interactions/internal/Bar.ts"
    ensures SourceModule(file) == Some("interactions")
  {
    SourceModuleOf(file, "interactions", "internal/Bar.ts");
  }

  lemma InteractionsImportModule(importPath: string)
    requires importPath == "@/modules/interactions/services/foo"
    ensures TargetModule(importPath) == Some("interactions")
  {
    TargetModuleOf(importPath, "interactions", "services/foo");
  }

  /** `src/modules/billing/Bar.ts` importing `@/modules/interactions/services/foo` crosses
      modules. */
  lemma CrossModuleExample(info: Info)
    requires info.file == "src/modules/billing/Bar.ts"
    requires info.importPath == "@/modules/interactions/services/foo"
    ensures BucketOf(info) == Cross
  {
    BillingFileModule(info.file);
    InteractionsImportModule(info.importPath);
  }

  /** `src/modules/interactions/internal/Bar.ts` importing the same specifier stays inside
      its module. */
  lemma SameModuleExample(info: Info)
    requires info.file == "src/modules/interactions/internal/Bar.ts"
    requires info.importPath == "@/modules/interactions/services/foo"
    ensures BucketOf(info) == Same
  {
    InteractionsFileModule(info.file);
    InteractionsImportModule(info.importPath);
  }

  function InfoOf(v: Violation): Result<Info, ReportError> {
    match ImportPath(v.message)
    case Failure(e) => Failure(e)
    case Success(p) => Success(Info(v.file, p, v.line))
  }

  /** Appends `info` to the list its bucket names. */
  function Place(b: Buckets, info: Info): Buckets {
    match BucketOf(info)
    case Same => b.(same := b.same + [info])
    case Cross => b.(cross := b.cross + [info])
    case Other => b.(other := b.other + [info])
  }

  /** The three lists after the bucketing loop, or the error that stops it. */
  function BucketsOf(vs: seq<Violation>): Result<Buckets, ReportError>
    decreases |vs|
  {
    if |vs| == 0 then Success(Buckets([], [], []))
    else
      match BucketsOf(vs[..|vs| - 1])
      case Failure(e) => Failure(e)
      case Success(b) =>
        match InfoOf(vs[|vs| - 1])
        case Failure(e) => Failure(e)
        case Success(info) => Success(Place(b, info))
  }

  /** Once a violation without a quote has stopped the loop, later violations change nothing. */
  lemma {:induction false} FailureStops(vs: seq<Violation>, i: nat)
    requires i <= |vs| && BucketsOf(vs[..i]).Failure?
    ensures BucketsOf(vs) == BucketsOf(vs[..i])
    decreases |vs| - i
  {
    if i < |vs| {
      assert vs[..i + 1][..i] == vs[..i];
      FailureStops(vs, i + 1);
    } else {
      assert vs[..i] == vs;
    }
  }

  /** The bucketing loop of the script. */
  method Bucketize(vs: seq<Violation>) returns (r: Result<Buckets, ReportError>)
    ensures r == BucketsOf(vs)
  {
    var cross: seq<Info> := [];
    var same: seq<Info> := [];
    var other: seq<Info> := [];
    var i := 0;
    while i < |vs|
      invariant 0 <= i <= |vs|
      invariant BucketsOf(vs[..i]) == Success(Buckets(cross, same, other))
    {
      var v := vs[i];
      assert vs[..i + 1][..i] == vs[..i];
      var parts := Split(v.message, '\'');
      if |parts| <= 1 {
        r := Failure(MissingQuote(v.message));
        FailureStops(vs, i + 1);
        return;
      }
      var info := Info(v.file, parts[1], v.line);
      var source := SourceModule(v.file);
      var target := TargetModule(parts[1]);
      if source.Some? && source.value != "" && target.Some? && target.value != "" {
        if source.value == target.value {
          same := same + [info];
        } else {
          cross := cross + [info];
        }
      } else {
        other := other + [info];
      }
      i := i + 1;
    }
    assert vs[..i] == vs;
    r := Success(Buckets(cross, same, other));
  }

  /** Every message carries a quote, so every specifier can be extracted. */
  predicate Quoted(vs: seq<Violation>) {
    forall i :: 0 <= i < |vs| ==> '\'' in vs[i].message
  }

  /** Reference definition of one bucket: the violations of that class, in order. */
  function Selected(vs: seq<Violation>, k: Bucket): seq<Info>
    decreases |vs|
  {
    if |vs| == 0 then []
    else
      Selected(vs[..|vs| - 1], k) +
      match InfoOf(vs[|vs| - 1])
      case Failure(_) => []
      case Success(info) => if BucketOf(info) == k then [info] else []
  }

  /** The loop succeeds exactly when every message is quoted, and each list it builds is the
      in-order selection of its class. */
  lemma {:induction false} BucketsAreSelections(vs: seq<Violation>)
    ensures BucketsOf(vs).Success? <==> Quoted(vs)
    ensures BucketsOf(vs).Success? ==>
              BucketsOf(vs).value == Buckets(Selected(vs, Cross), Selected(vs, Same), Selected(vs, Other))
    decreases |vs|
  {
    if |vs| > 0 {
      var n := |vs| - 1;
      BucketsAreSelections(vs[..n]);
      ImportPathDefined(vs[n].message);
      if Quoted(vs) {
        assert Quoted(vs[..n]) by {
          forall i | 0 <= i < n ensures '\'' in vs[..n][i].message {
            assert vs[..n][i] == vs[i];
          }
        }
      } else if Quoted(vs[..n]) {
        var i :| 0 <= i < |vs| && '\'' !in vs[i].message;
      }
    }
  }

  /** Each violation lands in exactly one bucket: the three sizes add up to the total. */
  lemma {:induction false} SelectedSizes(vs: seq<Violation>)
    requires Quoted(vs)
    ensures |Selected(vs, Cross)| + |Selected(vs, Same)| + |Selected(vs, Other)| == |vs|
    decreases |vs|
  {
    if |vs| > 0 {
      var n := |vs| - 1;
      assert Quoted(vs[..n]) by {
        forall i | 0 <= i < n ensures '\'' in vs[..n][i].message {
          assert vs[..n][i] == vs[i];
        }
      }
      SelectedSizes(vs[..n]);
      ImportPathDefined(vs[n].message);
    }
  }

  /** The whole script: filter the report, then sort the violations. */
  method Analyze(report: seq<FileResult>, cwd: string) returns (violations: seq<Violation>, buckets: Result<Buckets, ReportError>)
    ensures violations == ViolationsOf(report, cwd)
    ensures buckets == BucketsOf(violations)
  {
    violations := CollectViolations(report, cwd);
    buckets := Bucketize(violations);
  }
}
