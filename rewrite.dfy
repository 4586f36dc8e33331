/** The rewrite pass of refactor_imports.py: the `replacer` closure of `process_file`, applied
    to every occurrence that `IMPORT_REGEX` finds, and the write-only-if-changed rule.
    The regular-expression scan itself is taken as given: a file's text arrives already cut
    into literal chunks and occurrences (keyword up to the opening quote, the specifier, the
    closing quote). */
module Rewrite {
  import opened Wrappers
  import opened Text
  import opened Paths
  import opened Aliases

  /** Which alternative of `IMPORT_REGEX` matched: `import … from`, `export … from`, `require(`. */
  datatype Kind = Import | Export | Require

  /** One regex match: `prefix` is the group ending in the opening quote, `suffix` the
      closing quote. */
  datatype Occurrence = Occurrence(kind: Kind, prefix: string, spec: string, suffix: string)

  /** A file's text as the scan sees it. */
  datatype Chunk = Literal(text: string) | Occ(occ: Occurrence)

  function ChunkText(c: Chunk): string {
    match c
    case Literal(t) => t
    case Occ(o) => o.prefix + o.spec + o.suffix
  }

  /** The text of a buffer: its chunks one after another. */
  function Render(buf: seq<Chunk>): string
    decreases |buf|
  {
    if |buf| == 0 then "" else Render(buf[..|buf| - 1]) + ChunkText(buf[|buf| - 1])
  }

  /** The replacer's cascade after resolution, as written: None when `match.group(0)` is
      returned. `if aliased:` is Python truthiness, so an empty alias result is no alias. */
  function Decide(table: seq<AliasRule>, path: string, resolved: string): Option<string> {
    if StartsWith(resolved, "..") then None
    else
      match GetAlias(table, resolved)
      case None => None
      case Some(aliased) =>
        if aliased == "" || path == aliased then None
        else if Contains(path, "../../") then Some(aliased)
        else if StartsWith(path, "../../") then Some(aliased)
        else if Contains(path, "/src/") then Some(aliased)
        else None
  }

  /** The new specifier chosen by the replacer, or None to keep the occurrence. */
  function Rewritten(root: seq<string>, table: seq<AliasRule>, file: seq<string>, path: string): Option<string> {
    if !StartsWith(path, ".") then None else Decide(table, path, ResolvePath(root, file, path))
  }

  /** The rewrite rule stated once: an alias exists, it is not the original, and the original
      climbs two directories or names a `/src/` directory. */
  predicate Accepts(original: string, alias: Option<string>) {
    alias.Some? && alias.value != "" && alias.value != original &&
    (Contains(original, "../../") || Contains(original, "/src/"))
  }

  /** After resolution the cascade is a single rule: inside the root, and accepted; the
      replacement is the alias. (The `startswith("../../")` case never decides anything.) */
  lemma DecideRule(table: seq<AliasRule>, path: string, resolved: string)
    ensures Decide(table, path, resolved).Some? <==>
              !StartsWith(resolved, "..") && Accepts(path, GetAlias(table, resolved))
    ensures Decide(table, path, resolved).Some? ==> Decide(table, path, resolved) == GetAlias(table, resolved)
  {
    if StartsWith(path, "../../") {
      PrefixContains(path, "../../");
    }
  }

  /** The whole replacer decision: relative, inside the root, and accepted. */
  lemma RewriteDecision(root: seq<string>, table: seq<AliasRule>, file: seq<string>, path: string)
    ensures Rewritten(root, table, file, path).Some? <==>
              StartsWith(path, ".") && !StartsWith(ResolvePath(root, file, path), "..") &&
              Accepts(path, GetAlias(table, ResolvePath(root, file, path)))
    ensures Rewritten(root, table, file, path).Some? ==>
              Rewritten(root, table, file, path) == GetAlias(table, ResolvePath(root, file, path))
  {
    DecideRule(table, path, ResolvePath(root, file, path));
  }

  /** A specifier that neither climbs two levels nor names `/src/` is never rewritten. */
  lemma ShallowKept(root: seq<string>, table: seq<AliasRule>, file: seq<string>, path: string)
    requires !Contains(path, "../../") && !Contains(path, "/src/")
    ensures Rewritten(root, table, file, path) == None
  {
    RewriteDecision(root, table, file, path);
  }

  /** `./sibling` and `../x` stay as they are, whatever the file, root and table. */
  lemma SiblingAndParentKept(root: seq<string>, table: seq<AliasRule>, file: seq<string>)
    ensures Rewritten(root, table, file, "./sibling") == None
    ensures Rewritten(root, table, file, "../x") == None
  {
    var sib := "./sibling";
    assert 'r' !in sib;
    MissingCharNotContains(sib, "/src/", 2);
    ShortNotContains(sib[4..], "../../");
    assert sib[4..][0] == 'b' && sib[3..][1..] == sib[4..];
    NotPrefixAt(sib[3..], "../../", 0);
    assert sib[2..][1..] == sib[3..];
    NotPrefixAt(sib[2..], "../../", 0);
    assert sib[1..][1..] == sib[2..];
    NotPrefixAt(sib[1..], "../../", 0);
    assert sib[0..][1..] == sib[1..] && sib[0..] == sib;
    NotPrefixAt(sib, "../../", 1);
    ShallowKept(root, table, file, sib);
    ShortNotContains("../x", "../../");
    ShortNotContains("../x", "/src/");
    ShallowKept(root, table, file, "../x");
  }

  /** A specifier that climbs two levels, resolved inside the root to a path with a non-empty
      alias different from itself, is replaced by that alias. */
  lemma DeepAliasedDecided(table: seq<AliasRule>, spec: string, resolved: string, alias: string)
    requires StartsWith(spec, "../../")
    requires !StartsWith(resolved, "..")
    requires GetAlias(table, resolved) == Some(alias)
    requires alias != "" && alias != spec
    ensures Decide(table, spec, resolved) == Some(alias)
  {
    PrefixContains(spec, "../../");
  }

  /** A deep specifier resolved to `src/db/models/Friend` is replaced by `@/db/models/Friend`
      under the shipped table. */
  lemma DbFriendDecided(table: seq<AliasRule>, spec: string, resolved: string, alias: string)
    requires table == Table
    requires StartsWith(spec, "../../")
    requires resolved == "src/db/models/Friend" && alias == "@/db/models/Friend"
    ensures Decide(table, spec, resolved) == Some(alias)
  {
    assert GetAlias(table, resolved) == Some(alias) by {
      var rest := resolved[6..];
      assert resolved == "src/db" + rest;
      assert alias == "@/db" + rest;
      assert StartsWith(rest, "/") by { assert rest[..1] == "/"; }
      TableMapsDb(table, rest);
    }
    NotPrefixAt(resolved, "..", 0);
    StartsWithHead(spec, "../../");
    NotPrefixAt(alias, spec, 0);
    DeepAliasedDecided(table, spec, resolved, alias);
  }

  /** A specifier beginning with `../../` is relative. */
  lemma ClimbIsRelative(spec: string)
    requires StartsWith(spec, "../../")
    ensures StartsWith(spec, ".")
  {
    assert spec[..1] == spec[..6][..1];
  }

  lemma FriendJoined(parts: seq<string>, s: string)
    requires parts == ["src", "db", "models", "Friend"] && s == "src/db/models/Friend"
    ensures Join(parts, '/') == s
  {
    assert Join(["src", "db", "models", "Friend"], '/') == "src/db/models/Friend";
  }

  /** The segment arithmetic of the `Invoice.tsx` case: the file's directory has four
      segments, the specifier climbs `n` of them and then names `names`. */
  lemma InvoiceLayout(file: seq<string>, comps: seq<string>, n: nat, names: seq<string>, kept: seq<string>)
    requires file == ["src", "modules", "billing", "ui", "Invoice.tsx"]
    requires (comps == ["..", "..", "..", "db", "models", "Friend"] && n == 3 && names == ["db", "models", "Friend"]) ||
             (comps == ["..", "..", "..", "..", "src", "db", "models", "Friend"] && n == 4 && names == ["src", "db", "models", "Friend"])
    requires kept == ["src", "db", "models", "Friend"]
    ensures Canonical(names) && |names| >= 1 && comps == Ups(n) + names
    ensures 1 <= n <= |Dirname(file)| && Dirname(file)[..|Dirname(file)| - n] + names == kept
  {
  }

  /** Both specifiers of the `Invoice.tsx` case resolve to `src/db/models/Friend`. */
  lemma InvoiceResolves(root: seq<string>, file: seq<string>, spec: string, n: nat, names: seq<string>, resolved: string)
    requires file == ["src", "modules", "billing", "ui", "Invoice.tsx"]
    requires (Split(spec, '/') == ["..", "..", "..", "db", "models", "Friend"] && n == 3 && names == ["db", "models", "Friend"]) ||
             (Split(spec, '/') == ["..", "..", "..", "..", "src", "db", "models", "Friend"] && n == 4 &&
              names == ["src", "db", "models", "Friend"])
    requires resolved == "src/db/models/Friend"
    ensures ResolvePath(root, file, spec) == resolved
  {
    var kept := ["src", "db", "models", "Friend"];
    InvoiceLayout(file, Split(spec, '/'), n, names, kept);
    ResolveClimb(root, file, spec, n, names);
    FriendJoined(kept, resolved);
  }

  /** The first end-to-end case: in `src/modules/billing/ui/Invoice.tsx`, the specifier
      `../../../db/models/Friend` (given by its `/`-segments) resolves to
      `src/db/models/Friend` and becomes `@/db/models/Friend`. */
  lemma InvoiceImportRewritten(root: seq<string>, table: seq<AliasRule>, file: seq<string>, spec: string)
    requires table == Table
    requires file == ["src", "modules", "billing", "ui", "Invoice.tsx"]
    requires Split(spec, '/') == ["..", "..", "..", "db", "models", "Friend"]
    ensures ResolvePath(root, file, spec) == "src/db/models/Friend"
    ensures Rewritten(root, table, file, spec) == Some("@/db/models/Friend")
  {
    InvoiceResolves(root, file, spec, 3, ["db", "models", "Friend"], "src/db/models/Friend");
    ClimbsTwice(spec);
    ClimbIsRelative(spec);
    DbFriendDecided(table, spec, "src/db/models/Friend", "@/db/models/Friend");
  }

  /** A specifier that climbs to the root and names `src/` explicitly,
      `../../../../src/db/models/Friend`, resolves to the same place and is rewritten the
      same way. */
  lemma SrcImportRewritten(root: seq<string>, table: seq<AliasRule>, file: seq<string>, spec: string)
    requires table == Table
    requires file == ["src", "modules", "billing", "ui", "Invoice.tsx"]
    requires Split(spec, '/') == ["..", "..", "..", "..", "src", "db", "models", "Friend"]
    ensures ResolvePath(root, file, spec) == "src/db/models/Friend"
    ensures Rewritten(root, table, file, spec) == Some("@/db/models/Friend")
  {
    InvoiceResolves(root, file, spec, 4, ["src", "db", "models", "Friend"], "src/db/models/Friend");
    ClimbsTwice(spec);
    ClimbIsRelative(spec);
    DbFriendDecided(table, spec, "src/db/models/Friend", "@/db/models/Friend");
  }

  /** The `replacer`: the occurrence with its specifier replaced when the rule accepts it,
      otherwise unchanged. */
  function ReplaceOccurrence(root: seq<string>, table: seq<AliasRule>, file: seq<string>, o: Occurrence): Occurrence
  {
    match Rewritten(root, table, file, o.spec)
    case None => o
    case Some(aliased) => o.(spec := aliased)
  }

  function RewriteChunk(root: seq<string>, table: seq<AliasRule>, file: seq<string>, c: Chunk): Chunk
  {
    match c
    case Literal(_) => c
    case Occ(o) => Occ(ReplaceOccurrence(root, table, file, o))
  }

  /** Whether the chunk is an occurrence that the rule rewrites. */
  predicate Accepted(root: seq<string>, table: seq<AliasRule>, file: seq<string>, c: Chunk)
  {
    c.Occ? && Rewritten(root, table, file, c.occ.spec).Some?
  }

  /** `IMPORT_REGEX.sub(replacer, content)` on a scanned buffer: only specifiers change;
      literal text, keyword, bindings and quotes stay exactly as they were. */
  function RewriteBuffer(root: seq<string>, table: seq<AliasRule>, file: seq<string>, buf: seq<Chunk>): (r: seq<Chunk>)
    ensures |r| == |buf|
    ensures forall k :: 0 <= k < |buf| && buf[k].Literal? ==> r[k] == buf[k]
    ensures forall k :: 0 <= k < |buf| && buf[k].Occ? ==>
              r[k].Occ? && r[k].occ.kind == buf[k].occ.kind &&
              r[k].occ.prefix == buf[k].occ.prefix && r[k].occ.suffix == buf[k].occ.suffix
    ensures forall k :: 0 <= k < |buf| && !Accepted(root, table, file, buf[k]) ==> r[k] == buf[k]
    ensures forall k :: 0 <= k < |buf| && Accepted(root, table, file, buf[k]) ==>
              r[k].occ.spec == Rewritten(root, table, file, buf[k].occ.spec).value
  {
    seq(|buf|, k requires 0 <= k < |buf| => RewriteChunk(root, table, file, buf[k]))
  }

  /** With a sigilled table, a rewritten specifier begins with `@/`. */
  lemma RewrittenSigilled(root: seq<string>, table: seq<AliasRule>, file: seq<string>, path: string)
    requires Sigilled(table)
    requires Rewritten(root, table, file, path).Some?
    ensures StartsWith(Rewritten(root, table, file, path).value, "@/")
  {
    RewriteDecision(root, table, file, path);
    var a := GetAlias(table, ResolvePath(root, file, path));
    var resolved := ResolvePath(root, file, path);
    var i :| IsFirstMatch(table, resolved, i) && a.value == table[i].alias + resolved[|table[i].source|..];
    assert StartsWith(table[i].alias, "@/");
    assert a.value[..2] == table[i].alias[..2];
  }

  /** A specifier that does not begin with `.` is never rewritten. */
  lemma NonRelativeKept(root: seq<string>, table: seq<AliasRule>, file: seq<string>, path: string)
    requires !StartsWith(path, ".")
    ensures Rewritten(root, table, file, path) == None
  {
  }

  lemma RewriteChunkIdempotent(root: seq<string>, table: seq<AliasRule>, file: seq<string>, c: Chunk)
    requires Sigilled(table)
    ensures RewriteChunk(root, table, file, RewriteChunk(root, table, file, c)) == RewriteChunk(root, table, file, c)
  {
    if c.Occ? {
      var o := c.occ;
      var r := Rewritten(root, table, file, o.spec);
      if r.Some? {
        var a := r.value;
        RewrittenSigilled(root, table, file, o.spec);
        StartsWithHead(a, "@/");
        assert "@/"[0] == '@';
        NonRelativeKept(root, table, file, a);
        var o' := o.(spec := a);
        assert RewriteChunk(root, table, file, c) == Occ(o');
        assert ReplaceOccurrence(root, table, file, o') == o';
      } else {
        assert RewriteChunk(root, table, file, c) == c;
      }
    }
  }

  /** Idempotence: once rewritten, a buffer is left alone by a second pass, because every
      alias begins with `@/` and only specifiers beginning with `.` are considered. */
  lemma RewriteIdempotent(root: seq<string>, table: seq<AliasRule>, file: seq<string>, buf: seq<Chunk>)
    requires Sigilled(table)
    ensures RewriteBuffer(root, table, file, RewriteBuffer(root, table, file, buf))
            == RewriteBuffer(root, table, file, buf)
  {
    var once := RewriteBuffer(root, table, file, buf);
    var twice := RewriteBuffer(root, table, file, once);
    forall k | 0 <= k < |buf|
      ensures twice[k] == once[k]
    {
      RewriteChunkIdempotent(root, table, file, buf[k]);
      assert once[k] == RewriteChunk(root, table, file, buf[k]);
      assert twice[k] == RewriteChunk(root, table, file, once[k]);
    }
  }

  lemma {:induction false} RenderAppend(a: seq<Chunk>, b: seq<Chunk>)
    ensures Render(a + b) == Render(a) + Render(b)
    decreases |b|
  {
    if |b| == 0 {
      assert a + b == a;
    } else {
      var b', x := b[..|b| - 1], b[|b| - 1];
      assert (a + b)[..|a + b| - 1] == a + b';
      assert (a + b)[|a + b| - 1] == x;
      assert Render(a + b) == Render(a + b') + ChunkText(x);
      RenderAppend(a, b');
      assert Render(b) == Render(b') + ChunkText(x);
    }
  }

  /** A buffer splits around any chunk. */
  lemma RenderAround(buf: seq<Chunk>, k: nat)
    requires k < |buf|
    ensures Render(buf) == Render(buf[..k]) + ChunkText(buf[k]) + Render(buf[k + 1..])
  {
    var pre, post := buf[..k + 1], buf[k + 1..];
    assert buf == pre + post;
    RenderAppend(pre, post);
    assert pre[..k] == buf[..k];
    assert Render(pre) == Render(buf[..k]) + ChunkText(buf[k]);
  }

  /** Two buffers that agree up to an occurrence whose specifiers begin differently
      render to different texts. */
  lemma RenderDiffers(buf: seq<Chunk>, out: seq<Chunk>, k: nat)
    requires k < |buf| && k < |out| && out[..k] == buf[..k]
    requires buf[k].Occ? && out[k].Occ? && buf[k].occ.prefix == out[k].occ.prefix
    requires |buf[k].occ.spec| > 0 && |out[k].occ.spec| > 0
    requires buf[k].occ.spec[0] != out[k].occ.spec[0]
    ensures Render(out) != Render(buf)
  {
    RenderAround(buf, k);
    RenderAround(out, k);
    var o, o' := buf[k].occ, out[k].occ;
    var m := |Render(buf[..k])| + |o.prefix|;
    assert Render(buf)[m] == o.spec[0];
    assert Render(out)[m] == o'.spec[0];
  }

  lemma UnchangedWhenNoneAccepted(root: seq<string>, table: seq<AliasRule>, file: seq<string>, buf: seq<Chunk>)
    requires forall k :: 0 <= k < |buf| ==> !Accepted(root, table, file, buf[k])
    ensures RewriteBuffer(root, table, file, buf) == buf
  {
  }

  lemma ChangedAtFirstAccepted(root: seq<string>, table: seq<AliasRule>, file: seq<string>, buf: seq<Chunk>, k: nat)
    requires Sigilled(table)
    requires k < |buf| && Accepted(root, table, file, buf[k])
    requires forall j :: 0 <= j < k ==> !Accepted(root, table, file, buf[j])
    ensures Render(RewriteBuffer(root, table, file, buf)) != Render(buf)
  {
    var out := RewriteBuffer(root, table, file, buf);
    assert out[..k] == buf[..k];
    var o := buf[k].occ;
    var a := Rewritten(root, table, file, o.spec).value;
    assert out[k].occ.spec == a;
    RewrittenSigilled(root, table, file, o.spec);
    StartsWithHead(a, "@/");
    RewriteDecision(root, table, file, o.spec);
    StartsWithHead(o.spec, ".");
    assert "@/"[0] == '@' && "."[0] == '.';
    RenderDiffers(buf, out, k);
  }

  /** The write condition: with a sigilled table, the rewritten text differs from the original
      exactly when at least one occurrence was rewritten. */
  lemma ChangedIffRewritten(root: seq<string>, table: seq<AliasRule>, file: seq<string>, buf: seq<Chunk>)
    requires Sigilled(table)
    ensures Render(RewriteBuffer(root, table, file, buf)) != Render(buf) <==>
              exists k :: 0 <= k < |buf| && Accepted(root, table, file, buf[k])
  {
    if exists k :: 0 <= k < |buf| && Accepted(root, table, file, buf[k]) {
      var k0 :| 0 <= k0 < |buf| && Accepted(root, table, file, buf[k0]);
      FirstAccepted(root, table, file, buf, k0);
      var k :| 0 <= k < |buf| && Accepted(root, table, file, buf[k]) &&
               forall j :: 0 <= j < k ==> !Accepted(root, table, file, buf[j]);
      ChangedAtFirstAccepted(root, table, file, buf, k);
    } else {
      UnchangedWhenNoneAccepted(root, table, file, buf);
    }
  }

  lemma {:induction false} FirstAccepted(root: seq<string>, table: seq<AliasRule>, file: seq<string>, buf: seq<Chunk>, k: int)
    requires 0 <= k < |buf| && Accepted(root, table, file, buf[k])
    ensures exists i :: 0 <= i < |buf| && Accepted(root, table, file, buf[i]) &&
              forall j :: 0 <= j < i ==> !Accepted(root, table, file, buf[j])
    decreases k
  {
    if exists j :: 0 <= j < k && Accepted(root, table, file, buf[j]) {
      var j :| 0 <= j < k && Accepted(root, table, file, buf[j]);
      FirstAccepted(root, table, file, buf, j);
    }
  }

  /** `process_file` without the file system: rewrite every occurrence, and write the file
      only when the new text differs from the old. */
  method ProcessFile(root: seq<string>, table: seq<AliasRule>, file: seq<string>, buf: seq<Chunk>)
    returns (newContent: string, write: bool)
    ensures newContent == Render(RewriteBuffer(root, table, file, buf))
    ensures write <==> newContent != Render(buf)
    ensures Sigilled(table) ==>
              (write <==> exists k :: 0 <= k < |buf| && Accepted(root, table, file, buf[k]))
  {
    ghost var out := RewriteBuffer(root, table, file, buf);
    var content := "";
    newContent := "";
    var i := 0;
    while i < |buf|
      invariant 0 <= i <= |buf|
      invariant content == Render(buf[..i])
      invariant newContent == Render(out[..i])
    {
      var c := buf[i];
      var r := RewriteChunk(root, table, file, c);
      assert buf[..i + 1][..i] == buf[..i];
      assert out[..i + 1][..i] == out[..i];
      content := content + ChunkText(c);
      newContent := newContent + ChunkText(r);
      i := i + 1;
    }
    assert buf[..i] == buf && out[..i] == out;
    write := newContent != content;
    if Sigilled(table) {
      ChangedIffRewritten(root, table, file, buf);
    }
  }
}
