/** The alias table of refactor_imports.py and `get_alias_for_path`, a first-match-wins
    search of an ordered list of (root-relative prefix, alias prefix) rules. */
module Aliases {
  import opened Wrappers
  import opened Text

  datatype AliasRule = AliasRule(source: string, alias: string)

  /** The `ALIASES` table, in its declared order. */
  const Table: seq<AliasRule> := [
    AliasRule("src/modules", "@/modules"),
    AliasRule("src/shared", "@/shared"),
    AliasRule("src/db", "@/db"),
    AliasRule("app", "@/app"),
    AliasRule("src/components", "@/components"),
    AliasRule("src/types", "@/types"),
    AliasRule("src/lib", "@/lib"),
    AliasRule("src/hooks", "@/hooks"),
    AliasRule("src/stores", "@/stores"),
    AliasRule("src/context", "@/context"),
    AliasRule("src/guidelines", "@/guidelines"),
    AliasRule("assets", "@/assets")
  ]

  /** Every alias of a table begins with the `@/` sigil. */
  predicate Sigilled(table: seq<AliasRule>) {
    forall i :: 0 <= i < |table| ==> StartsWith(table[i].alias, "@/")
  }

  /** A rule applies to the path itself and to everything below it, on a directory boundary. */
  predicate RuleMatches(source: string, path: string) {
    path == source || StartsWith(path, source + "/")
  }

  /** Rule `i` applies and no earlier rule does. */
  predicate IsFirstMatch(table: seq<AliasRule>, path: string, i: int) {
    0 <= i < |table| && RuleMatches(table[i].source, path) &&
    forall j :: 0 <= j < i ==> !RuleMatches(table[j].source, path)
  }

  /** `get_alias_for_path`: the first applicable rule, in table order, replaces its source
      prefix with its alias and keeps the rest of the path; no applicable rule gives None. */
  function GetAlias(table: seq<AliasRule>, path: string): (r: Option<string>)
    ensures r.None? <==> forall i :: 0 <= i < |table| ==> !RuleMatches(table[i].source, path)
    ensures r.Some? ==> exists i :: IsFirstMatch(table, path, i) &&
                          r.value == table[i].alias + path[|table[i].source|..]
    decreases |table|
  {
    if |table| == 0 then None
    else if RuleMatches(table[0].source, path) then
      assert IsFirstMatch(table, path, 0);
      ReplaceFirstAtPrefix(path, table[0].source, table[0].alias);
      Some(ReplaceFirst(path, table[0].source, table[0].alias))
    else
      var r := GetAlias(table[1..], path);
      assert forall i :: 1 <= i < |table| ==> table[i] == table[1..][i - 1];
      if r.Some? then
        var i :| IsFirstMatch(table[1..], path, i) && r.value == table[1..][i].alias + path[|table[1..][i].source|..];
        assert IsFirstMatch(table, path, i + 1);
        r
      else r
  }

  /** The first match is unique: whichever rule is first to apply decides the result,
      so rules after it are never consulted. */
  lemma {:induction false} FirstMatchDecides(table: seq<AliasRule>, path: string, i: int)
    requires IsFirstMatch(table, path, i)
    ensures GetAlias(table, path) == Some(table[i].alias + path[|table[i].source|..])
  {
    var r := GetAlias(table, path);
    var k :| IsFirstMatch(table, path, k) && r.value == table[k].alias + path[|table[k].source|..];
    assert !(k < i) && !(i < k);
  }

  /** Appending rules to a table that already maps a path does not change its alias. */
  lemma LaterRulesIgnored(table: seq<AliasRule>, more: seq<AliasRule>, path: string)
    requires GetAlias(table, path).Some?
    ensures GetAlias(table + more, path) == GetAlias(table, path)
  {
    var r := GetAlias(table, path);
    var i :| IsFirstMatch(table, path, i) && r.value == table[i].alias + path[|table[i].source|..];
    assert IsFirstMatch(table + more, path, i);
    FirstMatchDecides(table + more, path, i);
  }

  /** The shipped table is sigilled. */
  lemma TableSigilled()
    ensures Sigilled(Table)
  {
  }

  /** Directory boundary: `src/modulesX/a` is not below `src/modules`. */
  lemma NoPartialSegmentMatch()
    ensures !RuleMatches("src/modules", "src/modulesX/a")
  {
    assert "src/modulesX/a"[..12] != "src/modules/" by {
      assert "src/modulesX/a"[11] == 'X';
    }
  }

  /** The first of two overlapping rules wins, even when the later one is more specific. */
  lemma OverlapFirstWins()
    ensures GetAlias([AliasRule("src", "@/src"), AliasRule("src/db", "@/db")], "src/db/x")
            == Some("@/src/db/x")
  {
    var table := [AliasRule("src", "@/src"), AliasRule("src/db", "@/db")];
    assert "src/db/x"[..4] == "src/";
    assert IsFirstMatch(table, "src/db/x", 0);
    FirstMatchDecides(table, "src/db/x", 0);
    assert "src/db/x"[3..] == "/db/x";
    assert GetAlias(table, "src/db/x") == Some(table[0].alias + "src/db/x"[|table[0].source|..]);
    assert table[0].alias + "/db/x" == "@/src/db/x";
  }

  /** Under the shipped table everything at or below `src/db` maps to `@/db`, the rest
      of the path kept (`src/db/models/Friend` becomes `@/db/models/Friend`). The table is
      passed in, equal to `Table`, so that the verifier reasons about it rather than
      unfolding the search over the literal. */
  lemma TableMapsDb(table: seq<AliasRule>, rest: string)
    requires table == Table
    requires rest == "" || StartsWith(rest, "/")
    ensures GetAlias(table, "src/db" + rest) == Some("@/db" + rest)
  {
    var t := table;
    var p := "src/db" + rest;
    assert t[2] == AliasRule("src/db", "@/db");
    assert p[4] == 'd';
    assert !RuleMatches(t[0].source, p) by {
      NotPrefixAt(p, t[0].source + "/", 4);
      NotPrefixAt(p, t[0].source, 4);
    }
    assert !RuleMatches(t[1].source, p) by {
      NotPrefixAt(p, t[1].source + "/", 4);
      NotPrefixAt(p, t[1].source, 4);
    }
    assert RuleMatches(t[2].source, p) by {
      if rest != "" {
        assert p[..7] == "src/db/";
      }
    }
    assert IsFirstMatch(t, p, 2);
    FirstMatchDecides(t, p, 2);
    assert p[6..] == rest;
  }
}
