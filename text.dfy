/** The few Python `str` operations the three scripts rely on, over `seq<char>`. */
module Text {
  import opened Wrappers

  /** `s.startswith(p)` */
  predicate StartsWith(s: string, p: string) {
    |p| <= |s| && s[..|p|] == p
  }

  /** One differing character rules a prefix out. */
  lemma NotPrefixAt(s: string, p: string, k: nat)
    requires k < |s| && k < |p| && s[k] != p[k]
    ensures !StartsWith(s, p) && s != p
  {
  }

  lemma StartsWithHead(s: string, p: string)
    requires StartsWith(s, p) && |p| > 0
    ensures |s| > 0 && s[0] == p[0]
  {
    assert s[..|p|][0] == s[0];
  }

  /** `s.endswith(p)` */
  predicate EndsWith(s: string, p: string) {
    |p| <= |s| && s[|s| - |p|..] == p
  }

  /** `s.find(p)`: the index of the leftmost occurrence of `p` in `s`, if any. */
  function IndexOf(s: string, p: string): (r: Option<nat>)
    ensures r.Some? ==> r.value + |p| <= |s| && StartsWith(s[r.value..], p)
    ensures r.Some? ==> forall j :: 0 <= j < r.value ==> !StartsWith(s[j..], p)
    ensures r.None? ==> forall j :: 0 <= j <= |s| ==> !StartsWith(s[j..], p)
    decreases |s|
  {
    if StartsWith(s, p) then Some(0)
    else if |s| == 0 then None
    else
      match IndexOf(s[1..], p)
      case None =>
        assert forall j :: 1 <= j <= |s| ==> s[j..] == s[1..][j - 1..];
        None
      case Some(i) =>
        assert forall j :: 1 <= j <= i + 1 ==> s[j..] == s[1..][j - 1..];
        assert s[i + 1..] == s[1..][i..];
        Some(i + 1)
  }

  /** Python's `p in s` for strings: `p` starts at some position of `s`. */
  predicate Contains(s: string, p: string)
    decreases |s|
  {
    StartsWith(s, p) || (|s| > 0 && Contains(s[1..], p))
  }

  lemma {:induction false} ContainsAt(s: string, p: string, i: nat)
    requires i + |p| <= |s| && s[i..i + |p|] == p
    ensures Contains(s, p)
    decreases i
  {
    if i > 0 {
      assert s[1..][i - 1..i - 1 + |p|] == s[i..i + |p|];
      ContainsAt(s[1..], p, i - 1);
    }
  }

  /** A text shorter than `p` cannot contain it. */
  lemma {:induction false} ShortNotContains(s: string, p: string)
    requires |s| < |p|
    ensures !Contains(s, p)
    decreases |s|
  {
    if |s| > 0 {
      ShortNotContains(s[1..], p);
    }
  }

  /** A text that lacks one of the characters of `p` does not contain `p`. */
  lemma {:induction false} MissingCharNotContains(s: string, p: string, k: nat)
    requires k < |p| && p[k] !in s
    ensures !Contains(s, p)
    decreases |s|
  {
    if |s| > 0 {
      assert |p| <= |s| ==> p[k] != s[..|p|][k];
      MissingCharNotContains(s[1..], p, k);
    }
  }

  lemma PrefixContains(s: string, p: string)
    requires StartsWith(s, p)
    ensures Contains(s, p)
  {
    ContainsAt(s, p, 0);
  }

  /** `p in s` holds exactly when `s.find(p)` finds something. */
  lemma {:induction false} ContainsIffFound(s: string, p: string)
    ensures Contains(s, p) <==> IndexOf(s, p).Some?
    decreases |s|
  {
    if !StartsWith(s, p) && |s| > 0 {
      ContainsIffFound(s[1..], p);
    }
  }

  /** `s.replace(target, replacement, 1)`: only the leftmost occurrence is replaced. */
  function ReplaceFirst(s: string, target: string, replacement: string): string {
    match IndexOf(s, target)
    case None => s
    case Some(i) => s[..i] + replacement + s[i + |target|..]
  }

  /** When `s` already begins with `target`, replacing the first occurrence swaps that prefix. */
  lemma ReplaceFirstAtPrefix(s: string, target: string, replacement: string)
    requires StartsWith(s, target)
    ensures ReplaceFirst(s, target, replacement) == replacement + s[|target|..]
  {
  }

  /** `s.split(c)` for a one-character separator: never empty, separators removed. */
  function Split(s: string, c: char): (r: seq<string>)
    ensures |r| >= 1
    ensures forall k :: 0 <= k < |r| ==> c !in r[k]
    decreases |s|
  {
    if |s| == 0 then [""]
    else if s[0] == c then [""] + Split(s[1..], c)
    else
      var rest := Split(s[1..], c);
      [[s[0]] + rest[0]] + rest[1..]
  }

  /** `sep.join(parts)` */
  function Join(parts: seq<string>, sep: char): string
    decreases |parts|
  {
    if |parts| == 0 then ""
    else if |parts| == 1 then parts[0]
    else parts[0] + [sep] + Join(parts[1..], sep)
  }

  /** Splitting a text whose first field is `p` peels `p` off. */
  lemma {:induction false} SplitCons(p: string, c: char, t: string)
    requires c !in p
    ensures Split(p + [c] + t, c) == [p] + Split(t, c)
    decreases |p|
  {
    if |p| == 0 {
      assert p + [c] + t == [c] + t;
      assert ([c] + t)[1..] == t;
    } else {
      assert (p + [c] + t)[1..] == p[1..] + [c] + t;
      SplitCons(p[1..], c, t);
      assert [p[0]] + p[1..] == p;
    }
  }

  /** A text without the separator is one field. */
  lemma {:induction false} SplitNone(s: string, c: char)
    requires c !in s
    ensures Split(s, c) == [s]
    decreases |s|
  {
    if |s| > 0 {
      SplitNone(s[1..], c);
      assert [s[0]] + s[1..] == s;
    }
  }

  /** Splitting a join gives the parts back, when no part holds the separator. */
  lemma {:induction false} SplitJoin(s: string, parts: seq<string>, c: char)
    requires |parts| >= 1
    requires forall k :: 0 <= k < |parts| ==> c !in parts[k]
    requires s == Join(parts, c)
    ensures Split(s, c) == parts
    decreases |parts|
  {
    if |parts| == 1 {
      SplitNone(parts[0], c);
    } else {
      SplitJoin(Join(parts[1..], c), parts[1..], c);
      SplitCons(parts[0], c, Join(parts[1..], c));
      assert [parts[0]] + parts[1..] == parts;
    }
  }

  /** The first field of `s`: the text before the first `c`, or all of `s`. */
  function Field(s: string, c: char): (r: string)
    ensures c !in r
    ensures StartsWith(s, r)
    ensures |r| < |s| ==> s[|r|] == c
    decreases |s|
  {
    if |s| == 0 || s[0] == c then "" else [s[0]] + Field(s[1..], c)
  }

  lemma {:induction false} SplitFirstIsField(s: string, c: char)
    ensures Split(s, c)[0] == Field(s, c)
    decreases |s|
  {
    if |s| > 0 && s[0] != c {
      SplitFirstIsField(s[1..], c);
    }
  }

  /** The first field of a text whose first separator follows `p` is `p`. */
  lemma {:induction false} FieldCons(p: string, c: char, t: string)
    requires c !in p
    ensures Field(p + [c] + t, c) == p
    decreases |p|
  {
    if |p| == 0 {
      assert (p + [c] + t)[0] == c;
    } else {
      assert (p + [c] + t)[1..] == p[1..] + [c] + t;
      FieldCons(p[1..], c, t);
      assert [p[0]] + p[1..] == p;
    }
  }

  /** A text holding the separator splits as: its first field, the separator, the rest. */
  lemma FieldSplitsAt(s: string, c: char)
    requires c in s
    ensures |Field(s, c)| < |s|
    ensures s == Field(s, c) + [c] + s[|Field(s, c)| + 1..]
  {
    var r := Field(s, c);
    assert s[..|s|] == s;
  }

  /** A text that splits into two or more fields is its first field, the separator and a
      rest that splits into the remaining fields. */
  lemma SplitMore(s: string, c: char)
    requires |Split(s, c)| >= 2
    ensures |Split(s, c)[0]| < |s|
    ensures s == Split(s, c)[0] + [c] + s[|Split(s, c)[0]| + 1..]
    ensures Split(s[|Split(s, c)[0]| + 1..], c) == Split(s, c)[1..]
  {
    if c !in s {
      SplitNone(s, c);
    }
    FieldSplitsAt(s, c);
    SplitFirstIsField(s, c);
    var f := Field(s, c);
    SplitCons(f, c, s[|f| + 1..]);
  }

  /** `s.replace(pat, '')` for a non-empty `pat`: every non-overlapping occurrence,
      scanning left to right, is removed. */
  function RemoveAll(s: string, pat: string): string
    requires |pat| > 0
    decreases |s|
  {
    if |s| < |pat| then s
    else if s[..|pat|] == pat then RemoveAll(s[|pat|..], pat)
    else [s[0]] + RemoveAll(s[1..], pat)
  }

  /** A text in which `pat` never occurs is left as it is by RemoveAll. */
  lemma {:induction false} RemoveAllAbsent(s: string, pat: string)
    requires |pat| > 0
    requires !Contains(s, pat)
    ensures RemoveAll(s, pat) == s
    decreases |s|
  {
    if |s| >= |pat| {
      assert s[..|pat|] != pat;
      RemoveAllAbsent(s[1..], pat);
      assert [s[0]] + s[1..] == s;
    }
  }
}
