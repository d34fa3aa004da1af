/** String semantics the pipeline relies on: the code-point order that both
    SQLite's BINARY collation and Python's `str` comparison use, the maximum of a
    nullable text column, `", ".join`, `str.split("T")[0]` and the regular
    expression split `,\s*` of the hourly genre report. */
module Text {
  import opened Common

  /** Lexicographic order by code point; a proper prefix comes first. */
  predicate Less(a: string, b: string)
    decreases |a|
  {
    if |a| == 0 then |b| > 0
    else if |b| == 0 then false
    else if a[0] != b[0] then a[0] < b[0]
    else Less(a[1..], b[1..])
  }

  predicate LessEq(a: string, b: string)
  {
    a == b || Less(a, b)
  }

  lemma {:induction false} LessIrreflexive(a: string)
    ensures !Less(a, a)
    decreases |a|
  {
    if |a| > 0 {
      LessIrreflexive(a[1..]);
    }
  }

  lemma {:induction false} LessTransitive(a: string, b: string, c: string)
    requires Less(a, b) && Less(b, c)
    ensures Less(a, c)
    decreases |a|
  {
    if |a| > 0 && a[0] == b[0] && b[0] == c[0] {
      LessTransitive(a[1..], b[1..], c[1..]);
    }
  }

  lemma {:induction false} LessTrichotomy(a: string, b: string)
    ensures Less(a, b) || a == b || Less(b, a)
    decreases |a|
  {
    if |a| > 0 && |b| > 0 && a[0] == b[0] {
      LessTrichotomy(a[1..], b[1..]);
      if a[1..] == b[1..] {
        assert a == [a[0]] + a[1..] && b == [b[0]] + b[1..];
      }
    }
  }

  lemma {:induction false} LessAsymmetric(a: string, b: string)
    requires Less(a, b)
    ensures !Less(b, a)
    decreases |a|
  {
    if |a| > 0 && a[0] == b[0] {
      LessAsymmetric(a[1..], b[1..]);
    }
  }

  lemma LessEqTransitive(a: string, b: string, c: string)
    requires LessEq(a, b) && LessEq(b, c)
    ensures LessEq(a, c)
  {
    if a != b && b != c {
      LessTransitive(a, b, c);
    }
  }

  lemma LessEqAntisymmetric(a: string, b: string)
    requires LessEq(a, b) && LessEq(b, a)
    ensures a == b
  {
    if a != b {
      LessAsymmetric(a, b);
    }
  }

  /** `MAX(column)` in SQL and `ORDER BY column DESC LIMIT 1`: the largest
      non-NULL value, NULL when there is none. */
  function Greatest(xs: seq<Option<string>>): (r: Option<string>)
    ensures r.None? <==> forall i :: 0 <= i < |xs| ==> xs[i].None?
    ensures r.Some? ==> r in xs
    ensures r.Some? ==> forall i :: 0 <= i < |xs| && xs[i].Some? ==> LessEq(xs[i].value, r.value)
  {
    if |xs| == 0 then None
    else
      var rest := Greatest(xs[1..]);
      assert forall i :: 1 <= i < |xs| ==> xs[i] == xs[1..][i - 1];
      if xs[0].None? then rest
      else if rest.None? then xs[0]
      else
        LessTrichotomy(xs[0].value, rest.value);
        if Less(rest.value, xs[0].value) then
          (forall i | 1 <= i < |xs| && xs[i].Some? ensures LessEq(xs[i].value, xs[0].value) {
             assert xs[1..][i - 1] == xs[i];
             LessEqTransitive(xs[i].value, rest.value, xs[0].value);
           }
           xs[0])
        else rest
  }

  /** Adding rows never lowers the maximum. */
  lemma {:induction false} GreatestMonotone(xs: seq<Option<string>>, ys: seq<Option<string>>)
    requires Greatest(xs).Some?
    ensures Greatest(xs + ys).Some?
    ensures LessEq(Greatest(xs).value, Greatest(xs + ys).value)
  {
    var w := Greatest(xs);
    assert w in xs;
    var k :| 0 <= k < |xs| && xs[k] == w;
    assert (xs + ys)[k] == w;
  }

  /** `sep.join(xs)`. */
  function Join(xs: seq<string>, sep: string): string
  {
    if |xs| == 0 then ""
    else if |xs| == 1 then xs[0]
    else xs[0] + sep + Join(xs[1..], sep)
  }

  /** `s.split(c)[0]`: the part of `s` before the first `c`, all of `s` when
      there is none. */
  function BeforeFirst(s: string, c: char): (r: string)
    ensures |r| <= |s| && r == s[..|r|]
    ensures c !in r
    ensures |r| < |s| ==> s[|r|] == c
  {
    if |s| == 0 then ""
    else if s[0] == c then ""
    else [s[0]] + BeforeFirst(s[1..], c)
  }

  /** The characters Python's `\s` matches in a `str` pattern (`str.isspace`). */
  predicate IsSpace(c: char)
  {
    ('\U{9}' <= c <= '\U{D}') || ('\U{1C}' <= c <= '\U{20}') || c == '\U{85}' || c == '\U{A0}'
    || c == '\U{1680}' || ('\U{2000}' <= c <= '\U{200A}') || c == '\U{2028}' || c == '\U{2029}'
    || c == '\U{202F}' || c == '\U{205F}' || c == '\U{3000}'
  }

  /** What `\s*` consumes: the longest prefix of white space is dropped. */
  function SkipSpace(s: string): (r: string)
    ensures |r| <= |s| && r == s[|s| - |r|..]
    ensures r == [] || !IsSpace(r[0])
    ensures forall i :: 0 <= i < |s| - |r| ==> IsSpace(s[i])
  {
    if |s| > 0 && IsSpace(s[0]) then
      var r := SkipSpace(s[1..]);
      assert forall i :: 1 <= i < |s| - |r| ==> s[1..][i - 1] == s[i];
      r
    else s
  }

  /** Position of the first `c` in `s`. */
  function IndexOf(s: string, c: char): (i: nat)
    requires c in s
    ensures i < |s| && s[i] == c && c !in s[..i]
  {
    if s[0] == c then 0 else 1 + IndexOf(s[1..], c)
  }

  /** `re.split(r",\s*", s)`: the pieces between matches of a comma followed by
      any run of white space. There is always at least one piece. */
  function SplitGenres(s: string): (r: seq<string>)
    ensures |r| >= 1
    ensures forall k :: 0 <= k < |r| ==> ',' !in r[k]
    decreases |s|
  {
    if ',' !in s then [s]
    else
      var i := IndexOf(s, ',');
      [s[..i]] + SplitGenres(SkipSpace(s[i + 1..]))
  }

  /** No genre holds a comma, and none after the first starts with white space. */
  predicate Splittable(gs: seq<string>)
  {
    && (forall k :: 0 <= k < |gs| ==> ',' !in gs[k])
    && (forall k :: 1 <= k < |gs| ==> gs[k] == [] || !IsSpace(gs[k][0]))
  }

  lemma SplittableTail(gs: seq<string>)
    requires |gs| > 1 && Splittable(gs)
    ensures Splittable(gs[1..]) && ',' !in gs[0]
    ensures gs[1] == [] || !IsSpace(gs[1][0])
  {
    assert forall k :: 0 <= k < |gs| - 1 ==> gs[1..][k] == gs[k + 1];
  }

  /** A genre list joined with ", " splits back into the same list, provided no
      genre holds a comma and none after the first starts with white space
      (the split would swallow it). */
  lemma {:induction false} SplitJoinRoundTrip(gs: seq<string>)
    requires |gs| >= 1 && Splittable(gs)
    ensures SplitGenres(Join(gs, ", ")) == gs
  {
    if |gs| > 1 {
      SplittableTail(gs);
      SplitJoinRoundTrip(gs[1..]);
      SplitJoinStep(gs[0], gs[1..]);
      assert gs == [gs[0]] + gs[1..];
    }
  }

  /** One genre in front of a list that already splits back correctly. */
  lemma SplitJoinStep(g: string, rest: seq<string>)
    requires |rest| >= 1 && ',' !in g
    requires rest[0] == [] || !IsSpace(rest[0][0])
    requires SplitGenres(Join(rest, ", ")) == rest
    ensures SplitGenres(Join([g] + rest, ", ")) == [g] + rest
  {
    var gs := [g] + rest;
    var tail := Join(rest, ", ");
    assert gs[0] == g && gs[1..] == rest;
    JoinUnfold(gs);
    SplitAtComma(g, " " + tail);
    SkipLeadingBlank(tail);
    JoinHead(rest);
  }

  lemma JoinUnfold(gs: seq<string>)
    requires |gs| > 1
    ensures Join(gs, ", ") == gs[0] + "," + (" " + Join(gs[1..], ", "))
  {
  }

  lemma SkipLeadingBlank(t: string)
    ensures SkipSpace(" " + t) == SkipSpace(t)
  {
    var s := " " + t;
    assert s[0] == ' ' && IsSpace(s[0]);
    assert s[1..] == t;
  }

  /** The first piece of `a + "," + rest` is `a` when `a` holds no comma. */
  lemma SplitAtComma(a: string, rest: string)
    requires ',' !in a
    ensures SplitGenres(a + "," + rest) == [a] + SplitGenres(SkipSpace(rest))
  {
    var s := a + "," + rest;
    assert s[|a|] == ',';
    assert s[..|a|] == a;
    assert s[|a| + 1..] == rest;
  }

  /** The first character of `", ".join(gs)` is that of the first genre, if any. */
  lemma JoinHead(gs: seq<string>)
    requires |gs| >= 1
    requires gs[0] == [] || !IsSpace(gs[0][0])
    ensures SkipSpace(Join(gs, ", ")) == Join(gs, ", ")
  {
  }
}
