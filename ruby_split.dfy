/**
 * Ruby's `String#split` with a one-character separator, and `Array#first` /
 * `Array#last`, as the database formatter uses them on the `pqdb` attribute.
 *
 * `Fields` cuts a string at every separator and keeps every field, empty ones
 * included. Ruby's `split` then drops the empty fields at the end, so that
 * `"".split('@')` and `"@@".split('@')` are `[]`, `"@b".split('@')` is
 * `["", "b"]` and `"a@b@@".split('@')` is `["a", "b"]`.
 */
module RubySplit {
  import opened Wrappers

  predicate StartsWith(s: string, prefix: string) {
    |prefix| <= |s| && s[..|prefix|] == prefix
  }

  predicate EndsWith(s: string, suffix: string) {
    |suffix| <= |s| && s[|s| - |suffix|..] == suffix
  }

  /** Every character of `s` is the separator (true of the empty string). */
  predicate AllSep(s: string, c: char) {
    forall i :: 0 <= i < |s| ==> s[i] == c
  }

  /** `fs.join(c)`: the fields glued together with one separator between two fields. */
  function Join(fs: seq<string>, c: char): string {
    if fs == [] then []
    else if |fs| == 1 then fs[0]
    else fs[0] + [c] + Join(fs[1..], c)
  }

  /** All fields of `s` between separators, empty ones included. */
  function Fields(s: string, c: char): (r: seq<string>)
    ensures |r| >= 1
    ensures forall i :: 0 <= i < |r| ==> c !in r[i]
    ensures Join(r, c) == s
  {
    if s == [] then [[]]
    else
      var rest := Fields(s[1..], c);
      if s[0] == c then
        assert ([[]] + rest)[1..] == rest;
        [[]] + rest
      else
        var r := [[s[0]] + rest[0]] + rest[1..];
        assert r[1..] == rest[1..];
        r
  }

  /** Removes the empty fields at the end of `fs`. */
  function DropTrailingEmpty(fs: seq<string>): (r: seq<string>)
    ensures r <= fs
    ensures r == [] || r[|r| - 1] != []
    ensures forall i :: |r| <= i < |fs| ==> fs[i] == []
  {
    if fs == [] then []
    else if fs[|fs| - 1] == [] then DropTrailingEmpty(fs[..|fs| - 1])
    else fs
  }

  /** Ruby's `s.split(c)` for a one-character separator `c` other than a space. */
  function Split(s: string, c: char): (r: seq<string>)
    ensures forall i :: 0 <= i < |r| ==> c !in r[i]
    ensures r == [] || r[|r| - 1] != []
  {
    DropTrailingEmpty(Fields(s, c))
  }

  /** Ruby's `Array#first`: `nil` on an empty array. */
  function First(xs: seq<string>): (r: Option<string>)
    ensures r.None? <==> xs == []
    ensures r.Some? ==> r.value == xs[0]
  {
    if xs == [] then None else Some(xs[0])
  }

  /** Ruby's `Array#last`: `nil` on an empty array. */
  function Last(xs: seq<string>): (r: Option<string>)
    ensures r.None? <==> xs == []
    ensures r.Some? ==> r.value == xs[|xs| - 1]
  {
    if xs == [] then None else Some(xs[|xs| - 1])
  }

  // Reference definitions, each described by its contract alone.

  /** The longest prefix of `s` without the separator. */
  function TakeUntil(s: string, c: char): (r: string)
    ensures |r| <= |s| && r == s[..|r|]
    ensures c !in r
    ensures |r| < |s| ==> s[|r|] == c
  {
    if s == [] || s[0] == c then [] else [s[0]] + TakeUntil(s[1..], c)
  }

  /** The longest suffix of `s` without the separator. */
  function AfterLast(s: string, c: char): (r: string)
    ensures |r| <= |s| && r == s[|s| - |r|..]
    ensures c !in r
    ensures |r| < |s| ==> s[|s| - |r| - 1] == c
  {
    if s == [] || s[|s| - 1] == c then []
    else AfterLast(s[..|s| - 1], c) + [s[|s| - 1]]
  }

  /** `s` without the separators at its end. */
  function TrimTrailing(s: string, c: char): (r: string)
    ensures |r| <= |s| && r == s[..|r|]
    ensures forall i :: |r| <= i < |s| ==> s[i] == c
    ensures r == [] || r[|r| - 1] != c
  {
    if s != [] && s[|s| - 1] == c then TrimTrailing(s[..|s| - 1], c) else s
  }

  /** The first cut of `s` at a separator: what comes before it and what after. */
  function CutAt(s: string, c: char): (r: Option<(string, string)>)
    ensures r.None? <==> c !in s
    ensures r.Some? ==> c !in r.value.0 && s == r.value.0 + [c] + r.value.1
  {
    if c in s then
      var h := TakeUntil(s, c);
      assert |h| < |s|;
      Some((h, s[|h| + 1..]))
    else None
  }

  // Lemmas.

  /** The text before the first separator of `a + [c] + b`, where `a` has no separator, is `a`. */
  lemma {:induction false} TakeUntilJoin(a: string, b: string, c: char)
    requires c !in a
    ensures TakeUntil(a + [c] + b, c) == a
  {
    if a != [] {
      assert (a + [c] + b)[1..] == a[1..] + [c] + b;
      TakeUntilJoin(a[1..], b, c);
    }
  }

  /** Cutting a string built as `a + [c] + b`, where `a` has no separator, gives back `a` and `b`. */
  lemma CutAtJoin(a: string, b: string, c: char)
    requires c !in a
    ensures CutAt(a + [c] + b, c) == Some((a, b))
  {
    var s := a + [c] + b;
    assert s[|a|] == c;
    TakeUntilJoin(a, b, c);
    assert s[|a| + 1..] == b;
  }

  /** A prefix without separators joins the first field of what follows it. */
  lemma {:induction false} FieldsPrefix(x: string, t: string, c: char)
    requires c !in x
    ensures Fields(x + t, c) == [x + Fields(t, c)[0]] + Fields(t, c)[1..]
  {
    if x == [] {
      assert x + t == t;
      assert x + Fields(t, c)[0] == Fields(t, c)[0];
      assert [Fields(t, c)[0]] + Fields(t, c)[1..] == Fields(t, c);
    } else {
      assert (x + t)[0] == x[0];
      assert (x + t)[1..] == x[1..] + t;
      FieldsPrefix(x[1..], t, c);
      assert [x[0]] + (x[1..] + Fields(t, c)[0]) == x + Fields(t, c)[0];
    }
  }

  /** A string without separators is a single field. */
  lemma NoSepFields(x: string, c: char)
    requires c !in x
    ensures Fields(x, c) == [x]
  {
    FieldsPrefix(x, [], c);
    assert x + [] == x;
  }

  /** Fields are the unique separator-free decomposition: splitting a join gives the fields back. */
  lemma {:induction false} FieldsOfJoin(fs: seq<string>, c: char)
    requires |fs| >= 1
    requires forall i :: 0 <= i < |fs| ==> c !in fs[i]
    ensures Fields(Join(fs, c), c) == fs
  {
    if |fs| == 1 {
      NoSepFields(fs[0], c);
    } else {
      var rest := fs[1..];
      FieldsOfJoin(rest, c);
      var u := Join(rest, c);
      assert Join(fs, c) == fs[0] + ([c] + u);
      FieldsPrefix(fs[0], [c] + u, c);
      assert ([c] + u)[1..] == u;
      assert Fields([c] + u, c) == [[]] + Fields(u, c);
      assert fs[0] + [] == fs[0];
      assert fs == [fs[0]] + rest;
    }
  }

  /** The effect of appending `x` on a list of fields: a separator opens a new empty field, anything else extends the last one. */
  function AppendToFields(f: seq<string>, x: char, c: char): seq<string>
    requires |f| >= 1
  {
    if x == c then f + [[]] else f[..|f| - 1] + [f[|f| - 1] + [x]]
  }

  /** The step `Fields` takes on a leading character. */
  function ConsToFields(y: char, f: seq<string>, c: char): seq<string>
    requires |f| >= 1
  {
    if y == c then [[]] + f else [[y] + f[0]] + f[1..]
  }

  /** Appending at the end commutes with the step `Fields` takes on a leading separator. */
  lemma AppendConsSepCommute(f: seq<string>, x: char, c: char)
    requires |f| >= 1
    ensures ConsToFields(c, AppendToFields(f, x, c), c) == AppendToFields(ConsToFields(c, f, c), x, c)
  {
    var g := [[]] + f;
    assert ConsToFields(c, f, c) == g;
    if x == c {
      assert ConsToFields(c, f + [[]], c) == [[]] + (f + [[]]);
    } else {
      var r := f[..|f| - 1] + [f[|f| - 1] + [x]];
      assert ConsToFields(c, r, c) == [[]] + r;
      assert g[..|g| - 1] == [[]] + f[..|f| - 1];
      assert g[|g| - 1] == f[|f| - 1];
    }
  }

  /** Appending at the end commutes with the step `Fields` takes on a leading non-separator. */
  lemma AppendConsCharCommute(y: char, f: seq<string>, x: char, c: char)
    requires |f| >= 1 && y != c
    ensures |AppendToFields(f, x, c)| >= 1
    ensures ConsToFields(y, AppendToFields(f, x, c), c) == AppendToFields(ConsToFields(y, f, c), x, c)
  {
    var g := [[y] + f[0]] + f[1..];
    assert ConsToFields(y, f, c) == g;
    if x == c {
      var r := f + [[]];
      assert r[0] == f[0] && r[1..] == f[1..] + [[]];
      assert ConsToFields(y, r, c) == g + [[]];
    } else if |f| == 1 {
      var r := [f[0] + [x]];
      assert AppendToFields(f, x, c) == r;
      assert g == [[y] + f[0]];
      assert [y] + (f[0] + [x]) == ([y] + f[0]) + [x];
    } else {
      var r := f[..|f| - 1] + [f[|f| - 1] + [x]];
      assert r[0] == f[0];
      assert r[1..] == f[1..|f| - 1] + [f[|f| - 1] + [x]];
      assert g[..|g| - 1] == [[y] + f[0]] + f[1..|f| - 1];
      assert g[|g| - 1] == f[|f| - 1];
    }
  }

  /** How appending one character changes the fields. */
  lemma {:induction false} FieldsSnoc(t: string, x: char, c: char)
    ensures Fields(t + [x], c) == AppendToFields(Fields(t, c), x, c)
  {
    var s := t + [x];
    if t == [] {
      assert s == [x];
      assert s[1..] == [];
    } else {
      var t' := t[1..];
      assert s[0] == t[0];
      assert s[1..] == t' + [x];
      FieldsSnoc(t', x, c);
      assert Fields(s, c) == ConsToFields(t[0], Fields(t' + [x], c), c);
      assert Fields(t, c) == ConsToFields(t[0], Fields(t', c), c);
      if t[0] == c {
        AppendConsSepCommute(Fields(t', c), x, c);
      } else {
        AppendConsCharCommute(t[0], Fields(t', c), x, c);
      }
    }
  }

  /** The last field is what follows the last separator. */
  lemma {:induction false} FieldsLast(s: string, c: char)
    ensures Fields(s, c)[|Fields(s, c)| - 1] == AfterLast(s, c)
    decreases |s|
  {
    if s != [] {
      var t := s[..|s| - 1];
      assert s == t + [s[|s| - 1]];
      FieldsSnoc(t, s[|s| - 1], c);
      FieldsLast(t, c);
    }
  }

  /** The first field is what precedes the first separator. */
  lemma {:induction false} FieldsHead(s: string, c: char)
    ensures Fields(s, c)[0] == TakeUntil(s, c)
  {
    if s != [] {
      FieldsHead(s[1..], c);
    }
  }

  /** An empty field at the end is dropped by `split`. */
  lemma DropTrailingEmptySnoc(f: seq<string>)
    ensures DropTrailingEmpty(f + [[]]) == DropTrailingEmpty(f)
  {
    assert (f + [[]])[..|f|] == f;
  }

  /** Ruby's split is the list of all fields of the string once its trailing separators are gone. */
  lemma {:induction false} SplitIsFieldsOfTrimmed(s: string, c: char)
    ensures var t := TrimTrailing(s, c);
      Split(s, c) == if t == [] then [] else Fields(t, c)
    decreases |s|
  {
    if s != [] {
      var t := s[..|s| - 1];
      var x := s[|s| - 1];
      assert s == t + [x];
      if x == c {
        FieldsSnoc(t, x, c);
        assert Fields(s, c) == Fields(t, c) + [[]];
        DropTrailingEmptySnoc(Fields(t, c));
        SplitIsFieldsOfTrimmed(t, c);
      } else {
        FieldsLast(s, c);
        assert TrimTrailing(s, c) == s;
      }
    }
  }

  /** Trimming the trailing separators leaves nothing exactly when the string is all separators. */
  lemma TrimEmptyIff(s: string, c: char)
    ensures TrimTrailing(s, c) == [] <==> AllSep(s, c)
  {
    var t := TrimTrailing(s, c);
    if t != [] {
      assert t[|t| - 1] == s[|t| - 1];
    }
  }

  /** `split` yields no field exactly when the string is empty or all separators. */
  lemma SplitEmptyIff(s: string, c: char)
    ensures Split(s, c) == [] <==> AllSep(s, c)
  {
    SplitIsFieldsOfTrimmed(s, c);
    TrimEmptyIff(s, c);
  }

  /** `split(c).first` is `nil` for an empty or all-separator string, and otherwise the text before the first separator (the whole string when there is none). */
  lemma SplitFirst(s: string, c: char)
    ensures First(Split(s, c)) == if AllSep(s, c) then None else Some(TakeUntil(s, c))
  {
    SplitEmptyIff(s, c);
    FieldsHead(s, c);
  }

  /** `split(c).last` is `nil` for an empty or all-separator string, and otherwise the text after the last separator once the trailing separators are trimmed. */
  lemma SplitLast(s: string, c: char)
    ensures Last(Split(s, c)) ==
      if AllSep(s, c) then None else Some(AfterLast(TrimTrailing(s, c), c))
  {
    var t := TrimTrailing(s, c);
    TrimEmptyIff(s, c);
    SplitIsFieldsOfTrimmed(s, c);
    if t != [] {
      FieldsLast(t, c);
    }
  }

  /** Round trip: separator-free fields whose last one is not empty come back from `join` then `split`. */
  lemma SplitJoin(fs: seq<string>, c: char)
    requires |fs| >= 1 && fs[|fs| - 1] != []
    requires forall i :: 0 <= i < |fs| ==> c !in fs[i]
    ensures Split(Join(fs, c), c) == fs
  {
    FieldsOfJoin(fs, c);
  }

  /** Round trip the other way: joining what `split` returns rebuilds the string up to its trailing separators. */
  lemma JoinSplit(s: string, c: char)
    ensures Join(Split(s, c), c) == TrimTrailing(s, c)
  {
    SplitIsFieldsOfTrimmed(s, c);
  }

  /** A non-empty string without separators splits into itself alone. */
  lemma SplitNoSep(s: string, c: char)
    requires s != [] && c !in s
    ensures Split(s, c) == [s]
  {
    NoSepFields(s, c);
    assert s[|s| - 1] in s;
  }
}
