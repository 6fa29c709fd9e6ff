/**
  Python `str` operations used by the tools, over Dafny strings (`seq<char>`):
  character classes, prefix/suffix/substring tests, strip, split/join,
  replace, capitalize and count.
 */
module Text {

  /** Python's `str.isspace()` (also what `\s` matches in a `str` pattern). */
  predicate IsSpace(c: char) {
    ('\t' <= c <= '\r') || ('\U{001C}' <= c <= '\U{001F}') || c == ' ' || c == '\U{0085}' ||
    c == '\U{00A0}' || c == '\U{1680}' || ('\U{2000}' <= c <= '\U{200A}') ||
    c == '\U{2028}' || c == '\U{2029}' || c == '\U{202F}' || c == '\U{205F}' || c == '\U{3000}'
  }

  predicate IsDigit(c: char) { '0' <= c <= '9' }

  predicate IsLetter(c: char) { 'a' <= c <= 'z' || 'A' <= c <= 'Z' }

  /** A character matched by `\w` (ASCII letters, digits and underscore). */
  predicate IsWordChar(c: char) { IsLetter(c) || IsDigit(c) || c == '_' }

  /** A non-empty run of `\w` characters: what `\w+` captures. */
  predicate IsWord(s: string) {
    |s| > 0 && forall i :: 0 <= i < |s| ==> IsWordChar(s[i])
  }

  predicate HasSpace(s: string) {
    exists i :: 0 <= i < |s| && IsSpace(s[i])
  }

  /** `s.startswith(p)` */
  predicate StartsWith(s: string, p: string) {
    |p| <= |s| && s[..|p|] == p
  }

  /** `s.endswith(p)` */
  predicate EndsWith(s: string, p: string) {
    |p| <= |s| && s[|s| - |p|..] == p
  }

  /** `w` occurs in `s` starting at index `i`. */
  predicate OccursAt(s: string, w: string, i: int) {
    0 <= i && i + |w| <= |s| && s[i..i + |w|] == w
  }

  /** `w in s` for strings (substring test). */
  predicate Contains(s: string, w: string)
    decreases |s|
  {
    StartsWith(s, w) || (|s| > 0 && Contains(s[1..], w))
  }

  lemma {:induction false} ContainsIff(s: string, w: string)
    ensures Contains(s, w) <==> exists i :: OccursAt(s, w, i)
    decreases |s|
  {
    if StartsWith(s, w) {
      assert OccursAt(s, w, 0);
    } else if |s| > 0 {
      ContainsIff(s[1..], w);
      if Contains(s[1..], w) {
        var i :| OccursAt(s[1..], w, i);
        assert s[1..][i..i + |w|] == s[i + 1..i + 1 + |w|];
        assert OccursAt(s, w, i + 1);
      }
      if exists i :: OccursAt(s, w, i) {
        var i :| OccursAt(s, w, i);
        assert i != 0;
        assert s[1..][i - 1..i - 1 + |w|] == s[i..i + |w|];
        assert OccursAt(s[1..], w, i - 1);
      }
    }
  }

  /** `s.find(c, start)`: the first index at or after `start` holding `c`. */
  function FindChar(s: string, c: char, start: nat): (r: int)
    ensures r == -1 || (start <= r < |s| && s[r] == c)
    ensures r == -1 ==> forall i :: start <= i < |s| ==> s[i] != c
    ensures r != -1 ==> forall i :: start <= i < r ==> s[i] != c
    decreases |s| - start
  {
    if start >= |s| then -1
    else if s[start] == c then start
    else FindChar(s, c, start + 1)
  }

  /** Drops characters satisfying `drop` from the front. */
  function TrimLeft(s: string, drop: char -> bool): (r: string)
    ensures |r| <= |s| && r == s[|s| - |r|..]
    ensures r == [] || !drop(r[0])
    ensures forall i :: 0 <= i < |s| - |r| ==> drop(s[i])
    decreases |s|
  {
    if s != [] && drop(s[0]) then
      var r := TrimLeft(s[1..], drop);
      assert forall i :: 1 <= i < |s| - |r| ==> s[i] == s[1..][i - 1];
      r
    else s
  }

  /** Drops characters satisfying `drop` from the back. */
  function TrimRight(s: string, drop: char -> bool): (r: string)
    ensures |r| <= |s| && r == s[..|r|]
    ensures r == [] || !drop(r[|r| - 1])
    ensures forall i :: |r| <= i < |s| ==> drop(s[i])
    decreases |s|
  {
    if s != [] && drop(s[|s| - 1]) then TrimRight(s[..|s| - 1], drop) else s
  }

  /** `s.strip()`: the result neither starts nor ends with whitespace, and
      only whitespace was removed from either end. */
  function Strip(s: string): (r: string)
    ensures r == [] || (!IsSpace(r[0]) && !IsSpace(r[|r| - 1]))
    ensures |r| <= |s|
  {
    TrimRight(TrimLeft(s, IsSpace), IsSpace)
  }

  /** Dropped characters in front change nothing of what `TrimLeft` keeps. */
  lemma {:induction false} TrimLeftPrefix(w: string, t: string, drop: char -> bool)
    requires forall i :: 0 <= i < |w| ==> drop(w[i])
    ensures TrimLeft(w + t, drop) == TrimLeft(t, drop)
    decreases |w|
  {
    if w == [] {
      assert w + t == t;
    } else {
      assert (w + t)[0] == w[0] && (w + t)[1..] == w[1..] + t;
      TrimLeftPrefix(w[1..], t, drop);
    }
  }

  /** Whitespace in front changes nothing of what `strip` keeps. */
  lemma StripPrefix(w: string, t: string)
    requires forall i :: 0 <= i < |w| ==> IsSpace(w[i])
    ensures Strip(w + t) == Strip(t)
  {
    TrimLeftPrefix(w, t, IsSpace);
  }

  /** Text of whitespace only strips to nothing. */
  lemma StripSpaces(w: string)
    requires forall i :: 0 <= i < |w| ==> IsSpace(w[i])
    ensures Strip(w) == []
  {
    StripPrefix(w, []);
    assert w + [] == w;
  }

  /** `s.split(sep)` for a one-character separator: never empty, and no part holds `sep`. */
  function Split(s: string, sep: char): (parts: seq<string>)
    ensures |parts| >= 1
    ensures forall i :: 0 <= i < |parts| ==> sep !in parts[i]
    decreases |s|
  {
    var k := FindChar(s, sep, 0);
    if k == -1 then [s] else [s[..k]] + Split(s[k + 1..], sep)
  }

  /** `sep.join(parts)` */
  function Join(parts: seq<string>, sep: string): string
  {
    if |parts| == 0 then ""
    else if |parts| == 1 then parts[0]
    else parts[0] + sep + Join(parts[1..], sep)
  }

  /** Splitting on a character and joining back with it gives the original text. */
  lemma {:induction false} JoinSplit(s: string, sep: char)
    ensures Join(Split(s, sep), [sep]) == s
    decreases |s|
  {
    var k := FindChar(s, sep, 0);
    if k != -1 {
      var rest := Split(s[k + 1..], sep);
      JoinSplit(s[k + 1..], sep);
      assert Split(s, sep) == [s[..k]] + rest;
      assert s == s[..k] + [sep] + s[k + 1..];
    }
  }

  /** Joining separator-free parts and splitting again gives the parts back. */
  lemma {:induction false} SplitJoin(parts: seq<string>, sep: char)
    requires |parts| >= 1
    requires forall i :: 0 <= i < |parts| ==> sep !in parts[i]
    ensures Split(Join(parts, [sep]), sep) == parts
    decreases |parts|
  {
    var p := parts[0];
    if |parts| == 1 {
      assert FindChar(p, sep, 0) == -1;
    } else {
      var tail := Join(parts[1..], [sep]);
      var s := p + [sep] + tail;
      assert Join(parts, [sep]) == s;
      assert s[|p|] == sep;
      assert forall i :: 0 <= i < |p| ==> s[i] == p[i];
      assert FindChar(s, sep, 0) == |p|;
      assert s[..|p|] == p;
      assert s[|p| + 1..] == tail;
      SplitJoin(parts[1..], sep);
      assert parts == [p] + parts[1..];
    }
  }

  /** The first occurrence of `c` is at `k`. */
  lemma FindCharFirst(s: string, c: char, k: nat)
    requires k < |s| && s[k] == c && forall i :: 0 <= i < k ==> s[i] != c
    ensures FindChar(s, c, 0) == k
  {
  }

  /** Text without the separator is a single part. */
  lemma SplitNoSep(a: string, sep: char)
    requires sep !in a
    ensures Split(a, sep) == [a]
  {
    assert FindChar(a, sep, 0) == -1;
  }

  /** The first separator ends the first part. */
  lemma SplitAround(a: string, sep: char, b: string)
    requires sep !in a
    ensures Split(a + [sep] + b, sep) == [a] + Split(b, sep)
  {
    var s := a + [sep] + b;
    assert s[|a|] == sep;
    assert forall i :: 0 <= i < |a| ==> s[i] == a[i];
    FindCharFirst(s, sep, |a|);
    assert s[..|a|] == a && s[|a| + 1..] == b;
  }

  /** A newline-free line followed by a newline is the first line of the text. */
  lemma SplitLine(line: string, rest: string)
    requires '\n' !in line
    ensures Split(line + "\n" + rest, '\n') == [line] + Split(rest, '\n')
  {
    SplitAround(line, '\n', rest);
  }

  /** A newline-free line ending the text leaves an empty last part. */
  lemma SplitLastLine(line: string)
    requires '\n' !in line
    ensures Split(line + "\n", '\n') == [line, ""]
  {
    assert line + "\n" == line + "\n" + "";
    SplitLine(line, "");
    SplitNoSep("", '\n');
  }

  /** A newline-free last line ends the parts. */
  lemma SplitLastPart(a: string, b: string)
    requires '\n' !in b
    ensures Split(a + "\n" + b, '\n') == Split(a, '\n') + [b]
  {
    assert a + "\n" + b == a + ['\n'] + b;
    SplitAppend(a, '\n', b);
    SplitNoSep(b, '\n');
  }

  /** Joining a heading before at least one part puts the separator after it. */
  lemma JoinCons(h: string, ts: seq<string>, sep: string)
    requires ts != []
    ensures Join([h] + ts, sep) == h + sep + Join(ts, sep)
  {
    assert ([h] + ts)[1..] == ts;
  }

  /** Joining the lines of a text by newlines gives the text back. */
  lemma JoinLines(s: string)
    ensures Join(Split(s, '\n'), "\n") == s
  {
    assert "\n" == ['\n'];
    JoinSplit(s, '\n');
  }

  /** A blank line and a heading line open the text. */
  lemma SplitHeading(heading: string, body: string)
    requires '\n' !in heading
    ensures Split("\n" + heading + "\n" + body, '\n') == ["", heading] + Split(body, '\n')
  {
    assert "\n" + heading + "\n" + body == "" + "\n" + (heading + "\n" + body);
    SplitLine("", heading + "\n" + body);
    SplitLine(heading, body);
  }

  /** A blank line, a heading line, then one line per element. */
  lemma SplitHeadedLines<T>(heading: string, xs: seq<T>, f: T -> string, g: T -> string)
    requires '\n' !in heading
    requires forall i :: 0 <= i < |xs| ==> f(xs[i]) == g(xs[i]) + "\n" && '\n' !in g(xs[i])
    ensures |Split("\n" + heading + "\n" + ConcatMap(xs, f), '\n')| == |xs| + 3
    ensures Split("\n" + heading + "\n" + ConcatMap(xs, f), '\n')[..2] == ["", heading]
    ensures Split("\n" + heading + "\n" + ConcatMap(xs, f), '\n')[|xs| + 2] == ""
    ensures forall i :: 0 <= i < |xs| ==> Split("\n" + heading + "\n" + ConcatMap(xs, f), '\n')[i + 2] == g(xs[i])
  {
    SplitLines(xs, f, g);
    SplitHeading(heading, ConcatMap(xs, f));
  }

  /** A blank line and a heading line make up the whole text. */
  lemma SplitHeadingOnly(heading: string)
    requires '\n' !in heading
    ensures Split("\n" + heading + "\n", '\n') == ["", heading, ""]
  {
    assert "\n" + heading + "\n" == "\n" + heading + "\n" + "";
    SplitHeading(heading, "");
    SplitNoSep("", '\n');
  }

  /** `w` occurs in any text that has it in the middle. */
  lemma ContainsMiddle(a: string, w: string, b: string)
    ensures Contains(a + w + b, w)
  {
    var s := a + w + b;
    assert s[|a|..|a| + |w|] == w;
    assert OccursAt(s, w, |a|);
    ContainsIff(s, w);
  }

  /** Two pieces without `sep` joined together hold no `sep` either. */
  lemma NoSepConcat(a: string, b: string, sep: char)
    requires sep !in a && sep !in b
    ensures sep !in a + b
  {
  }


  lemma AppendEmpty(a: string)
    ensures a + "" == a
  {
  }

  lemma Assoc(a: string, b: string, c: string)
    ensures a + (b + c) == a + b + c
  {
  }

  lemma Assoc4(a: string, b: string, c: string, d: string)
    ensures a + (b + c + d) == a + b + c + d
  {
  }

  /** Text starts with its first part. */
  lemma StartsWithConcat(a: string, b: string)
    ensures StartsWith(a + b, a)
  {
    assert (a + b)[..|a|] == a;
  }

  /** Appending keeps a prefix. */
  lemma StartsWithAppend(s: string, t: string, p: string)
    requires StartsWith(s, p)
    ensures StartsWith(s + t, p)
  {
    assert (s + t)[..|p|] == s[..|p|];
  }

  /** Appending keeps an occurrence. */
  lemma ContainsAppend(s: string, t: string, w: string)
    requires Contains(s, w)
    ensures Contains(s + t, w)
  {
    ContainsIff(s, w);
    var i :| OccursAt(s, w, i);
    assert (s + t)[i..i + |w|] == s[i..i + |w|];
    assert OccursAt(s + t, w, i);
    ContainsIff(s + t, w);
  }

  /** Text ends with its last part. */
  lemma EndsWithConcat(a: string, b: string)
    ensures EndsWith(a + b, b)
  {
    assert (a + b)[|a|..] == b;
  }

  /** A suffix of the last part is a suffix of the whole. */
  lemma EndsWithAppend(a: string, b: string, p: string)
    requires EndsWith(b, p)
    ensures EndsWith(a + b, p)
  {
    assert (a + b)[|a + b| - |p|..] == b[|b| - |p|..];
  }

  /** Text shorter than `w` does not contain it. */
  lemma {:induction false} ShortNotContains(s: string, w: string)
    requires |s| < |w|
    ensures !Contains(s, w)
    decreases |s|
  {
    if |s| > 0 {
      ShortNotContains(s[1..], w);
    }
  }

  /** An occurrence inside a middle part is an occurrence in the whole. */
  lemma ContainsWithin(s: string, x: string, t: string, w: string)
    requires Contains(x, w)
    ensures Contains(s + x + t, w)
  {
    ContainsIff(x, w);
    var i :| OccursAt(x, w, i);
    var y := s + x + t;
    assert y[|s| + i..|s| + i + |w|] == x[i..i + |w|];
    assert OccursAt(y, w, |s| + i);
    ContainsIff(y, w);
  }

  /** An occurrence of an occurrence is an occurrence. */
  lemma ContainsTrans(s: string, x: string, w: string)
    requires Contains(s, x) && Contains(x, w)
    ensures Contains(s, w)
  {
    ContainsIff(s, x);
    ContainsIff(x, w);
    var i :| OccursAt(s, x, i);
    var j :| OccursAt(x, w, j);
    forall k | 0 <= k < |w| ensures s[i + j + k] == w[k] {
      assert s[i..i + |x|][j + k] == s[i + j + k];
      assert x[j..j + |w|][k] == x[j + k];
    }
    assert s[i + j..i + j + |w|] == w;
    assert OccursAt(s, w, i + j);
    ContainsIff(s, w);
  }

  /** Splitting text joined by a separator splits each side. */
  lemma {:induction false} SplitAppend(a: string, sep: char, b: string)
    ensures Split(a + [sep] + b, sep) == Split(a, sep) + Split(b, sep)
    decreases |a|
  {
    var k := FindChar(a, sep, 0);
    if k == -1 {
      SplitNoSep(a, sep);
      SplitAround(a, sep, b);
    } else {
      var s := a + [sep] + b;
      assert forall i :: 0 <= i < |a| ==> s[i] == a[i];
      FindCharFirst(s, sep, k);
      assert s[k + 1..] == a[k + 1..] + [sep] + b;
      SplitAppend(a[k + 1..], sep, b);
      assert s[..k] == a[..k];
    }
  }

  /** The text a `+=` loop builds from newline-terminated, newline-free lines
      splits back into those lines, followed by the empty text after the last
      newline. */
  lemma {:induction false} SplitLines<T>(xs: seq<T>, f: T -> string, g: T -> string)
    requires forall i :: 0 <= i < |xs| ==> f(xs[i]) == g(xs[i]) + "\n" && '\n' !in g(xs[i])
    ensures |Split(ConcatMap(xs, f), '\n')| == |xs| + 1 && Split(ConcatMap(xs, f), '\n')[|xs|] == ""
    ensures forall i :: 0 <= i < |xs| ==> Split(ConcatMap(xs, f), '\n')[i] == g(xs[i])
    decreases |xs|
  {
    if xs == [] {
      SplitNoSep("", '\n');
    } else {
      var rest := xs[1..];
      assert xs == [xs[0]] + rest;
      ConcatMapAppend([xs[0]], rest, f);
      assert ConcatMap([xs[0]], f) == f(xs[0]) by {
        assert [xs[0]][..0] == [];
      }
      SplitLines(rest, f, g);
      SplitAround(g(xs[0]), '\n', ConcatMap(rest, f));
    }
  }

  /** A word without the separator occurs in text joined by the separator
      exactly when it occurs on one of the two sides. */
  lemma ContainsAround(a: string, sep: char, b: string, w: string)
    requires sep !in w
    ensures Contains(a + [sep] + b, w) <==> Contains(a, w) || Contains(b, w)
  {
    ContainsIff(a + [sep] + b, w);
    ContainsIff(a, w);
    ContainsIff(b, w);
    OccursAround(a, sep, b, w);
  }

  lemma OccursAround(a: string, sep: char, b: string, w: string)
    requires sep !in w
    ensures (exists i :: OccursAt(a + [sep] + b, w, i)) <==>
      (exists i :: OccursAt(a, w, i)) || (exists i :: OccursAt(b, w, i))
  {
    var s := a + [sep] + b;
    if exists i :: OccursAt(a, w, i) {
      var i :| OccursAt(a, w, i);
      OccursInFront(a, sep, b, w, i);
    }
    if exists i :: OccursAt(b, w, i) {
      var i :| OccursAt(b, w, i);
      OccursBehind(a, sep, b, w, i);
    }
    if exists i :: OccursAt(s, w, i) {
      var i :| OccursAt(s, w, i);
      OccursInPart(a, sep, b, w, i);
    }
  }

  lemma OccursInFront(a: string, sep: char, b: string, w: string, i: int)
    requires OccursAt(a, w, i)
    ensures OccursAt(a + [sep] + b, w, i)
  {
    var s := a + [sep] + b;
    assert forall j :: 0 <= j < |a| ==> s[j] == a[j];
    assert s[i..i + |w|] == a[i..i + |w|];
  }

  lemma OccursBehind(a: string, sep: char, b: string, w: string, i: int)
    requires OccursAt(b, w, i)
    ensures OccursAt(a + [sep] + b, w, |a| + 1 + i)
  {
    var s := a + [sep] + b;
    assert forall j :: 0 <= j < |b| ==> s[|a| + 1 + j] == b[j];
    assert s[|a| + 1 + i..|a| + 1 + i + |w|] == b[i..i + |w|];
  }

  /** An occurrence of a word without the separator lies in one of the parts. */
  lemma OccursInPart(a: string, sep: char, b: string, w: string, i: int)
    requires sep !in w && OccursAt(a + [sep] + b, w, i)
    ensures OccursAt(a, w, i) || OccursAt(b, w, i - |a| - 1)
  {
    var s := a + [sep] + b;
    if i + |w| <= |a| {
      assert forall j :: 0 <= j < |a| ==> s[j] == a[j];
      assert s[i..i + |w|] == a[i..i + |w|];
    } else if i >= |a| + 1 {
      assert forall j :: 0 <= j < |b| ==> s[|a| + 1 + j] == b[j];
      assert s[i..i + |w|] == b[i - |a| - 1..i - |a| - 1 + |w|];
    } else {
      OccursAtIndex(s, w, i, |a| - i);
    }
  }

  lemma OccursAtIndex(s: string, w: string, i: nat, j: nat)
    requires OccursAt(s, w, i) && j < |w|
    ensures s[i + j] == w[j]
  {
    assert s[i..i + |w|][j] == s[i + j];
  }

  /** A word without the separator occurs in a text exactly when it occurs in
      one of the text's parts. */
  lemma {:induction false} ContainsSplit(s: string, sep: char, w: string)
    requires sep !in w
    ensures Contains(s, w) <==> AnyContains(Split(s, sep), w)
    decreases |s|
  {
    var k := FindChar(s, sep, 0);
    if k == -1 {
      assert Split(s, sep) == [s];
      AnyContainsCons(s, [], w);
    } else {
      var a := s[..k];
      var b := s[k + 1..];
      assert s == a + [sep] + b;
      assert Split(s, sep) == [a] + Split(b, sep);
      ContainsAround(a, sep, b, w);
      ContainsSplit(b, sep, w);
      AnyContainsCons(a, Split(b, sep), w);
    }
  }

  /** Some part contains `w`. */
  predicate AnyContains(ps: seq<string>, w: string) {
    exists i :: 0 <= i < |ps| && Contains(ps[i], w)
  }

  lemma AnyContainsCons(p: string, ps: seq<string>, w: string)
    ensures AnyContains([p] + ps, w) <==> Contains(p, w) || AnyContains(ps, w)
  {
    var qs := [p] + ps;
    if AnyContains(ps, w) {
      var j :| 0 <= j < |ps| && Contains(ps[j], w);
      assert qs[j + 1] == ps[j];
    }
    if AnyContains(qs, w) {
      var i :| 0 <= i < |qs| && Contains(qs[i], w);
      if i > 0 {
        assert qs[i] == ps[i - 1];
      }
    }
    if Contains(p, w) {
      assert qs[0] == p;
    }
  }

  /** `s.replace(pat, rep)`: every non-overlapping occurrence, left to right. */
  function ReplaceAll(s: string, pat: string, rep: string): string
    requires |pat| > 0
    decreases |s|
  {
    if |s| < |pat| then s
    else if s[..|pat|] == pat then rep + ReplaceAll(s[|pat|..], pat, rep)
    else [s[0]] + ReplaceAll(s[1..], pat, rep)
  }

  /** Text without the pattern is left as it is. */
  lemma {:induction false} ReplaceAbsent(s: string, pat: string, rep: string)
    requires |pat| > 0 && !Contains(s, pat)
    ensures ReplaceAll(s, pat, rep) == s
    decreases |s|
  {
    if |s| >= |pat| {
      assert !StartsWith(s, pat);
      ReplaceAbsent(s[1..], pat, rep);
      assert s == [s[0]] + s[1..];
    }
  }

  /** A character in neither the text nor the replacement is not in the result. */
  lemma {:induction false} ReplaceKeepsOut(s: string, pat: string, rep: string, c: char)
    requires |pat| > 0 && c !in s && c !in rep
    ensures c !in ReplaceAll(s, pat, rep)
    decreases |s|
  {
    if |s| >= |pat| {
      if s[..|pat|] == pat {
        ReplaceKeepsOut(s[|pat|..], pat, rep, c);
        NoSepConcat(rep, ReplaceAll(s[|pat|..], pat, rep), c);
      } else {
        ReplaceKeepsOut(s[1..], pat, rep, c);
        NoSepConcat([s[0]], ReplaceAll(s[1..], pat, rep), c);
      }
    }
  }

  /** Replacing one character by another rewrites exactly the positions holding it. */
  lemma {:induction false} ReplaceCharAt(s: string, a: char, b: char)
    ensures |ReplaceAll(s, [a], [b])| == |s|
    ensures forall i :: 0 <= i < |s| ==> ReplaceAll(s, [a], [b])[i] == if s[i] == a then b else s[i]
    decreases |s|
  {
    if |s| >= 1 {
      ReplaceCharAt(s[1..], a, b);
      var r := ReplaceAll(s, [a], [b]);
      var t := ReplaceAll(s[1..], [a], [b]);
      if s[..1] == [a] {
        assert r == [b] + t;
      } else {
        assert r == [s[0]] + t;
      }
      assert forall i :: 1 <= i < |s| ==> s[1..][i - 1] == s[i];
    }
  }

  /** `s.replace(a, b)` for single characters, position by position. */
  function ReplaceChar(s: string, a: char, b: char): (r: string)
    ensures |r| == |s| && forall i :: 0 <= i < |s| ==> r[i] == if s[i] == a then b else s[i]
  {
    seq(|s|, i requires 0 <= i < |s| => if s[i] == a then b else s[i])
  }

  /** The position-by-position replacement is the general replacement of a one-character pattern. */
  lemma ReplaceCharIsReplaceAll(s: string, a: char, b: char)
    ensures ReplaceChar(s, a, b) == ReplaceAll(s, [a], [b])
  {
    ReplaceCharAt(s, a, b);
  }

  function ToUpper(c: char): char {
    if 'a' <= c <= 'z' then c - 'a' + 'A' else c
  }

  function ToLower(c: char): char {
    if 'A' <= c <= 'Z' then c - 'A' + 'a' else c
  }

  function LowerAll(s: string): (r: string)
    ensures |r| == |s| && forall i :: 0 <= i < |s| ==> r[i] == ToLower(s[i])
  {
    seq(|s|, i requires 0 <= i < |s| => ToLower(s[i]))
  }

  /** `s.capitalize()`: first character upper case, the rest lower case. */
  function Capitalize(s: string): (r: string)
    ensures |r| == |s|
    ensures |s| > 0 ==> r[0] == ToUpper(s[0]) && r[1..] == LowerAll(s[1..])
  {
    if s == "" then "" else [ToUpper(s[0])] + LowerAll(s[1..])
  }

  /** `s.count(w)`: non-overlapping occurrences, scanning left to right. */
  function CountOf(s: string, w: string): nat
    requires |w| > 0
    decreases |s|
  {
    if |s| < |w| then 0
    else if s[..|w|] == w then 1 + CountOf(s[|w|..], w)
    else CountOf(s[1..], w)
  }

  /** A string with no occurrence of `w` counts zero occurrences. */
  lemma {:induction false} CountOfAbsent(s: string, w: string)
    requires |w| > 0 && !Contains(s, w)
    ensures CountOf(s, w) == 0
    decreases |s|
  {
    if |s| >= |w| {
      assert s[..|w|] != w;
      CountOfAbsent(s[1..], w);
    }
  }

  /** `int(ds)` for a string of ASCII digits. */
  function DigitsValue(ds: string): nat
    requires forall i :: 0 <= i < |ds| ==> IsDigit(ds[i])
  {
    if ds == "" then 0
    else
      var d := ds[|ds| - 1];
      assert IsDigit(d);
      10 * DigitsValue(ds[..|ds| - 1]) + (d as int - '0' as int)
  }

  /** The concatenation of `f(x)` over `xs`, in order (a Python `+=` loop). */
  function ConcatMap<T>(xs: seq<T>, f: T -> string): string
  {
    if xs == [] then "" else ConcatMap(xs[..|xs| - 1], f) + f(xs[|xs| - 1])
  }

  /** One more loop iteration appends one more piece. */
  lemma ConcatMapSnoc<T>(xs: seq<T>, i: nat, f: T -> string)
    requires i < |xs|
    ensures ConcatMap(xs[..i + 1], f) == ConcatMap(xs[..i], f) + f(xs[i])
  {
    assert xs[..i + 1][..i] == xs[..i];
  }

  /** The `for x in xs: text += f(x)` loop: appends the pieces in order. */
  method AppendEach<T>(start: string, xs: seq<T>, f: T -> string) returns (text: string)
    ensures text == start + ConcatMap(xs, f)
  {
    text := start;
    for i := 0 to |xs|
      invariant text == start + ConcatMap(xs[..i], f)
    {
      ConcatMapSnoc(xs, i, f);
      text := text + f(xs[i]);
    }
    assert xs[..|xs|] == xs;
  }

  /** Every piece occurs in the concatenation. */
  lemma ConcatMapContains<T>(xs: seq<T>, i: nat, f: T -> string)
    requires i < |xs|
    ensures Contains(ConcatMap(xs, f), f(xs[i]))
  {
    assert xs == xs[..i + 1] + xs[i + 1..];
    ConcatMapAppend(xs[..i + 1], xs[i + 1..], f);
    ConcatMapSnoc(xs, i, f);
    ContainsMiddle(ConcatMap(xs[..i], f), f(xs[i]), ConcatMap(xs[i + 1..], f));
  }

  /** `ConcatMap` distributes over `+` and has the pieces one after another. */
  lemma {:induction false} ConcatMapAppend<T>(xs: seq<T>, ys: seq<T>, f: T -> string)
    ensures ConcatMap(xs + ys, f) == ConcatMap(xs, f) + ConcatMap(ys, f)
    decreases |ys|
  {
    if ys != [] {
      var zs := xs + ys;
      assert zs[..|zs| - 1] == xs + ys[..|ys| - 1];
      ConcatMapAppend(xs, ys[..|ys| - 1], f);
    } else {
      assert xs + ys == xs;
    }
  }
}
