/**
 * String primitives of Python that the text-processing routines rely on:
 * substring search (`in`), `strip`, `split`, `join`, `re.findall` over a
 * character class, and `re.sub(r'\s+', ' ', s)`.
 */
module Text {
  import opened Chars

  /** `p` occurs in `s` at index `i`. */
  predicate StartsAt(s: string, i: nat, p: string) {
    i + |p| <= |s| && s[i..i + |p|] == p
  }

  /** Python's `p in s` on strings. */
  predicate Contains(s: string, p: string) {
    exists i :: 0 <= i <= |s| && StartsAt(s, i, p)
  }

  lemma ContainsAt(s: string, i: nat, p: string)
    requires StartsAt(s, i, p)
    ensures Contains(s, p)
  {
  }

  /** An occurrence in a suffix is an occurrence in the whole string. */
  lemma ContainsInSuffix(s: string, k: nat, p: string)
    requires k <= |s| && Contains(s[k..], p)
    ensures Contains(s, p)
  {
    var i :| 0 <= i <= |s[k..]| && StartsAt(s[k..], i, p);
    assert s[k + i..k + i + |p|] == s[k..][i..i + |p|];
    ContainsAt(s, k + i, p);
  }

  /** Every piece found in a suffix is found in the whole string. */
  lemma AllInSuffix(s: string, k: nat, ps: seq<string>)
    requires k <= |s| && forall j :: 0 <= j < |ps| ==> Contains(s[k..], ps[j])
    ensures forall j :: 0 <= j < |ps| ==> Contains(s, ps[j])
  {
    forall j | 0 <= j < |ps| ensures Contains(s, ps[j]) {
      ContainsInSuffix(s, k, ps[j]);
    }
  }

  /** An occurrence in a substring is an occurrence in the whole string. */
  lemma ContainsInSlice(s: string, a: nat, b: nat, p: string)
    requires a <= b <= |s| && Contains(s[a..b], p)
    ensures Contains(s, p)
  {
    var i :| 0 <= i <= |s[a..b]| && StartsAt(s[a..b], i, p);
    assert i + |p| <= b - a && s[a..b][i..i + |p|] == p;
    forall k | 0 <= k < |p| ensures s[a + i + k] == p[k] {
      assert s[a..b][i..i + |p|][k] == s[a..b][i + k];
    }
    assert s[a + i..a + i + |p|] == p;
    ContainsAt(s, a + i, p);
  }

  /** Every character of `p` is a character of `s` when `p` occurs in `s`. */
  lemma ContainsChars(s: string, p: string, k: nat)
    requires Contains(s, p) && k < |p|
    ensures p[k] in s
  {
    var i :| 0 <= i <= |s| && StartsAt(s, i, p);
    assert s[i + k] == p[k];
  }

  /** Python's `s.endswith(c)` for a one-character suffix. */
  predicate EndsWith(s: string, c: char) {
    |s| > 0 && s[|s| - 1] == c
  }

  /** The length of the longest prefix of `s` whose characters all satisfy `p`. */
  function RunLength(s: string, p: char -> bool): (n: nat)
    ensures n <= |s|
    ensures forall i :: 0 <= i < n ==> p(s[i])
    ensures n == |s| || !p(s[n])
  {
    if s != [] && p(s[0]) then 1 + RunLength(s[1..], p) else 0
  }

  /** No whitespace character at either end. */
  predicate Trimmed(s: string) {
    s == [] || (!IsSpace(s[0]) && !IsSpace(s[|s| - 1]))
  }

  /** No two consecutive whitespace characters. */
  predicate NoDoubleSpace(s: string) {
    forall i :: 0 < i < |s| ==> !(IsSpace(s[i - 1]) && IsSpace(s[i]))
  }

  /** Every whitespace character is the plain space. */
  predicate OnlyPlainSpaces(s: string) {
    forall i :: 0 <= i < |s| && IsSpace(s[i]) ==> s[i] == ' '
  }

  /** Python's `str.lstrip()`. */
  function StripLeft(s: string): (r: string)
    ensures |r| <= |s| && r == s[|s| - |r|..]
    ensures forall i :: 0 <= i < |s| - |r| ==> IsSpace(s[i])
    ensures r == [] || !IsSpace(r[0])
  {
    if s != [] && IsSpace(s[0]) then StripLeft(s[1..]) else s
  }

  /** Python's `str.rstrip()`. */
  function StripRight(s: string): (r: string)
    ensures |r| <= |s| && r == s[..|r|]
    ensures forall i :: |r| <= i < |s| ==> IsSpace(s[i])
    ensures r == [] || !IsSpace(r[|r| - 1])
  {
    if s != [] && IsSpace(s[|s| - 1]) then StripRight(s[..|s| - 1]) else s
  }

  /** Python's `str.strip()`: `s` without its leading and trailing whitespace. */
  function Strip(s: string): (r: string)
    ensures Trimmed(r)
    ensures |r| <= |s|
  {
    var l := StripLeft(s);
    var r := StripRight(l);
    assert r != [] ==> r[0] == l[0];
    r
  }
  /** Every element stripped, in order: `[p.strip() for p in pieces]`. */
  function StripEach(pieces: seq<string>): seq<string> {
    if pieces == [] then [] else StripEach(pieces[..|pieces| - 1]) + [Strip(pieces[|pieces| - 1])]
  }


  /** A string without whitespace at its ends is its own strip. */
  lemma StripTrimmed(s: string)
    requires Trimmed(s)
    ensures Strip(s) == s
  {
  }

  /** The stripped string is the slice of `s` after its leading whitespace. */
  lemma {:induction false} StripIsSlice(s: string)
    ensures |s| - |StripLeft(s)| + |Strip(s)| <= |s|
    ensures Strip(s) == s[|s| - |StripLeft(s)|..|s| - |StripLeft(s)| + |Strip(s)|]
  {
    StripUnfold(s);
    PrefixOfSuffix(s, StripLeft(s), StripRight(StripLeft(s)), Strip(s));
  }

  /** What stripping drops, before and after that slice, is whitespace only. */
  lemma {:induction false} StripDropsSpace(s: string)
    ensures |s| - |StripLeft(s)| + |Strip(s)| <= |s|
    ensures forall i :: 0 <= i < |s| - |StripLeft(s)| ==> IsSpace(s[i])
    ensures forall i :: |s| - |StripLeft(s)| + |Strip(s)| <= i < |s| ==> IsSpace(s[i])
  {
    StripUnfold(s);
    TrimParts(s, StripLeft(s), StripRight(StripLeft(s)), Strip(s));
  }

  /** A prefix `r` of a suffix `l` of `s` is a slice of `s`. */
  lemma PrefixOfSuffix<T>(s: seq<T>, l: seq<T>, r: seq<T>, x: seq<T>)
    requires |l| <= |s| && l == s[|s| - |l|..]
    requires |r| <= |l| && r == l[..|r|]
    requires x == r
    ensures |s| - |l| + |x| <= |s|
    ensures x == s[|s| - |l|..|s| - |l| + |x|]
  {
    assert s[|s| - |l|..][..|r|] == s[|s| - |l|..|s| - |l| + |r|];
  }

  lemma StripUnfold(s: string)
    ensures Strip(s) == StripRight(StripLeft(s))
  {
  }

  /**
   * `x`, a prefix `r` of a suffix `l` of `s` with only whitespace cut off
   * on either side, is a slice of `s` with only whitespace around it.
   */
  lemma TrimParts(s: string, l: string, r: string, x: string)
    requires |l| <= |s| && l == s[|s| - |l|..]
    requires forall i :: 0 <= i < |s| - |l| ==> IsSpace(s[i])
    requires |r| <= |l| && r == l[..|r|]
    requires forall i :: |r| <= i < |l| ==> IsSpace(l[i])
    requires x == r
    ensures |s| - |l| + |x| <= |s|
    ensures x == s[|s| - |l|..|s| - |l| + |x|]
    ensures forall i :: 0 <= i < |s| - |l| ==> IsSpace(s[i])
    ensures forall i :: |s| - |l| + |x| <= i < |s| ==> IsSpace(s[i])
  {
    var a := |s| - |l|;
    assert s[a..][..|r|] == s[a..a + |r|];
    forall i | a + |x| <= i < |s| ensures IsSpace(s[i]) {
      assert s[i] == l[i - a];
    }
  }

  /** A substring of a string without double whitespace has none either. */
  lemma NoDoubleSpaceSlice(s: string, a: nat, b: nat)
    requires a <= b <= |s| && NoDoubleSpace(s)
    ensures NoDoubleSpace(s[a..b])
  {
    forall i | 0 < i < b - a
      ensures !(IsSpace(s[a..b][i - 1]) && IsSpace(s[a..b][i]))
    {
      assert s[a..b][i - 1] == s[a + i - 1] && s[a..b][i] == s[a + i];
    }
  }

  lemma OnlyPlainSpacesSlice(s: string, a: nat, b: nat)
    requires a <= b <= |s| && OnlyPlainSpaces(s)
    ensures OnlyPlainSpaces(s[a..b])
  {
    forall i | 0 <= i < b - a && IsSpace(s[a..b][i])
      ensures s[a..b][i] == ' '
    {
      assert s[a..b][i] == s[a + i];
    }
  }

  /** Python's `re.sub(r'\s+', ' ', s)`: every maximal whitespace run becomes one space. */
  function Collapse(s: string): (r: string)
    ensures NoDoubleSpace(r) && OnlyPlainSpaces(r)
    ensures |r| <= |s|
    ensures r == [] <==> s == []
    ensures s != [] ==> (IsSpace(r[0]) <==> IsSpace(s[0]))
    ensures s != [] ==> (IsSpace(r[|r| - 1]) <==> IsSpace(s[|s| - 1]))
    decreases |s|
  {
    if s == [] then []
    else if IsSpace(s[0]) then
      var n := RunLength(s, IsSpace);
      var rest := Collapse(s[n..]);
      assert n < |s| ==> !IsSpace(s[n..][0]);
      assert rest != [] ==> s[n..] != [] && s[|s| - 1] == s[n..][|s[n..]| - 1];
      " " + rest
    else
      var rest := Collapse(s[1..]);
      assert rest != [] ==> s[1..] != [] && s[|s| - 1] == s[1..][|s[1..]| - 1];
      [s[0]] + rest
  }

  /** `Collapse` keeps the words of the text, in order: only the whitespace between them changes. */
  lemma {:induction false} CollapseKeepsWords(s: string)
    ensures Words(Collapse(s)) == Words(s)
    decreases |s|
  {
    if s != [] {
      if IsSpace(s[0]) {
        var n := RunLength(s, IsSpace);
        CollapseKeepsWords(s[n..]);
        WordsAfterSpaces(s, n, Collapse(s[n..]));
      } else {
        CollapseKeepsWords(s[1..]);
        WordsOfFirst(s, Collapse(s[1..]));
      }
    }
  }

  /** A string whose only whitespace is single plain spaces is left alone by `Collapse`. */
  lemma {:induction false} CollapseFixpoint(s: string)
    requires NoDoubleSpace(s) && OnlyPlainSpaces(s)
    ensures Collapse(s) == s
    decreases |s|
  {
    if s != [] {
      CollapseCons(s);
      ShapeOfSlice(s, 1, s[1..]);
      CollapseFixpoint(s[1..]);
      assert s == [s[0]] + s[1..];
    }
  }

  /** Without double whitespace, `Collapse` keeps the first character, a plain space or not. */
  lemma CollapseCons(s: string)
    requires s != [] && NoDoubleSpace(s) && OnlyPlainSpaces(s)
    ensures Collapse(s) == [s[0]] + Collapse(s[1..])
  {
    if IsSpace(s[0]) {
      var n := RunLength(s, IsSpace);
      assert n == 1 by {
        assert |s| > 1 ==> !IsSpace(s[1]);
      }
      assert s[0] == ' ';
    }
  }

  /** The final normalisation `Strip(Collapse(_))` of the cleanup chains is idempotent. */
  lemma NormalizeIdempotent(s: string)
    ensures Strip(Collapse(Strip(Collapse(s)))) == Strip(Collapse(s))
  {
    var t := Strip(Collapse(s));
    StripKeepsShape(Collapse(s));
    CollapseFixpoint(t);
  }

  /** Python's `s.split(sep)` with a one-character separator. */
  function Split(s: string, sep: char): (parts: seq<string>)
    ensures |parts| >= 1
    ensures forall k :: 0 <= k < |parts| ==> sep !in parts[k]
    decreases |s|
  {
    if s == [] then [[]]
    else
      var rest := Split(s[1..], sep);
      if s[0] == sep then [[]] + rest else [[s[0]] + rest[0]] + rest[1..]
  }

  /** A string without the separator splits into itself. */
  lemma {:induction false} SplitNoSep(s: string, sep: char)
    requires sep !in s
    ensures Split(s, sep) == [s]
    decreases |s|
  {
    if s != [] {
      SplitNoSep(s[1..], sep);
      assert s == [s[0]] + s[1..];
    }
  }

  /** Splitting at the first separator, at index `n`. */
  lemma {:induction false} SplitFirst(s: string, sep: char, n: nat)
    requires n < |s| && s[n] == sep && sep !in s[..n]
    ensures Split(s, sep) == [s[..n]] + Split(s[n + 1..], sep)
    decreases n
  {
    if n > 0 {
      assert s[1..][..n - 1] == s[1..n];
      assert s[1..][n - 1] == sep && s[1..][n..] == s[n + 1..];
      SplitFirst(s[1..], sep, n - 1);
      assert s[..n] == [s[0]] + s[1..n];
    }
  }

  /** Python's `sep.join(parts)`. */
  function Join(parts: seq<string>, sep: string): string
  {
    if |parts| == 0 then []
    else if |parts| == 1 then parts[0]
    else parts[0] + sep + Join(parts[1..], sep)
  }

  lemma JoinCons(x: string, y: string, rest: seq<string>, sep: string)
    ensures Join([x + y] + rest, sep) == x + Join([y] + rest, sep)
  {
    if |rest| > 0 {
      assert ([x + y] + rest)[1..] == rest;
      assert ([y] + rest)[1..] == rest;
    }
  }

  /** Splitting at a character and joining back with it gives the original string. */
  lemma {:induction false} SplitJoin(s: string, sep: char)
    ensures Join(Split(s, sep), [sep]) == s
    decreases |s|
  {
    if s != [] {
      var rest := Split(s[1..], sep);
      SplitJoin(s[1..], sep);
      if s[0] == sep {
        var parts := [[]] + rest;
        assert Split(s, sep) == parts;
        assert parts[1..] == rest;
        assert Join(parts, [sep]) == [] + [sep] + Join(rest, [sep]);
        assert s == [sep] + s[1..];
      } else {
        var parts := [[s[0]] + rest[0]] + rest[1..];
        assert Split(s, sep) == parts;
        JoinCons([s[0]], rest[0], rest[1..], [sep]);
        assert [rest[0]] + rest[1..] == rest;
        assert s == [s[0]] + s[1..];
      }
    }
  }

  /** The last character of a join is the last character of the last part. */
  lemma {:induction false} JoinLast(parts: seq<string>, sep: string)
    requires |parts| > 0 && parts[|parts| - 1] != []
    ensures Join(parts, sep) != []
    ensures Join(parts, sep)[|Join(parts, sep)| - 1] == parts[|parts| - 1][|parts[|parts| - 1]| - 1]
    decreases |parts|
  {
    if |parts| > 1 {
      var tail := parts[1..];
      assert tail[|tail| - 1] == parts[|parts| - 1];
      JoinLast(tail, sep);
      var j := Join(tail, sep);
      assert Join(parts, sep) == (parts[0] + sep) + j;
      assert Join(parts, sep)[|Join(parts, sep)| - 1] == j[|j| - 1];
    }
  }

  /** A join of non-empty parts is at least as long as its last part. */
  lemma {:induction false} JoinLength(parts: seq<string>, sep: string)
    requires |parts| > 0
    ensures |Join(parts, sep)| >= |parts[|parts| - 1]|
    decreases |parts|
  {
    if |parts| > 1 {
      assert parts[1..][|parts| - 2] == parts[|parts| - 1];
      JoinLength(parts[1..], sep);
    }
  }

  /**
   * Python's `re.findall` with the pattern `[class]{minLen,}` (and `[class]+`
   * when `minLen` is 1): the maximal runs of characters satisfying `p` that are
   * at least `minLen` long, in text order.
   */
  function Runs(s: string, p: char -> bool, minLen: nat): (ws: seq<string>)
    ensures forall k :: 0 <= k < |ws| ==> |ws[k]| >= minLen && |ws[k]| >= 1
    ensures forall k, i :: 0 <= k < |ws| && 0 <= i < |ws[k]| ==> p(ws[k][i])
    ensures forall k :: 0 <= k < |ws| ==> Contains(s, ws[k])
    decreases |s|
  {
    if s == [] then []
    else if !p(s[0]) then
      var rest := Runs(s[1..], p, minLen);
      AllInSuffix(s, 1, rest);
      rest
    else
      var n := RunLength(s, p);
      var rest := Runs(s[n..], p, minLen);
      AllInSuffix(s, n, rest);
      ContainsAt(s, 0, s[..n]);
      if n >= minLen then [s[..n]] + rest else rest
  }

  predicate IsNonSpace(c: char) {
    !IsSpace(c)
  }

  /** Python's `s.split()` with no argument: the maximal runs of non-whitespace. */
  function Words(s: string): (ws: seq<string>)
    ensures forall k :: 0 <= k < |ws| ==> ws[k] != [] && Contains(s, ws[k])
    ensures forall k, i :: 0 <= k < |ws| && 0 <= i < |ws[k]| ==> !IsSpace(ws[k][i])
  {
    Runs(s, IsNonSpace, 1)
  }

  /** The leading run is the only length `RunLength` can return. */
  lemma {:induction false} RunLengthUnique(s: string, p: char -> bool, m: nat)
    requires m <= |s| && forall i :: 0 <= i < m ==> p(s[i])
    requires m == |s| || !p(s[m])
    ensures RunLength(s, p) == m
    decreases m
  {
    if m > 0 {
      forall i | 0 <= i < m - 1 ensures p(s[1..][i]) {
        assert s[1..][i] == s[i + 1];
      }
      if m < |s| {
        assert s[1..][m - 1] == s[m];
      }
      RunLengthUnique(s[1..], p, m - 1);
    }
  }

  /** Characters outside the class at the front contribute no run. */
  lemma {:induction false} RunsSkip(s: string, p: char -> bool, minLen: nat, n: nat)
    requires n <= |s| && forall i :: 0 <= i < n ==> !p(s[i])
    ensures Runs(s, p, minLen) == Runs(s[n..], p, minLen)
    decreases n
  {
    if n > 0 {
      RunsSkip(s[1..], p, minLen, n - 1);
      assert s[1..][n - 1..] == s[n..];
    }
  }

  /** A character outside the class ends every run: the text splits there. */
  lemma {:induction false} RunsSplit(s: string, p: char -> bool, minLen: nat, i: nat)
    requires i < |s| && !p(s[i])
    ensures Runs(s, p, minLen) == Runs(s[..i], p, minLen) + Runs(s[i + 1..], p, minLen)
    decreases |s|, 1
  {
    if !p(s[0]) {
      if i == 0 {
        assert s[..0] == [];
        assert s[1..] == s[i + 1..];
      } else {
        RunsSplit(s[1..], p, minLen, i - 1);
        assert s[1..][..i - 1] == s[..i][1..];
        assert s[1..][i..] == s[i + 1..];
        RunsTail(s, p, minLen);
        RunsTail(s[..i], p, minLen);
      }
    } else {
      RunsSplitAfterRun(s, p, minLen, i);
    }
  }

  /** `RunsSplit` when the text starts with a run. */
  lemma {:induction false} RunsSplitAfterRun(s: string, p: char -> bool, minLen: nat, i: nat)
    requires i < |s| && !p(s[i]) && p(s[0])
    ensures Runs(s, p, minLen) == Runs(s[..i], p, minLen) + Runs(s[i + 1..], p, minLen)
    decreases |s|, 0
  {
    var n := RunLength(s, p);
    RunsHead(s, p, minLen);
    RunLengthOfPrefix(s, p, i);
    SliceFacts(s, n, i);
    RunsHead(s[..i], p, minLen);
    assert FirstRun(s[..i], p, minLen) == FirstRun(s, p, minLen);
    RunsSplit(s[n..], p, minLen, i - n);
    Assoc(Runs(s, p, minLen), Runs(s[..i], p, minLen), FirstRun(s, p, minLen), Runs(s[n..][..i - n], p, minLen), Runs(s[i + 1..], p, minLen));
  }

  /** Slices of slices, as the run lemmas use them. */
  lemma SliceFacts<T>(s: seq<T>, n: nat, i: nat)
    requires n <= i < |s|
    ensures s[..i][..n] == s[..n]
    ensures s[..i][n..] == s[n..][..i - n]
    ensures s[n..][i - n + 1..] == s[i + 1..]
  {
  }

  /** A prefix that holds the leading run has the same leading run. */
  lemma RunLengthOfPrefix(s: string, p: char -> bool, i: nat)
    requires i < |s| && !p(s[i])
    ensures RunLength(s, p) <= i
    ensures RunLength(s[..i], p) == RunLength(s, p)
  {
    var n := RunLength(s, p);
    assert n <= i;
    RunLengthUnique(s[..i], p, n);
  }

  /** `x == h + (a + b)` and `y == h + a` give `x == y + b`. */
  lemma Assoc<T>(x: seq<T>, y: seq<T>, h: seq<T>, a: seq<T>, b: seq<T>)
    requires x == h + (a + b) && y == h + a
    ensures x == y + b
  {
  }

  /** A character outside the class in front is skipped. */
  lemma RunsTail(s: string, p: char -> bool, minLen: nat)
    requires s != [] && !p(s[0])
    ensures Runs(s, p, minLen) == Runs(s[1..], p, minLen)
  {
  }

  /** The leading run as `Runs` reports it: itself when long enough, nothing otherwise. */
  function FirstRun(s: string, p: char -> bool, minLen: nat): seq<string> {
    var n := RunLength(s, p);
    if n >= minLen then [s[..n]] else []
  }

  /** A run of the class at the front is the first run, when it is long enough. */
  lemma RunsHead(s: string, p: char -> bool, minLen: nat)
    requires s != [] && p(s[0])
    ensures Runs(s, p, minLen) == FirstRun(s, p, minLen) + Runs(s[RunLength(s, p)..], p, minLen)
  {
  }

  /** Text made only of class characters is one run, kept when it is long enough. */
  lemma RunsWhole(s: string, p: char -> bool, minLen: nat)
    requires forall i :: 0 <= i < |s| ==> p(s[i])
    ensures Runs(s, p, minLen) == if s != [] && |s| >= minLen then [s] else []
  {
    if s != [] {
      RunLengthUnique(s, p, |s|);
      assert s[..|s|] == s;
      assert s[|s|..] == [];
    }
  }

  /** A class character in front joins the first run when the text goes on with one, and starts its own run otherwise. */
  lemma RunsCons(c: char, t: string, p: char -> bool)
    requires p(c)
    ensures Runs([c] + t, p, 1) ==
      if t != [] && p(t[0]) then [[c] + Runs(t, p, 1)[0]] + Runs(t, p, 1)[1..] else [[c]] + Runs(t, p, 1)
  {
    if t != [] && p(t[0]) {
      RunsConsJoin(c, t, p);
    } else {
      RunsConsAlone(c, t, p);
    }
  }

  lemma RunsConsJoin(c: char, t: string, p: char -> bool)
    requires p(c) && t != [] && p(t[0])
    ensures Runs([c] + t, p, 1) == [[c] + Runs(t, p, 1)[0]] + Runs(t, p, 1)[1..]
  {
    var u := [c] + t;
    var n := RunLength(t, p);
    RunLengthUnique(u, p, n + 1);
    assert u[..n + 1] == [c] + t[..n];
    assert u[n + 1..] == t[n..];
  }

  lemma RunsConsAlone(c: char, t: string, p: char -> bool)
    requires p(c) && !(t != [] && p(t[0]))
    ensures Runs([c] + t, p, 1) == [[c]] + Runs(t, p, 1)
  {
    var u := [c] + t;
    RunLengthUnique(u, p, 1);
    assert u[..1] == [c];
    assert u[1..] == t;
  }

  /** Words in front of two texts with the same words and the same kind of first character are the same. */
  lemma WordsConsCongruent(c: char, x: string, y: string)
    requires Words(x) == Words(y)
    requires x == [] <==> y == []
    requires x != [] ==> (IsSpace(x[0]) <==> IsSpace(y[0]))
    ensures Words([c] + x) == Words([c] + y)
  {
    if IsSpace(c) {
      assert ([c] + x)[1..] == x && ([c] + y)[1..] == y;
    } else {
      RunsCons(c, x, IsNonSpace);
      RunsCons(c, y, IsNonSpace);
    }
  }

  /** A whitespace run in front of a text, or one space in front of a text with the same words, adds no word. */
  lemma WordsAfterSpaces(s: string, n: nat, rest: string)
    requires 1 <= n <= |s| && forall i :: 0 <= i < n ==> IsSpace(s[i])
    requires Words(rest) == Words(s[n..])
    ensures Words(" " + rest) == Words(s)
  {
    RunsSkip(s, IsNonSpace, 1, n);
    RunsTail(" " + rest, IsNonSpace, 1);
    assert (" " + rest)[1..] == rest;
  }

  /** The first character followed by a text with the same words as the rest, and the same kind of first character. */
  lemma WordsOfFirst(s: string, rest: string)
    requires s != [] && Words(rest) == Words(s[1..])
    requires rest == [] <==> s[1..] == []
    requires rest != [] ==> (IsSpace(rest[0]) <==> IsSpace(s[1]))
    ensures Words([s[0]] + rest) == Words(s)
  {
    WordsConsCongruent(s[0], rest, s[1..]);
    assert [s[0]] + s[1..] == s;
  }

  /** A whitespace run between two texts separates their words. */
  lemma WordsAround(a: string, w: string, b: string)
    requires w != [] && forall i :: 0 <= i < |w| ==> IsSpace(w[i])
    ensures Words(a + w + b) == Words(a) + Words(b)
  {
    var s := a + w + b;
    RunsSplit(s, IsNonSpace, 1, |a|);
    assert s[..|a|] == a;
    RunsSkip(s[|a| + 1..], IsNonSpace, 1, |w| - 1);
    assert s[|a| + 1..][|w| - 1..] == b;
  }

  /** In text whose only whitespace is single plain spaces, `split()` is `split(' ')`. */
  lemma {:induction false} WordsOfNormal(c: string)
    requires c != [] && Trimmed(c) && NoDoubleSpace(c) && OnlyPlainSpaces(c)
    ensures Words(c) == Split(c, ' ')
    decreases |c|
  {
    var n := RunLength(c, IsNonSpace);
    assert ' ' !in c[..n] by {
      assert forall i :: 0 <= i < n ==> !IsSpace(c[i]);
    }
    if n == |c| {
      assert c[..n] == c && c[n..] == [];
      SplitNoSep(c, ' ');
    } else {
      assert c[n] == ' ';
      assert n + 1 < |c| && !IsSpace(c[n + 1]);
      var rest := c[n + 1..];
      assert c[n..][1..] == rest;
      NoDoubleSpaceSlice(c, n + 1, |c|);
      OnlyPlainSpacesSlice(c, n + 1, |c|);
      WordsOfNormal(rest);
      assert Words(c) == [c[..n]] + Runs(c[n..], IsNonSpace, 1);
      assert Runs(c[n..], IsNonSpace, 1) == Runs(rest, IsNonSpace, 1);
      SplitFirst(c, ' ', n);
    }
  }

  /** `a` is `b` with some elements left out, order kept. */
  predicate IsSubseq<T(==)>(a: seq<T>, b: seq<T>)
    decreases |b|
  {
    if a == [] then true
    else if b == [] then false
    else if a[0] == b[0] then IsSubseq(a[1..], b[1..])
    else IsSubseq(a, b[1..])
  }

  /** Dropping the first element of the shorter sequence keeps the relation. */
  lemma SubseqTail<T>(a: seq<T>, b: seq<T>)
    requires a != [] && IsSubseq(a, b)
    ensures IsSubseq(a[1..], b)
    decreases |b|, 0
  {
    if a[0] == b[0] {
      SubseqCons(a[1..], b[1..], b[0]);
    } else {
      SubseqTail(a, b[1..]);
      SubseqCons(a[1..], b[1..], b[0]);
    }
    assert [b[0]] + b[1..] == b;
  }

  /** Prepending one element to the longer sequence keeps the relation. */
  lemma SubseqCons<T>(a: seq<T>, b: seq<T>, z: T)
    requires IsSubseq(a, b)
    ensures IsSubseq(a, [z] + b)
    decreases |b|, 1
  {
    assert ([z] + b)[1..] == b;
    if a != [] && a[0] == z {
      SubseqTail(a, b);
    }
  }

  /** A subsequence of a suffix is a subsequence of the whole. */
  lemma SubseqDropPrefix<T>(a: seq<T>, s: seq<T>, n: nat)
    requires n <= |s| && IsSubseq(a, s[n..])
    ensures IsSubseq(a, s)
    decreases n
  {
    if n > 0 {
      assert s[n..] == s[1..][n - 1..];
      SubseqDropPrefix(a, s[1..], n - 1);
      SubseqCons(a, s[1..], s[0]);
      assert [s[0]] + s[1..] == s;
    }
  }

  lemma SubseqPrepend<T>(a: seq<T>, b: seq<T>, x: T)
    requires IsSubseq(a, b)
    ensures IsSubseq([x] + a, [x] + b)
  {
    assert ([x] + a)[1..] == a && ([x] + b)[1..] == b;
  }

  lemma SubseqTrans<T>(a: seq<T>, b: seq<T>, c: seq<T>)
    requires IsSubseq(a, b) && IsSubseq(b, c)
    ensures IsSubseq(a, c)
    decreases |c|
  {
    if a != [] {
      if b[0] == c[0] {
        if a[0] == b[0] {
          SubseqTrans(a[1..], b[1..], c[1..]);
        } else {
          SubseqTrans(a, b[1..], c[1..]);
        }
      } else {
        SubseqTrans(a, b, c[1..]);
        SubseqCons(a, c[1..], c[0]);
        assert [c[0]] + c[1..] == c;
      }
    }
  }

  /** Appending an element that has a property, or nothing, keeps the property for every element. */
  lemma AllSnoc<T>(a: seq<T>, x: T, keep: bool, p: T -> bool)
    requires forall k :: 0 <= k < |a| ==> p(a[k])
    requires keep ==> p(x)
    ensures var r := a + (if keep then [x] else []); forall k :: 0 <= k < |r| ==> p(r[k])
  {
  }

  /** One step of a filter over a growing sequence: the kept elements stay a subsequence, and exactly the ones that pass. */
  lemma FilterSnoc<T>(kept: seq<T>, src: seq<T>, x: T, p: T -> bool)
    requires IsSubseq(kept, src)
    requires forall y :: y in kept <==> y in src && p(y)
    ensures var r := kept + (if p(x) then [x] else []);
      IsSubseq(r, src + [x]) && forall y :: y in r <==> y in src + [x] && p(y)
  {
    SubseqAppend(kept, src, x);
    assert forall y :: y in src + [x] <==> y in src || y == x;
    if p(x) {
      assert forall y :: y in kept + [x] <==> y in kept || y == x;
    } else {
      assert kept + [] == kept;
    }
  }

  /** One step of a filter over a growing sequence: every copy of a passing element is kept, and no copy of any other. */
  lemma CountSnoc<T>(kept: seq<T>, src: seq<T>, x: T, p: T -> bool)
    requires forall y :: multiset(kept)[y] == if p(y) then multiset(src)[y] else 0
    ensures var r := kept + (if p(x) then [x] else []);
      forall y :: multiset(r)[y] == if p(y) then multiset(src + [x])[y] else 0
  {
    assert multiset(src + [x]) == multiset(src) + multiset{x};
    if p(x) {
      assert multiset(kept + [x]) == multiset(kept) + multiset{x};
    } else {
      assert kept + [] == kept;
    }
  }

  lemma SubseqAppend<T>(a: seq<T>, b: seq<T>, x: T)
    requires IsSubseq(a, b)
    ensures IsSubseq(a, b + [x]) && IsSubseq(a + [x], b + [x])
    decreases |b|
  {
    if a == [] {
      if b != [] {
        SubseqAppend(a, b[1..], x);
        assert (b + [x])[1..] == b[1..] + [x];
      }
      assert a + [x] == [x];
    } else {
      assert (b + [x])[1..] == b[1..] + [x];
      assert (a + [x])[1..] == a[1..] + [x];
      if a[0] == b[0] {
        SubseqAppend(a[1..], b[1..], x);
      } else {
        SubseqAppend(a, b[1..], x);
      }
    }
  }

  lemma SubseqRefl<T>(a: seq<T>)
    ensures IsSubseq(a, a)
  {
    if a != [] { SubseqRefl(a[1..]); }
  }

  lemma SubseqMembers<T>(a: seq<T>, b: seq<T>)
    requires IsSubseq(a, b)
    ensures forall x :: x in a ==> x in b
    decreases |b|
  {
    if a != [] && b != [] {
      if a[0] == b[0] {
        SubseqMembers(a[1..], b[1..]);
        assert forall x :: x in a ==> x == a[0] || x in a[1..];
      } else {
        SubseqMembers(a, b[1..]);
      }
    }
  }

  lemma SubseqLength<T>(a: seq<T>, b: seq<T>)
    requires IsSubseq(a, b)
    ensures |a| <= |b|
    decreases |b|
  {
    if a != [] && b != [] {
      if a[0] == b[0] { SubseqLength(a[1..], b[1..]); } else { SubseqLength(a, b[1..]); }
    }
  }

  /** A prefix is a subsequence. */
  lemma PrefixIsSubseq<T>(s: seq<T>, n: nat)
    requires n <= |s|
    ensures IsSubseq(s[..n], s)
  {
    if n > 0 {
      PrefixIsSubseq(s[1..], n - 1);
      assert s[..n][1..] == s[1..][..n - 1];
    }
  }

  /** Index of the first occurrence of `x` in `s`: Python's `s.index(x)`. */
  function IndexOf<T(==)>(s: seq<T>, x: T): (k: nat)
    requires x in s
    ensures k < |s| && s[k] == x
    ensures forall j :: 0 <= j < k ==> s[j] != x
  {
    if s[0] == x then 0 else 1 + IndexOf(s[1..], x)
  }

  /** The elements of `s` in order of first occurrence: the keys of a dict filled from `s`. */
  function Distinct<T(==,!new)>(s: seq<T>): (d: seq<T>)
    ensures forall x :: x in d <==> x in s
    ensures forall i, j :: 0 <= i < j < |d| ==> d[i] != d[j]
    ensures forall i, j :: 0 <= i < j < |d| ==> IndexOf(s, d[i]) < IndexOf(s, d[j])
    ensures |d| <= |s|
  {
    if s == [] then []
    else
      var t := s[..|s| - 1];
      var x := s[|s| - 1];
      var init := Distinct(t);
      assert forall y :: y in s <==> y in t || y == x;
      forall y | y in t ensures IndexOf(s, y) == IndexOf(t, y) {
        IndexOfPrefix(s, |s| - 1, y);
      }
      if x in t then init
      else
        assert forall j :: 0 <= j < |t| ==> s[j] == t[j];
        assert IndexOf(s, x) == |s| - 1;
        init + [x]
  }

  /** The first occurrence of an element of a prefix lies in the prefix. */
  lemma {:induction false} IndexOfPrefix<T>(s: seq<T>, n: nat, x: T)
    requires n <= |s| && x in s[..n]
    ensures IndexOf(s, x) == IndexOf(s[..n], x)
    decreases n
  {
    assert s[..n][0] == s[0];
    if s[0] != x {
      assert s[..n][1..] == s[1..][..n - 1];
      IndexOfPrefix(s[1..], n - 1, x);
    }
  }

  /** Appending an element extends the distinct list only when the element is new. */
  lemma DistinctSnoc<T(!new)>(s: seq<T>, x: T)
    ensures Distinct(s + [x]) == if x in s then Distinct(s) else Distinct(s) + [x]
  {
    assert (s + [x])[..|s|] == s;
  }

  /** Stripping keeps single plain spaces single and plain. */
  lemma StripKeepsShape(c: string)
    requires NoDoubleSpace(c) && OnlyPlainSpaces(c)
    ensures NoDoubleSpace(Strip(c)) && OnlyPlainSpaces(Strip(c))
  {
    StripIsSlice(c);
    ShapeOfSlice(c, |c| - |StripLeft(c)|, Strip(c));
  }

  /** A slice keeps single plain spaces. */
  lemma ShapeOfSlice(c: string, a: nat, t: string)
    requires NoDoubleSpace(c) && OnlyPlainSpaces(c)
    requires a + |t| <= |c| && t == c[a..a + |t|]
    ensures NoDoubleSpace(t) && OnlyPlainSpaces(t)
  {
    NoDoubleSpaceSlice(c, a, a + |t|);
    OnlyPlainSpacesSlice(c, a, a + |t|);
  }

  /** `re.sub(r'\s+', ' ', s).strip()`, as the chains write it: single plain spaces between words, none at either end. */
  lemma NormalizedShape(s: string)
    ensures Trimmed(Strip(Collapse(s)))
    ensures NoDoubleSpace(Strip(Collapse(s)))
    ensures OnlyPlainSpaces(Strip(Collapse(s)))
  {
    StripKeepsShape(Collapse(s));
  }

  /** The length of `s[:n]` for `n >= 0`. */
  function Min(a: nat, b: nat): nat {
    if a < b then a else b
  }
}
