/**
 * Ordered substitution chains: each step is Python's `re.sub(pattern, '', s)`.
 *
 * Three pattern shapes are given their exact meaning: a literal, a literal
 * pair separated by optional whitespace (`first\s*second`) and a lazy span
 * (`open.*?close`). Every other pattern of the chains is an `Other` step
 * whose effect is supplied by an uninterpreted function, the `Oracle`,
 * indexed by the source line of the pattern.
 */
module Rules {
  import opened Chars
  import opened Text
  import opened Wrappers

  /** One deletion step of a chain. */
  datatype Rule =
    | Literal(lit: string)                   // re.sub('lit', '', s)
    | Spaced(first: string, second: string)  // re.sub(r'first\s*second', '', s)
    | LazySpan(open: string, close: string)  // re.sub(r'open.*?close', '', s)
    | Other(line: nat)                       // any other pattern, by source line

  /** What the patterns this model leaves uninterpreted do to a string. */
  type Oracle = (nat, string) -> string

  /** A pattern with concrete meaning. */
  predicate Concrete(rule: Rule) {
    !rule.Other?
  }

  /**
   * `first\s*second` after `first` ended at `start`: the whitespace run there
   * is `k` long at most; greedy `\s*` tries the longest run first.
   */
  function SpacedEnd(s: string, start: nat, k: nat, second: string): (m: Option<nat>)
    requires start + k <= |s|
    ensures m.Some? ==> start + |second| <= m.value <= |s| && StartsAt(s, m.value - |second|, second)
    decreases k
  {
    if StartsAt(s, start + k, second) then Some(start + k + |second|)
    else if k == 0 then None
    else SpacedEnd(s, start, k - 1, second)
  }

  /**
   * `.*?close` from index `k`: the nearest occurrence of `close`, with no
   * newline in between (`.` does not match a newline).
   */
  function CloseAt(s: string, k: nat, close: string): (m: Option<nat>)
    requires k <= |s| && close != []
    ensures m.Some? ==> k + |close| <= m.value <= |s| && StartsAt(s, m.value - |close|, close)
    ensures m.Some? ==> forall j :: k <= j < m.value - |close| ==> s[j] != '\n'
    decreases |s| - k
  {
    if StartsAt(s, k, close) then Some(k + |close|)
    else if k == |s| || s[k] == '\n' then None
    else CloseAt(s, k + 1, close)
  }

  /** Length of the match of a concrete pattern at the start of `s`, if it matches there. */
  function MatchAt(rule: Rule, s: string): (m: Option<nat>)
    requires Concrete(rule)
    ensures m.Some? ==> 0 < m.value <= |s|
    ensures rule.Literal? ==> (m.Some? <==> rule.lit != [] && StartsAt(s, 0, rule.lit))
    ensures rule.LazySpan? && m.Some? ==> StartsAt(s, 0, rule.open)
  {
    match rule
    case Literal(lit) =>
      if lit != [] && StartsAt(s, 0, lit) then Some(|lit|) else None
    case Spaced(first, second) =>
      if first != [] && StartsAt(s, 0, first) then
        var n := RunLength(s[|first|..], IsSpace);
        SpacedEnd(s, |first|, n, second)
      else None
    case LazySpan(open, close) =>
      if open != [] && close != [] && StartsAt(s, 0, open) then CloseAt(s, |open|, close)
      else None
  }

  /**
   * `re.sub(pattern, '', s)`: scanning left to right, each leftmost match is
   * removed and the scan resumes after it.
   */
  function DeleteMatches(rule: Rule, s: string): (r: string)
    requires Concrete(rule)
    ensures IsSubseq(r, s)
    ensures |r| <= |s|
    decreases |s|
  {
    if s == [] then []
    else match MatchAt(rule, s)
      case Some(n) =>
        var rest := DeleteMatches(rule, s[n..]);
        SubseqDropPrefix(rest, s, n);
        rest
      case None =>
        var rest := DeleteMatches(rule, s[1..]);
        SubseqCons(rest, s[1..], s[0]);
        SubseqPrepend(rest, s[1..], s[0]);
        [s[0]] + rest
  }

  /** The leftmost match is removed: the text before it stays, and the scan resumes after it. */
  lemma DeleteFirstMatch(rule: Rule, s: string, i: nat)
    requires Concrete(rule) && i < |s|
    requires forall j :: 0 <= j < i ==> MatchAt(rule, s[j..]).None?
    requires MatchAt(rule, s[i..]).Some?
    ensures DeleteMatches(rule, s) == s[..i] + DeleteMatches(rule, s[i + MatchAt(rule, s[i..]).value..])
  {
    var n := MatchAt(rule, s[i..]).value;
    NoMatchBeforeOf(rule, s, i);
    DeleteKeepsPrefix(rule, s, i);
    assert s[i..][n..] == s[i + n..];
    assert DeleteMatches(rule, s[i..]) == DeleteMatches(rule, s[i + n..]);
  }

  /** No match starts at the first `i` positions, stated one position at a time. */
  predicate NoMatchBefore(rule: Rule, s: string, i: nat)
    requires Concrete(rule) && i <= |s|
    decreases i
  {
    i == 0 || (MatchAt(rule, s).None? && NoMatchBefore(rule, s[1..], i - 1))
  }

  lemma {:induction false} NoMatchBeforeOf(rule: Rule, s: string, i: nat)
    requires Concrete(rule) && i <= |s|
    requires forall j :: 0 <= j < i ==> MatchAt(rule, s[j..]).None?
    ensures NoMatchBefore(rule, s, i)
    decreases i
  {
    if i > 0 {
      assert s[0..] == s;
      forall j | 0 <= j < i - 1 ensures MatchAt(rule, s[1..][j..]).None? {
        assert s[1..][j..] == s[j + 1..];
      }
      NoMatchBeforeOf(rule, s[1..], i - 1);
    }
  }

  /** Text in front of the first match is kept as it is. */
  lemma {:induction false} DeleteKeepsPrefix(rule: Rule, s: string, i: nat)
    requires Concrete(rule) && i <= |s|
    requires NoMatchBefore(rule, s, i)
    ensures DeleteMatches(rule, s) == s[..i] + DeleteMatches(rule, s[i..])
    decreases i
  {
    if i == 0 {
      assert s[..0] == [] && s[0..] == s;
    } else {
      var t := s[1..];
      DeleteKeepsPrefix(rule, t, i - 1);
      assert t[i - 1..] == s[i..];
      DeleteSkipsFirst(rule, s);
      Regroup(DeleteMatches(rule, s), DeleteMatches(rule, t), s, i, DeleteMatches(rule, s[i..]));
    }
  }

  /** `d == [s[0]] + d1` and `d1 == s[1..][..i - 1] + rest` give `d == s[..i] + rest`. */
  lemma Regroup<T>(d: seq<T>, d1: seq<T>, s: seq<T>, i: nat, rest: seq<T>)
    requires 0 < i <= |s|
    requires d == [s[0]] + d1 && d1 == s[1..][..i - 1] + rest
    ensures d == s[..i] + rest
  {
    assert s[..i] == [s[0]] + s[1..][..i - 1];
  }

  /** Where nothing matches at the front, the first character stays. */
  lemma DeleteSkipsFirst(rule: Rule, s: string)
    requires Concrete(rule) && s != [] && MatchAt(rule, s).None?
    ensures DeleteMatches(rule, s) == [s[0]] + DeleteMatches(rule, s[1..])
  {
  }

  /** Where the pattern matches somewhere, the step removes at least one character. */
  lemma {:induction false} DeleteShrinks(rule: Rule, s: string, i: nat)
    requires Concrete(rule) && i < |s|
    requires MatchAt(rule, s[i..]).Some?
    ensures |DeleteMatches(rule, s)| < |s|
    decreases i
  {
    if MatchAt(rule, s).None? {
      assert i != 0 by {
        assert s[0..] == s;
      }
      assert s[1..][i - 1..] == s[i..];
      DeleteShrinks(rule, s[1..], i - 1);
    }
  }

  /** When the pattern matches nowhere, the step changes nothing. */
  lemma {:induction false} DeleteNoMatch(rule: Rule, s: string)
    requires Concrete(rule)
    requires forall i :: 0 <= i < |s| ==> MatchAt(rule, s[i..]).None?
    ensures DeleteMatches(rule, s) == s
    decreases |s|
  {
    if s != [] {
      assert MatchAt(rule, s[0..]).None? && s[0..] == s;
      forall i | 0 <= i < |s[1..]| ensures MatchAt(rule, s[1..][i..]).None? {
        assert s[1..][i..] == s[i + 1..];
      }
      DeleteNoMatch(rule, s[1..]);
      assert s == [s[0]] + s[1..];
    }
  }

  /** A literal that does not occur in `s` deletes nothing. */
  lemma LiteralAbsent(lit: string, s: string)
    requires !Contains(s, lit)
    ensures DeleteMatches(Literal(lit), s) == s
  {
    forall i | 0 <= i < |s| ensures MatchAt(Literal(lit), s[i..]).None? {
      if MatchAt(Literal(lit), s[i..]).Some? {
        assert s[i..][..|lit|] == s[i..i + |lit|];
        ContainsAt(s, i, lit);
      }
    }
    DeleteNoMatch(Literal(lit), s);
  }

  /** A lazy span whose opening literal does not occur in `s` deletes nothing. */
  lemma LazySpanAbsent(open: string, close: string, s: string)
    requires !Contains(s, open)
    ensures DeleteMatches(LazySpan(open, close), s) == s
  {
    forall i | 0 <= i < |s| ensures MatchAt(LazySpan(open, close), s[i..]).None? {
      if MatchAt(LazySpan(open, close), s[i..]).Some? {
        assert s[i..][..|open|] == s[i..i + |open|];
        ContainsAt(s, i, open);
      }
    }
    DeleteNoMatch(LazySpan(open, close), s);
  }

  /** One step of a chain. */
  function Apply(rule: Rule, s: string, other: Oracle): string {
    if rule.Other? then other(rule.line, s) else DeleteMatches(rule, s)
  }

  /** The steps of a chain, applied in order, each to the previous one's result. */
  function RunChain(rules: seq<Rule>, s: string, other: Oracle): string
    decreases |rules|
  {
    if rules == [] then s else RunChain(rules[1..], Apply(rules[0], s, other), other)
  }

  /**
   * Every pattern of both chains is replaced by the empty string, so each
   * step, the uninterpreted ones included, only deletes characters.
   */
  ghost predicate Deleting(other: Oracle) {
    forall line: nat, s: string :: IsSubseq(other(line, s), s)
  }

  /** A chain of deleting steps only deletes: its result is a subsequence of its input. */
  lemma {:induction false} ChainDeletes(rules: seq<Rule>, s: string, other: Oracle)
    requires Deleting(other)
    ensures IsSubseq(RunChain(rules, s, other), s)
    decreases |rules|
  {
    if rules == [] {
      SubseqRefl(s);
    } else {
      var t := Apply(rules[0], s, other);
      ChainDeletes(rules[1..], t, other);
      SubseqTrans(RunChain(rules[1..], t, other), t, s);
    }
  }
}
