/**
 * Three of the five regular expressions of src/modules/tpm/src/lib/Tpm.cpp (the two device-file ones only
 * feed log lines), written as sequences of tokens, with a hand-written matcher. `Matches` says which
 * substrings a pattern denotes; `MatchAt` and `Search` compute the match std::regex_search reports: the
 * leftmost start and, at that start, the longest end.
 */
module Regex {
  import opened Common

  datatype Token =
    | Lit(text: string)                       // a literal character sequence
    | Class(chars: set<char>)                 // one character of a class, as [0-9]
    | Run(chars: set<char>, atLeast: nat)     // a greedy repetition, as \s+ (atLeast 1) or [rm]* (atLeast 0)

  type Pattern = seq<Token>

  predicate InClass(s: string, i: nat, j: nat, cs: set<char>)
    requires i <= j <= |s|
  {
    forall k :: i <= k < j ==> s[k] in cs
  }

  /** s[i..j] is a match of pattern p. */
  ghost predicate Matches(s: string, i: nat, p: Pattern, j: nat)
    decreases |p|
  {
    i <= j <= |s| &&
    if p == [] then i == j
    else
      match p[0]
      case Lit(t) => i + |t| <= j && s[i..i + |t|] == t && Matches(s, i + |t|, p[1..], j)
      case Class(cs) => i < j && s[i] in cs && Matches(s, i + 1, p[1..], j)
      case Run(cs, m) => exists k :: i + m <= k <= j && InClass(s, i, k, cs) && Matches(s, k, p[1..], j)
  }

  /** The end of the maximal run of characters of cs that starts at i. */
  function RunEnd(s: string, i: nat, cs: set<char>): (k: nat)
    requires i <= |s|
    ensures i <= k <= |s| && InClass(s, i, k, cs)
    ensures k < |s| ==> s[k] !in cs
    decreases |s| - i
  {
    if i < |s| && s[i] in cs then RunEnd(s, i + 1, cs) else i
  }

  /** The end of the match of p at i, each repetition taking all it can; None if there is none. */
  function MatchAt(s: string, i: nat, p: Pattern): (r: Option<nat>)
    requires i <= |s|
    ensures r.Some? ==> i <= r.value <= |s|
    decreases |p|
  {
    if p == [] then Some(i)
    else
      match p[0]
      case Lit(t) => if i + |t| <= |s| && s[i..i + |t|] == t then MatchAt(s, i + |t|, p[1..]) else None
      case Class(cs) => if i < |s| && s[i] in cs then MatchAt(s, i + 1, p[1..]) else None
      case Run(cs, m) => var k := RunEnd(s, i, cs); if k - i >= m then MatchAt(s, k, p[1..]) else None
  }

  /** The leftmost match of p starting at `from` or later, as (start, end). */
  function SearchFrom(s: string, p: Pattern, from: nat): (r: Option<(nat, nat)>)
    ensures r.Some? ==> from <= r.value.0 <= r.value.1 <= |s|
    decreases |s| + 1 - from
  {
    if from > |s| then None
    else
      match MatchAt(s, from, p)
      case Some(e) => Some((from, e))
      case None => SearchFrom(s, p, from + 1)
  }

  /** std::regex_search: the match it reports, as (start, end), or None. */
  function Search(s: string, p: Pattern): (r: Option<(nat, nat)>)
    ensures r.Some? ==> r.value.0 <= r.value.1 <= |s|
  {
    SearchFrom(s, p, 0)
  }

  /** A pattern that opens with a non-empty literal is never found in the empty string. */
  lemma SearchEmptyText(s: string, p: Pattern)
    requires p != [] && p[0].Lit? && p[0].text != ""
    ensures Search(s, p).Some? ==> s != ""
  {
    if s == "" {
      assert MatchAt(s, 0, p).None?;
      assert SearchFrom(s, p, 1).None?;
    }
  }

  /** Every match of t starts with a character outside cs. */
  predicate StartsOutside(t: Token, cs: set<char>) {
    match t
    case Lit(x) => |x| > 0 && x[0] !in cs
    case Class(c) => c !! cs
    case Run(_, _) => false
  }

  /**
   * Each repetition is last or followed by a token that cannot start with one of its characters, so a
   * greedy repetition never has to give a character back: the patterns of this module are all of this kind.
   */
  predicate Unambiguous(p: Pattern) {
    forall n :: 0 <= n < |p| - 1 ==> (p[n].Run? ==> StartsOutside(p[n + 1], p[n].chars))
  }

  lemma UnambiguousTail(p: Pattern)
    requires p != [] && Unambiguous(p)
    ensures Unambiguous(p[1..])
  {
    forall n | 0 <= n < |p[1..]| - 1
      ensures p[1..][n].Run? ==> StartsOutside(p[1..][n + 1], p[1..][n].chars)
    {
      assert p[1..][n] == p[n + 1] && p[1..][n + 1] == p[n + 2];
    }
  }

  /** What MatchAt finds is a match. */
  lemma {:induction false} MatchAtSound(s: string, i: nat, p: Pattern)
    requires i <= |s| && MatchAt(s, i, p).Some?
    ensures Matches(s, i, p, MatchAt(s, i, p).value)
    decreases |p|
  {
    if p != [] {
      var j := MatchAt(s, i, p).value;
      match p[0]
      case Lit(t) =>
        MatchAtSound(s, i + |t|, p[1..]);
      case Class(cs) =>
        MatchAtSound(s, i + 1, p[1..]);
      case Run(cs, m) =>
        var k := RunEnd(s, i, cs);
        MatchAtSound(s, k, p[1..]);
        assert i + m <= k <= j && InClass(s, i, k, cs) && Matches(s, k, p[1..], j);
    }
  }

  lemma MatchStartsOutside(s: string, i: nat, p: Pattern, j: nat, cs: set<char>)
    requires p != [] && StartsOutside(p[0], cs) && Matches(s, i, p, j)
    ensures i < |s| && s[i] !in cs
  {
    match p[0]
    case Lit(x) =>
      assert s[i..i + |x|][0] == x[0];
    case Class(c) =>
  }

  /** Where p matches at i, MatchAt finds a match at i, and none longer exists. */
  lemma {:induction false} MatchAtComplete(s: string, i: nat, p: Pattern, j: nat)
    requires Unambiguous(p) && Matches(s, i, p, j)
    ensures MatchAt(s, i, p).Some? && j <= MatchAt(s, i, p).value
    decreases |p|
  {
    if p != [] {
      UnambiguousTail(p);
      match p[0]
      case Lit(t) =>
        MatchAtComplete(s, i + |t|, p[1..], j);
      case Class(cs) =>
        MatchAtComplete(s, i + 1, p[1..], j);
      case Run(cs, m) =>
        var k :| i + m <= k <= j && InClass(s, i, k, cs) && Matches(s, k, p[1..], j);
        var e := RunEnd(s, i, cs);
        assert k <= e;
        if p[1..] != [] {
          assert StartsOutside(p[1], cs);
          MatchStartsOutside(s, k, p[1..], j, cs);
          assert k == e;
          MatchAtComplete(s, k, p[1..], j);
        }
    }
  }

  /** A match SearchFrom reports is the leftmost one from `from` on, and the longest at its start. */
  lemma {:induction false} SearchFromFound(s: string, p: Pattern, from: nat)
    requires Unambiguous(p) && SearchFrom(s, p, from).Some?
    ensures var (a, e) := SearchFrom(s, p, from).value;
      && Matches(s, a, p, e)
      && (forall j: nat :: Matches(s, a, p, j) ==> j <= e)
      && (forall b: nat, j: nat :: from <= b < a ==> !Matches(s, b, p, j))
    decreases |s| + 1 - from
  {
    match MatchAt(s, from, p)
    case Some(e) =>
      assert SearchFrom(s, p, from) == Some((from, e));
      MatchAtSound(s, from, p);
      forall j: nat | Matches(s, from, p, j)
        ensures j <= e
      {
        MatchAtComplete(s, from, p, j);
      }
    case None =>
      forall j: nat | Matches(s, from, p, j)
        ensures false
      {
        MatchAtComplete(s, from, p, j);
      }
      assert SearchFrom(s, p, from) == SearchFrom(s, p, from + 1);
      SearchFromFound(s, p, from + 1);
  }

  /** SearchFrom reports nothing only when p matches nowhere from `from` on. */
  lemma {:induction false} SearchFromMissing(s: string, p: Pattern, from: nat)
    requires Unambiguous(p) && SearchFrom(s, p, from).None?
    ensures forall b: nat, j: nat :: from <= b ==> !Matches(s, b, p, j)
    decreases |s| + 1 - from
  {
    if from <= |s| {
      assert MatchAt(s, from, p).None?;
      forall j: nat | Matches(s, from, p, j)
        ensures false
      {
        MatchAtComplete(s, from, p, j);
      }
      SearchFromMissing(s, p, from + 1);
    }
  }

  /**
   * Search reports the leftmost start at which p matches and the longest match there, and None exactly when
   * p matches nowhere.
   */
  lemma SearchLeftmostLongest(s: string, p: Pattern)
    requires Unambiguous(p)
    ensures Search(s, p).Some? ==>
      var (a, e) := Search(s, p).value;
      && Matches(s, a, p, e)
      && (forall j: nat :: Matches(s, a, p, j) ==> j <= e)
      && (forall b: nat, j: nat :: b < a ==> !Matches(s, b, p, j))
    ensures Search(s, p).None? <==> forall b: nat, j: nat :: !Matches(s, b, p, j)
  {
    if Search(s, p).Some? {
      SearchFromFound(s, p, 0);
      var (a, e) := Search(s, p).value;
      assert Matches(s, a, p, e);
    } else {
      SearchFromMissing(s, p, 0);
    }
  }

  lemma {:induction false} SearchFromFindsFirstLongest(s: string, p: Pattern, from: nat, a: nat, e: nat)
    requires Unambiguous(p) && from <= a && Matches(s, a, p, e)
    requires forall b: nat, j: nat :: from <= b < a ==> !Matches(s, b, p, j)
    requires forall j: nat :: Matches(s, a, p, j) ==> j <= e
    ensures SearchFrom(s, p, from) == Some((a, e))
    decreases a - from
  {
    if from < a {
      if MatchAt(s, from, p).Some? {
        MatchAtSound(s, from, p);
        assert false;
      }
      SearchFromFindsFirstLongest(s, p, from + 1, a, e);
    } else {
      MatchAtComplete(s, a, p, e);
      MatchAtSound(s, a, p);
    }
  }

  /** Conversely, the first longest match of p is what Search reports. */
  lemma SearchFindsFirstLongest(s: string, p: Pattern, a: nat, e: nat)
    requires Unambiguous(p) && Matches(s, a, p, e)
    requires forall b: nat, j: nat :: b < a ==> !Matches(s, b, p, j)
    requires forall j: nat :: Matches(s, a, p, j) ==> j <= e
    ensures Search(s, p) == Some((a, e))
  {
    SearchFromFindsFirstLongest(s, p, 0, a, e);
  }

  /** A match found by MatchAt of a pattern that ends in a repetition stops where the repetition's run stops. */
  lemma {:induction false} MatchAtEndsRun(s: string, i: nat, p: Pattern)
    requires i <= |s| && p != [] && p[|p| - 1].Run? && MatchAt(s, i, p).Some?
    ensures MatchAt(s, i, p).value == |s| || s[MatchAt(s, i, p).value] !in p[|p| - 1].chars
    decreases |p|
  {
    if |p| > 1 {
      assert p[1..][|p[1..]| - 1] == p[|p| - 1];
      match p[0]
      case Lit(t) =>
        MatchAtEndsRun(s, i + |t|, p[1..]);
      case Class(cs) =>
        MatchAtEndsRun(s, i + 1, p[1..]);
      case Run(cs, m) =>
        MatchAtEndsRun(s, RunEnd(s, i, cs), p[1..]);
    }
  }
}
