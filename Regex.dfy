/**
  The fragment of JavaScript regular expressions the helpers use: a pattern
  anchored with `^`, made of character classes each repeated between a minimum
  and a maximum number of times (`{1,2}`, `?`, `+`), optionally anchored with
  `$` at the end.

  `FirstMatch` is the matcher: it backtracks, trying the greediest count of
  each quantifier first, as the JavaScript engine does, so it also gives the
  text `match(...)` returns. `Splits` is the language of the pattern, stated
  without any search order; `FirstMatchSplits` proves the two agree.
*/
module Regex {
  import opened Text
  import opened Wrappers

  /** The character classes that occur in the patterns. */
  datatype Class =
    | Upper          // [A-Z]
    | Letter         // [A-Z] under the `i` flag
    | Digit          // \d
    | Space          // \s
    | NotSpaceOrAt   // [^\s@]
    | Lit(c: char)   // a literal character, such as `@` or `\.`

  predicate InClass(k: Class, c: char)
  {
    match k
    case Upper => IsUpper(c)
    case Letter => IsLetter(c)
    case Digit => IsDigit(c)
    case Space => IsSpace(c)
    case NotSpaceOrAt => !IsSpace(c) && c != '@'
    case Lit(d) => c == d
  }

  predicate AllIn(k: Class, s: string)
  {
    forall i :: 0 <= i < |s| ==> InClass(k, s[i])
  }

  /** A character class with a quantifier `{min,max}`; `max == None` is unbounded (`+`, `*`). */
  datatype Piece = Piece(k: Class, min: nat, max: Option<nat>)

  predicate CountAllowed(p: Piece, n: nat)
  {
    p.min <= n && (p.max.None? || n <= p.max.value)
  }

  /** The length of the longest prefix of `s` inside class `k`. */
  function ClassRun(k: Class, s: string): (n: nat)
    ensures n <= |s| && AllIn(k, s[..n])
    ensures n < |s| ==> !InClass(k, s[n])
  {
    if s == [] || !InClass(k, s[0]) then 0
    else
      var n := 1 + ClassRun(k, s[1..]);
      assert forall i :: 1 <= i < n ==> s[..n][i] == s[1..][..n - 1][i - 1];
      n
  }

  /** A prefix inside the class is no longer than the run. */
  lemma {:induction false} ClassRunMaximal(k: Class, s: string, m: nat)
    requires m <= |s| && AllIn(k, s[..m])
    ensures m <= ClassRun(k, s)
  {
    if m > 0 {
      assert s[0] == s[..m][0];
      var t := s[1..][..m - 1];
      assert AllIn(k, t) by {
        forall i | 0 <= i < |t| ensures InClass(k, t[i]) {
          assert t[i] == s[..m][i + 1];
        }
      }
      ClassRunMaximal(k, s[1..], m - 1);
    }
  }

  /** The most characters a piece can take at the start of `s`. */
  function Greediest(p: Piece, s: string): (n: nat)
    ensures n <= |s| && AllIn(p.k, s[..n])
  {
    var run := ClassRun(p.k, s);
    if p.max.Some? && p.max.value < run then
      assert forall i :: 0 <= i < p.max.value ==> s[..p.max.value][i] == s[..run][i];
      p.max.value
    else run
  }

  /**
    The length of the first match of `r` at the start of `s` that a backtracking
    matcher finds, trying the greediest count of each quantifier first; with
    `toEnd` the match must reach the end of `s` (a trailing `$`).
  */
  function FirstMatch(r: seq<Piece>, s: string, toEnd: bool): (res: Option<nat>)
    ensures res.Some? ==> res.value <= |s|
    ensures res.Some? && toEnd ==> res.value == |s|
    decreases |r|, |s| + 1
  {
    if r == [] then (if !toEnd || s == [] then Some(0) else None)
    else TryCounts(r, s, toEnd, Greediest(r[0], s))
  }

  /** Backtracking over the count of the first piece, from `n` down to its minimum. */
  function TryCounts(r: seq<Piece>, s: string, toEnd: bool, n: nat): (res: Option<nat>)
    requires r != [] && n <= |s|
    ensures res.Some? ==> res.value <= |s|
    ensures res.Some? && toEnd ==> res.value == |s|
    decreases |r|, n
  {
    if n < r[0].min then None
    else match FirstMatch(r[1..], s[n..], toEnd)
      case Some(l) => Some(n + l)
      case None => if n == 0 then None else TryCounts(r, s, toEnd, n - 1)
  }

  /** `re.test(s)` for a pattern anchored at both ends. */
  predicate Test(r: seq<Piece>, s: string)
  {
    FirstMatch(r, s, true).Some?
  }

  /** The language of the pattern: `s` cuts into one chunk per piece, each a permitted number of characters of its class. */
  predicate Splits(r: seq<Piece>, s: string)
    decreases |r|
  {
    if r == [] then s == []
    else exists n :: 0 <= n <= |s| && CountAllowed(r[0], n) && AllIn(r[0].k, s[..n]) && Splits(r[1..], s[n..])
  }

  /** The backtracking matcher accepts exactly the strings of the pattern's language. */
  lemma {:induction false} FirstMatchSplits(r: seq<Piece>, s: string)
    ensures Test(r, s) <==> Splits(r, s)
    decreases |r|, 1
  {
    if r != [] {
      TryCountsSplits(r, s, Greediest(r[0], s));
      if Splits(r, s) {
        var m :| 0 <= m <= |s| && CountAllowed(r[0], m) && AllIn(r[0].k, s[..m]) && Splits(r[1..], s[m..]);
        ClassRunMaximal(r[0].k, s, m);
      }
    }
  }

  lemma {:induction false} TryCountsSplits(r: seq<Piece>, s: string, n: nat)
    requires r != [] && n <= Greediest(r[0], s)
    ensures TryCounts(r, s, true, n).Some? <==>
              exists m :: 0 <= m <= n && CountAllowed(r[0], m) && AllIn(r[0].k, s[..m]) && Splits(r[1..], s[m..])
    decreases |r|, 0, n
  {
    hide FirstMatch, Splits, ClassRun;
    var g := Greediest(r[0], s);
    assert AllIn(r[0].k, s[..n]) by {
      assert forall i :: 0 <= i < n ==> s[..n][i] == s[..g][i];
    }
    FirstMatchSplits(r[1..], s[n..]);
    if n < r[0].min {
      // no count up to n reaches the minimum
    } else if Splits(r[1..], s[n..]) {
      assert CountAllowed(r[0], n);
    } else if n > 0 {
      TryCountsSplits(r, s, n - 1);
    }
  }

  // ---------------------------------------------------------------------------
  // Working with the language of a pattern

  /** A prefix inside the class that stops at the end or at a character outside it is the whole run. */
  lemma ClassRunExact(k: Class, s: string, n: nat)
    requires n <= |s| && AllIn(k, s[..n])
    requires n == |s| || !InClass(k, s[n])
    ensures ClassRun(k, s) == n
  {
    ClassRunMaximal(k, s, n);
  }

  /** A one-piece pattern matches a run of its class of a permitted length. */
  lemma SplitsOne(p: Piece, s: string)
    ensures Splits([p], s) <==> CountAllowed(p, |s|) && AllIn(p.k, s)
  {
    hide AllIn, CountAllowed;
    SplitsEmpty();
    assert [p] == [p] + [];
    SplitsCons(p, [], s);
    hide Splits;
    if Splits([p], s) {
      var n :| 0 <= n <= |s| && CountAllowed(p, n) && AllIn(p.k, s[..n]) && Splits([], s[n..]);
      assert s[..n] == s;
    }
    if CountAllowed(p, |s|) && AllIn(p.k, s) {
      assert s[..|s|] == s && s[|s|..] == [];
    }
  }

  /** The empty pattern matches only the empty string. */
  lemma SplitsEmpty()
    ensures forall t :: Splits([], t) <==> t == []
  {
  }

  /** Unfolding the language of a pattern at its first piece. */
  lemma SplitsCons(p: Piece, r: seq<Piece>, s: string)
    ensures Splits([p] + r, s) <==>
              exists n :: 0 <= n <= |s| && CountAllowed(p, n) && AllIn(p.k, s[..n]) && Splits(r, s[n..])
  {
    assert ([p] + r)[0] == p && ([p] + r)[1..] == r;
  }

  /** The count the first piece takes in a string of the pattern's language. */
  lemma SplitsHead(p: Piece, r: seq<Piece>, s: string) returns (n: nat)
    requires Splits([p] + r, s)
    ensures n <= |s| && CountAllowed(p, n) && AllIn(p.k, s[..n]) && Splits(r, s[n..])
  {
    SplitsCons(p, r, s);
    n :| 0 <= n <= |s| && CountAllowed(p, n) && AllIn(p.k, s[..n]) && Splits(r, s[n..]);
  }

  /** A pattern that starts with a literal character. */
  lemma SplitsLit(c: char, r: seq<Piece>, s: string)
    ensures Splits([Piece(Lit(c), 1, Some(1))] + r, s) <==> |s| >= 1 && s[0] == c && Splits(r, s[1..])
  {
    SplitsCons(Piece(Lit(c), 1, Some(1)), r, s);
    if |s| >= 1 {
      assert s[..1][0] == s[0];
    }
  }

  /** The language of a concatenation of patterns is the concatenation of their languages. */
  lemma SplitsAppend(r1: seq<Piece>, r2: seq<Piece>, s: string)
    ensures Splits(r1 + r2, s) <==> exists k :: 0 <= k <= |s| && Splits(r1, s[..k]) && Splits(r2, s[k..])
  {
    if Splits(r1 + r2, s) {
      var k := SplitsAppendCut(r1, r2, s);
    }
    if exists k :: 0 <= k <= |s| && Splits(r1, s[..k]) && Splits(r2, s[k..]) {
      var k :| 0 <= k <= |s| && Splits(r1, s[..k]) && Splits(r2, s[k..]);
      SplitsAppendJoin(r1, r2, s, k);
    }
  }

  lemma {:induction false} SplitsAppendCut(r1: seq<Piece>, r2: seq<Piece>, s: string) returns (k: nat)
    requires Splits(r1 + r2, s)
    ensures k <= |s| && Splits(r1, s[..k]) && Splits(r2, s[k..])
    decreases |r1|
  {
    if r1 == [] {
      assert r1 + r2 == r2;
      k := 0;
      assert s[..k] == [] && s[k..] == s;
    } else {
      hide Splits, AllIn, CountAllowed;
      var p, q := r1[0], r1[1..];
      ConsAppend(r1, r2);
      var n := SplitsHead(p, q + r2, s);
      var k' := SplitsAppendCut(q, r2, s[n..]);
      k := n + k';
      SliceSplit(s, k, n);
      SplitsCons(p, q, s[..k]);
    }
  }

  lemma {:induction false} SplitsAppendJoin(r1: seq<Piece>, r2: seq<Piece>, s: string, k: nat)
    requires k <= |s| && Splits(r1, s[..k]) && Splits(r2, s[k..])
    ensures Splits(r1 + r2, s)
    decreases |r1|
  {
    if r1 == [] {
      assert r1 + r2 == r2;
      assert s[..k] == [] && s[k..] == s;
    } else {
      hide Splits, AllIn, CountAllowed;
      var p, q := r1[0], r1[1..];
      ConsAppend(r1, r2);
      var n := SplitsHead(p, q, s[..k]);
      SliceSplit(s, k, n);
      SplitsAppendJoin(q, r2, s[n..], k - n);
      SplitsCons(p, q + r2, s);
    }
  }

  lemma ConsAppend(r1: seq<Piece>, r2: seq<Piece>)
    requires r1 != []
    ensures r1 == [r1[0]] + r1[1..] && r1 + r2 == [r1[0]] + (r1[1..] + r2)
  {
  }

  /** Cutting `s` at `n` and `k`, in either order. */
  lemma SliceSplit(s: string, k: nat, n: nat)
    requires n <= k <= |s|
    ensures s[..k][..n] == s[..n] && s[..k][n..] == s[n..][..k - n] && s[k..] == s[n..][k - n..]
  {
  }
}
