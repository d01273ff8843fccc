/** Automaton fragments (apg.automata.Program), kept as the expression tree of
    the combinators that built them, with the words each fragment matches. */
module Automata {
  import opened Syntax

  /** `Char` is Program.newChar, `Class` is Program.newCharClass over a range set,
      `Or`, `Cat` and `Rep` are Program.or, Program.concatenate and Program.repeat
      applied with `left` as the receiver. */
  datatype Program =
    | Char(code: int)
    | Class(ranges: seq<Range>)
    | Or(left: Program, right: Program)
    | Cat(left: Program, right: Program)
    | Rep(body: Program, min: int, max: int)

  /** The fragment that reads the same pattern backwards: operands of every
      binary combinator swap places. */
  function Reverse(p: Program): (r: Program) {
    match p
    case Char(_) => p
    case Class(_) => p
    case Or(a, b) => Or(Reverse(b), Reverse(a))
    case Cat(a, b) => Cat(Reverse(b), Reverse(a))
    case Rep(q, lo, hi) => Rep(Reverse(q), lo, hi)
  }

  lemma {:induction false} ReverseInvolution(p: Program)
    ensures Reverse(Reverse(p)) == p
  {
    match p
    case Char(_) =>
    case Class(_) =>
    case Or(a, b) => ReverseInvolution(a); ReverseInvolution(b);
    case Cat(a, b) => ReverseInvolution(a); ReverseInvolution(b);
    case Rep(q, _, _) => ReverseInvolution(q);
  }

  /** The single codes a fragment names (rule references become such codes);
      the ranges of a character class are not among them. */
  function Symbols(p: Program): (r: set<int>) {
    match p
    case Char(c) => {c}
    case Class(_) => {}
    case Or(a, b) => Symbols(a) + Symbols(b)
    case Cat(a, b) => Symbols(a) + Symbols(b)
    case Rep(q, _, _) => Symbols(q)
  }

  /** A word read from its end to its start. */
  function Rev(w: seq<int>): (r: seq<int>)
    ensures |r| == |w|
  {
    seq(|w|, i requires 0 <= i < |w| => w[|w| - 1 - i])
  }

  /** The words a fragment matches, by the ABNF meaning of its combinators
      (RFC 5234 sections 3.1, 3.2, 3.4 and 3.6): a repetition matches between
      `min` and `max` consecutive words of its body. */
  ghost predicate Matches(p: Program, w: seq<int>)
    decreases p, 0, 0
  {
    match p
    case Char(c) => w == [c]
    case Class(rs) => |w| == 1 && exists i :: 0 <= i < |rs| && rs[i].Contains(w[0])
    case Or(a, b) => Matches(a, w) || Matches(b, w)
    case Cat(a, b) => exists k :: 0 <= k <= |w| && Matches(a, w[..k]) && Matches(b, w[k..])
    case Rep(q, lo, hi) => exists n: nat :: lo <= n <= hi && MatchesN(q, n, w)
  }

  /** `w` is the concatenation of exactly `n` words each matched by `p`. */
  ghost predicate MatchesN(p: Program, n: nat, w: seq<int>)
    decreases p, 1, n
  {
    if n == 0 then w == []
    else exists k :: 0 <= k <= |w| && Matches(p, w[..k]) && MatchesN(p, n - 1, w[k..])
  }

  /** Splits off the first of the `n` pieces. */
  lemma FirstPiece(p: Program, n: nat, w: seq<int>) returns (k: nat)
    requires n > 0 && MatchesN(p, n, w)
    ensures k <= |w| && Matches(p, w[..k]) && MatchesN(p, n - 1, w[k..])
  {
    k :| 0 <= k <= |w| && Matches(p, w[..k]) && MatchesN(p, n - 1, w[k..]);
  }

  /** Puts a first piece in front of `n - 1` pieces. */
  lemma JoinFirst(p: Program, n: nat, w: seq<int>, k: nat)
    requires n > 0 && k <= |w| && Matches(p, w[..k]) && MatchesN(p, n - 1, w[k..])
    ensures MatchesN(p, n, w)
  {
  }

  /** Splits off the last of the `n` pieces instead of the first. */
  lemma {:induction false} MatchesNSplitLast(p: Program, n: nat, w: seq<int>) returns (m: nat)
    requires n > 0 && MatchesN(p, n, w)
    ensures m <= |w| && MatchesN(p, n - 1, w[..m]) && Matches(p, w[m..])
  {
    if n == 1 {
      m := 0;
      OnlyPiece(p, w);
    } else {
      var k := FirstPiece(p, n, w);
      var j := MatchesNSplitLast(p, n - 1, w[k..]);
      m := k + j;
      ThreeSlices(w, k, m);
      JoinFirst(p, n - 1, w[..m], k);
    }
  }

  /** Puts a last piece behind `n - 1` pieces. */
  lemma {:induction false} MatchesNAppendLast(p: Program, n: nat, w: seq<int>, m: nat)
    requires n > 0 && m <= |w| && MatchesN(p, n - 1, w[..m]) && Matches(p, w[m..])
    ensures MatchesN(p, n, w)
  {
    if n == 1 {
      OnePiece(p, w, m);
    } else {
      var k := FirstPiece(p, n - 1, w[..m]);
      ThreeSlices(w, k, m);
      MatchesNAppendLast(p, n - 1, w[k..], m - k);
      JoinFirst(p, n, w, k);
    }
  }

  lemma OnlyPiece(p: Program, w: seq<int>)
    requires MatchesN(p, 1, w)
    ensures MatchesN(p, 0, w[..0]) && Matches(p, w[0..])
  {
    var k := FirstPiece(p, 1, w);
    assert w[k..] == [];
    assert w[0..] == w[..k];
  }

  lemma OnePiece(p: Program, w: seq<int>, m: nat)
    requires m <= |w| && MatchesN(p, 0, w[..m]) && Matches(p, w[m..])
    ensures MatchesN(p, 1, w)
  {
    assert w[..|w|] == w[m..] && w[|w|..] == [];
    JoinFirst(p, 1, w, |w|);
  }

  /** Cutting `w` at `k` and at `m` gives the same three pieces either way. */
  lemma ThreeSlices(w: seq<int>, k: nat, m: nat)
    requires k <= m <= |w|
    ensures w[..m][..k] == w[..k]
    ensures w[..m][k..] == w[k..][..m - k]
    ensures w[m..] == w[k..][m - k..]
  {
  }

  /** Where a concatenation's match is cut between its two parts. */
  lemma CatSplit(a: Program, b: Program, w: seq<int>) returns (k: nat)
    requires Matches(Cat(a, b), w)
    ensures k <= |w| && Matches(a, w[..k]) && Matches(b, w[k..])
  {
    k :| 0 <= k <= |w| && Matches(a, w[..k]) && Matches(b, w[k..]);
  }

  lemma CatJoin(a: Program, b: Program, w: seq<int>, k: nat)
    requires k <= |w| && Matches(a, w[..k]) && Matches(b, w[k..])
    ensures Matches(Cat(a, b), w)
  {
  }

  /** How many repetitions a repetition's match consists of. */
  lemma RepCount(q: Program, lo: int, hi: int, w: seq<int>) returns (n: nat)
    requires Matches(Rep(q, lo, hi), w)
    ensures lo <= n <= hi && MatchesN(q, n, w)
  {
    n :| lo <= n <= hi && MatchesN(q, n, w);
  }

  lemma RevSlices(w: seq<int>, k: int)
    requires 0 <= k <= |w|
    ensures Rev(w)[..|w| - k] == Rev(w[k..])
    ensures Rev(w)[|w| - k..] == Rev(w[..k])
  {
  }

  /** A reversed fragment matches exactly the reversed words of the original. */
  lemma {:induction false} MatchesReverse(p: Program, w: seq<int>)
    ensures Matches(Reverse(p), w) <==> Matches(p, Rev(w))
    decreases p, 1
  {
    match p
    case Char(c) =>
      if w == [c] { assert Rev(w) == [c]; }
      if Rev(w) == [c] { assert w == [c]; }
    case Class(rs) =>
      if |w| == 1 { assert Rev(w)[0] == w[0]; }
    case Or(a, b) =>
      MatchesReverse(a, w);
      MatchesReverse(b, w);
    case Cat(a, b) =>
      CatMatchesReverse(a, b, w);
    case Rep(q, lo, hi) =>
      assert Reverse(p) == Rep(Reverse(q), lo, hi);
      if Matches(Rep(Reverse(q), lo, hi), w) {
        var n := RepCount(Reverse(q), lo, hi, w);
        MatchesNReverse(q, n, w);
      }
      if Matches(Rep(q, lo, hi), Rev(w)) {
        var n := RepCount(q, lo, hi, Rev(w));
        MatchesNReverse(q, n, w);
        assert MatchesN(Reverse(q), n, w);
      }
  }

  /** A reversed concatenation matches `w` when its reversed parts match the
      two halves of `w` in the opposite order. */
  lemma {:induction false} CatMatchesReverse(a: Program, b: Program, w: seq<int>)
    ensures Matches(Reverse(Cat(a, b)), w) <==> Matches(Cat(a, b), Rev(w))
    decreases Cat(a, b), 0
  {
    if Matches(Cat(Reverse(b), Reverse(a)), w) {
      var k := CatSplit(Reverse(b), Reverse(a), w);
      MatchesReverse(b, w[..k]);
      MatchesReverse(a, w[k..]);
      RevSlices(w, k);
      CatJoin(a, b, Rev(w), |w| - k);
    }
    if Matches(Cat(a, b), Rev(w)) {
      var j := CatSplit(a, b, Rev(w));
      var k := |w| - j;
      RevSlices(w, k);
      MatchesReverse(b, w[..k]);
      MatchesReverse(a, w[k..]);
      CatJoin(Reverse(b), Reverse(a), w, k);
    }
  }

  lemma {:induction false} MatchesNReverse(p: Program, n: nat, w: seq<int>)
    ensures MatchesN(Reverse(p), n, w) <==> MatchesN(p, n, Rev(w))
    decreases p, 2, n
  {
    if n > 0 {
      if MatchesN(Reverse(p), n, w) {
        MatchesNReverseFirst(p, n, w);
      }
      if MatchesN(p, n, Rev(w)) {
        MatchesNReverseLast(p, n, w);
      }
    }
  }

  /** The first piece of `w` becomes the last piece of its reverse. */
  lemma {:induction false} MatchesNReverseFirst(p: Program, n: nat, w: seq<int>)
    requires n > 0 && MatchesN(Reverse(p), n, w)
    ensures MatchesN(p, n, Rev(w))
    decreases p, 2, n, 0
  {
    var k := FirstPiece(Reverse(p), n, w);
    MatchesReverse(p, w[..k]);
    MatchesNReverse(p, n - 1, w[k..]);
    RevSlices(w, k);
    MatchesNAppendLast(p, n, Rev(w), |w| - k);
  }

  /** The last piece of `Rev(w)` comes from the first piece of `w`. */
  lemma {:induction false} MatchesNReverseLast(p: Program, n: nat, w: seq<int>)
    requires n > 0 && MatchesN(p, n, Rev(w))
    ensures MatchesN(Reverse(p), n, w)
    decreases p, 2, n, 0
  {
    var j := MatchesNSplitLast(p, n, Rev(w));
    var k := |w| - j;
    RevSlices(w, k);
    MatchesReverse(p, w[..k]);
    MatchesNReverse(p, n - 1, w[k..]);
    JoinFirst(Reverse(p), n, w, k);
  }
}
