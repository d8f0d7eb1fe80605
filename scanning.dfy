/** Value-level definitions the lexer's methods are specified against:
    the EOF sentinel, the character types, where a run of accepted
    characters ends, and the windows that Emit and Ignore close. */
module Scanning {

  /** The rune Peek and Next return once the read head is at or past the end of the input. */
  const EOF: int := -1

  /** The largest Unicode code point. */
  const MaxRune: int := 0x10FFFF

  /** One element of the input string; a Go string is indexed by bytes. */
  type Byte = b: int | 0 <= b < 256

  /** The code points of the `valid` string given to Accept and AcceptRun.
      A decoded string only holds code points, so EOF is never a member. */
  type RuneSet = s: set<int> | forall r :: r in s ==> 0 <= r <= MaxRune witness {}

  function Min(a: int, b: int): int { if a <= b then a else b }

  /** The position at which a run of characters from `valid`, begun at `p`, stops:
      every character before it belongs to `valid`, and the character at it does
      not, or the input is exhausted there. */
  function RunEnd(input: seq<Byte>, valid: RuneSet, p: nat): (q: nat)
    ensures p <= q
    ensures q <= |input| || q == p
    ensures forall i :: p <= i < q ==> input[i] in valid
    ensures q >= |input| || input[q] !in valid
    decreases |input| - p
  {
    if p >= |input| || input[p] !in valid then p else RunEnd(input, valid, p + 1)
  }

  /** The four properties in RunEnd's contract single out one position:
      a run stops at the first character outside `valid` and nowhere else. */
  lemma RunEndIsFirstMiss(input: seq<Byte>, valid: RuneSet, p: nat, q: nat)
    requires p <= q
    requires q <= |input| || q == p
    requires forall i :: p <= i < q ==> input[i] in valid
    requires q >= |input| || input[q] !in valid
    ensures q == RunEnd(input, valid, p)
  {
  }

  /** A run that has stopped does not move again. */
  lemma RunEndIdempotent(input: seq<Byte>, valid: RuneSet, p: nat)
    ensures RunEnd(input, valid, RunEnd(input, valid, p)) == RunEnd(input, valid, p)
  {
  }

  /** A span [lo, hi) of the input that Emit (Token, with its kind) or Ignore (Skipped) closed. */
  datatype Window = Token(kind: int, lo: int, hi: int) | Skipped(lo: int, hi: int)

  /** The windows follow one another without gap or overlap: the first begins
      at `from`, each next one begins where the previous ended, the last ends at `to`. */
  ghost predicate Chained(ws: seq<Window>, from: int, to: int)
    decreases |ws|
  {
    if ws == [] then from == to
    else Chained(ws[..|ws| - 1], from, ws[|ws| - 1].lo) && ws[|ws| - 1].hi == to
  }

  /** The kinds of the Token windows, in order; Skipped windows contribute nothing. */
  ghost function Kinds(ws: seq<Window>): seq<int>
    decreases |ws|
  {
    if ws == [] then []
    else Kinds(ws[..|ws| - 1]) + (if ws[|ws| - 1].Token? then [ws[|ws| - 1].kind] else [])
  }

  /** The window lies inside the input and does not run backwards. */
  ghost predicate Inside(input: seq<Byte>, w: Window)
  {
    0 <= w.lo <= w.hi <= |input|
  }

  /** The text of the windows, one after another. */
  ghost function Covered(input: seq<Byte>, ws: seq<Window>): seq<Byte>
    requires forall k :: 0 <= k < |ws| ==> Inside(input, ws[k])
    decreases |ws|
  {
    if ws == [] then []
    else
      var last := ws[|ws| - 1];
      assert Inside(input, last);
      Covered(input, ws[..|ws| - 1]) + input[last.lo..last.hi]
  }

  /** Windows that follow one another reconstruct exactly the span they chain
      over: gluing together the text of each token and each ignored span gives
      back the input from `from` to `to`, with nothing lost or repeated. */
  lemma {:induction false} CoveredIsContiguous(input: seq<Byte>, ws: seq<Window>, from: int, to: int)
    requires forall k :: 0 <= k < |ws| ==> Inside(input, ws[k])
    requires 0 <= from <= |input|
    requires Chained(ws, from, to)
    ensures from <= to <= |input|
    ensures Covered(input, ws) == input[from..to]
    decreases |ws|
  {
    if ws != [] {
      var last := ws[|ws| - 1];
      CoveredIsContiguous(input, ws[..|ws| - 1], from, last.lo);
      assert input[from..last.lo] + input[last.lo..last.hi] == input[from..last.hi];
    }
  }
}
