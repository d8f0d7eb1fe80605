/** The scanning engine of lexer.go: a lexer over an immutable input string
    with a window [start, pos) for the token being built and an append-only
    stream of emitted token kinds. */
module Lexing {
  import opened Scanning

  datatype Option<T> = None | Some(value: T)

  class Lexer {
    /** The kinds passed to Emit, in order. */
    var Tokens: seq<int>
    const input: seq<Byte>
    const length: int
    /** The read head: the next character Next returns. */
    var pos: int
    /** Where the token being built begins. */
    var start: int

    /** Every window closed so far by Emit or Ignore, in order. */
    ghost var Windows: seq<Window>
    /** A character read by Next has not been stepped back over yet, so one Backup is allowed. */
    ghost var CanBackup: bool

    /** `length` is the length of the input; the closed windows lead from 0 up to
        `start` and carry, in order, exactly the kinds in `Tokens`. */
    ghost predicate Valid()
      reads this
    {
      length == |input| && Chained(Windows, 0, start) && Kinds(Windows) == Tokens
    }

    /** The state of a lexer that has not read anything yet. */
    ghost predicate Initial()
      reads this
    {
      pos == 0 && start == 0 && Tokens == [] && Windows == [] && !CanBackup
    }

    constructor (data: seq<Byte>)
      ensures Valid() && Initial()
      ensures input == data && length == |data|
    {
      Tokens := [];
      input := data;
      length := |data|;
      pos := 0;
      start := 0;
      Windows := [];
      CanBackup := false;
    }

    /** Rewinds to the state of a freshly built lexer over the same input. */
    method Reset()
      requires Valid()
      modifies this
      ensures Valid() && Initial()
    {
      pos := 0;
      start := 0;
      Tokens := [];
      Windows := [];
      CanBackup := false;
    }

    /** The character under the read head, or EOF once the input is exhausted. */
    function Peek(): (r: int)
      reads this
      requires Valid() && 0 <= pos
      ensures r == EOF <==> pos >= length
      ensures r != EOF ==> pos < |input| && r == input[pos]
      ensures r == EOF || 0 <= r < 256
    {
      if pos >= length then EOF else input[pos]
    }

    /** Returns what Peek returns and moves the read head on by one, even at EOF. */
    method Next() returns (r: int)
      requires Valid() && 0 <= pos
      modifies this`pos, this`CanBackup
      ensures Valid()
      ensures r == old(Peek())
      ensures pos == old(pos) + 1
      ensures CanBackup
    {
      r := Peek();
      pos := pos + 1;
      CanBackup := true;
    }

    /** Moves the read head `n` characters forward without reading them. */
    method Advance(n: int)
      requires Valid()
      modifies this`pos
      ensures Valid()
      ensures pos == old(pos) + n
    {
      pos := pos + n;
    }

    /** Steps back over the character the last Next read; at most once per Next. */
    method Backup()
      requires Valid() && CanBackup
      modifies this`pos, this`CanBackup
      ensures Valid()
      ensures pos == old(pos) - 1
      ensures !CanBackup
    {
      pos := pos - 1;
      CanBackup := false;
    }

    /** Abandons everything read since the token began. */
    method Revert()
      requires Valid()
      modifies this`pos
      ensures Valid()
      ensures pos == start
      ensures TokenLength() == 0
    {
      pos := start;
    }

    /** Closes the current window as a token of kind `t` and opens the next one at `pos`. */
    method Emit(t: int)
      requires Valid()
      modifies this`Tokens, this`start, this`Windows
      ensures Valid()
      ensures Tokens == old(Tokens) + [t]
      ensures start == pos
      ensures Windows == old(Windows) + [Token(t, old(start), pos)]
    {
      Windows := Windows + [Token(t, start, pos)];
      Tokens := Tokens + [t];
      start := pos;
    }

    /** Drops the current window without emitting it and opens the next one at `pos`. */
    method Ignore()
      requires Valid()
      modifies this`start, this`Windows
      ensures Valid()
      ensures start == pos
      ensures Windows == old(Windows) + [Skipped(old(start), pos)]
    {
      Windows := Windows + [Skipped(start, pos)];
      start := pos;
    }

    /** Consumes the next character if it is in `valid`; otherwise leaves the read head where it was. */
    method Accept(valid: RuneSet) returns (ok: bool)
      requires Valid() && 0 <= pos
      modifies this`pos, this`CanBackup
      ensures Valid()
      ensures ok <==> old(Peek()) in valid
      ensures ok ==> old(pos) < length && input[old(pos)] in valid
      ensures pos == if ok then old(pos) + 1 else old(pos)
      ensures CanBackup == ok
    {
      var r := Next();
      if r in valid {
        return true;
      }
      Backup();
      return false;
    }

    /** Consumes the longest run of characters from `valid`; a second call
        straight after it consumes nothing. */
    method AcceptRun(valid: RuneSet)
      requires Valid() && 0 <= pos
      modifies this`pos, this`CanBackup
      ensures Valid()
      ensures pos == RunEnd(input, valid, old(pos))
      ensures forall i :: old(pos) <= i < pos ==> input[i] in valid
      ensures pos >= length || input[pos] !in valid
      ensures RunEnd(input, valid, pos) == pos
      ensures !CanBackup
    {
      var r := Next();
      while r in valid
        invariant Valid() && old(pos) < pos
        invariant r == (if pos - 1 >= length then EOF else input[pos - 1])
        invariant RunEnd(input, valid, pos - 1) == RunEnd(input, valid, old(pos))
        invariant CanBackup
        decreases length - pos
      {
        r := Next();
      }
      Backup();
      RunEndIdempotent(input, valid, old(pos));
    }

    /** The width of the current window. */
    function TokenLength(): (n: int)
      reads this
      ensures start + n == pos
      ensures Valid() && 0 <= start <= pos <= length ==> n == |TokenValue()|
    {
      pos - start
    }

    /** The text of the current window, cut off at the end of the input: it never
        reads past the input even when Next or Advance took the read head beyond it. */
    function TokenValue(): (text: seq<Byte>)
      reads this
      requires Valid() && 0 <= start <= Min(pos, length)
      ensures start + |text| == Min(pos, length) <= |input|
      ensures forall i :: 0 <= i < |text| ==> text[i] == input[start + i]
    {
      var end := if pos > |input| then |input| else pos;
      input[start..end]
    }
  }

  /** The windows closed so far, glued together, are exactly the input up to
      `start`, provided each lies inside the input and runs forwards. */
  lemma ClosedWindowsCoverInput(l: Lexer)
    requires l.Valid()
    requires forall k :: 0 <= k < |l.Windows| ==> Inside(l.input, l.Windows[k])
    ensures 0 <= l.start <= l.length
    ensures Covered(l.input, l.Windows) == l.input[..l.start]
  {
    CoveredIsContiguous(l.input, l.Windows, 0, l.start);
  }

  /** TokenValue as lexer.go:110-118 writes it. The assignment inside the `if`
      declares a second `end` that is never used, so the outer `end` stays `pos`
      and the slice is input[start:pos]. None stands for the run-time panic Go
      raises on an out-of-range slice. */
  function TokenValueAsWritten(input: seq<Byte>, start: int, pos: int): (r: Option<seq<Byte>>)
    ensures r.None? <==> start < 0 || pos < start || |input| < pos
    ensures r.Some? ==> |r.value| == pos - start
    ensures r.Some? ==> forall i :: 0 <= i < |r.value| ==> r.value[i] == input[start + i]
  {
    var end := pos;
    if 0 <= start <= end <= |input| then Some(input[start..end]) else None
  }

  /** On every state the clamped TokenValue accepts, the text as written panics
      exactly when the read head has gone past the end of the input, and agrees
      with the clamped version otherwise. */
  lemma TokenValueAsWrittenPanicsPastEnd(l: Lexer)
    requires l.Valid() && 0 <= l.start <= Min(l.pos, l.length)
    ensures TokenValueAsWritten(l.input, l.start, l.pos).None? <==> l.pos > l.length
    ensures l.pos <= l.length ==> TokenValueAsWritten(l.input, l.start, l.pos) == Some(l.TokenValue())
  {
  }
}
