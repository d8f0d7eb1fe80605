/** Scans driven by hand, as a grammar's state functions would drive them;
    every assertion follows from the lexer's contracts alone. */
module LexerClient {
  import opened Scanning
  import opened Lexing

  /** "abc123": a run of letters, then a run of digits, emitted as two tokens. */
  method LettersThenDigits()
  {
    var text: seq<Byte> := [97, 98, 99, 49, 50, 51];  // "abc123"
    var letters: RuneSet := {97, 98, 99, 100, 101, 102};  // 'a' .. 'f'
    var digits: RuneSet := {48, 49, 50, 51, 52, 53, 54, 55, 56, 57};  // '0' .. '9'
    var l := new Lexer(text);

    l.AcceptRun(letters);
    assert RunEnd(text, letters, 3) == 3;
    assert RunEnd(text, letters, 0) == 3;
    assert l.TokenValue() == [97, 98, 99];
    l.Emit(1);

    l.AcceptRun(digits);
    assert RunEnd(text, digits, 6) == 6;
    assert RunEnd(text, digits, 3) == 6;
    assert l.TokenValue() == [49, 50, 51];
    l.Emit(2);

    assert l.Tokens == [1, 2] && l.Peek() == EOF;
    ClosedWindowsCoverInput(l);
    assert Covered(l.input, l.Windows) == text;

    // A second run over the same set consumes nothing.
    l.AcceptRun(digits);
    assert l.pos == 6;
  }

  /** "": Peek and Next return EOF straight away; the stream stays empty. Next
      still moves the read head, past the end of the input, where the clamped
      TokenValue is empty and the text as written would panic. */
  method EmptyInput()
  {
    var l := new Lexer([]);
    assert l.Peek() == EOF;
    var r := l.Next();
    assert r == EOF && l.pos == 1;
    assert l.TokenValue() == [];
    TokenValueAsWrittenPanicsPastEnd(l);
    assert TokenValueAsWritten(l.input, l.start, l.pos) == None;
    l.Backup();
    assert l.pos == 0 && l.Tokens == [];
  }

  /** Accept of "xyz" on "abc" fails and leaves the read head at 0. */
  method RejectedAccept()
  {
    var l := new Lexer([97, 98, 99]);  // "abc"
    var ok := l.Accept({120, 121, 122});  // "xyz"
    assert !ok && l.pos == 0;
    ok := l.Accept({97});  // "a"
    assert ok && l.pos == 1;
    l.Revert();
    assert l.pos == 0 && l.TokenLength() == 0;
    l.Reset();
    assert l.Initial();
  }
}
