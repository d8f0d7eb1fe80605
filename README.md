# Lexer scanning engine

A model of the scanning engine in `lexer.go`, the base layer of a hand-written
lexer. A `Lexer` holds an immutable input string and its length. It also holds
two cursors: `start`, where the token being built begins, and `pos`, the read
head. Emitted token kinds go into an append-only `Tokens` stream. A grammar
drives the engine through a few primitives:

- `Peek`, `Next`, `Backup` and `Advance` read and move the read head.
- `Accept` and `AcceptRun` consume characters from a set of valid characters.
- `Emit`, `Ignore` and `Revert` close or abandon the current window `[start, pos)`.
- `TokenLength` and `TokenValue` report the width and the text of that window.

The project has three modules:

- `Scanning` (`scanning.dfy`) holds the value-level definitions:
  - the `EOF` sentinel (-1), the `Byte` type of input elements, and `RuneSet`, the code points of a `valid` string;
  - `RunEnd`, the position where a run of valid characters stops;
  - `Window`, the span closed by one `Emit` or `Ignore`, with `Chained`, `Kinds` and `Covered` over sequences of them;
  - the lemma that chained windows reconstruct the input.
- `Lexing` (`lexer.dfy`) holds the `Lexer` class. It has the source's fields plus two ghost fields:
  - `Windows` lists every window closed so far. `Valid()` ties it to `start`: the windows chain from 0 to `start`. It ties it to `Tokens` too: the kinds of the token windows are exactly `Tokens`.
  - `CanBackup` records whether a character read by `Next` may still be stepped back over.
  - The module also holds the as-written `TokenValue` and the lemma comparing it with the corrected one.
- `LexerClient` (`lexer_client.dfy`) drives the engine by hand through three small scans: `"abc123"` as letters then digits, the empty input, and a rejected `Accept`. Each assertion in it follows from the contracts alone.

What the model assumes about the cursors is only what the code ensures:

- One might expect `0 <= start <= pos <= length` to hold throughout. The code does not keep it: `Next` and `Advance` can take `pos` past `length`, and `Backup` (or `Advance` with a negative `n`) after an `Emit` can put `pos` before `start`. So `pos` and `start` are plain integers.
- Only reading the input demands `0 <= pos` (`Peek`, and hence `Next`, `Accept` and `AcceptRun`), because Go panics on a negative index.
- `TokenValue` demands `0 <= start <= min(pos, len(input))`, because Go panics on such a slice otherwise.

## Model

| member | source | states |
|---|---|---|
| `Lexing.Lexer.constructor` | lexer.go:21-30 | a new lexer holds the given input and its length, has `pos = start = 0` and an empty token stream |
| `Lexing.Lexer.Reset` | lexer.go:32-37 | afterwards `pos = start = 0` and the token stream is empty; input and length are constants, so the lexer is in the same state as a fresh one over the same text |
| `Lexing.Lexer.Peek` | lexer.go:53-60 | returns `EOF` exactly when `pos >= length`, otherwise the byte `input[pos]`; it is a function, so it changes nothing |
| `Lexing.Lexer.Next` | lexer.go:46-51 | returns what `Peek` returned before the call and moves `pos` forward by exactly one, even at `EOF`; nothing else but the backup permission changes |
| `Lexing.Lexer.Advance` | lexer.go:62-65 | `pos` moves by `n`, with no bound check; nothing else changes |
| `Lexing.Lexer.Backup` | lexer.go:67-70 | allowed once per `Next`; moves `pos` back by one and uses up that permission |
| `Lexing.Lexer.Revert` | lexer.go:72-75 | `pos` returns to `start`, nothing else changes, and the token length is then 0 |
| `Lexing.Lexer.Emit` | lexer.go:77-81 | `Tokens` becomes the old stream plus `t`, `start` moves to `pos`, `pos` stays; the closed window `[old start, pos)` is recorded as a token of kind `t` |
| `Lexing.Lexer.Ignore` | lexer.go:83-86 | `start` moves to `pos` and `Tokens` is untouched; the closed window is recorded as skipped |
| `Lexing.Lexer.Accept` | lexer.go:88-95 | true exactly when the character at the old `pos` is in `valid` (never at `EOF`), and then `pos` is one further; on false `pos` is back where it was; `start` and `Tokens` never change |
| `Lexing.Lexer.AcceptRun` | lexer.go:97-102 | terminates; every character in `[old pos, pos)` is in `valid`, and either `pos >= length` or `input[pos]` is not in `valid`; a second call with the same set consumes nothing |
| `Lexing.Lexer.TokenLength` | lexer.go:104-107 | `start` plus the length is `pos`; when the window lies inside the input it is the length of `TokenValue()` |
| `Lexing.Lexer.TokenValue` | lexer.go:109-118 | the text of the window, cut off at the end of the input: it ends at `min(pos, length)`, never past the input, and holds `input[start + i]` at each `i` |
| `Lexing.TokenValueAsWritten` | lexer.go:110-118 | the slice as written, `input[start:pos]` with no clamp: `None` exactly when Go's slice would panic (`start < 0`, `pos < start` or `pos > len(input)`), otherwise the `pos - start` bytes of the input from `start` |
| `Lexing.TokenValueAsWrittenPanicsPastEnd` | lexer.go:110-117 | on the states the clamped version accepts, the code as written fails exactly when `pos > length` and otherwise gives the same text |
| `Scanning.RunEnd` | lexer.go:97-102 | the position a run from `p` stops at: at or after `p`, within the input unless it is `p` itself, every character before it in the set, the one at it not in the set or the input exhausted |
| `Scanning.RunEndIsFirstMiss` | lexer.go:97-102 | those four properties determine the stopping position uniquely |
| `Scanning.RunEndIdempotent` | lexer.go:97-102 | a run begun where another stopped stops at once |
| `Scanning.CoveredIsContiguous` | lexer.go:77-86 | windows that follow one another without gap, each inside the input, glue back into exactly the input between their ends |
| `Lexing.ClosedWindowsCoverInput` | lexer.go:77-86 | on any valid lexer whose closed windows lie inside the input, the texts of all emitted and ignored windows, in order, are exactly `input[..start]`; a scan that ends with `start = length` has partitioned the whole input |

## Left out

- `Run`, the `state` field and the `StateFn` type (lexer.go:15, lexer.go:19, lexer.go:39-44): a state is a function from the lexer to the next state. That recursive function type has no direct Dafny counterpart, and whether `Run` ends depends entirely on grammar functions that are not part of this repository. The primitives they would call are all modelled.
- Go's fixed-width `int` (64 bits on 64-bit targets): `pos`, `start` and `n` are unbounded integers, so the wrap-around of `pos++` or `pos + n` near the largest `int` is not modelled.
- UTF-8 details of `strings.IndexRune`: the `valid` string is modelled as the set of code points it contains. A byte of 128 or more becomes the code point of the same number and is looked up as such. How invalid UTF-8 in `valid` decodes is not modelled. The only fact kept is that a decoded string never contains `EOF`.
- The commented-out `width` field (lexer.go:16): it has no behaviour.
- `Lexing.Lexer.Backup`: requires the ghost `CanBackup`, which is stronger than the code. The code decrements `pos` unconditionally. The once-per-`Next` rule exists only in the comment at lexer.go:67, and here it is a caller precondition.
- `Lexing.ClosedWindowsCoverInput`: the coverage property holds only when every closed window lies inside the input and runs forwards. The engine does not enforce that, because `Backup` and `Advance` can move `pos` anywhere. It is the grammar's duty.
- Every method requires `Valid()`, that is `length == len(input)` plus the ghost bookkeeping. Only `NewLexer` builds a lexer in the source, and it establishes this.

## Findings

| source | as written | input that shows it | evidently intended | confidence | as-written member | corrected member |
|---|---|---|---|---|---|---|
| lexer.go:110-118 | the `end := len(l.input)` inside the `if` declares a new, unused variable (a compile error in Go). With that set aside, the outer `end` stays `pos`, so the slice is `input[start:pos]` | empty input; one `Next` leaves `pos = 1`, and slicing `[0:1]` of `""` panics | `end` is clamped to `len(input)` (the comment at lexer.go:111), so the slice is `input[start:min(pos, len(input))]` | not executed | `Lexing.TokenValueAsWritten`, with `Lexing.TokenValueAsWrittenPanicsPastEnd` and the scan `LexerClient.EmptyInput` | `Lexing.Lexer.TokenValue` |
