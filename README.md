# A verified model of a tiny Lisp-like interpreter

This project models the two working stages of a small interpreter for a
Lisp-like language with integer literals, `let` bindings and the binary
operators `add` and `mult`:

- **the tokenizer** (`src/lexer.rs`). `Token::from` classifies a word.
  A keyword (`let`, `add`, `mult`) is tried first, then an `i32` literal,
  and anything else becomes an identifier. `eval` scans the input one
  character at a time with two cursors, `start` and `end`. `(` and `)`
  commit the pending word and then emit a delimiter. A space only commits
  the pending word. Every other character extends the pending word.
- **the evaluator** (`src/interpreter.rs`). An `Interpreter` owns one heap
  that maps names to `i32`. `evaluate` walks the tree. `Let` writes each
  assignment into the heap in order and never restores it, so scoping is
  dynamic. `Math` evaluates left before right. `Var` reads the heap, and
  `Literal` is its own value.

The Dafny files:

- `wrappers.dfy`: `Option` and `Result`.
- `integers.dfy`: the `i32` type and `ParseI32`, a model of `str::parse::<i32>`.
  It accepts an optional single `+` or `-` followed by one or more ASCII
  digits, and checks the range after every digit. It is proved against a
  declarative grammar of integer text. `Show` is the decimal rendering
  of an `i32`, used as its inverse.
- `lexer.dfy`: the tokens, `FromWord` (`Token::from`) and `Lex`/`Tokenize`,
  a recursive reference scanner. It also holds `Eval`, the imperative `eval`
  loop with its `start`/`end` cursors, proved equal to `Tokenize`.
- `interpreter.dfy`: the tree (`Let`, `Math`, `Var`, `Literal`, as
  `interpreter.rs` matches on it) and `Eval`/`EvalAssignments`, which
  thread the heap through as a function. It also holds the class
  `Interpreter`, whose `heap` field `Evaluate` updates in place and which is
  proved to match `Eval`.

Facts about the code that the model keeps:

- The tokenizer has no error case. It splits only at `(`, `)` and space, so
  `!`, tabs and newlines are part of a word (`BangIsAWord`).
- Only a separator commits a word, so a word at the very end of the input
  is never emitted (`TrailingWordDropped`).
- `+` and `*` on `i32` panic on overflow in debug builds and wrap in
  release builds. The model follows the panic and reports it as the error
  `Overflow`.
- Reading an undefined variable panics in the code (`expect`). Here it is
  the error `UndefinedVariable(id)`.

## Model

| member | source | states |
|---|---|---|
| `Lexer.FromWord` | src/lexer.rs:24-38 | classifying a word never yields a delimiter |
| `Lexer.ClassifyWord` | src/lexer.rs:28-35 | exactly `"let"`, `"add"`, `"mult"` become the keywords, before any other test; a non-keyword word is `Literal(n)` iff it is sign-and-digits text whose value `n` fits i32; every other word is `Ident` carrying the exact text |
| `Lexer.LiteralWord` | src/lexer.rs:32-33 | the decimal text of any i32 is read back as `Literal` of that value |
| `Integers.ParseI32Correct` | src/lexer.rs:32 | `str::parse::<i32>` succeeds iff the text is an optional sign plus one or more digits and its value is within [-2^31, 2^31-1], and then returns that value |
| `Integers.AccumulateCorrect` | src/lexer.rs:32 | the digit loop that checks the range after every digit fails iff some character is not a digit or the final value is out of range; intermediate overflow never rejects a value that fits |
| `Integers.ParseShow` | src/lexer.rs:32-33 | parsing the decimal rendering of any i32 returns it (round trip) |
| `Lexer.Eval` | src/lexer.rs:40-74 | the cursor loop emits exactly `Tokenize(expr)`; its invariants keep `start <= end`, `end` = characters consumed, and `expr[start..end]` = the text after the last separator |
| `Lexer.Commit` | src/lexer.rs:52-60 | the `commit` closure emits the pending word's token exactly when the word is non-empty, first, and then the separator's own token when it has one, last |
| `Lexer.ScanChar` | src/lexer.rs:47-70 | one call of the closure: both cursors advance by one; a separator emits the non-empty pending word's token and then its delimiter, and moves `start` to the new `end`; any other character emits nothing and leaves `start` where it was |
| `Lexer.PendingNoSeparator` | src/lexer.rs:44-50 | the pending word is a suffix of the consumed input and contains no `(`, `)` or space |
| `Lexer.TokenizeStep` | src/lexer.rs:52-70 | one more character: a separator appends the pending word's token (only if non-empty) and then its own delimiter (none for a space); any other character appends nothing |
| `Lexer.LexAppendOther` | src/lexer.rs:66-69 | from any separator-free pending word, appending a non-separator character emits nothing more |
| `Lexer.LexAppendSeparator` | src/lexer.rs:52-65 | from any separator-free pending word, appending a separator emits, after all earlier output, the token of the word pending at that point (if non-empty) and then its delimiter |
| `Lexer.LexConcat` | src/lexer.rs:47-73 | output follows source order: scanning `a + b` emits what `a` emits, then what `b` emits starting from `a`'s pending word |
| `Lexer.TokenizeAfterSeparator` | src/lexer.rs:54-57 | after a separator nothing is pending, so what follows is tokenized afresh |
| `Lexer.TokenizeJoin` | src/lexer.rs:52-73 | text made of words each closed by a separator yields each non-empty word's token and then that separator's delimiter, in order |
| `Lexer.WordThenSeparator` | src/lexer.rs:52-65 | a separator-free word closed by a separator tokenizes to that word's token (if non-empty) and then the separator's delimiter |
| `Lexer.TrailingWordDropped` | src/lexer.rs:62-73 | a separator-free word at the end of the input adds no token |
| `Lexer.LexDelims` | src/lexer.rs:63-64 | from any pending word, the delimiters emitted are exactly the input's parentheses, one each and in source order |
| `Lexer.TokenizeDelims` | src/lexer.rs:63-64 | the delimiter tokens of `Tokenize(s)` are exactly the parentheses of `s`, in order |
| `Lexer.LexIdents` | src/lexer.rs:54-57 | from any separator-free pending word, every identifier emitted is non-empty and has no `(`, `)` or space |
| `Lexer.TokenizeIdents` | src/lexer.rs:54-57 | no identifier is empty and none contains a separator, so consecutive separators never yield an empty identifier |
| `Lexer.BangIsAWord` | src/lexer.rs:62-69 | `(add ! 2)` is tokenized without error and `!` becomes an identifier |
| `Lexer.TokenizeExample` | src/lexer.rs:80-108 | the test program tokenizes to the listed 21 tokens |
| `Lexer.EvalExample` | src/lexer.rs:80-108 | `eval` on the test program returns the listed 21 tokens |
| `Interpreter.Interpreter.constructor` | src/interpreter.rs:12-16 | a new interpreter starts with an empty heap |
| `Interpreter.Interpreter.Evaluate` | src/interpreter.rs:18-34 | the result and the new heap are exactly `Eval(node, old heap)`; the assignment loop keeps "the remaining assignments lead to the same place" |
| `Interpreter.EvalLeaf` | src/interpreter.rs:31-32 | `Literal(n)` yields `n`; `Var(id)` yields `heap[id]` when bound and `UndefinedVariable(id)` otherwise; neither changes the heap |
| `Interpreter.EvalWritesOnly` | src/interpreter.rs:20-24 | evaluation never removes a key, adds keys only among the names some `Let` in the tree assigns, and leaves every other key's value alone |
| `Interpreter.AssignmentsWriteOnly` | src/interpreter.rs:21-24 | the same for a list of assignments: only the assigned names (and those assigned inside their expressions) change |
| `Interpreter.AssignmentsSnoc` | src/interpreter.rs:21-24 | a further assignment runs after all earlier ones, is evaluated in the heap they left, and then sets its name to its value |
| `Interpreter.LastAssignmentWins` | src/interpreter.rs:21-24 | after a successful list, the last assignment's name holds the value computed after all earlier assignments, overwriting any earlier value |
| `Interpreter.LetKeepsBindings` | src/interpreter.rs:20-25 | a `Let` returns its body's outcome in the post-assignment heap, and its bindings stay in the heap afterwards unless the body reassigns them |
| `Interpreter.MathOrder` | src/interpreter.rs:27-30 | `right` is evaluated in the heap `left` left; the result is the exact sum or product, or `Overflow` when it leaves the i32 range |
| `Interpreter.ProgramResults` | src/interpreter.rs:43-68 | the three test trees evaluate to 14, 2 and 5 from an empty heap |
| `Interpreter.RunTests` | src/interpreter.rs:43-68 | three fresh interpreters return 14, 2 and 5 on the three test trees |
| `Interpreter.DynamicScoping` | src/interpreter.rs:20-25 | a binding made inside a `Let` is still visible after it returns; a nested rebinding changes what the outer scope reads (4, not 3) |
| `Interpreter.UnboundIsError` | src/interpreter.rs:31 | reading a name no assignment bound fails with `UndefinedVariable` |
| `Interpreter.RunFresh` | src/interpreter.rs:12-18 | two fresh interpreters given the same tree return the same result |
| `Interpreter.RunShared` | src/interpreter.rs:18-24 | reusing one interpreter leaks bindings: a second `evaluate` reads what the first assigned |

## Left out

- `src/parser.rs`: `parse` is `unimplemented!()`, so there is no parser to model. Its `Expr` type is used only for naming. The tree type follows the patterns `interpreter.rs` matches on.
- The three interpreter tests go through a `Lexer` type and a `FromIterator` collection into the tree. Neither is part of this model, so the test trees are written out by hand (`PROGRAM_1` to `PROGRAM_3`).
- `src/adapter.rs` (`PeekWhile`, a thin wrapper over `Peekable::next_if`) and the benchmarks in `benches/` hold no domain logic.
- Lifetimes and iterator laziness: `eval` returns a lazy iterator of tokens that borrow the input. The model returns the whole token sequence, and an identifier holds a copy of its text.
- Byte versus character indexing: `eval` slices the input by byte offsets but advances them by one per character, so it is only correct for ASCII. The model indexes by character, which matches the code on ASCII input.
- Release builds wrap on `i32` overflow. The model follows the debug-build panic and reports `Overflow`.
- After a panic, the Rust interpreter's heap is whatever the insertions before it left. The model returns that same heap beside the error.
- `ParseI32` returns `None` for every parse failure. It does not distinguish Rust's error kinds (empty, invalid digit, overflow).
- `Show` (the decimal rendering of an `i32`) does not appear in the lexer. It is included only as the inverse that the literal round trip is stated against.
