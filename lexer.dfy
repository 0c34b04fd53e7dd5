/**
 * The tokenizer: a word classifier (`Token::from`) and a character
 * scanner (`eval`) that splits the input at `(`, `)` and spaces.
 *
 * The input is a sequence of characters and the cursors count characters.
 * The scanner raises no errors: any character other than the three
 * separators (tabs, newlines, `!`, ...) is part of a word. A word is only
 * committed by the separator that follows it, so a word at the very end of
 * the input is never emitted.
 */
module Lexer {
  import opened Wrappers
  import opened Integers

  datatype Delim = Open | Close

  datatype Keyword = Let | Add | Mult

  datatype Token =
    | Delim(delim: Delim)
    | Keyword(keyword: Keyword)
    | Ident(name: string)
    | Literal(value: i32)

  predicate IsKeywordText(s: string) {
    s == "let" || s == "add" || s == "mult"
  }

  /** `Token::from`: keywords first, then an i32 literal, otherwise an identifier. */
  function FromWord(s: string): (t: Token)
    ensures !t.Delim?
  {
    if s == "let" then Keyword(Let)
    else if s == "add" then Keyword(Add)
    else if s == "mult" then Keyword(Mult)
    else match ParseI32(s)
      case Some(n) => Literal(n)
      case None => Ident(s)
  }

  /** What a word is classified as, stated against the integer-text grammar. */
  lemma ClassifyWord(s: string)
    ensures FromWord(s) == Keyword(Let) <==> s == "let"
    ensures FromWord(s) == Keyword(Add) <==> s == "add"
    ensures FromWord(s) == Keyword(Mult) <==> s == "mult"
    ensures FromWord(s).Literal? <==> !IsKeywordText(s) && IsIntegerText(s) && InI32(TextValue(s))
    ensures FromWord(s).Literal? ==> FromWord(s).value as int == TextValue(s)
    ensures FromWord(s).Ident? <==> !IsKeywordText(s) && !(IsIntegerText(s) && InI32(TextValue(s)))
    ensures FromWord(s).Ident? ==> FromWord(s).name == s
  {
    ParseI32Correct(s);
  }

  /** Every i32 written in decimal is read back as that literal. */
  lemma LiteralWord(n: i32)
    ensures FromWord(Show(n)) == Literal(n)
  {
    ParseShow(n);
  }

  predicate IsSeparator(c: char) {
    c == '(' || c == ')' || c == ' '
  }

  predicate NoSeparator(w: string) {
    forall i :: 0 <= i < |w| ==> !IsSeparator(w[i])
  }

  /** The committed word, if it is non-empty. */
  function Flush(word: string): seq<Token> {
    if word == [] then [] else [FromWord(word)]
  }

  /** The token a separator itself produces: a delimiter, or nothing for a space. */
  function Emit(c: char): seq<Token> {
    if c == '(' then [Delim(Open)] else if c == ')' then [Delim(Close)] else []
  }

  /**
   * Reference tokenizer: scans `rest` left to right with `word` the pending
   * text. A separator commits the pending word and then its own delimiter;
   * any other character extends the pending word. What is pending when the
   * input ends is dropped.
   */
  function Lex(rest: string, word: string): seq<Token>
    decreases |rest|
  {
    if rest == [] then []
    else if IsSeparator(rest[0]) then Flush(word) + Emit(rest[0]) + Lex(rest[1..], [])
    else Lex(rest[1..], word + [rest[0]])
  }

  function Tokenize(s: string): seq<Token> {
    Lex(s, [])
  }

  /** The pending word after reading `s`: the text after its last separator. */
  function Pending(s: string): (w: string)
    decreases |s|
  {
    if s == [] then []
    else if IsSeparator(s[|s| - 1]) then []
    else Pending(s[..|s| - 1]) + [s[|s| - 1]]
  }

  lemma {:induction false} PendingNoSeparator(s: string)
    ensures NoSeparator(Pending(s))
    ensures |Pending(s)| <= |s| && Pending(s) == s[|s| - |Pending(s)|..]
    decreases |s|
  {
    if s != [] && !IsSeparator(s[|s| - 1]) {
      var p := s[..|s| - 1];
      PendingNoSeparator(p);
      assert Pending(p) == p[|p| - |Pending(p)|..];
      assert Pending(s) == Pending(p) + [s[|s| - 1]];
      assert s[|s| - |Pending(s)|..] == p[|p| - |Pending(p)|..] + [s[|s| - 1]];
    }
  }

  lemma {:induction false} PendingOfWord(w: string)
    requires NoSeparator(w)
    ensures Pending(w) == w
    decreases |w|
  {
    if w != [] {
      var p := w[..|w| - 1];
      PendingOfWord(p);
      assert p + [w[|w| - 1]] == w;
    }
  }

  /** Whatever came before a separator is no longer pending after it. */
  lemma {:induction false} PendingAfterSeparator(w: string, c: char, s: string)
    requires IsSeparator(c)
    ensures Pending(w + [c] + s) == Pending(s)
    decreases |s|
  {
    var t := w + [c] + s;
    if s == [] {
      assert t[..|t| - 1] == w;
    } else {
      var p := s[..|s| - 1];
      assert t[..|t| - 1] == w + [c] + p;
      assert t[|t| - 1] == s[|s| - 1];
      PendingAfterSeparator(w, c, p);
    }
  }

  /** Reading `a` and then `b` emits what `a` emits, then what `b` emits after `a`'s pending word. */
  lemma {:induction false} LexConcat(a: string, b: string, w: string)
    requires NoSeparator(w)
    ensures Lex(a + b, w) == Lex(a, w) + Lex(b, Pending(w + a))
    decreases |a|, 1
  {
    if a == [] {
      ConcatEmpty(b, w);
      assert a + b == b && w + a == w;
    } else if IsSeparator(a[0]) {
      ConcatSeparatorFirst(a, b, w);
    } else {
      ConcatOtherFirst(a, b, w);
    }
  }

  /** `LexConcat` when `a` is empty: the pending word carries over unchanged. */
  lemma ConcatEmpty(b: string, w: string)
    requires NoSeparator(w)
    ensures Lex(b, w) == Lex([], w) + Lex(b, Pending(w))
  {
    PendingOfWord(w);
  }

  /** `LexConcat` when `a` starts with a separator: the pending word is committed and reset. */
  lemma {:induction false} ConcatSeparatorFirst(a: string, b: string, w: string)
    requires NoSeparator(w) && a != [] && IsSeparator(a[0])
    ensures Lex(a + b, w) == Lex(a, w) + Lex(b, Pending(w + a))
    decreases |a|, 0
  {
    var rest := a[1..];
    SeparatorFirst(a, b, w);
    LexConcat(rest, b, []);
    PendingAfterFirst(a, w);
    Regroup(Flush(w) + Emit(a[0]), Lex(rest, []), Lex(b, Pending([] + rest)));
  }

  lemma Regroup(head: seq<Token>, left: seq<Token>, right: seq<Token>)
    ensures head + (left + right) == head + left + right
  {
  }

  /** Reading a separator first commits `w` and restarts with nothing pending, in `a` and in `a + b`. */
  lemma SeparatorFirst(a: string, b: string, w: string)
    requires a != [] && IsSeparator(a[0])
    ensures Lex(a + b, w) == Flush(w) + Emit(a[0]) + Lex(a[1..] + b, [])
    ensures Lex(a, w) == Flush(w) + Emit(a[0]) + Lex(a[1..], [])
  {
    assert (a + b)[0] == a[0] && (a + b)[1..] == a[1..] + b;
  }

  lemma PendingAfterFirst(a: string, w: string)
    requires a != [] && IsSeparator(a[0])
    ensures Pending(w + a) == Pending([] + a[1..])
  {
    assert w + a == w + [a[0]] + a[1..];
    assert [] + a[1..] == a[1..];
    PendingAfterSeparator(w, a[0], a[1..]);
  }

  /** `LexConcat` when `a` starts with any other character: it joins the pending word. */
  lemma {:induction false} ConcatOtherFirst(a: string, b: string, w: string)
    requires NoSeparator(w) && a != [] && !IsSeparator(a[0])
    ensures Lex(a + b, w) == Lex(a, w) + Lex(b, Pending(w + a))
    decreases |a|, 0
  {
    var x, rest := a[0], a[1..];
    var w' := w + [x];
    assert Lex(a + b, w) == Lex(rest + b, w') by {
      assert (a + b)[0] == x && (a + b)[1..] == rest + b;
    }
    assert NoSeparator(w');
    LexConcat(rest, b, w');
    assert w' + rest == w + a;
  }

  /** A character other than a separator emits nothing. */
  lemma LexAppendOther(s: string, w: string, c: char)
    requires NoSeparator(w) && !IsSeparator(c)
    ensures Lex(s + [c], w) == Lex(s, w)
  {
    LexConcat(s, [c], w);
    var p := Pending(w + s);
    assert Lex([c], p) == Lex([], p + [c]) == [];
  }

  /** A separator commits the pending word (if any), then its own delimiter. */
  lemma LexAppendSeparator(s: string, w: string, c: char)
    requires NoSeparator(w) && IsSeparator(c)
    ensures Lex(s + [c], w) == Lex(s, w) + Flush(Pending(w + s)) + Emit(c)
  {
    LexConcat(s, [c], w);
    var p := Pending(w + s);
    assert Lex([c], p) == Flush(p) + Emit(c) + Lex([], []);
  }

  /** Streaming view of `Tokenize`: what one more character adds to the output. */
  lemma TokenizeStep(s: string, c: char)
    ensures Tokenize(s + [c]) ==
              if IsSeparator(c) then Tokenize(s) + Flush(Pending(s)) + Emit(c) else Tokenize(s)
  {
    if IsSeparator(c) {
      LexAppendSeparator(s, [], c);
      assert [] + s == s;
    } else {
      LexAppendOther(s, [], c);
    }
  }

  /** A word at the end of the input that no separator follows is never emitted. */
  lemma {:induction false} TrailingWordDropped(s: string, w: string)
    requires NoSeparator(w)
    ensures Tokenize(s + w) == Tokenize(s)
    decreases |w|
  {
    if w == [] {
      assert s + w == s;
    } else {
      var p, c := w[..|w| - 1], w[|w| - 1];
      assert s + w == (s + p) + [c];
      assert !IsSeparator(c);
      assert NoSeparator(p) by {
        forall i | 0 <= i < |p| ensures !IsSeparator(p[i]) { assert p[i] == w[i]; }
      }
      TokenizeStep(s + p, c);
      TrailingWordDropped(s, p);
    }
  }

  /** Text made of words, each followed by a separator. */
  function Join(chunks: seq<(string, char)>): string {
    if chunks == [] then [] else chunks[0].0 + [chunks[0].1] + Join(chunks[1..])
  }

  /** Each word's token (if the word is non-empty), then its separator's delimiter. */
  function ChunkTokens(chunks: seq<(string, char)>): seq<Token> {
    if chunks == [] then [] else Flush(chunks[0].0) + Emit(chunks[0].1) + ChunkTokens(chunks[1..])
  }

  /** A lone word closed by a separator: its token (if non-empty), then the separator's. */
  lemma WordThenSeparator(w: string, c: char)
    requires NoSeparator(w) && IsSeparator(c)
    ensures Tokenize(w + [c]) == Flush(w) + Emit(c)
  {
    LexAppendSeparator(w, [], c);
    TrailingWordDropped([], w);
    assert [] + w == w;
    PendingOfWord(w);
  }

  /** Words each closed by a separator are all emitted, in source order. */
  lemma {:induction false} TokenizeJoin(chunks: seq<(string, char)>)
    requires forall i :: 0 <= i < |chunks| ==> NoSeparator(chunks[i].0) && IsSeparator(chunks[i].1)
    ensures Tokenize(Join(chunks)) == ChunkTokens(chunks)
    decreases |chunks|
  {
    if chunks != [] {
      var w, c, rest := chunks[0].0, chunks[0].1, chunks[1..];
      var first := w + [c];
      assert Join(chunks) == first + Join(rest);
      assert Tokenize(Join(rest)) == ChunkTokens(rest) by {
        TokenizeJoin(rest);
      }
      WordThenSeparator(w, c);
      assert Tokenize(first + Join(rest)) == Tokenize(first) + Tokenize(Join(rest)) by {
        LexConcat(first, Join(rest), []);
        assert Pending([] + first) == [];
      }
    }
  }

  /** The delimiters among the tokens, in order. */
  function DelimsOf(ts: seq<Token>): seq<Delim> {
    if ts == [] then []
    else (if ts[0].Delim? then [ts[0].delim] else []) + DelimsOf(ts[1..])
  }

  /** The parentheses of the input, in order, as delimiters. */
  function ParensOf(s: string): seq<Delim> {
    if s == [] then []
    else (if s[0] == '(' then [Open] else if s[0] == ')' then [Close] else []) + ParensOf(s[1..])
  }

  lemma {:induction false} DelimsOfConcat(a: seq<Token>, b: seq<Token>)
    ensures DelimsOf(a + b) == DelimsOf(a) + DelimsOf(b)
    decreases |a|
  {
    if a == [] {
      assert a + b == b;
    } else {
      assert (a + b)[0] == a[0] && (a + b)[1..] == a[1..] + b;
      DelimsOfConcat(a[1..], b);
    }
  }

  /** Each `(` and `)` yields exactly one delimiter, in source order; words yield none. */
  lemma {:induction false} LexDelims(s: string, w: string)
    ensures DelimsOf(Lex(s, w)) == ParensOf(s)
    decreases |s|
  {
    if s != [] {
      if IsSeparator(s[0]) {
        LexDelims(s[1..], []);
        DelimsOfConcat(Flush(w) + Emit(s[0]), Lex(s[1..], []));
        DelimsOfConcat(Flush(w), Emit(s[0]));
      } else {
        LexDelims(s[1..], w + [s[0]]);
      }
    }
  }

  lemma TokenizeDelims(s: string)
    ensures DelimsOf(Tokenize(s)) == ParensOf(s)
  {
    LexDelims(s, []);
  }

  /** Identifiers are never empty and never contain a separator. */
  lemma {:induction false} LexIdents(s: string, w: string)
    requires NoSeparator(w)
    ensures forall t :: t in Lex(s, w) && t.Ident? ==> |t.name| > 0 && NoSeparator(t.name)
    decreases |s|
  {
    if s != [] {
      if IsSeparator(s[0]) {
        LexIdents(s[1..], []);
        if w != [] {
          ClassifyWord(w);
        }
      } else {
        LexIdents(s[1..], w + [s[0]]);
      }
    }
  }

  lemma TokenizeIdents(s: string)
    ensures forall t :: t in Tokenize(s) && t.Ident? ==> |t.name| > 0 && NoSeparator(t.name)
  {
    LexIdents(s, []);
  }

  /**
   * `commit`: the pending word's token if the word is non-empty, then the
   * separator's own token if it has one. What a whole step of the scan emits
   * through it is stated by `ScanChar`'s ensures.
   */
  function Commit(word: string, delim: Option<Token>): (ts: seq<Token>)
    ensures |ts| == (if word == [] then 0 else 1) + (if delim.Some? then 1 else 0)
    ensures word != [] ==> ts[0] == FromWord(word)
    ensures delim.Some? ==> ts[|ts| - 1] == delim.value
  {
    Flush(word) + (if delim.Some? then [delim.value] else [])
  }

  /**
   * The `tokenize` closure of `eval`: handles one character `ch` given the
   * cursors, and returns the new cursors and what it emits. Both cursors
   * advance; a separator commits `expr[start..end]` and moves `start` up to
   * `end`, any other character keeps `start` where it was.
   */
  method ScanChar(expr: string, start: nat, end: nat, ch: char) returns (start': nat, end': nat, out: seq<Token>)
    requires start <= end <= |expr|
    ensures end' == end + 1
    ensures start' == if IsSeparator(ch) then end' else start
    ensures out == if IsSeparator(ch) then Flush(expr[start..end]) + Emit(ch) else []
  {
    var s := expr[start..end];
    start', end' := start + 1, end + 1;
    match ch
    case '(' =>
      out := Commit(s, Some(Delim(Open)));
      if s != [] { start' := end'; }
    case ')' =>
      out := Commit(s, Some(Delim(Close)));
      if s != [] { start' := end'; }
    case ' ' =>
      out := Commit(s, None);
      if s != [] { start' := end'; }
    case _ =>
      start' := start' - 1;
      out := [];
  }

  /** One character of the scan, stated over the cursors: what is emitted and what stays pending. */
  lemma ScanStep(expr: string, start: nat, i: nat)
    requires start <= i < |expr| && expr[start..i] == Pending(expr[..i])
    ensures Tokenize(expr[..i + 1]) ==
              if IsSeparator(expr[i]) then Tokenize(expr[..i]) + Flush(expr[start..i]) + Emit(expr[i])
              else Tokenize(expr[..i])
    ensures Pending(expr[..i + 1]) == if IsSeparator(expr[i]) then [] else expr[start..i + 1]
  {
    var ch := expr[i];
    assert expr[..i + 1] == expr[..i] + [ch];
    TokenizeStep(expr[..i], ch);
    assert expr[..i + 1][..i] == expr[..i];
    assert expr[start..i + 1] == expr[start..i] + [ch];
  }

  /**
   * `eval`: one pass over the characters, the cursors `start` and `end`
   * shared by every call of the closure; `expr[start..end]` is the pending
   * word. The emitted pieces are concatenated in order.
   */
  method Eval(expr: string) returns (tokens: seq<Token>)
    ensures tokens == Tokenize(expr)
  {
    var start: nat, end: nat := 0, 0;
    tokens := [];
    for i := 0 to |expr|
      invariant end == i && start <= end
      invariant expr[start..end] == Pending(expr[..i])
      invariant tokens == Tokenize(expr[..i])
    {
      ScanStep(expr, start, i);
      var out;
      start, end, out := ScanChar(expr, start, end, expr[i]);
      tokens := tokens + out;
    }
    assert expr[..|expr|] == expr;
  }

  const EXAMPLE_SOURCE: string := "(let x 2 (mult x (let x 3 y 4 (add x y))))"

  const EXAMPLE_TOKENS: seq<Token> := [
    Delim(Open), Keyword(Let), Ident("x"), Literal(2),
    Delim(Open), Keyword(Mult), Ident("x"),
    Delim(Open), Keyword(Let), Ident("x"), Literal(3), Ident("y"), Literal(4),
    Delim(Open), Keyword(Add), Ident("x"), Ident("y"),
    Delim(Close), Delim(Close), Delim(Close), Delim(Close)
  ]

  /** A word that starts with neither a digit nor a sign and is not a keyword is an identifier. */
  lemma IdentWord(w: string)
    requires |w| > 0 && !IsDigit(w[0]) && !IsSign(w[0]) && !IsKeywordText(w)
    ensures FromWord(w) == Ident(w)
  {
  }

  lemma DigitWord(d: nat)
    requires d < 10
    ensures FromWord([DigitChar(d)]) == Literal(d as i32)
  {
    LiteralWord(d as i32);
  }

  /** Tokenizes a run of words each closed by a separator. */
  lemma TokenizeChunks(chunks: seq<(string, char)>, s: string, ts: seq<Token>)
    requires forall i :: 0 <= i < |chunks| ==> NoSeparator(chunks[i].0) && IsSeparator(chunks[i].1)
    requires Join(chunks) == s && ChunkTokens(chunks) == ts
    ensures Tokenize(s) == ts
  {
    TokenizeJoin(chunks);
  }

  /** Once a separator has been read, what follows is tokenized afresh. */
  lemma TokenizeAfterSeparator(a: string, b: string)
    requires a != [] && IsSeparator(a[|a| - 1])
    ensures Tokenize(a + b) == Tokenize(a) + Tokenize(b)
  {
    LexConcat(a, b, []);
    assert Pending([] + a) == [];
  }

  lemma ExampleSourceSplit()
    ensures EXAMPLE_SOURCE == "(let x 2 (" + ("mult x (let x " + ("3 y 4 (add " + "x y))))"))
  {
  }

  lemma ExampleTokensSplit()
    ensures EXAMPLE_TOKENS ==
      [Delim(Open), Keyword(Let), Ident("x"), Literal(2), Delim(Open)] +
      ([Keyword(Mult), Ident("x"), Delim(Open), Keyword(Let), Ident("x")] +
      ([Literal(3), Ident("y"), Literal(4), Delim(Open), Keyword(Add)] +
       [Ident("x"), Ident("y"), Delim(Close), Delim(Close), Delim(Close), Delim(Close)]))
  {
  }

  lemma ExamplePart1()
    ensures Tokenize("(let x 2 (") == [Delim(Open), Keyword(Let), Ident("x"), Literal(2), Delim(Open)]
  {
    IdentWord("x");
    DigitWord(2);
    TokenizeChunks([("", '('), ("let", ' '), ("x", ' '), ("2", ' '), ("", '(')],
      "(let x 2 (", [Delim(Open), Keyword(Let), Ident("x"), Literal(2), Delim(Open)]);
  }

  lemma ExamplePart2()
    ensures Tokenize("mult x (let x ") == [Keyword(Mult), Ident("x"), Delim(Open), Keyword(Let), Ident("x")]
  {
    IdentWord("x");
    TokenizeChunks([("mult", ' '), ("x", ' '), ("", '('), ("let", ' '), ("x", ' ')],
      "mult x (let x ", [Keyword(Mult), Ident("x"), Delim(Open), Keyword(Let), Ident("x")]);
  }

  lemma ExamplePart3()
    ensures Tokenize("3 y 4 (add ") == [Literal(3), Ident("y"), Literal(4), Delim(Open), Keyword(Add)]
  {
    IdentWord("y");
    DigitWord(3);
    DigitWord(4);
    TokenizeChunks([("3", ' '), ("y", ' '), ("4", ' '), ("", '('), ("add", ' ')],
      "3 y 4 (add ", [Literal(3), Ident("y"), Literal(4), Delim(Open), Keyword(Add)]);
  }

  lemma ExamplePart4()
    ensures Tokenize("x y))))") == [Ident("x"), Ident("y"), Delim(Close), Delim(Close), Delim(Close), Delim(Close)]
  {
    IdentWord("x");
    IdentWord("y");
    TokenizeChunks([("x", ' '), ("y", ')'), ("", ')'), ("", ')'), ("", ')')],
      "x y))))", [Ident("x"), Ident("y"), Delim(Close), Delim(Close), Delim(Close), Delim(Close)]);
  }

  /** The lexer test: the example program tokenizes to the 21 tokens listed, in order. */
  lemma TokenizeExample()
    ensures Tokenize(EXAMPLE_SOURCE) == EXAMPLE_TOKENS
  {
    ExamplePart1();
    ExamplePart2();
    ExamplePart3();
    ExamplePart4();
    TokenizeAfterSeparator("3 y 4 (add ", "x y))))");
    TokenizeAfterSeparator("mult x (let x ", "3 y 4 (add " + "x y))))");
    TokenizeAfterSeparator("(let x 2 (", "mult x (let x " + ("3 y 4 (add " + "x y))))"));
    ExampleSourceSplit();
    ExampleTokensSplit();
  }

  /** This lexer has no error case: `!` is simply part of a word, here an identifier. */
  lemma BangIsAWord()
    ensures Tokenize("(add ! 2)") == [Delim(Open), Keyword(Add), Ident("!"), Literal(2), Delim(Close)]
  {
    IdentWord("!");
    DigitWord(2);
    TokenizeChunks([("", '('), ("add", ' '), ("!", ' '), ("2", ')')],
      "(add ! 2)", [Delim(Open), Keyword(Add), Ident("!"), Literal(2), Delim(Close)]);
  }

  /** `eval` on the example program yields exactly the tokens of the lexer test. */
  method EvalExample() returns (tokens: seq<Token>)
    ensures tokens == EXAMPLE_TOKENS
  {
    tokens := Eval(EXAMPLE_SOURCE);
    TokenizeExample();
  }
}
