/** The lexer: a cursor over the source text that turns it into tokens.
    `Lex` is the recursive reference lexer; `Tokenizer.Tokenize` is the
    cursor-and-scratch-buffer scanner, proved to compute `Lex`. */
module Tokenization {
  import opened Results

  // ---------------------------------------------------------------------
  // Character classes (the "C" locale, ASCII only)
  // ---------------------------------------------------------------------

  predicate IsAlpha(c: char) {
    ('a' <= c <= 'z') || ('A' <= c <= 'Z')
  }

  predicate IsDigit(c: char) {
    '0' <= c <= '9'
  }

  predicate IsAlnum(c: char) {
    IsAlpha(c) || IsDigit(c)
  }

  /** Space, horizontal tab, newline, vertical tab, form feed, carriage return. */
  predicate IsSpace(c: char) {
    c == ' ' || c == '\t' || c == '\n' || c == '\U{000B}' || c == '\U{000C}' || c == '\r'
  }

  predicate AllDigits(s: string) {
    forall k :: 0 <= k < |s| ==> IsDigit(s[k])
  }

  predicate AllSpace(s: string) {
    forall k :: 0 <= k < |s| ==> IsSpace(s[k])
  }

  /** The two classes a multi-character token is scanned over. */
  datatype CharClass = Alnum | Digit

  predicate InClass(c: char, cls: CharClass) {
    match cls
    case Alnum => IsAlnum(c)
    case Digit => IsDigit(c)
  }

  /** Length of the longest prefix of `s` whose characters are all in `cls`. */
  function RunLength(s: string, cls: CharClass): (n: nat)
    ensures n <= |s|
    ensures forall k :: 0 <= k < n ==> InClass(s[k], cls)
    ensures n == |s| || !InClass(s[n], cls)
  {
    if s == [] || !InClass(s[0], cls) then 0 else 1 + RunLength(s[1..], cls)
  }

  /** A run that cannot be extended is the longest one. */
  lemma {:induction false} RunLengthUnique(s: string, cls: CharClass, n: nat)
    requires n <= |s|
    requires forall k :: 0 <= k < n ==> InClass(s[k], cls)
    requires n == |s| || !InClass(s[n], cls)
    ensures RunLength(s, cls) == n
  {
    if n > 0 {
      assert InClass(s[0], cls);
      assert forall k :: 0 <= k < n - 1 ==> InClass(s[1..][k], cls) by {
        forall k | 0 <= k < n - 1 ensures InClass(s[1..][k], cls) {
          assert s[1..][k] == s[k + 1];
        }
      }
      assert n - 1 == |s[1..]| || s[1..][n - 1] == s[n];
      RunLengthUnique(s[1..], cls, n - 1);
    }
  }

  // ---------------------------------------------------------------------
  // Tokens
  // ---------------------------------------------------------------------

  datatype TokenType = Exit | IntLiteral | Semicolon

  /** A token. Only an integer literal carries text, so the payload is
      present exactly when the kind is `IntLiteral`. */
  datatype Token = ExitToken | IntLiteralToken(text: string) | SemicolonToken
  {
    function Type(): TokenType {
      match this
      case ExitToken => Exit
      case IntLiteralToken(_) => IntLiteral
      case SemicolonToken => Semicolon
    }

    function Value(): (v: Option<string>)
      ensures v.Some? <==> Type() == IntLiteral
      ensures v.Some? ==> v.value == text
    {
      if IntLiteralToken? then Some(text) else None
    }
  }

  /** What the lexer can produce: an integer literal is a non-empty digit string. */
  predicate WellFormed(t: Token) {
    t.IntLiteralToken? ==> |t.text| > 0 && AllDigits(t.text)
  }

  /** A lexing failure names the character that started the rejected input. */
  datatype LexError = InvalidToken(c: char)

  // ---------------------------------------------------------------------
  // Reference lexer
  // ---------------------------------------------------------------------

  /** Reads `s` left to right: whitespace is dropped, a maximal digit run is an
      integer literal, a maximal alphanumeric run starting with a letter must
      be the keyword `exit`, `;` is a semicolon, anything else is an error. */
  function Lex(s: string): (r: Result<seq<Token>, LexError>)
    ensures r.Ok? ==> |r.value| <= |s|
    decreases |s|
  {
    if s == [] then Ok([])
    else
      var c := s[0];
      if IsAlpha(c) then
        var n := RunLength(s, Alnum);
        if s[..n] == "exit" then PrependAll([ExitToken], Lex(s[n..]))
        else Err(InvalidToken(c))
      else if IsDigit(c) then
        var n := RunLength(s, Digit);
        PrependAll([IntLiteralToken(s[..n])], Lex(s[n..]))
      else if c == ';' then PrependAll([SemicolonToken], Lex(s[1..]))
      else if IsSpace(c) then Lex(s[1..])
      else Err(InvalidToken(c))
  }

  // ---------------------------------------------------------------------
  // Properties of the reference lexer
  // ---------------------------------------------------------------------

  /** Every token the lexer emits is well formed. */
  lemma {:induction false} LexTokensWellFormed(s: string)
    ensures Lex(s).Ok? ==> forall k :: 0 <= k < |Lex(s).value| ==> WellFormed(Lex(s).value[k])
    decreases |s|
  {
    if s != [] && Lex(s).Ok? {
      var c := s[0];
      if IsAlpha(c) {
        LexTokensWellFormed(s[RunLength(s, Alnum)..]);
      } else if IsDigit(c) {
        var n := RunLength(s, Digit);
        assert WellFormed(IntLiteralToken(s[..n]));
        LexTokensWellFormed(s[n..]);
      } else if c == ';' || IsSpace(c) {
        LexTokensWellFormed(s[1..]);
      }
    }
  }

  /** The character an error names is neither a digit, nor `;`, nor
      whitespace. It occurs in the input at some position from which lexing
      fails with that same error. */
  lemma {:induction false} LexErrorInInput(s: string)
    ensures Lex(s).Err? ==> Lex(s).error.c in s
    ensures Lex(s).Err? ==> !IsDigit(Lex(s).error.c) && Lex(s).error.c != ';' && !IsSpace(Lex(s).error.c)
    ensures Lex(s).Err? ==> exists i :: 0 <= i < |s| && s[i] == Lex(s).error.c && Lex(s[i..]) == Lex(s)
    decreases |s|, 1
  {
    if s != [] && Lex(s).Err? {
      var c := s[0];
      var i: nat := 0;
      if IsAlpha(c) {
        var n := RunLength(s, Alnum);
        if s[..n] == "exit" {
          assert Lex(s) == Lex(s[n..]);
          i := ShiftErrorPosition(s, n);
        }
      } else if IsDigit(c) {
        var n := RunLength(s, Digit);
        assert Lex(s) == Lex(s[n..]);
        i := ShiftErrorPosition(s, n);
      } else if c == ';' || IsSpace(c) {
        assert Lex(s) == Lex(s[1..]);
        i := ShiftErrorPosition(s, 1);
      }
      assert s[i] == Lex(s).error.c && Lex(s[i..]) == Lex(s);
    }
  }

  /** When lexing `s` fails only in its tail `s[n..]`, the failing position
      found in the tail, moved back by `n`, is one in `s`. */
  lemma {:induction false} ShiftErrorPosition(s: string, n: nat) returns (i: nat)
    requires 0 < n <= |s| && Lex(s).Err? && Lex(s) == Lex(s[n..])
    ensures n <= i < |s| && s[i] == Lex(s).error.c && Lex(s[i..]) == Lex(s)
    ensures !IsDigit(Lex(s).error.c) && Lex(s).error.c != ';' && !IsSpace(Lex(s).error.c)
    decreases |s|, 0
  {
    LexErrorInInput(s[n..]);
    var j :| 0 <= j < |s[n..]| && s[n..][j] == Lex(s[n..]).error.c && Lex(s[n..][j..]) == Lex(s[n..]);
    assert s[n..][j..] == s[n + j..];
    i := n + j;
  }

  /** Input made only of whitespace lexes to no tokens. */
  lemma {:induction false} LexAllSpace(s: string)
    requires AllSpace(s)
    ensures Lex(s) == Ok([])
    decreases |s|
  {
    if s != [] {
      assert IsSpace(s[0]);
      LexAllSpace(s[1..]);
    }
  }

  /** Leading whitespace does not change the tokens. */
  lemma {:induction false} LexSkipsLeadingSpace(w: string, s: string)
    requires AllSpace(w)
    ensures Lex(w + s) == Lex(s)
    decreases |w|
  {
    if w != [] {
      assert (w + s)[0] == w[0] && IsSpace(w[0]);
      assert (w + s)[1..] == w[1..] + s;
      assert Lex(w + s) == Lex((w + s)[1..]);
      LexSkipsLeadingSpace(w[1..], s);
    } else {
      assert w + s == s;
    }
  }

  /** A maximal digit run becomes exactly one literal carrying that text. */
  lemma LexDigitRun(d: string, s: string)
    requires |d| > 0 && AllDigits(d)
    requires s == [] || !IsDigit(s[0])
    ensures Lex(d + s) == PrependAll([IntLiteralToken(d)], Lex(s))
  {
    var ds := d + s;
    assert forall k :: 0 <= k < |d| ==> InClass(ds[k], Digit) by {
      forall k | 0 <= k < |d| ensures InClass(ds[k], Digit) {
        assert ds[k] == d[k];
      }
    }
    assert |d| == |ds| || ds[|d|] == s[0];
    RunLengthUnique(ds, Digit, |d|);
    assert ds[..|d|] == d && ds[|d|..] == s;
  }

  /** The keyword `exit`, when no letter or digit follows, becomes one exit token. */
  lemma LexKeyword(s: string)
    requires s == [] || !IsAlnum(s[0])
    ensures Lex("exit" + s) == PrependAll([ExitToken], Lex(s))
  {
    var ks := "exit" + s;
    assert forall k :: 0 <= k < 4 ==> InClass(ks[k], Alnum);
    assert |ks| == 4 || ks[4] == s[0];
    RunLengthUnique(ks, Alnum, 4);
    assert ks[..4] == "exit" && ks[4..] == s;
  }

  lemma ConcatAssoc(a: string, b: string, c: string, d: string, e: string)
    ensures a + b + c + d + e == a + (b + (c + (d + e)))
  {
  }

  /** A semicolon becomes one semicolon token. */
  lemma LexSemicolon(s: string)
    ensures Lex([';'] + s) == PrependAll([SemicolonToken], Lex(s))
  {
    assert ([';'] + s)[0] == ';' && ([';'] + s)[1..] == s;
  }

  /** The keyword, whitespace, a literal and optional whitespace lex to the
      two tokens whatever the amount of whitespace, and lexing goes on after them. */
  lemma LexKeywordAndLiteral(w1: string, literal: string, w2: string, rest: string)
    requires |w1| > 0 && AllSpace(w1) && AllSpace(w2)
    requires |literal| > 0 && AllDigits(literal)
    requires rest == [] || !IsDigit(rest[0])
    ensures Lex("exit" + w1 + literal + w2 + rest) ==
            PrependAll([ExitToken, IntLiteralToken(literal)], Lex(rest))
  {
    var tail := w2 + rest;
    var afterKeyword := w1 + (literal + tail);
    var whole := "exit" + afterKeyword;
    ConcatAssoc("exit", w1, literal, w2, rest);
    var afterLiteral := Lex(rest);
    assert Lex(tail) == afterLiteral by {
      LexSkipsLeadingSpace(w2, rest);
    }
    assert Lex(literal + tail) == PrependAll([IntLiteralToken(literal)], afterLiteral) by {
      assert tail == [] || !IsDigit(tail[0]) by {
        if w2 != [] {
          assert tail[0] == w2[0] && IsSpace(w2[0]);
        } else {
          assert tail == rest;
        }
      }
      LexDigitRun(literal, tail);
    }
    assert Lex(afterKeyword) == PrependAll([IntLiteralToken(literal)], afterLiteral) by {
      LexSkipsLeadingSpace(w1, literal + tail);
    }
    assert Lex(whole) == PrependAll([ExitToken], PrependAll([IntLiteralToken(literal)], afterLiteral)) by {
      assert afterKeyword[0] == w1[0] && IsSpace(w1[0]);
      LexKeyword(afterKeyword);
    }
    PrependAllAssoc([ExitToken], [IntLiteralToken(literal)], afterLiteral);
    assert [ExitToken] + [IntLiteralToken(literal)] == [ExitToken, IntLiteralToken(literal)];
    assert Lex(whole) == PrependAll([ExitToken, IntLiteralToken(literal)], afterLiteral);
  }

  /** A maximal word starting with a letter that is not `exit` (for instance
      `exit1`, whose digit is absorbed into the word) is rejected. */
  lemma LexWordRejected(w: string, s: string)
    requires |w| > 0 && IsAlpha(w[0]) && w != "exit"
    requires forall k :: 0 <= k < |w| ==> IsAlnum(w[k])
    requires s == [] || !IsAlnum(s[0])
    ensures Lex(w + s) == Err(InvalidToken(w[0]))
  {
    var ws := w + s;
    assert forall k :: 0 <= k < |w| ==> InClass(ws[k], Alnum) by {
      forall k | 0 <= k < |w| ensures InClass(ws[k], Alnum) {
        assert ws[k] == w[k];
      }
    }
    assert |w| == |ws| || ws[|w|] == s[0];
    RunLengthUnique(ws, Alnum, |w|);
    assert ws[..|w|] == w;
  }

  /** A character outside every class the lexer knows stops it with an error. */
  lemma LexInvalidCharacter(c: char, s: string)
    requires !IsAlnum(c) && c != ';' && !IsSpace(c)
    ensures Lex([c] + s) == Err(InvalidToken(c))
  {
    assert ([c] + s)[0] == c;
  }

  // ---------------------------------------------------------------------
  // The tokens are a faithful projection of the non-whitespace input
  // ---------------------------------------------------------------------

  /** The source text a token stands for. */
  function Spelling(t: Token): string {
    match t
    case ExitToken => "exit"
    case IntLiteralToken(text) => text
    case SemicolonToken => ";"
  }

  function SpellAll(ts: seq<Token>): string {
    if ts == [] then [] else Spelling(ts[0]) + SpellAll(ts[1..])
  }

  /** The input with every whitespace character removed. */
  function RemoveSpace(s: string): string {
    if s == [] then []
    else if IsSpace(s[0]) then RemoveSpace(s[1..])
    else [s[0]] + RemoveSpace(s[1..])
  }

  lemma {:induction false} RemoveSpaceAppend(a: string, b: string)
    ensures RemoveSpace(a + b) == RemoveSpace(a) + RemoveSpace(b)
    decreases |a|
  {
    if a != [] {
      assert (a + b)[0] == a[0] && (a + b)[1..] == a[1..] + b;
      if IsSpace(a[0]) {
        assert RemoveSpace(a + b) == RemoveSpace(a[1..] + b);
      } else {
        assert RemoveSpace(a + b) == [a[0]] + RemoveSpace(a[1..] + b);
      }
      RemoveSpaceAppend(a[1..], b);
    } else {
      assert a + b == b;
    }
  }

  lemma {:induction false} RemoveSpaceNoSpace(s: string)
    requires forall k :: 0 <= k < |s| ==> !IsSpace(s[k])
    ensures RemoveSpace(s) == s
    decreases |s|
  {
    if s != [] {
      assert !IsSpace(s[0]);
      RemoveSpaceNoSpace(s[1..]);
    }
  }

  lemma SpellCons(t: Token, ts: seq<Token>)
    ensures SpellAll([t] + ts) == Spelling(t) + SpellAll(ts)
  {
    assert ([t] + ts)[0] == t && ([t] + ts)[1..] == ts;
  }

  /** One step of `LexSpelling`: a token spelled as the whitespace-free
      prefix `s[..n]`, followed by tokens that spell the rest. */
  lemma SpellPrefix(s: string, n: nat, t: Token, rest: seq<Token>)
    requires n <= |s| && Spelling(t) == s[..n]
    requires forall k :: 0 <= k < n ==> !IsSpace(s[k])
    requires SpellAll(rest) == RemoveSpace(s[n..])
    ensures SpellAll([t] + rest) == RemoveSpace(s)
  {
    SpellCons(t, rest);
    assert forall k :: 0 <= k < n ==> !IsSpace(s[..n][k]);
    RemoveSpaceNoSpace(s[..n]);
    assert s == s[..n] + s[n..];
    RemoveSpaceAppend(s[..n], s[n..]);
  }

  /** Spelling out the tokens again gives back the input without its whitespace. */
  lemma {:induction false} LexSpelling(s: string)
    ensures Lex(s).Ok? ==> SpellAll(Lex(s).value) == RemoveSpace(s)
    decreases |s|
  {
    if s != [] && Lex(s).Ok? {
      var c := s[0];
      if IsAlpha(c) || IsDigit(c) {
        var n := RunLength(s, if IsAlpha(c) then Alnum else Digit);
        LexSpelling(s[n..]);
        var t := if IsAlpha(c) then ExitToken else IntLiteralToken(s[..n]);
        assert Lex(s).value == [t] + Lex(s[n..]).value;
        SpellPrefix(s, n, t, Lex(s[n..]).value);
      } else if c == ';' {
        LexSpelling(s[1..]);
        SpellCons(SemicolonToken, Lex(s[1..]).value);
      } else {
        LexSpelling(s[1..]);
      }
    }
  }

  // ---------------------------------------------------------------------
  // The cursor-based scanner
  // ---------------------------------------------------------------------

  class Tokenizer {
    /** The source text; never changed. */
    const src: string
    /** Characters before `index` have been consumed. */
    var index: nat

    ghost predicate Valid()
      reads this
    {
      index <= |src|
    }

    constructor (src: string)
      ensures Valid()
      ensures this.src == src && index == 0
    {
      this.src := src;
      index := 0;
    }

    /** The character `offset` places after the cursor, if there is one. */
    function Peek(offset: nat): (r: Option<char>)
      reads this
      ensures r.None? <==> index + offset >= |src|
      ensures r.Some? ==> r.value == src[index + offset]
    {
      if index + offset >= |src| then None else Some(src[index + offset])
    }

    /** Takes the character under the cursor and moves past it. */
    method Consume() returns (c: char)
      requires index < |src|
      modifies this`index
      ensures c == src[old(index)]
      ensures index == old(index) + 1
    {
      c := src[index];
      index := index + 1;
    }

    /** Appends to the scratch buffer every following character of class `cls`,
        stopping at the end of the source or at the first character outside it. */
    method ScanRun(ghost start: nat, buffer: string, cls: CharClass) returns (run: string)
      requires start < index <= |src|
      requires buffer == src[start..index]
      requires forall k :: start <= k < index ==> InClass(src[k], cls)
      modifies this`index
      ensures old(index) <= index <= |src|
      ensures run == src[start..index]
      ensures forall k :: start <= k < index ==> InClass(src[k], cls)
      ensures index == |src| || !InClass(src[index], cls)
    {
      run := buffer;
      while Peek(0).Some? && InClass(Peek(0).value, cls)
        invariant start < index <= |src|
        invariant run == src[start..index]
        invariant forall k :: start <= k < index ==> InClass(src[k], cls)
        decreases |src| - index
      {
        var d := Consume();
        run := run + [d];
      }
    }

    /** One pass of the loop in `tokenize`: consumes the next token, or one
        whitespace character, and emits the token it forms. `err` is the error
        that ends lexing. */
    method Step(ghost whole: Result<seq<Token>, LexError>, tokens: seq<Token>, buffer: string)
      returns (tokens': seq<Token>, buffer': string, err: Option<LexError>)
      requires index < |src| && buffer == []
      requires whole == PrependAll(tokens, Lex(src[index..]))
      modifies this`index
      ensures old(index) < index <= |src|
      ensures err.None? ==> buffer' == [] && whole == PrependAll(tokens', Lex(src[index..]))
      ensures err.Some? ==> whole == Err(err.value)
      ensures index == old(index) + TokenEnd(src[old(index)..])
      ensures err.Some? ==> err.value == InvalidToken(src[old(index)])
      ensures err.None? ==> tokens' == tokens || (|tokens'| == |tokens| + 1 && tokens'[..|tokens|] == tokens)
    {
      tokens', buffer', err := tokens, buffer, None;
      ghost var start := index;
      var c := Consume();
      if IsAlpha(c) {
        buffer' := ScanRun(start, buffer + [c], Alnum);
        if buffer' == "exit" {
          StepKeyword(src, whole, start, index, tokens);
          tokens' := tokens + [ExitToken];
          assert tokens'[..|tokens|] == tokens;
          buffer' := [];
        } else {
          StepWord(src, whole, start, index, tokens);
          err := Some(InvalidToken(c));
        }
      } else if IsDigit(c) {
        buffer' := ScanRun(start, buffer + [c], Digit);
        StepLiteral(src, whole, start, index, tokens);
        tokens' := tokens + [IntLiteralToken(buffer')];
        assert tokens'[..|tokens|] == tokens;
        buffer' := [];
      } else if c == ';' {
        StepSingle(src, whole, start, tokens);
        tokens' := tokens + [SemicolonToken];
        assert tokens'[..|tokens|] == tokens;
      } else if IsSpace(c) {
        StepSingle(src, whole, start, tokens);
      } else {
        StepSingle(src, whole, start, tokens);
        err := Some(InvalidToken(c));
      }
    }

    /** Scans the rest of the source; on success the cursor reaches the end. */
    method Tokenize() returns (r: Result<seq<Token>, LexError>)
      requires Valid()
      modifies this`index
      ensures Valid()
      ensures r == Lex(src[old(index)..])
      ensures r.Ok? ==> index == |src|
    {
      var tokens: seq<Token> := [];
      var buffer: string := [];
      ghost var whole := Lex(src[index..]);
      while Peek(0).Some?
        invariant index <= |src|
        invariant buffer == []
        invariant whole == PrependAll(tokens, Lex(src[index..]))
        decreases |src| - index
      {
        var err;
        tokens, buffer, err := Step(whole, tokens, buffer);
        if err.Some? {
          r := Err(err.value);
          return;
        }
      }
      assert src[index..] == [];
      assert tokens + [] == tokens;
      r := Ok(tokens);
    }
  }

  /** Moving tokens from the still-to-lex part to the emitted part keeps the whole. */
  lemma Advance(whole: Result<seq<Token>, LexError>, tokens: seq<Token>,
                here: Result<seq<Token>, LexError>, emitted: seq<Token>,
                next: Result<seq<Token>, LexError>)
    requires whole == PrependAll(tokens, here)
    requires here == PrependAll(emitted, next)
    ensures whole == PrependAll(tokens + emitted, next)
  {
    PrependAllAssoc(tokens, emitted, next);
  }

  /** How many characters one pass of the tokenizer loop consumes from `s`:
      a whole word or digit run, otherwise a single character. */
  function TokenEnd(s: string): (n: nat)
    requires s != []
    ensures 1 <= n <= |s|
  {
    if IsAlpha(s[0]) then RunLength(s, Alnum)
    else if IsDigit(s[0]) then RunLength(s, Digit)
    else 1
  }

  /** A run the scanner stopped at is the maximal run `Lex` takes. */
  lemma ScannedRun(src: string, start: nat, end: nat, cls: CharClass)
    requires start < end <= |src|
    requires forall k :: start <= k < end ==> InClass(src[k], cls)
    requires end == |src| || !InClass(src[end], cls)
    ensures RunLength(src[start..], cls) == end - start
    ensures src[start..][..end - start] == src[start..end]
    ensures src[start..][end - start..] == src[end..]
  {
    var s := src[start..];
    assert forall k :: 0 <= k < end - start ==> InClass(s[k], cls) by {
      forall k | 0 <= k < end - start ensures InClass(s[k], cls) {
        assert s[k] == src[start + k];
      }
    }
    assert end - start == |s| || s[end - start] == src[end];
    RunLengthUnique(s, cls, end - start);
  }

  /** One step of `Lex` over a maximal run `src[start..end]` that starts a word or a literal. */
  lemma LexAtRun(src: string, start: nat, end: nat, cls: CharClass)
    requires start < end <= |src|
    requires cls == Alnum ==> IsAlpha(src[start])
    requires cls == Digit ==> IsDigit(src[start])
    requires forall k :: start <= k < end ==> InClass(src[k], cls)
    requires end == |src| || !InClass(src[end], cls)
    ensures cls == Alnum ==>
              Lex(src[start..]) ==
              if src[start..end] == "exit" then PrependAll([ExitToken], Lex(src[end..]))
              else Err(InvalidToken(src[start]))
    ensures cls == Digit ==>
              Lex(src[start..]) == PrependAll([IntLiteralToken(src[start..end])], Lex(src[end..]))
  {
    ScannedRun(src, start, end, cls);
    assert src[start..][0] == src[start];
  }

  /** One step of `Lex` at a character that cannot start a word or a literal. */
  lemma LexAtSingle(src: string, i: nat)
    requires i < |src| && !IsAlnum(src[i])
    ensures src[i] == ';' ==> Lex(src[i..]) == PrependAll([SemicolonToken], Lex(src[i + 1..]))
    ensures IsSpace(src[i]) ==> Lex(src[i..]) == Lex(src[i + 1..])
    ensures src[i] != ';' && !IsSpace(src[i]) ==> Lex(src[i..]) == Err(InvalidToken(src[i]))
  {
    assert src[i..][0] == src[i] && src[i..][1..] == src[i + 1..];
  }

  /** The scanner's invariant after a maximal word `src[start..end]` that is
      the keyword: the exit token joins the emitted ones. */
  lemma StepKeyword(src: string, whole: Result<seq<Token>, LexError>, start: nat, end: nat, tokens: seq<Token>)
    requires start < end <= |src| && IsAlpha(src[start])
    requires forall k :: start <= k < end ==> IsAlnum(src[k])
    requires end == |src| || !IsAlnum(src[end])
    requires src[start..end] == "exit"
    requires whole == PrependAll(tokens, Lex(src[start..]))
    ensures whole == PrependAll(tokens + [ExitToken], Lex(src[end..]))
    ensures end == start + TokenEnd(src[start..])
  {
    LexAtRun(src, start, end, Alnum);
    ScannedRun(src, start, end, Alnum);
    Advance(whole, tokens, Lex(src[start..]), [ExitToken], Lex(src[end..]));
  }

  /** After a maximal word `src[start..end]` other than the keyword, lexing fails
      at its first letter. */
  lemma StepWord(src: string, whole: Result<seq<Token>, LexError>, start: nat, end: nat, tokens: seq<Token>)
    requires start < end <= |src| && IsAlpha(src[start])
    requires forall k :: start <= k < end ==> IsAlnum(src[k])
    requires end == |src| || !IsAlnum(src[end])
    requires src[start..end] != "exit"
    requires whole == PrependAll(tokens, Lex(src[start..]))
    ensures whole == Err(InvalidToken(src[start]))
    ensures end == start + TokenEnd(src[start..])
  {
    LexAtRun(src, start, end, Alnum);
    ScannedRun(src, start, end, Alnum);
  }

  /** The scanner's invariant after a maximal digit run `src[start..end]`: the
      literal it forms joins the emitted tokens. */
  lemma StepLiteral(src: string, whole: Result<seq<Token>, LexError>, start: nat, end: nat, tokens: seq<Token>)
    requires start < end <= |src|
    requires forall k :: start <= k < end ==> IsDigit(src[k])
    requires end == |src| || !IsDigit(src[end])
    requires whole == PrependAll(tokens, Lex(src[start..]))
    ensures whole == PrependAll(tokens + [IntLiteralToken(src[start..end])], Lex(src[end..]))
    ensures end == start + TokenEnd(src[start..])
  {
    LexAtRun(src, start, end, Digit);
    ScannedRun(src, start, end, Digit);
    Advance(whole, tokens, Lex(src[start..]), [IntLiteralToken(src[start..end])], Lex(src[end..]));
  }

  /** The scanner's invariant after a single character: a semicolon joins the
      emitted tokens, whitespace is dropped, anything else fails. */
  lemma StepSingle(src: string, whole: Result<seq<Token>, LexError>, i: nat, tokens: seq<Token>)
    requires i < |src| && !IsAlnum(src[i])
    requires whole == PrependAll(tokens, Lex(src[i..]))
    ensures src[i] == ';' ==>
              whole == PrependAll(tokens + [SemicolonToken], Lex(src[i + 1..]))
    ensures IsSpace(src[i]) ==> whole == PrependAll(tokens, Lex(src[i + 1..]))
    ensures src[i] != ';' && !IsSpace(src[i]) ==> whole == Err(InvalidToken(src[i]))
    ensures TokenEnd(src[i..]) == 1
  {
    assert src[i..][0] == src[i];
    LexAtSingle(src, i);
    if src[i] == ';' {
      Advance(whole, tokens, Lex(src[i..]), [SemicolonToken], Lex(src[i + 1..]));
    }
  }
}
