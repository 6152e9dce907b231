/** The three stages run one after the other: lexing, parsing, code generation. */
module Pipeline {
  import opened Results
  import opened Tokenization
  import opened Parsing
  import opened Generation

  /** A statement the parser finds in lexed source always carries a non-empty
      digit string, so the generator's requirement on it is met. */
  lemma ParsedLiteralIsDigits(src: string, node: NodeExit)
    requires Lex(src).Ok? && ParseTokens(Lex(src).value) == Ok(Some(node))
    ensures LiteralOf(node).Some?
    ensures |LiteralOf(node).value| > 0 && AllDigits(LiteralOf(node).value)
  {
    var ts := Lex(src).value;
    LexTokensWellFormed(src);
    ParseFromMeetsSpec(ts, None);
    var j := LastExit(ts).value;
    assert WellFormed(ts[j + 1]);
  }

  /** `exit L;` for a digit string `L`, with any whitespace between the
      keyword and the literal (at least one character) and before the
      semicolon, lexes to three tokens, parses to the statement for `L`, and
      the generated text loads exactly `L`. */
  lemma CompileExitStatement(w1: string, literal: string, w2: string)
    requires |w1| > 0 && AllSpace(w1) && AllSpace(w2)
    requires |literal| > 0 && AllDigits(literal)
    ensures Lex("exit" + w1 + literal + w2 + ";") ==
            Ok([ExitToken, IntLiteralToken(literal), SemicolonToken])
    ensures ParseTokens([ExitToken, IntLiteralToken(literal), SemicolonToken]) ==
            Ok(Some(ExitOf(IntLiteralToken(literal))))
    ensures ExitCodeText(Generate(ExitOf(IntLiteralToken(literal)))) == Some(literal)
  {
    var none: string := [];
    assert Lex(";") == Ok([SemicolonToken]) by {
      LexSemicolon(none);
      assert ";" == [';'] + none;
      assert Lex(none) == Ok([]);
      assert [SemicolonToken] + [] == [SemicolonToken];
    }
    LexKeywordAndLiteral(w1, literal, w2, ";");
    assert [ExitToken, IntLiteralToken(literal)] + [SemicolonToken] ==
           [ExitToken, IntLiteralToken(literal), SemicolonToken];
    ParseSingleStatement(IntLiteralToken(literal));
    GenerateRoundTrip(ExitOf(IntLiteralToken(literal)));
  }

  /** The argument line of the generated text loads the literal. */
  lemma GenerateLoads(literal: string)
    ensures Generate(ExitOf(IntLiteralToken(literal)))[35..45 + |literal|] == "\tmov rdi, " + literal
  {
    var asm := Generate(ExitOf(IntLiteralToken(literal)));
    assert asm[35..45 + |literal|] == asm[35..45] + asm[45..45 + |literal|];
  }

  /** `exit 42;` compiles to a program whose argument line is `mov rdi, 42`. */
  lemma ExitFortyTwo()
    ensures Lex("exit 42;") == Ok([ExitToken, IntLiteralToken("42"), SemicolonToken])
    ensures ParseTokens(Lex("exit 42;").value) == Ok(Some(ExitOf(IntLiteralToken("42"))))
    ensures Generate(ExitOf(IntLiteralToken("42")))[35..47] == "\tmov rdi, 42"
  {
    CompileExitStatement(" ", "42", "");
    assert "exit" + " " + "42" + "" + ";" == "exit 42;";
    GenerateLoads("42");
    assert "\tmov rdi, " + "42" == "\tmov rdi, 42";
  }

  /** Irregular spacing does not change the tokens. */
  lemma IrregularSpacing()
    ensures Lex("exit   42 ;") == Lex("exit 42;")
  {
    CompileExitStatement("   ", "42", " ");
    CompileExitStatement(" ", "42", "");
    assert "exit" + "   " + "42" + " " + ";" == "exit   42 ;";
    assert "exit" + " " + "42" + "" + ";" == "exit 42;";
  }

  /** `exit L;` with one space, followed by any further input, lexes to the
      statement's three tokens and then the tokens of the rest. */
  lemma LexExitStatement(literal: string, rest: string)
    requires |literal| > 0 && AllDigits(literal)
    ensures Lex("exit " + literal + ";" + rest) ==
            PrependAll([ExitToken, IntLiteralToken(literal), SemicolonToken], Lex(rest))
  {
    LexKeywordAndLiteral(" ", literal, "", ";" + rest);
    assert "exit" + " " + literal + "" + (";" + rest) == "exit " + literal + ";" + rest;
    LexSemicolon(rest);
    assert [';'] + rest == ";" + rest;
    PrependAllAssoc([ExitToken, IntLiteralToken(literal)], [SemicolonToken], Lex(rest));
    assert [ExitToken, IntLiteralToken(literal)] + [SemicolonToken] ==
           [ExitToken, IntLiteralToken(literal), SemicolonToken];
  }

  /** Two exit statements separated by a space lex to the tokens of both. */
  lemma LexTwoStatements(l1: string, l2: string)
    requires |l1| > 0 && AllDigits(l1) && |l2| > 0 && AllDigits(l2)
    ensures Lex("exit " + l1 + ";" + (" " + ("exit " + l2 + ";"))) ==
            Ok([ExitToken, IntLiteralToken(l1), SemicolonToken,
                ExitToken, IntLiteralToken(l2), SemicolonToken])
  {
    var second := "exit " + l2 + ";";
    LexExitStatement(l2, []);
    assert second + [] == second;
    LexSkipsLeadingSpace(" ", second);
    LexExitStatement(l1, " " + second);
    assert [ExitToken, IntLiteralToken(l1), SemicolonToken] +
           ([ExitToken, IntLiteralToken(l2), SemicolonToken] + []) ==
           [ExitToken, IntLiteralToken(l1), SemicolonToken,
            ExitToken, IntLiteralToken(l2), SemicolonToken];
  }

  /** Of two exit statements, the later one is the result. */
  lemma ParseTwoStatements(l1: string, l2: string)
    ensures ParseTokens([ExitToken, IntLiteralToken(l1), SemicolonToken,
                         ExitToken, IntLiteralToken(l2), SemicolonToken]) ==
            Ok(Some(ExitOf(IntLiteralToken(l2))))
  {
    var a := [ExitToken, IntLiteralToken(l1), SemicolonToken];
    var b := [ExitToken, IntLiteralToken(l2), SemicolonToken];
    ParseTokensCharacterised(a);
    ParseSingleStatement(IntLiteralToken(l1));
    ParseTokensCharacterised(b);
    assert b[0].Type() == Exit;
    LastStatementWins(a, b);
    ParseSingleStatement(IntLiteralToken(l2));
    assert a + b == [ExitToken, IntLiteralToken(l1), SemicolonToken,
                     ExitToken, IntLiteralToken(l2), SemicolonToken];
  }

  /** `exit L1; exit L2;` lexes to two statements, and the later one is the
      result. */
  lemma TwoStatementsLastWins(l1: string, l2: string)
    requires |l1| > 0 && AllDigits(l1) && |l2| > 0 && AllDigits(l2)
    ensures Lex("exit " + l1 + ";" + (" " + ("exit " + l2 + ";"))) ==
            Ok([ExitToken, IntLiteralToken(l1), SemicolonToken,
                ExitToken, IntLiteralToken(l2), SemicolonToken])
    ensures ParseTokens(Lex("exit " + l1 + ";" + (" " + ("exit " + l2 + ";"))).value) ==
            Ok(Some(ExitOf(IntLiteralToken(l2))))
  {
    LexTwoStatements(l1, l2);
    ParseTwoStatements(l1, l2);
  }

  /** The keyword, whitespace, then a word other than the keyword: lexing
      fails at the word's first letter. */
  lemma KeywordThenWord(w: string, word: string, rest: string)
    requires |w| > 0 && AllSpace(w)
    requires |word| > 0 && IsAlpha(word[0]) && word != "exit"
    requires forall k :: 0 <= k < |word| ==> IsAlnum(word[k])
    requires rest == [] || !IsAlnum(rest[0])
    ensures Lex("exit" + (w + (word + rest))) == Err(InvalidToken(word[0]))
  {
    LexWordRejected(word, rest);
    LexSkipsLeadingSpace(w, word + rest);
    LexKeyword(w + (word + rest));
  }

  /** A word argument is rejected by the lexer, before any parsing, at the
      word's first letter. */
  lemma WordArgumentRejected()
    ensures Lex("exit abc;") == Err(InvalidToken('a'))
  {
    KeywordThenWord(" ", "abc", ";");
    assert "exit" + (" " + ("abc" + ";")) == "exit abc;";
  }

  /** An unknown character stops the lexer. */
  lemma UnknownCharacterRejected()
    ensures Lex("exit 1 # 2;") == Err(InvalidToken('#'))
  {
    LexInvalidCharacter('#', " 2;");
    assert ['#'] + " 2;" == "# 2;";
    LexKeywordAndLiteral(" ", "1", " ", "# 2;");
    assert "exit" + " " + "1" + " " + "# 2;" == "exit 1 # 2;";
  }

  /** Source of whitespace only has no statement. */
  lemma WhitespaceOnlyHasNoStatement(src: string)
    requires AllSpace(src)
    ensures Lex(src) == Ok([])
    ensures ParseTokens(Lex(src).value) == Ok(None)
  {
    LexAllSpace(src);
  }
}
