/** The parser: a cursor over the tokens that finds the exit statement.
    `ParseFrom` follows the parser's scan; `ParseSpec` says declaratively
    what the scan computes; `Parser.Parse` is the cursor-based loop. */
module Parsing {
  import opened Results
  import opened Tokenization

  /** An expression: the integer literal token it was read from. */
  datatype NodeExpr = NodeExpr(intLit: Token)

  /** The exit statement and its argument. */
  datatype NodeExit = NodeExit(expr: NodeExpr)

  /** An `exit` token not followed by an integer literal. */
  datatype ParseError = InvalidExpression

  /** The statement built from the literal token `t`. */
  function ExitOf(t: Token): NodeExit {
    NodeExit(NodeExpr(t))
  }

  // ---------------------------------------------------------------------
  // The scan, as a function
  // ---------------------------------------------------------------------

  /** Scans `ts` at top level with `current` as the statement found so far:
      a token other than `exit` is skipped; `exit` must be followed by an
      integer literal, and the statement it forms replaces `current`. */
  function ParseFrom(ts: seq<Token>, current: Option<NodeExit>): (r: Result<Option<NodeExit>, ParseError>)
    ensures !HasExit(ts) ==> r == Ok(current)
    ensures r.Ok? && r.value != current ==>
      r.value.Some? && r.value.value.expr.intLit in ts && r.value.value.expr.intLit.Type() == IntLiteral
    decreases |ts|
  {
    if ts == [] then Ok(current)
    else if ts[0].Type() != Exit then ParseFrom(ts[1..], current)
    else if |ts| > 1 && ts[1].Type() == IntLiteral then ParseFrom(ts[2..], Some(ExitOf(ts[1])))
    else Err(InvalidExpression)
  }

  /** What the parser returns for a whole token sequence. */
  function ParseTokens(ts: seq<Token>): (r: Result<Option<NodeExit>, ParseError>)
    ensures !HasExit(ts) ==> r == Ok(None)
    ensures r.Ok? && r.value.Some? ==>
      r.value.value.expr.intLit in ts && r.value.value.expr.intLit.Type() == IntLiteral
  {
    ParseFrom(ts, None)
  }

  // ---------------------------------------------------------------------
  // A declarative description of the result
  // ---------------------------------------------------------------------

  /** Every `exit` token is immediately followed by an integer literal. */
  predicate ExitsFollowedByLiteral(ts: seq<Token>) {
    forall i :: 0 <= i < |ts| && ts[i].Type() == Exit ==>
      i + 1 < |ts| && ts[i + 1].Type() == IntLiteral
  }

  predicate HasExit(ts: seq<Token>) {
    exists i :: 0 <= i < |ts| && ts[i].Type() == Exit
  }

  /** Position of the last `exit` token, if any. */
  function LastExit(ts: seq<Token>): (j: Option<nat>)
    ensures j.None? <==> !HasExit(ts)
    ensures j.Some? ==> j.value < |ts| && ts[j.value].Type() == Exit
    ensures j.Some? ==> forall k :: j.value < k < |ts| ==> ts[k].Type() != Exit
  {
    if ts == [] then None
    else if ts[|ts| - 1].Type() == Exit then Some(|ts| - 1)
    else
      var j := LastExit(ts[..|ts| - 1]);
      assert forall k :: 0 <= k < |ts| - 1 ==> ts[..|ts| - 1][k] == ts[k];
      j
  }

  /** The scan fails exactly when some `exit` lacks its literal; otherwise the
      literal after the last `exit` wins, and without any `exit` the statement
      found so far is kept. */
  function ParseSpec(ts: seq<Token>, current: Option<NodeExit>): Result<Option<NodeExit>, ParseError> {
    if !ExitsFollowedByLiteral(ts) then Err(InvalidExpression)
    else
      match LastExit(ts)
      case None => Ok(current)
      case Some(j) => Ok(Some(ExitOf(ts[j + 1])))
  }

  /** Two positions that are both the last `exit` are the same. */
  lemma LastExitUnique(ts: seq<Token>, j: nat)
    requires j < |ts| && ts[j].Type() == Exit
    requires forall k :: j < k < |ts| ==> ts[k].Type() != Exit
    ensures LastExit(ts) == Some(j)
  {
    assert HasExit(ts);
  }

  /** The last `exit` of `ts[d..]`, shifted by `d`, is the last `exit` of `ts`. */
  lemma LastExitShift(ts: seq<Token>, d: nat, j: nat)
    requires d <= |ts| && j < |ts| - d
    requires ts[d + j].Type() == Exit
    requires forall k :: j < k < |ts| - d ==> ts[d..][k].Type() != Exit
    ensures LastExit(ts) == Some(d + j)
  {
    forall k | d + j < k < |ts| ensures ts[k].Type() != Exit {
      assert ts[k] == ts[d..][k - d];
    }
    LastExitUnique(ts, d + j);
  }

  /** Dropping a leading token other than `exit` keeps "every `exit` has its literal". */
  lemma DropNonExitFollowed(ts: seq<Token>)
    requires ts != [] && ts[0].Type() != Exit
    ensures ExitsFollowedByLiteral(ts) <==> ExitsFollowedByLiteral(ts[1..])
  {
    var rest := ts[1..];
    if ExitsFollowedByLiteral(ts) {
      forall i | 0 <= i < |rest| && rest[i].Type() == Exit
        ensures i + 1 < |rest| && rest[i + 1].Type() == IntLiteral
      {
        assert rest[i] == ts[i + 1];
        assert i + 2 < |ts| && rest[i + 1] == ts[i + 2];
      }
    }
    if ExitsFollowedByLiteral(rest) {
      forall i | 0 <= i < |ts| && ts[i].Type() == Exit
        ensures i + 1 < |ts| && ts[i + 1].Type() == IntLiteral
      {
        assert i > 0 && ts[i] == rest[i - 1];
        assert rest[i] == ts[i + 1];
      }
    }
  }

  /** Dropping a leading token other than `exit` shifts the positions of the `exit` tokens by one. */
  lemma DropNonExit(ts: seq<Token>)
    requires ts != [] && ts[0].Type() != Exit
    ensures LastExit(ts[1..]).None? ==> LastExit(ts).None?
    ensures LastExit(ts[1..]).Some? ==> LastExit(ts) == Some(LastExit(ts[1..]).value + 1)
  {
    var rest := ts[1..];
    if LastExit(rest).Some? {
      var j := LastExit(rest).value;
      assert ts[1 + j] == rest[j];
      LastExitShift(ts, 1, j);
    } else {
      forall i | 0 <= i < |ts| ensures ts[i].Type() != Exit {
        if i > 0 {
          assert ts[i] == rest[i - 1];
        }
      }
      assert !HasExit(ts);
    }
  }

  /** Dropping a leading `exit` and its literal keeps "every `exit` has its literal". */
  lemma DropStatementFollowed(ts: seq<Token>)
    requires |ts| > 1 && ts[0].Type() == Exit && ts[1].Type() == IntLiteral
    ensures ExitsFollowedByLiteral(ts) <==> ExitsFollowedByLiteral(ts[2..])
  {
    var rest := ts[2..];
    if ExitsFollowedByLiteral(ts) {
      forall i | 0 <= i < |rest| && rest[i].Type() == Exit
        ensures i + 1 < |rest| && rest[i + 1].Type() == IntLiteral
      {
        assert rest[i] == ts[i + 2];
        assert i + 3 < |ts|;
        assert rest[i + 1] == ts[i + 3];
      }
    }
    if ExitsFollowedByLiteral(rest) {
      forall i | 0 <= i < |ts| && ts[i].Type() == Exit
        ensures i + 1 < |ts| && ts[i + 1].Type() == IntLiteral
      {
        if i > 0 {
          assert i >= 2 && ts[i] == rest[i - 2];
          assert rest[i - 1] == ts[i + 1];
        }
      }
    }
  }

  /** Dropping a leading `exit` and its literal shifts the positions of the later `exit` tokens by two. */
  lemma DropStatement(ts: seq<Token>)
    requires |ts| > 1 && ts[0].Type() == Exit && ts[1].Type() == IntLiteral
    ensures LastExit(ts[2..]).None? ==> LastExit(ts) == Some(0)
    ensures LastExit(ts[2..]).Some? ==> LastExit(ts) == Some(LastExit(ts[2..]).value + 2)
  {
    var rest := ts[2..];
    if LastExit(rest).Some? {
      var j := LastExit(rest).value;
      assert ts[2 + j] == rest[j];
      LastExitShift(ts, 2, j);
    } else {
      forall k | 0 < k < |ts| ensures ts[k].Type() != Exit {
        if k > 1 {
          assert ts[k] == rest[k - 2];
        }
      }
      LastExitUnique(ts, 0);
    }
  }

  /** The scan computes the declarative description. */
  lemma {:induction false} ParseFromMeetsSpec(ts: seq<Token>, current: Option<NodeExit>)
    ensures ParseFrom(ts, current) == ParseSpec(ts, current)
    decreases |ts|
  {
    if ts == [] {
      assert !HasExit(ts);
    } else if ts[0].Type() != Exit {
      ParseFromMeetsSpec(ts[1..], current);
      DropNonExitFollowed(ts);
      DropNonExit(ts);
    } else if |ts| > 1 && ts[1].Type() == IntLiteral {
      ParseFromMeetsSpec(ts[2..], Some(ExitOf(ts[1])));
      DropStatementFollowed(ts);
      DropStatement(ts);
    } else {
      assert !ExitsFollowedByLiteral(ts);
    }
  }

  // ---------------------------------------------------------------------
  // Consequences
  // ---------------------------------------------------------------------

  /** Whether the parser succeeds and whether it finds a statement:
      success iff every `exit` is followed by a literal (the only error is
      `InvalidExpression`); on success, no statement iff there is no `exit`. */
  lemma ParseTokensCharacterised(ts: seq<Token>)
    ensures ParseTokens(ts).Ok? <==> ExitsFollowedByLiteral(ts)
    ensures ParseTokens(ts).Err? ==> ParseTokens(ts).error == InvalidExpression
    ensures ParseTokens(ts).Ok? ==> (ParseTokens(ts).value.None? <==> !HasExit(ts))
  {
    ParseFromMeetsSpec(ts, None);
  }

  /** On success the statement wraps the literal right after the last `exit`. */
  lemma LastExitDecides(ts: seq<Token>, j: nat)
    requires j < |ts| && ts[j].Type() == Exit
    requires forall k :: j < k < |ts| ==> ts[k].Type() != Exit
    requires ParseTokens(ts).Ok?
    ensures j + 1 < |ts| && ts[j + 1].Type() == IntLiteral
    ensures ParseTokens(ts).value == Some(ExitOf(ts[j + 1]))
  {
    ParseFromMeetsSpec(ts, None);
    LastExitUnique(ts, j);
  }

  /** Scanning a concatenation is scanning the two parts in turn, provided the
      first part does not end with an `exit` that would reach into the second. */
  lemma {:induction false} ParseFromAppend(a: seq<Token>, b: seq<Token>, current: Option<NodeExit>)
    requires a == [] || a[|a| - 1].Type() != Exit
    ensures ParseFrom(a + b, current) ==
            match ParseFrom(a, current)
            case Ok(c) => ParseFrom(b, c)
            case Err(e) => Err(e)
    decreases |a|
  {
    if a == [] {
      assert a + b == b;
    } else if a[0].Type() != Exit {
      assert (a + b)[0] == a[0] && (a + b)[1..] == a[1..] + b;
      ParseFromAppend(a[1..], b, current);
    } else {
      assert |a| > 1;
      assert (a + b)[0] == a[0] && (a + b)[1] == a[1];
      if a[1].Type() == IntLiteral {
        assert (a + b)[2..] == a[2..] + b;
        ParseFromAppend(a[2..], b, Some(ExitOf(a[1])));
      }
    }
  }

  /** A token other than `exit` at top level (not right after an `exit`)
      changes nothing: it is skipped without being checked. */
  lemma SkipsTopLevelToken(a: seq<Token>, t: Token, b: seq<Token>)
    requires a == [] || a[|a| - 1].Type() != Exit
    requires t.Type() != Exit
    ensures ParseTokens(a + [t] + b) == ParseTokens(a + b)
  {
    assert a + [t] + b == a + ([t] + b);
    ParseFromAppend(a, [t] + b, None);
    ParseFromAppend(a, b, None);
    assert ([t] + b)[0] == t && ([t] + b)[1..] == b;
  }

  /** When the later part holds a valid exit statement, it decides the result
      whatever valid statements came before: the last statement wins. */
  lemma LastStatementWins(a: seq<Token>, b: seq<Token>)
    requires ExitsFollowedByLiteral(a)
    requires ExitsFollowedByLiteral(b) && HasExit(b)
    ensures ParseTokens(a + b) == ParseTokens(b)
  {
    if a != [] {
      assert a[|a| - 1].Type() != Exit;
    }
    ParseFromAppend(a, b, None);
    ParseFromMeetsSpec(a, None);
    var c := ParseFrom(a, None).value;
    ParseFromMeetsSpec(b, c);
    ParseFromMeetsSpec(b, None);
  }

  /** `exit`, a literal and a semicolon parse to the statement for that literal. */
  lemma ParseSingleStatement(t: Token)
    requires t.Type() == IntLiteral
    ensures ParseTokens([ExitToken, t, SemicolonToken]) == Ok(Some(ExitOf(t)))
  {
    var ts := [ExitToken, t, SemicolonToken];
    assert ts[2..] == [SemicolonToken] && ts[2..][1..] == [];
    assert ParseFrom(ts, None) == ParseFrom(ts[2..], Some(ExitOf(t)));
  }

  /** An `exit` at the very end of the tokens has no literal and is an error. */
  lemma DanglingExitRejected(ts: seq<Token>)
    ensures ParseTokens(ts + [ExitToken]) == Err(InvalidExpression)
  {
    var all := ts + [ExitToken];
    ParseTokensCharacterised(all);
    assert all[|ts|].Type() == Exit;
  }

  /** No semicolon is needed after the literal. */
  lemma SemicolonNotRequired(text: string)
    ensures ParseTokens([ExitToken, IntLiteralToken(text)]) == Ok(Some(ExitOf(IntLiteralToken(text))))
  {
    var ts := [ExitToken, IntLiteralToken(text)];
    assert ts[2..] == [];
    assert ParseFrom(ts, None) == ParseFrom(ts[2..], Some(ExitOf(ts[1])));
  }

  // ---------------------------------------------------------------------
  // The cursor-based parser
  // ---------------------------------------------------------------------

  class Parser {
    /** The tokens from the lexer; never changed. */
    const tokens: seq<Token>
    /** Tokens before `index` have been consumed. */
    var index: nat

    ghost predicate Valid()
      reads this
    {
      index <= |tokens|
    }

    constructor (tokens: seq<Token>)
      ensures Valid()
      ensures this.tokens == tokens && index == 0
    {
      this.tokens := tokens;
      index := 0;
    }

    /** The token `offset` places after the cursor, if there is one. */
    function Peek(offset: nat): (r: Option<Token>)
      reads this
      ensures r.None? <==> index + offset >= |tokens|
      ensures r.Some? ==> r.value == tokens[index + offset]
    {
      if index + offset >= |tokens| then None else Some(tokens[index + offset])
    }

    /** Takes the token under the cursor and moves past it. */
    method Consume() returns (t: Token)
      requires index < |tokens|
      modifies this`index
      ensures t == tokens[old(index)]
      ensures index == old(index) + 1
    {
      t := tokens[index];
      index := index + 1;
    }

    /** Reads an expression: succeeds, consuming one token, exactly when the
        next token is an integer literal; otherwise the cursor stays put. */
    method ParseExpr() returns (e: Option<NodeExpr>)
      requires Valid()
      modifies this`index
      ensures Valid()
      ensures e.Some? <==> old(index) < |tokens| && tokens[old(index)].Type() == IntLiteral
      ensures e.Some? ==> e.value == NodeExpr(tokens[old(index)]) && index == old(index) + 1
      ensures e.None? ==> index == old(index)
    {
      if Peek(0).Some? && Peek(0).value.Type() == IntLiteral {
        var t := Consume();
        return Some(NodeExpr(t));
      }
      return None;
    }

    /** Scans the remaining tokens; on success every token has been consumed. */
    method Parse() returns (r: Result<Option<NodeExit>, ParseError>)
      requires Valid()
      modifies this`index
      ensures Valid()
      ensures r == ParseTokens(tokens[old(index)..])
      ensures r.Ok? ==> index == |tokens|
    {
      var exitNode: Option<NodeExit> := None;
      ghost var origin := index;
      while Peek(0).Some?
        invariant Valid()
        invariant ParseTokens(tokens[origin..]) == ParseFrom(tokens[index..], exitNode)
        decreases |tokens| - index
      {
        ghost var rest := tokens[index..];
        var token := Consume();
        assert rest[0] == token && rest[1..] == tokens[index..];
        if token.Type() == Exit {
          var exprNode := ParseExpr();
          if exprNode.Some? {
            assert rest[1] == exprNode.value.intLit && rest[2..] == tokens[index..];
            exitNode := Some(NodeExit(exprNode.value));
          } else {
            r := Err(InvalidExpression);
            return;
          }
        }
      }
      assert tokens[index..] == [];
      r := Ok(exitNode);
    }
  }
}
