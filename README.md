# A verified model of a one-statement compiler

The modelled compiler takes source text in a language with a single statement
form, `exit <digits>;`. It turns that text into x86-64 assembly that calls the
Linux `exit` system call with the literal as its argument. It works in three
stages, and this project models each one in Dafny:

- **Lexer** (`tokenization.dfy`, module `Tokenization`). `Lex` is a recursive
  reference lexer over `string`. `Tokenizer` is a class holding the source
  text and a cursor `index`, with `Peek`, `Consume` and `Tokenize` as in the
  compiler's `Tokenizer` class. `Tokenize` is the nested cursor-and-scratch-buffer loop, and it is
  proved to return exactly `Lex` of the unread input. Whitespace is dropped.
  A maximal digit run becomes an integer literal that keeps its exact text. A
  maximal alphanumeric run that starts with a letter must be `exit`. `;` is a
  semicolon. Anything else is an error naming the character that started the
  rejected input.
- **Parser** (`parser.dfy`, module `Parsing`). `ParseFrom` is the parser's
  top-level scan written as a function. `ParseSpec` describes its result
  declaratively:
  - the scan fails iff some `exit` is not immediately followed by an integer
    literal;
  - otherwise the result is the literal after the last `exit`, or none when
    there is no `exit`.

  `ParseFromMeetsSpec` proves the two agree. `Parser` is the class with
  `Peek`, `Consume`, `ParseExpr` and `Parse`. `Parse` is the `while` loop that
  overwrites the statement found so far, and it is proved to compute
  `ParseTokens`.
- **Code generator** (`generation.dfy`, module `Generation`). `Generate` builds
  the fixed text around the literal. `ExitCodeText` reads the literal back out
  of generated text. The two are proved inverse to each other.
- **Pipeline** (`pipeline.dfy`, module `Pipeline`) has lemmas that chain the
  three stages. One is a general end-to-end lemma for `exit <w1> L <w2>;`.
  The others are the worked inputs: `exit 42;`, irregular spacing, two
  statements, a word argument, an unknown character, and whitespace only.

`results.dfy` (module `Results`) defines `Option`, `Result` and `PrependAll`.
Each fatal `exit(EXIT_FAILURE)` in the compiler is an `Err` value here: a
`LexError` from the lexer, a `ParseError` from the parser.

A `Token` has one constructor per kind, and only `IntLiteralToken` carries
text. Its `Type()` and `Value()` accessors match the `type` and `value` fields
of the C++ `Token` struct, so "value present iff the kind is `int_literal`" holds by
construction.

Three behaviours of the code are worth stating plainly:

- `exit abc;` is rejected by the lexer, not the parser. Any word other than
  `exit` is an invalid token (`WordArgumentRejected`).
- The parser never checks for the semicolon. `[exit, int_literal]` is a
  complete statement, and tokens at top level other than `exit` are skipped
  unchecked (`SemicolonNotRequired`, `SkipsTopLevelToken`).
- `main.cpp` only reads the file and echoes it, and never runs the three
  stages. No driver is modelled: the pipeline lemmas compose the stages
  directly.

## Model

| member | source | states |
|---|---|---|
| Tokenization.RunLength | src/tokenization.hpp:73-76 | The run the inner loops collect: every character in it belongs to the class, and the character after it (if any) does not, so the run is maximal |
| Tokenization.RunLengthUnique | src/tokenization.hpp:93-96 | A run that stops where the next character leaves the class is the maximal run, so where the scanner stops is where the lexer cuts |
| Tokenization.Token.Value | src/tokenization.hpp:32-36 | A token's value is present exactly when its type is `IntLiteral`, and then it is the literal's text |
| Tokenization.Lex | src/tokenization.hpp:59-116 | The reference lexer for the whole loop. Each token consumes at least one character, so there are never more tokens than characters |
| Tokenization.LexErrorInInput | src/tokenization.hpp:59-116 | The character an error names is neither a digit, nor `;`, nor whitespace. It occurs in the input at some position `i`, and lexing the input from `i` onward fails with that same error. It does not say that `i` is the first such position |
| Tokenization.LexTokensWellFormed | src/tokenization.hpp:89-99 | Every literal the lexer emits is a non-empty string of decimal digits |
| Tokenization.LexAllSpace | src/tokenization.hpp:105-108 | Input made only of whitespace lexes to no tokens |
| Tokenization.LexSkipsLeadingSpace | src/tokenization.hpp:105-108 | Whitespace in front of the input changes neither the tokens nor the error |
| Tokenization.LexDigitRun | src/tokenization.hpp:89-99 | A maximal digit run becomes exactly one literal whose text is that run, and lexing continues right after it |
| Tokenization.LexKeyword | src/tokenization.hpp:67-82 | `exit` followed by end of input or by a character that is not alphanumeric becomes one exit token without a value |
| Tokenization.LexWordRejected | src/tokenization.hpp:67-87 | Any other maximal word starting with a letter is an error naming its first character; this includes `exit1`, whose digit is absorbed into the word |
| Tokenization.LexSemicolon | src/tokenization.hpp:101-104 | `;` becomes one semicolon token without a value |
| Tokenization.LexInvalidCharacter | src/tokenization.hpp:109-113 | A character that is not a letter, a digit, `;` or whitespace stops lexing with an error naming it |
| Tokenization.LexKeywordAndLiteral | src/tokenization.hpp:64-114 | `exit`, at least one whitespace character, a digit string, then any whitespace lex to the exit and literal tokens, however much whitespace there is, and lexing goes on after them |
| Tokenization.LexSpelling | src/tokenization.hpp:59-116 | On success, spelling the tokens out again gives the input with its whitespace removed (the tokens are a faithful projection of the non-whitespace input) |
| Tokenization.Tokenizer.constructor | src/tokenization.hpp:57 | The tokenizer holds the source and starts with the cursor at 0 |
| Tokenization.Tokenizer.Peek | src/tokenization.hpp:136-143 | None exactly when `index + offset` is at or past the end, otherwise the character there; a function, so the cursor does not change |
| Tokenization.Tokenizer.Consume | src/tokenization.hpp:150-153 | Returns the character under the cursor and advances the cursor by exactly one |
| Tokenization.Tokenizer.ScanRun | src/tokenization.hpp:71-76 | The scratch buffer grows by the following characters of the class and equals the source from the run's start to the cursor; the loop stops at the end of the source or at the first character outside the class |
| Tokenization.Tokenizer.Step | src/tokenization.hpp:64-113 | One pass of the loop. The cursor advances by exactly `TokenEnd` of the unread input: the whole maximal run of letters and digits after a letter, the whole maximal digit run after a digit, otherwise one character. Without an error, the token list grows by at most one token and keeps its old tokens as a prefix, the scratch buffer ends empty, and "the emitted tokens followed by `Lex` of the unread input equal `Lex` of the whole input" is preserved. An error is `InvalidToken` of the first character consumed, and `Lex` of the whole input is exactly that error |
| Tokenization.Tokenizer.Tokenize | src/tokenization.hpp:59-116 | The result equals `Lex` of the unread input (tokens, or the first error); the cursor never passes the end and reaches it on success; the scratch buffer is empty between tokens (loop invariant) |
| Parsing.ParseFrom | src/parser.hpp:32-47 | The parser's loop, scanning from a statement already found. Without an `exit` token the result is that statement unchanged. A statement the scan finds instead wraps an integer-literal token taken from the input |
| Parsing.ParseTokens | src/parser.hpp:28-49 | What `parse` returns for a whole token sequence. Without an `exit` token it returns no statement. Any statement it returns wraps an integer-literal token from the input |
| Parsing.ParseFromMeetsSpec | src/parser.hpp:28-49 | The scan computes the declarative description: error iff some `exit` lacks an immediately following literal; otherwise the literal after the last `exit`, or the earlier statement when there is none |
| Parsing.ParseTokensCharacterised | src/parser.hpp:30-48 | Parsing succeeds iff every `exit` is immediately followed by an integer literal; the only error is `InvalidExpression`; on success the result is none iff there is no `exit` token |
| Parsing.LastExitDecides | src/parser.hpp:37-40 | On success the result wraps the token right after the last `exit`, which is an integer literal |
| Parsing.ParseFromAppend | src/parser.hpp:32-47 | Scanning a concatenation scans the first part, then the second from the statement found so far, when the first part does not end with `exit` |
| Parsing.SkipsTopLevelToken | src/parser.hpp:32-35 | A token other than `exit` that is not right after an `exit` can be removed without changing the result or the error |
| Parsing.LastStatementWins | src/parser.hpp:39 | When a later part holds a valid exit statement, earlier valid statements do not affect the result |
| Parsing.DanglingExitRejected | src/parser.hpp:37-45 | An `exit` at the end of the tokens, with no literal after it, is the `InvalidExpression` error |
| Parsing.ParseSingleStatement | src/parser.hpp:32-48 | `exit`, a literal and `;` parse to the statement for that literal |
| Parsing.SemicolonNotRequired | src/parser.hpp:35-40 | `[exit, int_literal(t)]` without a semicolon parses to the statement for `t` |
| Parsing.Parser.constructor | src/parser.hpp:18 | The parser holds the tokens and starts with the cursor at 0 |
| Parsing.Parser.Peek | src/parser.hpp:69-76 | None exactly when `index + offset` is at or past the end, otherwise the token there; the cursor does not change |
| Parsing.Parser.Consume | src/parser.hpp:83-86 | Returns the token under the cursor and advances the cursor by exactly one |
| Parsing.Parser.ParseExpr | src/parser.hpp:20-27 | Succeeds iff the next token exists and is an integer literal; on success it wraps that token and consumes exactly one token; on failure the cursor is unchanged |
| Parsing.Parser.Parse | src/parser.hpp:28-49 | The result equals `ParseTokens` of the unread tokens; the cursor stays within bounds and reaches the end on success |
| Generation.Generate | src/generation.hpp:11-21 | Needs a token with a value. The output is 54 characters plus the literal. It starts with `global _start\n` and `_start:\n`, then `\tmov rax, 60\n` (exit system call number 60). `\tmov rdi, ` sits at offsets 35-44, the literal text follows verbatim at 45, then a newline. It ends with `\tsyscall` and no newline. Every character of the output is fixed apart from the literal |
| Generation.GenerateRoundTrip | src/generation.hpp:14-19 | Reading the exit code back from the generated text gives exactly the literal: no numeric re-encoding, no truncation |
| Generation.ExitCodeTextExact | src/generation.hpp:14-19 | Every text with the generator's shape is exactly the generator's output for the literal it holds, so the output is fixed apart from the literal |
| Generation.GenerateInjective | src/generation.hpp:16-18 | Different statements produce different assembly |
| Pipeline.ParsedLiteralIsDigits | src/generation.hpp:16 | Whenever lexing and parsing find a statement, its token carries a value (a non-empty digit string), so `.value()` in the generator cannot fail |
| Pipeline.CompileExitStatement | src/generation.hpp:16-18 | For any digit string L, with at least one whitespace character between `exit` and L and any amount of whitespace between L and `;`, `exit L;` lexes to exit, literal, semicolon and parses to the statement for L, and the generated text loads exactly L |
| Pipeline.GenerateLoads | src/generation.hpp:18 | The argument line of the generated text is `\tmov rdi, ` followed by the literal |
| Pipeline.LexExitStatement | src/tokenization.hpp:64-104 | `exit L;` with a digit string L, followed by any further input, lexes to exit, literal L, semicolon, and then the tokens of that input |
| Pipeline.ExitFortyTwo | src/generation.hpp:14-19 | `exit 42;` lexes to `[exit, int_literal("42"), semicolon]`, parses to the statement for `"42"`, and its assembly contains `\tmov rdi, 42` |
| Pipeline.IrregularSpacing | src/tokenization.hpp:105-108 | `exit   42 ;` and `exit 42;` give the same tokens |
| Pipeline.LexTwoStatements | src/tokenization.hpp:59-116 | For any two digit strings L1 and L2, `exit L1; exit L2;` lexes to exit, literal L1, semicolon, exit, literal L2, semicolon |
| Pipeline.ParseTwoStatements | src/parser.hpp:39 | The tokens of two exit statements parse to the statement for the second literal |
| Pipeline.KeywordThenWord | src/tokenization.hpp:78-87 | `exit`, whitespace, then a maximal word other than `exit` is an error naming the word's first letter |
| Pipeline.TwoStatementsLastWins | src/parser.hpp:39 | For any two digit strings L1 and L2 (for example `1` and `2`), the source `exit L1; exit L2;` lexes to the six tokens of both statements, and those tokens parse to the statement for L2 |
| Pipeline.WordArgumentRejected | src/tokenization.hpp:83-87 | `exit abc;` fails in the lexer, with the error naming `a`, the first letter of the rejected word |
| Pipeline.UnknownCharacterRejected | src/tokenization.hpp:109-113 | `exit 1 # 2;` fails in the lexer at `#` |
| Pipeline.WhitespaceOnlyHasNoStatement | src/parser.hpp:30 | Whitespace-only input gives no tokens, and parsing gives no statement |

## Left out

- `src/main.cpp` handles command-line arguments, reads the file and echoes it. It is I/O glue, and its separate `TokenType` enum (with `_return`) is not used by the pipeline.
- The `operator<<` overloads for `TokenType` and `Token` print debugging output to a stream.
- `std::cerr` diagnostics and process termination are not modelled. Each fatal `exit(EXIT_FAILURE)` is an `Err` result that carries the offending character (for the lexer) or `InvalidExpression` (for the parser). The message text is not modelled.
- `std::isalpha`, `std::isdigit`, `std::isalnum` and `std::isspace` depend on the locale. They are modelled as their "C" locale ASCII classes. Any character outside ASCII is therefore an invalid token. The undefined behaviour of these functions for negative `char` values is not modelled.
- `size_t` arithmetic is not modelled. The cursor and offsets are unbounded naturals, so the wrap-around of `index_ + offset` in `peek` for huge offsets is not captured. Every call in the code uses offset 0.
- `std::move` and who owns the source string and the token vector are not modelled. The models hold both as immutable values.
- The assembler, the linker, and the operating system's truncation of the exit status to 8 bits are not modelled. They are external processes.
- The `Generation` class only stores the node, and its `generate` is `const`. It is modelled as the function `Generate` on the node, which is deterministic and cannot change the node.
- Generation.Generate: requires a statement whose literal token carries a value. The code calls `.value()` on it, which throws `std::bad_optional_access` when it is empty. `ParsedLiteralIsDigits` shows that every statement produced by lexing and parsing a source meets this requirement.
- Tokenization.LexErrorInInput: names a position of the offending character from which lexing fails the same way, but does not state that it is the first such position, so it does not promise that the input before it lexes cleanly.
- Tokenization.Tokenizer.Consume: `.at` throws `std::out_of_range` past the end; the model requires an unread character instead, which every call site guarantees because each call follows a `peek` that found a character.
- Parsing.Parser.Consume: the same as for the tokenizer. Every call follows a `peek` that found a token.
- Tokenization.Tokenizer.Step: the body of the outer `while` loop of `tokenize` is a method of its own, called once per pass. It receives and returns the token list and the scratch buffer. The behaviour is the same, and each proof stays small.
- Tokenization.Tokenizer.ScanRun: the two inner `while` loops of `tokenize` (letters and digits, then digits only) are one method with a character-class parameter. They are called at the same points with the same scratch buffer, which keeps each proof small.
- Tokenization.Tokenizer.Tokenize: after an error the cursor position is left unspecified. The compiler's `tokenize` terminates the process at that point.
