/** The code generator: the exit statement becomes x86-64 assembly text that
    makes the `exit` system call (number 60) with the literal as its argument. */
module Generation {
  import opened Results
  import opened Tokenization
  import opened Parsing

  /** Entry label declaration and the label itself. */
  const EntryLabel: string := "global _start\n_start:\n"
  /** Loads the exit system-call number. */
  const LoadSyscallNumber: string := "\tmov rax, 60\n"
  /** Starts the load of the exit code; the literal follows. */
  const LoadArgument: string := "\tmov rdi, "
  /** Ends the argument line and makes the call; no newline at the end. */
  const Syscall: string := "\n\tsyscall"

  /** The text in front of the literal (45 characters). */
  const Header: string := EntryLabel + LoadSyscallNumber + LoadArgument

  /** The literal text of the statement's argument. */
  function LiteralOf(node: NodeExit): Option<string> {
    node.expr.intLit.Value()
  }

  /** The assembly for `node`. The literal is copied as text, with no numeric
      conversion. The node's token must carry a value. */
  function Generate(node: NodeExit): (asm: string)
    requires LiteralOf(node).Some?
    ensures |asm| == 54 + |LiteralOf(node).value|
    ensures asm[..14] == "global _start\n"
    ensures asm[14..35] == "_start:\n\tmov rax, 60\n"
    ensures asm[|asm| - 8..] == "\tsyscall"
    ensures asm[35..45] == "\tmov rdi, "
    ensures asm[45..45 + |LiteralOf(node).value|] == LiteralOf(node).value
    ensures asm[45 + |LiteralOf(node).value|] == '\n'
  {
    var literal := node.expr.intLit.Value().value;
    var asm := EntryLabel + LoadSyscallNumber + LoadArgument + literal + Syscall;
    assert asm[14..35] == EntryLabel[14..] + LoadSyscallNumber;
    asm
  }

  /** Reads the exit code back out of generated assembly, or `None` when the
      text does not have the generator's shape. */
  function ExitCodeText(asm: string): Option<string> {
    if |asm| >= |Header| + |Syscall| && asm[..|Header|] == Header
       && asm[|asm| - |Syscall|..] == Syscall
    then Some(asm[|Header|..|asm| - |Syscall|])
    else None
  }

  /** The literal can be read back from the generated text unchanged. */
  lemma GenerateRoundTrip(node: NodeExit)
    requires LiteralOf(node).Some?
    ensures ExitCodeText(Generate(node)) == LiteralOf(node)
  {
    var asm := Generate(node);
    var literal := LiteralOf(node).value;
    assert asm == Header + literal + Syscall;
    assert asm[..|Header|] == Header;
    assert asm[|asm| - |Syscall|..] == Syscall;
    assert asm[|Header|..|asm| - |Syscall|] == literal;
  }

  /** Every text with the generator's shape is the output for the literal it holds. */
  lemma ExitCodeTextExact(asm: string)
    requires ExitCodeText(asm).Some?
    ensures asm == Generate(ExitOf(IntLiteralToken(ExitCodeText(asm).value)))
  {
    var literal := ExitCodeText(asm).value;
    assert asm == asm[..|Header|] + asm[|Header|..|asm| - |Syscall|] + asm[|asm| - |Syscall|..];
    assert Generate(ExitOf(IntLiteralToken(literal))) == Header + literal + Syscall;
  }

  /** Different statements give different assembly. */
  lemma GenerateInjective(n1: NodeExit, n2: NodeExit)
    requires LiteralOf(n1).Some? && LiteralOf(n2).Some?
    requires Generate(n1) == Generate(n2)
    ensures n1 == n2
  {
    GenerateRoundTrip(n1);
    GenerateRoundTrip(n2);
  }
}
