/**
 * The converter as a pure state machine: one `Machine` value holds every field
 * of a `Parser` object, `Evaluate` is `Parser.evaluate`, `Step` is
 * `Parser.next_char`, `Run` folds `Step` over a text and `Convert` is the
 * string part of `convert`. The class in parser.dfy is proved to follow these
 * functions; the properties of the converter are proved about them.
 */
module StateMachine {
  import opened Wrappers
  import opened Errors
  import opened PyStr
  import opened Bibtex
  import opened Citations

  // The parser's modes, with the integer codes the converter uses.
  const NORMAL := 0
  const COMMENT := 1
  const COMMAND_NAME := 2
  const ARGUMENT := 3
  const BETWEEN_ARGUMENTS := 4
  const BLOCK_COPY := 90
  const BLOCK_COMMAND_NAME := 91
  const BLOCK_ARGUMENT := 92

  predicate KnownState(state: int)
  {
    || state == NORMAL || state == COMMENT || state == COMMAND_NAME || state == ARGUMENT
    || state == BETWEEN_ARGUMENTS || state == BLOCK_COPY || state == BLOCK_COMMAND_NAME
    || state == BLOCK_ARGUMENT
  }

  /** The modes in which text is copied into the block buffer. */
  predicate InBlock(state: int)
  {
    state == BLOCK_COPY || state == BLOCK_COMMAND_NAME || state == BLOCK_ARGUMENT
  }

  /** The environments converted to Markdown lists; every other environment is copied as a block. */
  const KNOWN_BLOCKS: seq<string> := ["itemize", "enumerate"]

  const MANUAL_CONVERSION := "```\n<!-- TODO manual conversion needed -->\n"
  const EQUATION_END := "\\end{equation}\n"

  /** Every field of a `Parser` but `parsed` (only ever written) and `bibtex` (never changed). */
  datatype Machine = Machine(
    state: int,
    blockType: Option<string>,
    commandName: string,
    argumentValue: string,
    arguments: seq<string>,
    argumentDepth: int,
    blockDepth: int,
    enumerateCounter: int,
    citations: Registry,
    blockBuffer: string,
    equationCounter: int)

  /** The state `Parser.__init__` sets up. */
  function Initial(citationCount: int): (m: Machine)
    ensures m.state == NORMAL && m.blockType == None && m.citations.counter == citationCount
  {
    Machine(NORMAL, None, "", "", [], 0, 0, 0, EmptyRegistry(citationCount), "", 0)
  }

  /** A request to the equation renderer: the equation and the image file to write. */
  datatype Render = Render(equation: string, path: string)

  /** What one character does: the new state, the text emitted, and a rendering request if an equation was closed. */
  datatype Transition = Transition(next: Machine, output: string, render: Option<Render>)

  function Emit(m: Machine, output: string): Result<Transition, Error>
  {
    Success(Transition(m, output, None))
  }

  function EquationPath(n: int): string
  {
    "assets/equation_" + IntToString(n) + ".svg"
  }

  /** The placeholder emitted when an equation block opens. */
  function EquationImage(n: int): string
  {
    "\n<img src=\"" + EquationPath(n) + "\" style=\"width: 50%;height: auto;padding: 10px;\"/>\n"
  }

  /** The opening of a copied block that is not an equation. */
  function BlockHeader(blockType: string): string
  {
    "```latex\n\\begin{" + blockType + "}\n"
  }

  /**
   * An unknown command written back as `\name[a1][a2]` (`\name[]` without
   * arguments). The contract fixes its frame; `MachineProperties.OtherCommand`
   * proves when, and in which quotes, a run emits it.
   */
  function Literal(name: string, arguments: seq<string>): (r: string)
    ensures |r| >= |name| + 3 && r[0] == '\\' && r[1..|name| + 1] == name && r[|r| - 1] == ']'
  {
    "\\" + name + "[" + Join("][", arguments) + "]"
  }

  /** A heading: the prefix, the first argument and a newline; `IndexError` without an argument. */
  function Heading(m: Machine, prefix: string): (r: Result<(Machine, string), Error>)
    ensures r.Success? <==> |m.arguments| > 0
    ensures r.Success? ==> r.value.0 == m && |r.value.1| > |prefix| && prefix <= r.value.1 && r.value.1[|r.value.1| - 1] == '\n'
  {
    if |m.arguments| == 0 then Failure(MissingArgument(m.commandName))
    else Success((m, prefix + m.arguments[0] + "\n"))
  }

  /** What block mode never touches: the list context, both counters and the citation registry. */
  predicate SameContext(m: Machine, m': Machine)
  {
    && m'.blockType == m.blockType && m'.enumerateCounter == m.enumerateCounter
    && m'.equationCounter == m.equationCounter && m'.citations == m.citations
  }

  /** Only the list context and the citation registry may differ between `m` and `m'`. */
  predicate EvaluateFrame(m: Machine, m': Machine)
  {
    m' == m.(blockType := m'.blockType, enumerateCounter := m'.enumerateCounter, citations := m'.citations)
  }

  /** `Parser.evaluate`: the Markdown fragment of a finished command. */
  function Evaluate(m: Machine, bib: Option<Bibliography>): (r: Result<(Machine, string), Error>)
    ensures r.Success? ==> EvaluateFrame(m, r.value.0)
  {
    var name := m.commandName;
    if name == "\\" then Success((m, "\n\n"))
    else if name == "par" then Success((m, "\n\n"))
    else if name == "chapter" then Heading(m, "# ")
    else if name == "section" then Heading(m, "## ")
    else if name == "subsection" then Heading(m, "### ")
    else if name == "subsubsection" then Heading(m, "#### ")
    else if name == "label" then Success((m, ""))
    else if name == "cite" && bib.Some? then
      if |m.arguments| == 0 then Failure(MissingArgument(name))
      else
        var (citations, id) :- Cite(m.citations, bib.value, m.arguments[|m.arguments| - 1]);
        Success((m.(citations := citations), Marker(id)))
    else if name == "begin" then
      if m.blockType.Some? then Failure(NestedBlock(m.blockType.value))
      else if |m.arguments| == 0 then Failure(MissingArgument(name))
      else Success((m.(blockType := Some(m.arguments[0]), enumerateCounter := 0), "\n"))
    else if name == "item" && m.blockType == Some("itemize") then Success((m, "*"))
    else if name == "item" && m.blockType == Some("enumerate") then
      var n := m.enumerateCounter + 1;
      Success((m.(enumerateCounter := n), IntToString(n) + "."))
    else if name == "end" then Success((m.(blockType := None, enumerateCounter := 0), "\n"))
    else if m.blockType.Some? then Success((m, Literal(name, m.arguments)))
    else Success((m, "`" + Literal(name, m.arguments) + "`"))
  }

  /**
   * A command is complete (a space or newline after its name, or any character
   * but `{` and `[` after an argument). `\begin` of an environment that is not a
   * list opens a copied block; any other command emits what `evaluate` returns,
   * followed by the completing character when that text is neither empty nor
   * ends in a newline, and the command buffers are cleared.
   */
  function Complete(m: Machine, bib: Option<Bibliography>, c: char): (r: Result<Transition, Error>)
    ensures r.Success? ==> r.value.render == None
  {
    if m.commandName == "begin" && |m.arguments| == 0 then Failure(MissingArgument("begin"))
    else if m.commandName == "begin" && m.arguments[0] !in KNOWN_BLOCKS then Success(OpenBlock(m))
    else
      var (evaluated, text) :- Evaluate(m, bib);
      var output := if |text| > 0 && text[|text| - 1] != '\n' then text + [c] else text;
      Emit(evaluated.(state := NORMAL, commandName := "", argumentValue := "", arguments := []), output)
  }

  /**
   * `\begin` of an environment that is not a list: block mode at depth one
   * with an empty buffer; an equation is announced by its image link, any
   * other block by its header.
   */
  function OpenBlock(m: Machine): (r: Transition)
    requires |m.arguments| > 0
    ensures r.next.state == BLOCK_COPY && r.next.blockType == Some(m.arguments[0]) && r.next.blockDepth == 1
    ensures r.next.blockBuffer == "" && r.next.commandName == "" && r.next.arguments == [] && r.render == None
    ensures r.next.equationCounter == m.equationCounter && r.next.citations == m.citations
  {
    var blockType := m.arguments[0];
    var next := m.(state := BLOCK_COPY, blockType := Some(blockType), blockDepth := 1,
      commandName := "", argumentValue := "", arguments := [], blockBuffer := "");
    Transition(next, Opening(blockType, m.equationCounter), None)
  }

  /** What a newly opened block emits: the image link of an equation, the header of any other block. */
  function Opening(blockType: string, equationCounter: int): (r: string)
    ensures |r| > 0 && r[|r| - 1] == '\n'
  {
    if blockType == "equation" then EquationImage(equationCounter) else BlockHeader(blockType)
  }

  /** The block depth after a nested command: one more for `\begin`, one fewer for `\end`. */
  function NestedDepth(depth: int, name: string): int
  {
    if name == "begin" then depth + 1 else if name == "end" then depth - 1 else depth
  }

  /** The request handed to the renderer for a buffered equation: the closing `\end{equation}` and newline dropped, newlines turned into spaces, outer blanks stripped. */
  function EquationRequest(buffer: string, n: int): Render
  {
    Render(Strip(ReplaceAll(RemoveSuffix(buffer, EQUATION_END), "\n", " ")), EquationPath(n))
  }

  /**
   * The last level of a block has closed (the buffer is complete): an equation
   * is handed to the renderer and replaced by a newline, any other block is
   * emitted as it was read, followed by the manual-conversion marker.
   */
  function CloseBlock(m: Machine): (r: Transition)
    ensures r.next.state == NORMAL && r.next.blockType == None && r.next.blockBuffer == ""
    ensures r.render.Some? <==> m.blockType == Some("equation")
    ensures r.render.Some? ==>
      r.output == "\n" && r.render.value.path == EquationPath(m.equationCounter) && r.next.equationCounter == m.equationCounter + 1
    ensures r.render.None? ==> m.blockBuffer <= r.output && r.next.equationCounter == m.equationCounter
  {
    var closed := m.(state := NORMAL, blockType := None, blockBuffer := "");
    if m.blockType == Some("equation") then
      Transition(closed.(equationCounter := m.equationCounter + 1), "\n",
        Some(EquationRequest(m.blockBuffer, m.equationCounter)))
    else
      Transition(closed, m.blockBuffer + MANUAL_CONVERSION, None)
  }

  /**
   * Inside a copied block, a space or newline ends a nested command: it is
   * buffered, `\begin` opens one more level and `\end` closes one, and the
   * block is closed when no level is left.
   */
  function CloseNestedCommand(m: Machine, c: char): Result<Transition, Error>
  {
    var counted := m.(blockBuffer := m.blockBuffer + [c], blockDepth := NestedDepth(m.blockDepth, m.commandName));
    var t := if counted.blockDepth == 0 then CloseBlock(counted) else Transition(counted.(state := BLOCK_COPY), "", None);
    Success(t.(next := t.next.(commandName := "", argumentValue := "", arguments := [])))
  }

  /** `next_char` in normal and comment mode. */
  function TextStep(m: Machine, c: char): Result<Transition, Error>
    requires m.state == NORMAL || m.state == COMMENT
  {
    if m.state == NORMAL && c == '#' then Emit(m.(state := COMMENT), "")
    else if m.state == NORMAL && c == '\\' then Emit(m.(state := COMMAND_NAME), "")
    else if m.state == NORMAL then Emit(m, [c])
    else if c != '\n' then Emit(m, "")
    else Emit(m.(state := NORMAL), "\n")
  }

  /** `next_char` while a command name or its arguments are read. */
  function CommandStep(m: Machine, bib: Option<Bibliography>, c: char): Result<Transition, Error>
    requires m.state == COMMAND_NAME || m.state == ARGUMENT || m.state == BETWEEN_ARGUMENTS
  {
    var s := m.state;
    if s == COMMAND_NAME && c != '{' && c != '[' && c != ' ' && c != '\n' then
      Emit(m.(commandName := m.commandName + [c]), "")
    else if (s == COMMAND_NAME || s == BETWEEN_ARGUMENTS) && (c == '{' || c == '[') then
      Emit(m.(state := ARGUMENT), "")
    else if (s == COMMAND_NAME && (c == ' ' || c == '\n')) || s == BETWEEN_ARGUMENTS then
      Complete(m, bib, c)
    else if c != '}' && c != ']' then
      Emit(m.(argumentValue := m.argumentValue + [c]), "")
    else
      Emit(m.(arguments := m.arguments + [m.argumentValue], argumentValue := "", state := BETWEEN_ARGUMENTS), "")
  }

  /** `next_char` in block mode: everything is buffered, nested commands are followed to find the block's end. */
  function BlockStep(m: Machine, c: char): Result<Transition, Error>
    requires InBlock(m.state)
  {
    var s := m.state;
    if s == BLOCK_COPY && c != '\\' then
      Emit(m.(blockBuffer := m.blockBuffer + [c]), "")
    else if s == BLOCK_COPY then
      Emit(m.(blockBuffer := m.blockBuffer + [c], state := BLOCK_COMMAND_NAME), "")
    else if s == BLOCK_COMMAND_NAME && c != ' ' && c != '\n' && c != '{' && c != '[' then
      Emit(m.(blockBuffer := m.blockBuffer + [c], commandName := m.commandName + [c]), "")
    else if s == BLOCK_COMMAND_NAME && (c == '{' || c == '[') then
      Emit(m.(blockBuffer := m.blockBuffer + [c], state := BLOCK_ARGUMENT, argumentDepth := m.argumentDepth + 1), "")
    else if s == BLOCK_ARGUMENT && (c == '{' || c == '[') then
      Emit(m.(blockBuffer := m.blockBuffer + [c], argumentDepth := m.argumentDepth + 1), "")
    else if s == BLOCK_ARGUMENT && (c == '}' || c == ']') then
      var depth := m.argumentDepth - 1;
      Emit(m.(blockBuffer := m.blockBuffer + [c], argumentDepth := depth,
        state := if depth <= 0 then BLOCK_COMMAND_NAME else BLOCK_ARGUMENT), "")
    else if s == BLOCK_ARGUMENT && c != '\\' then
      Emit(m.(blockBuffer := m.blockBuffer + [c]), "")
    else if s == BLOCK_ARGUMENT then
      Emit(m.(commandName := "", arguments := [], argumentDepth := 0, blockBuffer := m.blockBuffer + [c],
        state := BLOCK_COMMAND_NAME), "")
    else
      CloseNestedCommand(m, c)
  }

  /**
   * `Parser.next_char`: the branches in the order the converter tries them,
   * grouped by mode (the branches of different modes never overlap). Any other
   * state raises.
   */
  function Step(m: Machine, bib: Option<Bibliography>, c: char): (r: Result<Transition, Error>)
    ensures r.Success? ==> KnownState(r.value.next.state)
    ensures r.Failure? && r.error.UnknownState? ==> !KnownState(m.state)
    ensures !KnownState(m.state) ==> r == Failure(UnknownState(m.state, c))
  {
    var s := m.state;
    if s == NORMAL || s == COMMENT then TextStep(m, c)
    else if s == COMMAND_NAME || s == ARGUMENT || s == BETWEEN_ARGUMENTS then CommandStep(m, bib, c)
    else if InBlock(s) then BlockStep(m, c)
    else Failure(UnknownState(s, c))
  }

  /** The state, the text emitted so far and the rendering requests so far. */
  datatype Progress = Progress(machine: Machine, output: string, renders: seq<Render>)

  /** `next_char` applied to every character of `input` in turn, outputs concatenated; the first exception aborts. */
  function Run(m: Machine, bib: Option<Bibliography>, input: string): (r: Result<Progress, Error>)
    ensures r.Success? ==> |r.value.renders| <= |input|
  {
    if input == [] then Success(Progress(m, "", []))
    else
      var before :- Run(m, bib, input[..|input| - 1]);
      var t :- Step(before.machine, bib, input[|input| - 1]);
      Success(Progress(t.next, before.output + t.output, before.renders + OptionToSeq(t.render)))
  }

  /**
   * The string part of `convert`: line endings fixed, every character fed to a
   * fresh parser, the footer appended. Whatever command or block is still open
   * at the end of the input is dropped.
   */
  function Convert(input: string, bib: Option<Bibliography>, citationCount: int): (r: Result<(string, seq<Render>), Error>)
    ensures r.Success? ==> |r.value.1| <= |input|
  {
    var done :- Run(Initial(citationCount), bib, NormalizeNewlines(input));
    var footer :- Footer(done.machine.citations);
    Success((done.output + footer, done.renders))
  }
}
