/**
 * Copied blocks: `\begin{T}` of an environment that is not a list switches the
 * converter to block mode, the text up to the matching `\end{T}` is buffered,
 * nested `\begin`/`\end` pairs are counted, and when the block closes it is
 * emitted verbatim (with a marker asking for manual conversion) or, for an
 * equation, handed to the renderer and replaced by an image placeholder.
 */
module BlockProperties {
  import opened Wrappers
  import opened Errors
  import opened PyStr
  import opened Bibtex
  import opened Citations
  import opened StateMachine
  import opened MachineProperties

  predicate NoBackslash(s: string)
  {
    forall i :: 0 <= i < |s| ==> s[i] != '\\'
  }

  /** An argument inside a block without brackets of its own and without a backslash. */
  predicate FlatArgument(s: string)
  {
    forall i :: 0 <= i < |s| ==> s[i] != '{' && s[i] != '[' && s[i] != '}' && s[i] != ']' && s[i] != '\\'
  }

  /** The state right after `\begin{T}` opened a copied block. */
  function Opened(m: Machine, blockType: string): Machine
  {
    m.(state := BLOCK_COPY, blockType := Some(blockType), blockDepth := 1)
  }

  /**
   * `\begin{T}` of an environment that is not a list opens a block of type T at
   * depth one with an empty buffer, whatever list was open; the completing
   * character is consumed.
   */
  lemma BlockIsOpened(m: Machine, bib: Option<Bibliography>, blockType: string, c: char)
    requires Inv(m) && m.state == NORMAL
    requires ArgumentChars(blockType) && blockType !in KNOWN_BLOCKS && c != '{' && c != '['
    ensures Run(m, bib, CommandText("begin", [blockType]) + [c]) ==
      Success(Progress(Opened(m, blockType), Opening(blockType, m.equationCounter), []))
    ensures Inv(Opened(m, blockType))
  {
    assert NameChars("begin");
    CommandIsCompleted(m, bib, "begin", [blockType], c);
    assert Complete(Pending(m, "begin", [blockType]), bib, c) == Emit(Opened(m, blockType), Opening(blockType, m.equationCounter));
  }

  /** In block mode, text without a backslash is appended to the buffer and nothing is emitted. */
  lemma {:induction false} BlockTextIsBuffered(m: Machine, bib: Option<Bibliography>, text: string)
    requires m.state == BLOCK_COPY && NoBackslash(text)
    ensures Run(m, bib, text) == Success(Progress(m.(blockBuffer := m.blockBuffer + text), "", []))
  {
    if text != [] {
      var prefix := text[..|text| - 1];
      BlockTextIsBuffered(m, bib, prefix);
      assert m.blockBuffer + prefix + [text[|text| - 1]] == m.blockBuffer + text;
      assert "" + "" == "" && [] + OptionToSeq<Render>(None) == [];
    } else {
      assert m.blockBuffer + text == m.blockBuffer;
    }
  }

  /** The name of a command inside a block is collected and copied to the buffer. */
  lemma {:induction false} BlockNameIsCollected(m: Machine, bib: Option<Bibliography>, name: string)
    requires m.state == BLOCK_COMMAND_NAME && NameChars(name)
    ensures Run(m, bib, name) ==
      Success(Progress(m.(blockBuffer := m.blockBuffer + name, commandName := m.commandName + name), "", []))
  {
    if name != [] {
      var prefix := name[..|name| - 1];
      BlockNameIsCollected(m, bib, prefix);
      assert m.blockBuffer + prefix + [name[|name| - 1]] == m.blockBuffer + name;
      assert m.commandName + prefix + [name[|name| - 1]] == m.commandName + name;
      assert "" + "" == "" && [] + OptionToSeq<Render>(None) == [];
    } else {
      assert m.blockBuffer + name == m.blockBuffer;
      assert m.commandName + name == m.commandName;
    }
  }

  /** Inside a bracketed argument of a block command, flat text is copied to the buffer. */
  lemma {:induction false} BlockArgumentTextIsBuffered(m: Machine, bib: Option<Bibliography>, text: string)
    requires m.state == BLOCK_ARGUMENT && FlatArgument(text)
    ensures Run(m, bib, text) == Success(Progress(m.(blockBuffer := m.blockBuffer + text), "", []))
  {
    if text != [] {
      var prefix := text[..|text| - 1];
      BlockArgumentTextIsBuffered(m, bib, prefix);
      assert m.blockBuffer + prefix + [text[|text| - 1]] == m.blockBuffer + text;
      assert "" + "" == "" && [] + OptionToSeq<Render>(None) == [];
    } else {
      assert m.blockBuffer + text == m.blockBuffer;
    }
  }

  /** A flat `{argument}` of a block command is copied to the buffer and the argument depth returns to zero. */
  lemma BlockArgumentIsCopied(m: Machine, bib: Option<Bibliography>, argument: string)
    requires m.state == BLOCK_COMMAND_NAME && m.argumentDepth == 0 && FlatArgument(argument)
    ensures Run(m, bib, "{" + argument + "}") ==
      Success(Progress(m.(blockBuffer := m.blockBuffer + ("{" + argument + "}")), "", []))
  {
    var inside := m.(blockBuffer := m.blockBuffer + "{", state := BLOCK_ARGUMENT, argumentDepth := 1);
    var read := inside.(blockBuffer := inside.blockBuffer + argument);
    OpenArgument(m, bib, argument);
    assert read.blockBuffer + ['}'] == m.blockBuffer + ("{" + argument + "}");
    RunSilentStep(m, bib, "{" + argument, '}', read, m.(blockBuffer := m.blockBuffer + ("{" + argument + "}")));
  }

  lemma OpenArgument(m: Machine, bib: Option<Bibliography>, argument: string)
    requires m.state == BLOCK_COMMAND_NAME && m.argumentDepth == 0 && FlatArgument(argument)
    ensures Run(m, bib, "{" + argument) ==
      Success(Progress(m.(blockBuffer := m.blockBuffer + "{" + argument, state := BLOCK_ARGUMENT, argumentDepth := 1), "", []))
  {
    var inside := m.(blockBuffer := m.blockBuffer + "{", state := BLOCK_ARGUMENT, argumentDepth := 1);
    RunSilentStep(m, bib, "", '{', m, inside);
    BlockArgumentTextIsBuffered(inside, bib, argument);
    RunSilentThen(m, bib, "{", argument, inside, Progress(inside.(blockBuffer := inside.blockBuffer + argument), "", []));
  }

  /** The text of a command with one flat argument inside a block. */
  function BlockCommandText(name: string, argument: string): string
  {
    "\\" + name + ("{" + argument + "}")
  }

  /** The same, with the character that completes it. */
  function InnerCommand(name: string, argument: string, c: char): string
  {
    BlockCommandText(name, argument) + [c]
  }

  /** `\name{argument}` inside a block is copied to the buffer and leaves the name pending. */
  lemma InnerCommandIsRead(m: Machine, bib: Option<Bibliography>, name: string, argument: string)
    requires Inv(m) && m.state == BLOCK_COPY && NameChars(name) && FlatArgument(argument)
    ensures Run(m, bib, BlockCommandText(name, argument)) == Success(Progress(InnerPending(m, name, argument), "", []))
  {
    var named := m.(blockBuffer := m.blockBuffer + "\\" + name, state := BLOCK_COMMAND_NAME, commandName := name);
    InnerNameIsRead(m, bib, name);
    BlockArgumentIsCopied(named, bib, argument);
    var done := named.(blockBuffer := named.blockBuffer + ("{" + argument + "}"));
    RunSilentThen(m, bib, "\\" + name, "{" + argument + "}", named, Progress(done, "", []));
    AppendAssociative(m.blockBuffer + "\\", name, "{" + argument + "}");
    AppendAssociative(m.blockBuffer, "\\", name + ("{" + argument + "}"));
    AppendAssociative("\\", name, "{" + argument + "}");
  }

  /** The state once `\name{argument}` has been read inside a block. */
  function InnerPending(m: Machine, name: string, argument: string): Machine
  {
    m.(state := BLOCK_COMMAND_NAME, commandName := name, blockBuffer := m.blockBuffer + BlockCommandText(name, argument))
  }

  lemma InnerNameIsRead(m: Machine, bib: Option<Bibliography>, name: string)
    requires Inv(m) && m.state == BLOCK_COPY && NameChars(name)
    ensures Run(m, bib, "\\" + name) ==
      Success(Progress(m.(blockBuffer := m.blockBuffer + "\\" + name, state := BLOCK_COMMAND_NAME, commandName := name), "", []))
  {
    var naming := m.(blockBuffer := m.blockBuffer + "\\", state := BLOCK_COMMAND_NAME);
    RunSilentStep(m, bib, "", '\\', m, naming);
    BlockNameIsCollected(naming, bib, name);
    var named := naming.(blockBuffer := naming.blockBuffer + name, commandName := naming.commandName + name);
    assert naming.commandName + name == name;
    RunSilentThen(m, bib, "\\", name, naming, Progress(named, "", []));
  }

  /**
   * A nested command that does not close the block is copied to the buffer with
   * its completing character; `\begin` and `\end` move the depth, and nothing is
   * emitted.
   */
  lemma InnerCommandIsCopied(m: Machine, bib: Option<Bibliography>, name: string, argument: string, c: char)
    requires Inv(m) && m.state == BLOCK_COPY && NameChars(name) && FlatArgument(argument) && (c == ' ' || c == '\n')
    requires NestedDepth(m.blockDepth, name) != 0
    ensures Run(m, bib, InnerCommand(name, argument, c)) ==
      Success(Progress(m.(blockBuffer := m.blockBuffer + InnerCommand(name, argument, c),
        blockDepth := NestedDepth(m.blockDepth, name)), "", []))
  {
    var pending := InnerPending(m, name, argument);
    InnerCommandIsRead(m, bib, name, argument);
    var after := m.(blockBuffer := m.blockBuffer + InnerCommand(name, argument, c), blockDepth := NestedDepth(m.blockDepth, name));
    assert pending.blockBuffer + [c] == m.blockBuffer + InnerCommand(name, argument, c);
    assert Step(pending, bib, c) == Emit(after, "");
    RunSilentStep(m, bib, BlockCommandText(name, argument), c, pending, after);
  }

  /** The state once a block has closed: normal mode, no block or list open, empty buffer. */
  function Closed(m: Machine): Machine
  {
    m.(state := NORMAL, blockType := None, blockBuffer := "", blockDepth := 0)
  }

  /**
   * `\end{...}` at depth one closes the block. A block that is not an equation
   * is emitted as it was buffered, with the closing command and its completing
   * character, followed by the manual-conversion marker.
   */
  lemma LiteralBlockIsClosed(m: Machine, bib: Option<Bibliography>, argument: string, c: char)
    requires Inv(m) && m.state == BLOCK_COPY && m.blockDepth == 1 && m.blockType != Some("equation")
    requires FlatArgument(argument) && (c == ' ' || c == '\n')
    ensures Run(m, bib, InnerCommand("end", argument, c)) ==
      Success(Progress(Closed(m), m.blockBuffer + InnerCommand("end", argument, c) + MANUAL_CONVERSION, []))
  {
    var pending := InnerPending(m, "end", argument);
    assert NameChars("end");
    InnerCommandIsRead(m, bib, "end", argument);
    var t := Transition(Closed(m), m.blockBuffer + InnerCommand("end", argument, c) + MANUAL_CONVERSION, None);
    LiteralCloseStep(m, bib, argument, c);
    RunThenStep(m, bib, BlockCommandText("end", argument), c, pending, t);
  }

  lemma LiteralCloseStep(m: Machine, bib: Option<Bibliography>, argument: string, c: char)
    requires Inv(m) && m.state == BLOCK_COPY && m.blockDepth == 1 && m.blockType != Some("equation")
    requires c == ' ' || c == '\n'
    ensures Step(InnerPending(m, "end", argument), bib, c) ==
      Emit(Closed(m), m.blockBuffer + InnerCommand("end", argument, c) + MANUAL_CONVERSION)
  {
    var pending := InnerPending(m, "end", argument);
    AppendAssociative(m.blockBuffer, BlockCommandText("end", argument), [c]);
    assert Step(pending, bib, c) == CloseNestedCommand(pending, c);
  }

  /**
   * `\end{...}` at depth one closes an equation block: a newline is emitted,
   * the buffered equation is handed to the renderer under the current equation
   * number, and the number moves on.
   */
  lemma EquationBlockIsClosed(m: Machine, bib: Option<Bibliography>, argument: string, c: char)
    requires Inv(m) && m.state == BLOCK_COPY && m.blockDepth == 1 && m.blockType == Some("equation")
    requires FlatArgument(argument) && (c == ' ' || c == '\n')
    ensures Run(m, bib, InnerCommand("end", argument, c)) ==
      Success(Progress(Closed(m).(equationCounter := m.equationCounter + 1), "\n",
        [EquationRequest(m.blockBuffer + InnerCommand("end", argument, c), m.equationCounter)]))
  {
    var pending := InnerPending(m, "end", argument);
    assert NameChars("end");
    InnerCommandIsRead(m, bib, "end", argument);
    var request := EquationRequest(m.blockBuffer + InnerCommand("end", argument, c), m.equationCounter);
    var t := Transition(Closed(m).(equationCounter := m.equationCounter + 1), "\n", Some(request));
    EquationCloseStep(m, bib, argument, c);
    RunThenStep(m, bib, BlockCommandText("end", argument), c, pending, t);
  }

  lemma EquationCloseStep(m: Machine, bib: Option<Bibliography>, argument: string, c: char)
    requires Inv(m) && m.state == BLOCK_COPY && m.blockDepth == 1 && m.blockType == Some("equation")
    requires c == ' ' || c == '\n'
    ensures Step(InnerPending(m, "end", argument), bib, c) ==
      Success(Transition(Closed(m).(equationCounter := m.equationCounter + 1), "\n",
        Some(EquationRequest(m.blockBuffer + InnerCommand("end", argument, c), m.equationCounter))))
  {
    var pending := InnerPending(m, "end", argument);
    AppendAssociative(m.blockBuffer, BlockCommandText("end", argument), [c]);
    assert Step(pending, bib, c) == CloseNestedCommand(pending, c);
  }

  /** Opening a block and filling it with text that holds no command. */
  lemma BlockIsFilled(m: Machine, bib: Option<Bibliography>, blockType: string, c: char, body: string)
    requires Inv(m) && m.state == NORMAL
    requires ArgumentChars(blockType) && blockType !in KNOWN_BLOCKS && c != '{' && c != '['
    requires NoBackslash(body)
    ensures Run(m, bib, CommandText("begin", [blockType]) + [c] + body) ==
      Success(Progress(Opened(m, blockType).(blockBuffer := body), Opening(blockType, m.equationCounter), []))
    ensures Inv(Opened(m, blockType).(blockBuffer := body))
  {
    var open := Opened(m, blockType);
    BlockIsOpened(m, bib, blockType, c);
    BlockTextIsBuffered(open, bib, body);
    assert open.blockBuffer + body == body;
    RunSeq(m, bib, CommandText("begin", [blockType]) + [c], body,
      Progress(open, Opening(blockType, m.equationCounter), []), Progress(open.(blockBuffer := body), "", []));
    assert Opening(blockType, m.equationCounter) + "" == Opening(blockType, m.equationCounter);
    var none: seq<Render> := [];
    assert none + none == none;
  }

  /** Opening a block and running the rest of the input from the opened state. */
  lemma OpenedBlockRun(m: Machine, bib: Option<Bibliography>, blockType: string, c: char, rest: string, q: Progress)
    requires Inv(m) && m.state == NORMAL
    requires ArgumentChars(blockType) && blockType !in KNOWN_BLOCKS && c != '{' && c != '['
    requires Run(Opened(m, blockType), bib, rest) == Success(q)
    ensures Run(m, bib, CommandText("begin", [blockType]) + [c] + rest) ==
      Success(Progress(q.machine, Opening(blockType, m.equationCounter) + q.output, [] + q.renders))
  {
    BlockIsOpened(m, bib, blockType, c);
    RunSeq(m, bib, CommandText("begin", [blockType]) + [c], rest,
      Progress(Opened(m, blockType), Opening(blockType, m.equationCounter), []), q);
  }

  /** A character ends the block when it ends a nested command that brings the depth to zero. */
  predicate ClosesBlock(m: Machine, c: char)
  {
    m.state == BLOCK_COMMAND_NAME && (c == ' ' || c == '\n') && NestedDepth(m.blockDepth, m.commandName) == 0
  }

  /**
   * The parser once the block read in state `m` has closed, `buffer` being all
   * of its text: an equation goes to the renderer under the current number and
   * a newline is emitted; any other block is emitted followed by the
   * manual-conversion marker.
   */
  function BlockClosed(m: Machine, buffer: string): Transition
  {
    var closed := m.(state := NORMAL, blockType := None, blockBuffer := "", blockDepth := 0,
      commandName := "", argumentDepth := 0);
    if m.blockType == Some("equation") then
      Transition(closed.(equationCounter := m.equationCounter + 1), "\n", Some(EquationRequest(buffer, m.equationCounter)))
    else
      Transition(closed, buffer + MANUAL_CONVERSION, None)
  }

  /**
   * Any character in block mode is appended to the buffer and never raises.
   * Unless it ends the block, nothing is emitted or rendered, the parser stays in
   * block mode, the depth moves only when a nested `\begin` or `\end` ends, and
   * the list context, counters and registry are kept. When it ends the block,
   * the buffer with that character is emitted or rendered.
   */
  lemma BlockCharIsBuffered(m: Machine, bib: Option<Bibliography>, c: char)
    requires Inv(m) && InBlock(m.state)
    ensures Step(m, bib, c).Success?
    ensures InBlock(Step(m, bib, c).value.next.state) <==> !ClosesBlock(m, c)
    ensures !ClosesBlock(m, c) ==>
      var t := Step(m, bib, c).value;
      && t.output == "" && t.render == None && t.next.blockBuffer == m.blockBuffer + [c]
      && SameContext(m, t.next)
      && t.next.blockDepth ==
        (if m.state == BLOCK_COMMAND_NAME && (c == ' ' || c == '\n') then NestedDepth(m.blockDepth, m.commandName)
         else m.blockDepth)
    ensures ClosesBlock(m, c) ==> Step(m, bib, c) == Success(BlockClosed(m, m.blockBuffer + [c]))
  {
  }

  /** The block read from state `m` is still open after every prefix of `text`, `text` itself included. */
  ghost predicate StaysOpen(m: Machine, bib: Option<Bibliography>, text: string)
    decreases |text|
  {
    && Run(m, bib, text).Success? && InBlock(Run(m, bib, text).value.machine.state)
    && (text != [] ==> StaysOpen(m, bib, text[..|text| - 1]))
  }

  /** The block read from state `m` closes with the last character of `text`, and not before. */
  ghost predicate ClosesAtEnd(m: Machine, bib: Option<Bibliography>, text: string)
  {
    && text != [] && StaysOpen(m, bib, text[..|text| - 1])
    && Run(m, bib, text).Success? && !InBlock(Run(m, bib, text).value.machine.state)
  }

  /**
   * While the block stays open, whatever it holds (nested commands, arguments,
   * inner environments) is appended to the buffer; nothing is emitted or
   * rendered and the list context, counters and registry are kept.
   */
  lemma {:induction false} BlockBodyIsBuffered(m: Machine, bib: Option<Bibliography>, body: string)
    requires Inv(m) && InBlock(m.state) && StaysOpen(m, bib, body)
    ensures var p := Run(m, bib, body).value;
      && p.output == "" && p.renders == [] && p.machine.blockBuffer == m.blockBuffer + body
      && SameContext(m, p.machine) && Inv(p.machine)
  {
    if body == [] {
      assert m.blockBuffer + body == m.blockBuffer;
    } else {
      var prefix := body[..|body| - 1];
      var c := body[|body| - 1];
      BlockBodyIsBuffered(m, bib, prefix);
      var before := Run(m, bib, prefix).value;
      BlockCharIsBuffered(before.machine, bib, c);
      var t := Step(before.machine, bib, c).value;
      assert Run(m, bib, body) == Success(Progress(t.next, before.output + t.output, before.renders + OptionToSeq(t.render)));
      assert !ClosesBlock(before.machine, c);
      BufferSnoc(m.blockBuffer, body);
      assert "" + "" == "" && [] + OptionToSeq<Render>(None) == [];
      StepKeepsInv(before.machine, bib, c);
    }
  }

  /** The buffer grown by all of `text` but its last character, then by that character, holds all of `text`. */
  lemma BufferSnoc(buffer: string, text: string)
    requires text != []
    ensures buffer + text[..|text| - 1] + [text[|text| - 1]] == buffer + text
  {
    AppendAssociative(buffer, text[..|text| - 1], [text[|text| - 1]]);
    InitThenLast(text);
  }

  /** Two block states that agree on the list context, counters and registry close to the same result. */
  lemma BlockClosedContext(m: Machine, m': Machine, buffer: string)
    requires Inv(m) && Inv(m') && InBlock(m.state) && InBlock(m'.state) && SameContext(m, m')
    ensures BlockClosed(m', buffer) == BlockClosed(m, buffer)
  {
  }

  /**
   * A block that closes with the last character of `text` emits, or renders,
   * the buffer it started with followed by all of `text`, and leaves the parser
   * in normal mode with no list open.
   */
  lemma BlockCloses(m: Machine, bib: Option<Bibliography>, text: string)
    requires Inv(m) && InBlock(m.state) && ClosesAtEnd(m, bib, text)
    ensures var t := BlockClosed(m, m.blockBuffer + text);
      Run(m, bib, text) == Success(Progress(t.next, t.output, OptionToSeq(t.render)))
  {
    var prefix := text[..|text| - 1];
    var c := text[|text| - 1];
    BlockBodyIsBuffered(m, bib, prefix);
    var before := Run(m, bib, prefix).value;
    BlockCharIsBuffered(before.machine, bib, c);
    var t := Step(before.machine, bib, c).value;
    assert Run(m, bib, text) == Success(Progress(t.next, before.output + t.output, before.renders + OptionToSeq(t.render)));
    assert ClosesBlock(before.machine, c);
    BufferSnoc(m.blockBuffer, text);
    BlockClosedContext(m, before.machine, m.blockBuffer + text);
    assert "" + t.output == t.output && [] + OptionToSeq(t.render) == OptionToSeq(t.render);
  }

  /**
   * A whole literal block in normal mode: `\begin{T}` and its completing
   * character, then any body the block reads up to the character that closes it.
   * The code fence, the body as written and the marker are emitted, nothing is
   * rendered, and afterwards no list is open.
   */
  lemma LiteralBlock(m: Machine, bib: Option<Bibliography>, blockType: string, c: char, body: string)
    requires Inv(m) && m.state == NORMAL
    requires ArgumentChars(blockType) && blockType !in KNOWN_BLOCKS && blockType != "equation"
    requires c != '{' && c != '[' && ClosesAtEnd(Opened(m, blockType), bib, body)
    ensures Run(m, bib, CommandText("begin", [blockType]) + [c] + body) ==
      Success(Progress(m.(blockType := None), BlockHeader(blockType) + (body + MANUAL_CONVERSION), []))
  {
    var open := Opened(m, blockType);
    BlockIsOpened(m, bib, blockType, c);
    BlockCloses(open, bib, body);
    assert open.blockBuffer + body == body;
    var q := Progress(m.(blockType := None), body + MANUAL_CONVERSION, []);
    OpenedClosed(m, blockType, body);
    assert Run(open, bib, body) == Success(q);
    OpenedBlockRun(m, bib, blockType, c, body, q);
  }

  /**
   * A whole equation block in normal mode: `\begin{equation}`, its completing
   * character and any body up to the character that closes it. The image link
   * and a newline are emitted, the body goes to the renderer under the current
   * equation number, and the number moves on.
   */
  lemma EquationBlock(m: Machine, bib: Option<Bibliography>, c: char, body: string)
    requires Inv(m) && m.state == NORMAL && c != '{' && c != '['
    requires ClosesAtEnd(Opened(m, "equation"), bib, body)
    ensures var n := m.equationCounter;
      Run(m, bib, CommandText("begin", ["equation"]) + [c] + body) ==
      Success(Progress(m.(blockType := None, equationCounter := n + 1), EquationImage(n) + "\n",
        [EquationRequest(body, n)]))
  {
    var n := m.equationCounter;
    var open := Opened(m, "equation");
    EquationIsArgument();
    BlockCloses(open, bib, body);
    assert open.blockBuffer + body == body;
    var q := Progress(m.(blockType := None, equationCounter := n + 1), "\n", [EquationRequest(body, n)]);
    OpenedClosed(m, "equation", body);
    assert Run(open, bib, body) == Success(q);
    OpenedBlockRun(m, bib, "equation", c, body, q);
    assert Progress(q.machine, Opening("equation", n) + q.output, [] + q.renders) ==
      Progress(q.machine, EquationImage(n) + "\n", q.renders);
  }

  /** A block opened in normal mode closes back to the state it was opened in, with no list open. */
  lemma OpenedClosed(m: Machine, blockType: string, body: string)
    requires Inv(m) && m.state == NORMAL
    ensures var t := BlockClosed(Opened(m, blockType), body);
      if blockType == "equation" then
        t == Transition(m.(blockType := None, equationCounter := m.equationCounter + 1), "\n",
          Some(EquationRequest(body, m.equationCounter)))
      else t == Transition(m.(blockType := None), body + MANUAL_CONVERSION, None)
  {
  }

  lemma EquationIsArgument()
    ensures ArgumentChars("equation") && "equation" !in KNOWN_BLOCKS
  {
  }

  /** Text with no space and no newline never closes a block: a nested command ends only at one of those. */
  lemma {:induction false} WordStaysOpen(m: Machine, bib: Option<Bibliography>, text: string)
    requires Inv(m) && InBlock(m.state)
    requires forall i :: 0 <= i < |text| ==> text[i] != ' ' && text[i] != '\n'
    ensures StaysOpen(m, bib, text)
  {
    if text != [] {
      var prefix := text[..|text| - 1];
      WordStaysOpen(m, bib, prefix);
      BlockBodyIsBuffered(m, bib, prefix);
      BlockCharIsBuffered(Run(m, bib, prefix).value.machine, bib, text[|text| - 1]);
    }
  }

  /** A block stays open over `a + b` when it stays open over `a` and then over `b`. */
  lemma {:induction false} StaysOpenAppend(m: Machine, bib: Option<Bibliography>, a: string, b: string)
    requires StaysOpen(m, bib, a) && StaysOpen(Run(m, bib, a).value.machine, bib, b)
    ensures StaysOpen(m, bib, a + b)
    decreases |b|
  {
    RunAppend(m, bib, a, b);
    if b == [] {
      assert a + b == a;
    } else {
      var b' := b[..|b| - 1];
      assert (a + b)[..|a + b| - 1] == a + b';
      StaysOpenAppend(m, bib, a, b');
    }
  }

  /**
   * `\end{T}` and a space or newline closes a block that has one level open,
   * and does not close it earlier.
   */
  lemma EndCommandCloses(m: Machine, bib: Option<Bibliography>, argument: string, c: char)
    requires Inv(m) && m.state == BLOCK_COPY && m.blockDepth == 1
    requires FlatArgument(argument) && NameChars(argument) && (c == ' ' || c == '\n')
    ensures ClosesAtEnd(m, bib, InnerCommand("end", argument, c))
  {
    var text := BlockCommandText("end", argument);
    assert NameChars("end");
    assert forall i :: 0 <= i < |text| ==> text[i] != ' ' && text[i] != '\n' by {
      assert text == "\\end{" + argument + "}";
    }
    WordStaysOpen(m, bib, text);
    InnerCommandIsRead(m, bib, "end", argument);
    var pending := InnerPending(m, "end", argument);
    BlockCharIsBuffered(pending, bib, c);
    assert ClosesBlock(pending, c);
    RunThenStep(m, bib, text, c, pending, BlockClosed(pending, pending.blockBuffer + [c]));
    assert InnerCommand("end", argument, c)[..|text|] == text;
  }

  /**
   * An equation as it is written: `\begin{equation}`, any text after which the
   * block has one level open, and `\end{equation}` with a newline. The renderer
   * receives that text with its newlines turned into spaces and its outer
   * blanks stripped.
   */
  lemma RenderedEquation(m: Machine, bib: Option<Bibliography>, c: char, text: string)
    requires Inv(m) && m.state == NORMAL && c != '{' && c != '['
    requires StaysOpen(Opened(m, "equation"), bib, text)
    requires Run(Opened(m, "equation"), bib, text).value.machine.state == BLOCK_COPY
    requires Run(Opened(m, "equation"), bib, text).value.machine.blockDepth == 1
    ensures var n := m.equationCounter;
      Run(m, bib, CommandText("begin", ["equation"]) + [c] + (text + EQUATION_END)) ==
      Success(Progress(m.(blockType := None, equationCounter := n + 1), EquationImage(n) + "\n",
        [Render(Strip(ReplaceAll(text, "\n", " ")), EquationPath(n))]))
  {
    var open := Opened(m, "equation");
    assert Inv(open);
    EquationTextCloses(open, bib, text);
    EquationBlock(m, bib, c, text + EQUATION_END);
    EquationEnd(text, m.equationCounter);
  }

  /** Text after which the block has one level open, then `\end{equation}` and a newline, closes the block with its last character. */
  lemma EquationTextCloses(m: Machine, bib: Option<Bibliography>, text: string)
    requires Inv(m) && InBlock(m.state) && StaysOpen(m, bib, text)
    requires Run(m, bib, text).value.machine.state == BLOCK_COPY && Run(m, bib, text).value.machine.blockDepth == 1
    ensures ClosesAtEnd(m, bib, text + EQUATION_END)
  {
    assert NameChars("equation") && FlatArgument("equation");
    EndTextCloses(m, bib, text, "equation", '\n');
    EquationEnd(text, 0);
  }

  /** Text after which the block has one level open, then `\end{T}` and a space or newline, closes the block with its last character. */
  lemma EndTextCloses(m: Machine, bib: Option<Bibliography>, text: string, argument: string, c: char)
    requires Inv(m) && InBlock(m.state) && StaysOpen(m, bib, text)
    requires Run(m, bib, text).value.machine.state == BLOCK_COPY && Run(m, bib, text).value.machine.blockDepth == 1
    requires FlatArgument(argument) && NameChars(argument) && (c == ' ' || c == '\n')
    ensures ClosesAtEnd(m, bib, text + InnerCommand("end", argument, c))
  {
    BlockBodyIsBuffered(m, bib, text);
    EndCommandCloses(Run(m, bib, text).value.machine, bib, argument, c);
    ClosesAtEndAppend(m, bib, text, InnerCommand("end", argument, c));
  }

  /** A block that stays open over `a` and then closes with the last character of `b` closes with the last character of `a + b`. */
  lemma ClosesAtEndAppend(m: Machine, bib: Option<Bibliography>, a: string, b: string)
    requires StaysOpen(m, bib, a) && ClosesAtEnd(Run(m, bib, a).value.machine, bib, b)
    ensures ClosesAtEnd(m, bib, a + b)
  {
    StaysOpenAppend(m, bib, a, b[..|b| - 1]);
    assert (a + b)[..|a + b| - 1] == a + b[..|b| - 1];
    RunAppend(m, bib, a, b);
  }

  /**
   * `\end{equation}` and a newline is the suffix the renderer's input loses:
   * what is rendered is the body alone, newlines turned into spaces, outer blanks
   * stripped.
   */
  lemma EquationEnd(body: string, n: int)
    ensures InnerCommand("end", "equation", '\n') == EQUATION_END
    ensures EquationRequest(body + EQUATION_END, n) == Render(Strip(ReplaceAll(body, "\n", " ")), EquationPath(n))
  {
    RemoveAppendedSuffix(body, EQUATION_END);
  }

  /**
   * Nothing is flushed at the end of the input: a block still open when the
   * document ends, whatever it holds, contributes its header and nothing of its
   * buffered text.
   */
  lemma UnclosedBlockIsDropped(document: string, bib: Option<Bibliography>, citationCount: int,
                               blockType: string, c: char, body: string)
    requires var input := document + (CommandText("begin", [blockType]) + [c] + body);
      forall i :: 0 <= i < |input| ==> input[i] != '\r'
    requires c != '{' && c != '['
    requires ArgumentChars(blockType) && blockType !in KNOWN_BLOCKS
    requires Run(Initial(citationCount), bib, document).Success?
    requires Run(Initial(citationCount), bib, document).value.machine.state == NORMAL
    requires StaysOpen(Opened(Run(Initial(citationCount), bib, document).value.machine, blockType), bib, body)
    ensures var p := Run(Initial(citationCount), bib, document).value;
      Convert(document + (CommandText("begin", [blockType]) + [c] + body), bib, citationCount) ==
        (var footer :- Footer(p.machine.citations);
         Success((p.output + Opening(blockType, p.machine.equationCounter) + footer, p.renders)))
  {
    var m0 := Initial(citationCount);
    var p := Run(m0, bib, document).value;
    var open := Opened(p.machine, blockType);
    var rest := CommandText("begin", [blockType]) + [c] + body;
    InitialInv(citationCount);
    RunKeepsInv(m0, bib, document);
    BlockIsOpened(p.machine, bib, blockType, c);
    BlockBodyIsBuffered(open, bib, body);
    var q := Run(open, bib, body).value;
    OpenedBlockRun(p.machine, bib, blockType, c, body, q);
    var r := Progress(q.machine, Opening(blockType, p.machine.equationCounter) + q.output, [] + q.renders);
    RunSeq(m0, bib, document, rest, p, r);
    NormalizeWithoutCarriageReturn(document + rest);
    assert r.output == Opening(blockType, p.machine.equationCounter) && r.renders == [];
    assert p.renders + [] == p.renders;
  }

  /** Nothing is flushed at the end of the input: a command name still being read when the document ends is lost. */
  lemma TrailingCommandIsDropped(document: string, bib: Option<Bibliography>, citationCount: int, name: string)
    requires forall i :: 0 <= i < |document| ==> document[i] != '\r'
    requires forall i :: 0 <= i < |name| ==> name[i] != '\r'
    requires NameChars(name)
    requires Run(Initial(citationCount), bib, document).Success?
    requires Run(Initial(citationCount), bib, document).value.machine.state == NORMAL
    ensures Convert(document + ("\\" + name), bib, citationCount) == Convert(document, bib, citationCount)
  {
    var m0 := Initial(citationCount);
    var p := Run(m0, bib, document).value;
    InitialInv(citationCount);
    RunKeepsInv(m0, bib, document);
    CommandIsRead(p.machine, bib, name, []);
    assert CommandText(name, []) == "\\" + name;
    RunSeq(m0, bib, document, "\\" + name, p, Progress(Pending(p.machine, name, []), "", []));
    NormalizeWithoutCarriageReturn(document + ("\\" + name));
    NormalizeWithoutCarriageReturn(document);
    assert p.output + "" == p.output && p.renders + [] == p.renders;
  }
}
