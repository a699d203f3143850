/**
 * The `Parser` object of the converter and the `convert` driver. The object's
 * fields are updated in place one character at a time; every method is proved
 * to do what the corresponding function of the state machine says, read on a
 * snapshot of the fields, so the properties proved about the machine hold for
 * the object.
 */
module Converter {
  import opened Wrappers
  import opened Errors
  import opened PyStr
  import opened Bibtex
  import opened Citations
  import opened StateMachine
  import MachineProperties

  class Parser {
    const bibtex: Option<Bibliography>
    var state: int
    var blockType: Option<string>
    var commandName: string
    var commandArgumentValue: string
    var commandArguments: seq<string>
    var commandArgumentDepth: int
    var blockCopyModeDepth: int
    var enumerateCounter: int
    var citationCounter: int
    /** Citation id to bibliography entry, in insertion order. */
    var citationMap: seq<(int, Entry)>
    /** Citation key to citation id. */
    var citationMapReverse: map<string, int>
    /** Every character fed so far. */
    var parsed: string
    var blockBuffer: string
    var equationCounter: int

    /** The citation registry held in the three citation fields. */
    function Registered(): Registry
      reads this
    {
      Registry(citationCounter, citationMap, citationMapReverse)
    }

    /** The fields as a state of the machine. */
    function Snapshot(): Machine
      reads this
    {
      Machine(state, blockType, commandName, commandArgumentValue, commandArguments, commandArgumentDepth,
        blockCopyModeDepth, enumerateCounter, Registered(), blockBuffer, equationCounter)
    }

    /** `Parser(bibtex, citation_count)`: normal mode, nothing read, nothing cited. */
    constructor(bibtex: Option<Bibliography>, citationCount: int)
      ensures this.bibtex == bibtex && parsed == ""
      ensures Snapshot() == Initial(citationCount)
    {
      this.bibtex := bibtex;
      state := NORMAL;
      blockType := None;
      commandName := "";
      commandArgumentValue := "";
      commandArguments := [];
      commandArgumentDepth := 0;
      blockCopyModeDepth := 0;
      enumerateCounter := 0;
      citationCounter := citationCount;
      citationMap := [];
      citationMapReverse := map[];
      parsed := "";
      blockBuffer := "";
      equationCounter := 0;
    }

    /**
     * `write_footer`: a newline, then one footnote per cited entry in the order
     * the citations were made, then a newline. An url without a host raises.
     */
    method WriteFooter() returns (r: Result<string, Error>)
      ensures r == Footer(Registered())
    {
      var output := "\n";
      ghost var notes := "";
      for i := 0 to |citationMap|
        invariant Footnotes(citationMap[..i]) == Success(notes)
        invariant output == "\n" + notes
      {
        var (k, v) := citationMap[i];
        var note := WriteFootnote(k, v);
        FootnotesStep(citationMap, i, notes);
        if note.Failure? {
          return note;
        }
        AppendAssociative("\n", notes, note.value);
        output := output + note.value;
        notes := notes + note.value;
      }
      assert citationMap[..|citationMap|] == citationMap;
      return Success(output + "\n");
    }

    /**
     * `evaluate`: the Markdown text of the command just read. On success the
     * fields become the machine's next state; an exception leaves them as they
     * happen to be.
     */
    method Evaluate() returns (r: Result<string, Error>)
      modifies this
      ensures parsed == old(parsed)
      ensures var e := StateMachine.Evaluate(old(Snapshot()), bibtex);
        && (e.Success? ==> r == Success(e.value.1) && Snapshot() == e.value.0)
        && (e.Failure? ==> r == Failure(e.error))
    {
      var name := commandName;
      if name == "\\" {
        return Success("\n\n");
      }
      if name == "par" {
        return Success("\n\n");
      } else if name == "chapter" || name == "section" || name == "subsection" || name == "subsubsection" {
        if |commandArguments| == 0 {
          return Failure(MissingArgument(name));
        }
        var prefix := if name == "chapter" then "# " else if name == "section" then "## "
          else if name == "subsection" then "### " else "#### ";
        return Success(prefix + commandArguments[0] + "\n");
      } else if name == "label" {
        return Success("");
      } else if name == "cite" && bibtex.Some? {
        if |commandArguments| == 0 {
          return Failure(MissingArgument(name));
        }
        r := CiteKey(commandArguments[|commandArguments| - 1]);
        return;
      } else if name == "begin" {
        if blockType.Some? {
          return Failure(NestedBlock(blockType.value));
        }
        if |commandArguments| == 0 {
          return Failure(MissingArgument(name));
        }
        blockType := Some(commandArguments[0]);
        enumerateCounter := 0;
        return Success("\n");
      } else if name == "item" && blockType == Some("itemize") {
        return Success("*");
      } else if name == "item" && blockType == Some("enumerate") {
        enumerateCounter := enumerateCounter + 1;
        return Success(IntToString(enumerateCounter) + ".");
      } else if name == "end" {
        blockType := None;
        enumerateCounter := 0;
        return Success("\n");
      } else if blockType.Some? {
        return Success(Literal(name, commandArguments));
      } else {
        return Success("`" + Literal(name, commandArguments) + "`");
      }
    }

    /**
     * The citation branch of `evaluate` once the key is known: a key cited
     * before gets its footnote marker back; a new key takes the next number and
     * is recorded in both dictionaries; a new key missing from the bibliography
     * raises after the counter has moved.
     */
    method CiteKey(key: string) returns (r: Result<string, Error>)
      requires bibtex.Some?
      modifies this
      ensures parsed == old(parsed)
      ensures var e := Cite(old(Registered()), bibtex.value, key);
        && (e.Success? ==> r == Success(Marker(e.value.1)) && Snapshot() == old(Snapshot()).(citations := e.value.0))
        && (e.Failure? ==> r == Failure(e.error))
    {
      if key in citationMapReverse {
        return Success(Marker(citationMapReverse[key]));
      }
      citationCounter := citationCounter + 1;
      if key !in bibtex.value {
        return Failure(UnknownCitation(key));
      }
      var value := bibtex.value[key];
      citationMap := DictSet(citationMap, citationCounter, value);
      citationMapReverse := citationMapReverse[key := citationCounter];
      return Success(Marker(citationCounter));
    }

    /**
     * The branch of `next_char` for a complete command: a block opens for
     * `\begin` of an environment that is not a list, otherwise the command is
     * evaluated and the command buffers are cleared.
     */
    method CompleteCommand(c: char) returns (r: Result<string, Error>)
      modifies this
      ensures parsed == old(parsed)
      ensures var t := Complete(old(Snapshot()), bibtex, c);
        && (t.Success? ==> r == Success(t.value.output) && Snapshot() == t.value.next)
        && (t.Failure? ==> r == Failure(t.error))
    {
      if commandName == "begin" && |commandArguments| == 0 {
        return Failure(MissingArgument("begin"));
      }
      if commandName == "begin" && commandArguments[0] !in KNOWN_BLOCKS {
        var output := OpenBlock();
        return Success(output);
      }
      var output :- Evaluate();
      if |output| > 0 && output[|output| - 1] != '\n' {
        output := output + [c];
      }
      ClearCommand();
      return Success(output);
    }

    /** After an evaluated command: normal mode and empty command buffers. */
    method ClearCommand()
      modifies this
      ensures parsed == old(parsed)
      ensures Snapshot() == old(Snapshot()).(state := NORMAL, commandName := "", argumentValue := "", arguments := [])
    {
      state := NORMAL;
      commandName := "";
      commandArgumentValue := "";
      commandArguments := [];
    }

    /** `\begin` of an environment that is not a list: block mode at depth one, with an empty buffer. */
    method OpenBlock() returns (output: string)
      requires |commandArguments| > 0
      modifies this
      ensures parsed == old(parsed)
      ensures StateMachine.OpenBlock(old(Snapshot())) == Transition(Snapshot(), output, None)
    {
      var environment := commandArguments[0];
      output := Opening(environment, equationCounter);
      EnterBlock(environment);
    }

    /** The fields `\begin` of a copied block sets: block mode at depth one, empty buffers. */
    method EnterBlock(environment: string)
      modifies this
      ensures parsed == old(parsed)
      ensures Snapshot() == old(Snapshot()).(state := BLOCK_COPY, blockType := Some(environment), blockDepth := 1,
        commandName := "", argumentValue := "", arguments := [], blockBuffer := "")
    {
      state, blockType, blockCopyModeDepth := BLOCK_COPY, Some(environment), 1;
      commandName, commandArgumentValue, commandArguments, blockBuffer := "", "", [], "";
    }

    /**
     * The branch of `next_char` that ends a command nested in a block. When the
     * block closes, an equation comes back as a rendering request, to be written
     * by the caller.
     */
    method CloseNestedCommand(c: char) returns (output: string, render: Option<Render>)
      modifies this
      ensures parsed == old(parsed)
      ensures StateMachine.CloseNestedCommand(old(Snapshot()), c) == Success(Transition(Snapshot(), output, render))
    {
      CountNesting(c);
      if blockCopyModeDepth == 0 {
        output, render := CloseBlock();
      } else {
        state := BLOCK_COPY;
        output, render := "", None;
      }
      ghost var t := Transition(Snapshot(), output, render);
      commandName := "";
      commandArgumentValue := "";
      commandArguments := [];
      assert Snapshot() == t.next.(commandName := "", argumentValue := "", arguments := []);
    }

    /** The completing character joins the buffer and the nesting depth follows the command. */
    method CountNesting(c: char)
      modifies this
      ensures parsed == old(parsed)
      ensures Snapshot() == old(Snapshot()).(blockBuffer := old(blockBuffer) + [c],
        blockDepth := NestedDepth(old(blockCopyModeDepth), old(commandName)))
    {
      blockBuffer := blockBuffer + [c];
      if commandName == "begin" {
        blockCopyModeDepth := blockCopyModeDepth + 1;
      } else if commandName == "end" {
        blockCopyModeDepth := blockCopyModeDepth - 1;
      }
    }

    /** The last level of the block has closed. */
    method CloseBlock() returns (output: string, render: Option<Render>)
      modifies this
      ensures parsed == old(parsed)
      ensures StateMachine.CloseBlock(old(Snapshot())) == Transition(Snapshot(), output, render)
    {
      var initialBlockType := blockType;
      output := "";
      render := None;
      state := NORMAL;
      blockType := None;
      if initialBlockType == Some("equation") {
        var equation := ReplaceAll(RemoveSuffix(blockBuffer, EQUATION_END), "\n", " ");
        render := Some(Render(Strip(equation), EquationPath(equationCounter)));
        equationCounter := equationCounter + 1;
        output := output + "\n";
        assert output == "\n";
      } else {
        output := output + blockBuffer;
        assert output == blockBuffer;
        output := output + MANUAL_CONVERSION;
      }
      blockBuffer := "";
    }

    /** `next_char` in normal and comment mode. */
    method TextChar(c: char) returns (output: string)
      requires state == NORMAL || state == COMMENT
      modifies this
      ensures parsed == old(parsed)
      ensures TextStep(old(Snapshot()), c) == Emit(Snapshot(), output)
    {
      output := "";
      if state == NORMAL && c == '#' {
        state := COMMENT;
      } else if state == NORMAL && c == '\\' {
        state := COMMAND_NAME;
      } else if state == NORMAL {
        output := output + [c];
        assert output == [c];
      } else if c != '\n' {
        // the comment's text is dropped
      } else {
        output := output + "\n";
        assert output == "\n";
        state := NORMAL;
      }
    }

    /** `next_char` while a command name or its arguments are read. */
    method CommandChar(c: char) returns (r: Result<string, Error>)
      requires state == COMMAND_NAME || state == ARGUMENT || state == BETWEEN_ARGUMENTS
      modifies this
      ensures parsed == old(parsed)
      ensures var t := CommandStep(old(Snapshot()), bibtex, c);
        && (t.Success? ==> r == Success(t.value.output) && t.value.render == None && Snapshot() == t.value.next)
        && (t.Failure? ==> r == Failure(t.error))
    {
      if state == COMMAND_NAME && c != '{' && c != '[' && c != ' ' && c != '\n' {
        commandName := commandName + [c];
      } else if (state == COMMAND_NAME || state == BETWEEN_ARGUMENTS) && (c == '{' || c == '[') {
        state := ARGUMENT;
      } else if (state == COMMAND_NAME && (c == ' ' || c == '\n')) || state == BETWEEN_ARGUMENTS {
        r := CompleteCommand(c);
        return;
      } else if c != '}' && c != ']' {
        commandArgumentValue := commandArgumentValue + [c];
      } else {
        commandArguments := commandArguments + [commandArgumentValue];
        commandArgumentValue := "";
        state := BETWEEN_ARGUMENTS;
      }
      r := Success("");
    }

    /** `next_char` in block mode. */
    method BlockChar(c: char) returns (output: string, render: Option<Render>)
      requires InBlock(state)
      modifies this
      ensures parsed == old(parsed)
      ensures BlockStep(old(Snapshot()), c) == Success(Transition(Snapshot(), output, render))
    {
      output, render := "", None;
      if state == BLOCK_COPY && c != '\\' {
        blockBuffer := blockBuffer + [c];
      } else if state == BLOCK_COPY {
        blockBuffer := blockBuffer + [c];
        state := BLOCK_COMMAND_NAME;
      } else if state == BLOCK_COMMAND_NAME && c != ' ' && c != '\n' && c != '{' && c != '[' {
        blockBuffer := blockBuffer + [c];
        commandName := commandName + [c];
      } else if state == BLOCK_COMMAND_NAME && (c == '{' || c == '[') {
        blockBuffer := blockBuffer + [c];
        state := BLOCK_ARGUMENT;
        commandArgumentDepth := commandArgumentDepth + 1;
      } else if state == BLOCK_ARGUMENT && (c == '{' || c == '[') {
        blockBuffer := blockBuffer + [c];
        commandArgumentDepth := commandArgumentDepth + 1;
      } else if state == BLOCK_ARGUMENT && (c == '}' || c == ']') {
        blockBuffer := blockBuffer + [c];
        commandArgumentDepth := commandArgumentDepth - 1;
        if commandArgumentDepth <= 0 {
          state := BLOCK_COMMAND_NAME;
        }
      } else if state == BLOCK_ARGUMENT && c != '\\' {
        blockBuffer := blockBuffer + [c];
      } else if state == BLOCK_ARGUMENT {
        commandName := "";
        commandArguments := [];
        commandArgumentDepth := 0;
        blockBuffer := blockBuffer + [c];
        state := BLOCK_COMMAND_NAME;
      } else {
        output, render := CloseNestedCommand(c);
      }
    }

    /**
     * `next_char`: one character of the document. The result is the text to
     * append to the output document, and `render` is the equation to hand to
     * the renderer when this character closed an equation block.
     */
    method NextChar(c: char) returns (r: Result<string, Error>, render: Option<Render>)
      modifies this
      ensures parsed == old(parsed) + [c]
      ensures var t := Step(old(Snapshot()), bibtex, c);
        && (t.Success? ==> r == Success(t.value.output) && render == t.value.render && Snapshot() == t.value.next)
        && (t.Failure? ==> r == Failure(t.error))
    {
      parsed := parsed + [c];
      render := None;
      if state == NORMAL || state == COMMENT {
        var output := TextChar(c);
        r := Success(output);
      } else if state == COMMAND_NAME || state == ARGUMENT || state == BETWEEN_ARGUMENTS {
        r := CommandChar(c);
      } else if InBlock(state) {
        var output;
        output, render := BlockChar(c);
        r := Success(output);
      } else {
        r := Failure(UnknownState(state, c));
      }
    }
  }

  /** One pass of the loop of `write_footer`: the footnote of citation `k`. */
  method WriteFootnote(k: int, v: Entry) returns (r: Result<string, Error>)
    ensures r == FootnoteFor(k, v)
  {
    var output := Marker(k) + ": ";
    ghost var head := output;
    if "author" in v {
      output := output + v["author"] + ", ";
      assert output == head + (v["author"] + ", ");
    }
    head := head + Listed(v, "author");
    assert output == head;
    if "title" in v {
      output := output + v["title"] + ", ";
      assert output == head + (v["title"] + ", ");
    }
    head := head + Listed(v, "title");
    assert output == head;
    if "year" in v {
      output := output + v["year"] + ", ";
      assert output == head + (v["year"] + ", ");
    }
    head := head + Listed(v, "year");
    assert output == head;
    if "url" in v {
      var parts := Split(v["url"], "/");
      if |parts| < 3 {
        return Failure(MalformedUrl(v["url"]));
      }
      var link := "[" + parts[2] + "](" + v["url"] + ")";
      assert UrlLink(v["url"]) == Success(link);
      output := output + link;
    }
    output := output + "\n\n";
    return Success(output);
  }

  /**
   * `convert` without the files: line endings fixed, every character fed to a
   * fresh parser, the footer appended. `renders` are the equations handed to
   * the renderer, in order.
   */
  method Convert(input: string, bibtex: Option<Bibliography>, citationCount: int)
    returns (r: Result<string, Error>, renders: seq<Render>)
    ensures var e := StateMachine.Convert(input, bibtex, citationCount);
      && (e.Success? ==> r == Success(e.value.0) && renders == e.value.1)
      && (e.Failure? ==> r == Failure(e.error))
  {
    var document := NormalizeNewlines(input);
    var parser := new Parser(bibtex, citationCount);
    var output;
    output, renders := Feed(parser, document, Initial(citationCount));
    if output.Failure? {
      return Failure(output.error), renders;
    }
    var footer := parser.WriteFooter();
    if footer.Failure? {
      return Failure(footer.error), renders;
    }
    r := Success(output.value + footer.value);
  }

  /** The loop of `convert`: every character of `document` fed to `parser` in turn, the outputs concatenated. */
  method Feed(parser: Parser, document: string, ghost start: Machine) returns (r: Result<string, Error>, renders: seq<Render>)
    requires parser.Snapshot() == start
    modifies parser
    ensures var e := Run(start, parser.bibtex, document);
      && (e.Success? ==> r == Success(e.value.output) && renders == e.value.renders && parser.Snapshot() == e.value.machine)
      && (e.Failure? ==> r == Failure(e.error))
  {
    var output := "";
    renders := [];
    for i := 0 to |document|
      invariant Run(start, parser.bibtex, document[..i]) == Success(Progress(parser.Snapshot(), output, renders))
    {
      MachineProperties.RunPrefixStep(start, parser.bibtex, document, i, Progress(parser.Snapshot(), output, renders));
      var text, render := parser.NextChar(document[i]);
      if text.Failure? {
        MachineProperties.RunKeepsFailure(start, parser.bibtex, document, i + 1);
        return Failure(text.error), renders;
      }
      output := output + text.value;
      renders := renders + OptionToSeq(render);
    }
    assert document[..|document|] == document;
    r := Success(output);
  }
}
