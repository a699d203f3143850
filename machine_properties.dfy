/**
 * What the converter guarantees, proved about the state machine of machine.dfy:
 * the fallback exception is never raised, the buffers and depth counters keep
 * their meaning, and plain text, comments, commands, lists, citations and
 * copied blocks come out as described.
 */
module MachineProperties {
  import opened Wrappers
  import opened Errors
  import opened PyStr
  import opened Bibtex
  import opened Citations
  import opened StateMachine

  /**
   * What every reachable parser state satisfies: the mode is one of the eight
   * known ones; the argument depth is positive exactly inside a nested
   * argument; the block depth is positive exactly in block mode, where the block
   * type is an environment that is not a list; the command buffers are empty
   * whenever no command is being read.
   */
  ghost predicate Inv(m: Machine)
  {
    && KnownState(m.state)
    && (m.state == BLOCK_ARGUMENT ==> m.argumentDepth >= 1)
    && (m.state != BLOCK_ARGUMENT ==> m.argumentDepth == 0)
    && (InBlock(m.state) ==>
          && m.blockDepth >= 1 && m.blockType.Some? && m.blockType.value !in KNOWN_BLOCKS
          && m.arguments == [] && m.argumentValue == "")
    && (!InBlock(m.state) ==> m.blockDepth == 0 && m.blockBuffer == "")
    && (m.state == NORMAL || m.state == COMMENT ==> m.commandName == "" && m.argumentValue == "" && m.arguments == [])
    && (m.state == COMMAND_NAME ==> m.argumentValue == "" && m.arguments == [])
    && (m.state == BETWEEN_ARGUMENTS ==> m.argumentValue == "" && m.arguments != [])
    && (m.state == BLOCK_COPY ==> m.commandName == "")
  }

  lemma InitialInv(citationCount: int)
    ensures Inv(Initial(citationCount))
  {
  }

  /** Completing a command keeps the invariant. */
  lemma CompleteKeepsInv(m: Machine, bib: Option<Bibliography>, c: char)
    requires Inv(m) && (m.state == COMMAND_NAME || m.state == BETWEEN_ARGUMENTS)
    requires Complete(m, bib, c).Success?
    ensures Inv(Complete(m, bib, c).value.next)
  {
    if !(m.commandName == "begin" && m.arguments[0] !in KNOWN_BLOCKS) {
      var (evaluated, _) := Evaluate(m, bib).value;
      assert EvaluateFrame(m, evaluated);
    }
  }

  /** Ending a nested command inside a block keeps the invariant. */
  lemma CloseKeepsInv(m: Machine, c: char)
    requires Inv(m) && m.state == BLOCK_COMMAND_NAME
    ensures CloseNestedCommand(m, c).Success?
    ensures Inv(CloseNestedCommand(m, c).value.next)
  {
  }

  /** Every character keeps the invariant. */
  lemma StepKeepsInv(m: Machine, bib: Option<Bibliography>, c: char)
    requires Inv(m)
    requires Step(m, bib, c).Success?
    ensures Inv(Step(m, bib, c).value.next)
  {
    var s := m.state;
    if (s == COMMAND_NAME && (c == ' ' || c == '\n')) || s == BETWEEN_ARGUMENTS {
      if !((s == COMMAND_NAME || s == BETWEEN_ARGUMENTS) && (c == '{' || c == '[')) {
        CompleteKeepsInv(m, bib, c);
      }
    } else if s == BLOCK_COMMAND_NAME && (c == ' ' || c == '\n') {
      CloseKeepsInv(m, c);
    }
  }

  /** From a state satisfying the invariant, the fallback `raise` of `next_char` is never reached. */
  lemma {:induction false} RunKeepsInv(m: Machine, bib: Option<Bibliography>, input: string)
    requires Inv(m)
    ensures Run(m, bib, input).Failure? ==> !Run(m, bib, input).error.UnknownState?
    ensures Run(m, bib, input).Success? ==> Inv(Run(m, bib, input).value.machine)
  {
    if input != [] {
      var prefix := input[..|input| - 1];
      RunKeepsInv(m, bib, prefix);
      if Run(m, bib, prefix).Success? {
        var before := Run(m, bib, prefix).value.machine;
        if Step(before, bib, input[|input| - 1]).Success? {
          StepKeepsInv(before, bib, input[|input| - 1]);
        }
      }
    }
  }

  /** A whole conversion never raises the unknown-state exception. */
  lemma ConvertNeverUnknownState(input: string, bib: Option<Bibliography>, citationCount: int)
    ensures Convert(input, bib, citationCount).Failure? ==> !Convert(input, bib, citationCount).error.UnknownState?
  {
    RunKeepsInv(Initial(citationCount), bib, NormalizeNewlines(input));
  }

  /** `r` followed by a run over `more` from where `r` stopped. */
  function Then(r: Result<Progress, Error>, bib: Option<Bibliography>, more: string): Result<Progress, Error>
  {
    var p :- r;
    var q :- Run(p.machine, bib, more);
    Success(Progress(q.machine, p.output + q.output, p.renders + q.renders))
  }

  /** Feeding `a + b` is feeding `a`, then `b` from where `a` left the parser. */
  lemma {:induction false} RunAppend(m: Machine, bib: Option<Bibliography>, a: string, b: string)
    ensures Run(m, bib, a + b) == Then(Run(m, bib, a), bib, b)
    decreases |b|
  {
    if b == [] {
      assert a + b == a;
      if Run(m, bib, a).Success? {
        var p := Run(m, bib, a).value;
        assert p.output + "" == p.output && p.renders + [] == p.renders;
      }
    } else {
      var b' := b[..|b| - 1];
      assert (a + b)[..|a + b| - 1] == a + b';
      RunAppend(m, bib, a, b');
      if Run(m, bib, a).Success? && Run(Run(m, bib, a).value.machine, bib, b').Success? {
        var p := Run(m, bib, a).value;
        var q := Run(p.machine, bib, b').value;
        if Step(q.machine, bib, b[|b| - 1]).Success? {
          var t := Step(q.machine, bib, b[|b| - 1]).value;
          AppendAssociative(p.output, q.output, t.output);
          AppendAssociative(p.renders, q.renders, OptionToSeq(t.render));
        }
      }
    }
  }

  /** Two successful runs, one after the other. */
  lemma RunSeq(m: Machine, bib: Option<Bibliography>, a: string, b: string, p: Progress, q: Progress)
    requires Run(m, bib, a) == Success(p)
    requires Run(p.machine, bib, b) == Success(q)
    ensures Run(m, bib, a + b) == Success(Progress(q.machine, p.output + q.output, p.renders + q.renders))
  {
    RunAppend(m, bib, a, b);
  }

  /** The last character of `input` fed after a successful run of the rest. */
  lemma RunSnoc(m: Machine, bib: Option<Bibliography>, input: string, p: Progress, t: Transition)
    requires input != [] && Run(m, bib, input[..|input| - 1]) == Success(p)
    requires Step(p.machine, bib, input[|input| - 1]) == Success(t)
    ensures Run(m, bib, input) == Success(Progress(t.next, p.output + t.output, p.renders + OptionToSeq(t.render)))
  {
  }

  /** Feeding one more character of `input` after a successful run of its first `n` characters. */
  lemma RunPrefixStep(m: Machine, bib: Option<Bibliography>, input: string, n: nat, p: Progress)
    requires n < |input| && Run(m, bib, input[..n]) == Success(p)
    ensures Run(m, bib, input[..n + 1]) ==
      (var t :- Step(p.machine, bib, input[n]);
       Success(Progress(t.next, p.output + t.output, p.renders + OptionToSeq(t.render))))
  {
    assert input[..n + 1][..n] == input[..n];
  }

  /** An exception stops the conversion: once a prefix of the input fails, the whole input fails the same way. */
  lemma RunKeepsFailure(m: Machine, bib: Option<Bibliography>, input: string, n: nat)
    requires n <= |input| && Run(m, bib, input[..n]).Failure?
    ensures Run(m, bib, input) == Failure(Run(m, bib, input[..n]).error)
  {
    RunAppend(m, bib, input[..n], input[n..]);
    assert input[..n] + input[n..] == input;
  }

  /** Two successful runs of which the first emits nothing and requests nothing. */
  lemma RunSilentThen(m: Machine, bib: Option<Bibliography>, a: string, b: string, middle: Machine, q: Progress)
    requires Run(m, bib, a) == Success(Progress(middle, "", []))
    requires Run(middle, bib, b) == Success(q)
    ensures Run(m, bib, a + b) == Success(q)
  {
    RunSeq(m, bib, a, b, Progress(middle, "", []), q);
    assert "" + q.output == q.output;
    assert [] + q.renders == q.renders;
  }

  /** A silent run followed by one more character. */
  lemma RunThenStep(m: Machine, bib: Option<Bibliography>, a: string, c: char, middle: Machine, t: Transition)
    requires Run(m, bib, a) == Success(Progress(middle, "", []))
    requires Step(middle, bib, c) == Success(t)
    ensures Run(m, bib, a + [c]) == Success(Progress(t.next, t.output, OptionToSeq(t.render)))
  {
    assert (a + [c])[..|a|] == a;
    assert "" + t.output == t.output && [] + OptionToSeq(t.render) == OptionToSeq(t.render);
  }

  /** A silent run followed by one silent character. */
  lemma RunSilentStep(m: Machine, bib: Option<Bibliography>, a: string, c: char, middle: Machine, next: Machine)
    requires Run(m, bib, a) == Success(Progress(middle, "", []))
    requires Step(middle, bib, c) == Emit(next, "")
    ensures Run(m, bib, a + [c]) == Success(Progress(next, "", []))
  {
    RunThenStep(m, bib, a, c, middle, Transition(next, "", None));
  }

  /** Feeding one character is one `next_char` call. */
  lemma RunOne(m: Machine, bib: Option<Bibliography>, c: char)
    ensures Run(m, bib, [c]) ==
      (var t :- Step(m, bib, c); Success(Progress(t.next, t.output, OptionToSeq(t.render))))
  {
    assert [c][..0] == [];
    assert forall x: string :: "" + x == x;
    assert forall x: seq<Render> :: [] + x == x;
  }

  /** Normal and comment mode never fail and never render; they emit nothing or the character read, and only the mode changes. */
  lemma TextStepEffect(m: Machine, c: char)
    requires m.state == NORMAL || m.state == COMMENT
    ensures TextStep(m, c).Success? && TextStep(m, c).value.render == None
    ensures TextStep(m, c).value.output == "" || TextStep(m, c).value.output == [c]
    ensures TextStep(m, c).value.next == m.(state := TextStep(m, c).value.next.state)
  {
  }

  /**
   * Reading a command never renders; inside an argument nothing can fail or be
   * emitted, and only the completion of a command (a space or newline after its
   * name, or anything after its arguments) can raise.
   */
  lemma CommandStepEffect(m: Machine, bib: Option<Bibliography>, c: char)
    requires m.state == COMMAND_NAME || m.state == ARGUMENT || m.state == BETWEEN_ARGUMENTS
    ensures CommandStep(m, bib, c).Success? ==> CommandStep(m, bib, c).value.render == None
    ensures m.state == ARGUMENT ==> CommandStep(m, bib, c).Success? && CommandStep(m, bib, c).value.output == ""
    ensures CommandStep(m, bib, c).Failure? ==>
      (m.state == COMMAND_NAME && (c == ' ' || c == '\n')) || m.state == BETWEEN_ARGUMENTS
  {
  }

  /**
   * A nested command inside a block ends: the command buffers are cleared, and
   * the block closes exactly when no level is left; otherwise the character is
   * buffered silently and copying goes on.
   */
  lemma CloseNestedEffect(m: Machine, c: char)
    ensures var r := CloseNestedCommand(m, c);
      && r.Success? && r.value.next.commandName == "" && r.value.next.arguments == []
      && (r.value.next.state == NORMAL <==> NestedDepth(m.blockDepth, m.commandName) == 0)
      && (r.value.next.state != NORMAL ==>
        r.value.next.state == BLOCK_COPY && r.value.output == "" && r.value.render == None
        && r.value.next.blockBuffer == m.blockBuffer + [c])
  {
  }

  /** Block mode never fails; while the block stays open each character is buffered silently and the context is kept. */
  lemma BlockStepEffect(m: Machine, c: char)
    requires InBlock(m.state)
    ensures BlockStep(m, c).Success?
    ensures var t := BlockStep(m, c).value;
      InBlock(t.next.state) ==>
        && t.output == "" && t.render == None && t.next.blockBuffer == m.blockBuffer + [c]
        && SameContext(m, t.next)
  {
  }

  /** In normal mode, text without `#` and backslash is emitted unchanged and the state does not move. */
  lemma {:induction false} PlainTextPassesThrough(m: Machine, bib: Option<Bibliography>, text: string)
    requires m.state == NORMAL
    requires forall i :: 0 <= i < |text| ==> text[i] != '#' && text[i] != '\\'
    ensures Run(m, bib, text) == Success(Progress(m, text, []))
  {
    if text != [] {
      var prefix := text[..|text| - 1];
      var c := text[|text| - 1];
      assert forall i :: 0 <= i < |prefix| ==> prefix[i] == text[i];
      PlainTextPassesThrough(m, bib, prefix);
      TextStepEffect(m, c);
      assert Step(m, bib, c) == Emit(m, [c]);
      RunSnoc(m, bib, text, Progress(m, prefix, []), Transition(m, [c], None));
      InitThenLast(text);
      assert [] + OptionToSeq<Render>(None) == [];
    }
  }

  /** In comment mode, text without a newline is discarded. */
  lemma {:induction false} CommentTextDiscarded(m: Machine, bib: Option<Bibliography>, text: string)
    requires m.state == COMMENT
    requires forall i :: 0 <= i < |text| ==> text[i] != '\n'
    ensures Run(m, bib, text) == Success(Progress(m, "", []))
  {
    if text != [] {
      var c := text[|text| - 1];
      CommentTextDiscarded(m, bib, text[..|text| - 1]);
      assert "" + "" == "" && [] + OptionToSeq<Render>(None) == [];
    }
  }

  /** A `#` comment is dropped up to the end of its line; the newline itself is kept. */
  lemma CommentIsDropped(m: Machine, bib: Option<Bibliography>, text: string)
    requires m.state == NORMAL
    requires forall i :: 0 <= i < |text| ==> text[i] != '\n'
    ensures Run(m, bib, "#" + text + "\n") == Success(Progress(m, "\n", []))
  {
    var comment := m.(state := COMMENT);
    RunOne(m, bib, '#');
    RunAppend(m, bib, "#", text);
    CommentTextDiscarded(comment, bib, text);
    assert "" + "" == "" && [] + OptionToSeq<Render>(None) == [];
    assert Run(m, bib, "#" + text) == Success(Progress(comment, "", []));
    RunAppend(m, bib, "#" + text, "\n");
    assert comment.(state := NORMAL) == m;
    RunOne(comment, bib, '\n');
  }

  /** Characters that continue a command name. */
  predicate NameChars(s: string)
  {
    forall i :: 0 <= i < |s| ==> s[i] != '{' && s[i] != '[' && s[i] != ' ' && s[i] != '\n'
  }

  /** Characters that continue an argument. */
  predicate ArgumentChars(s: string)
  {
    forall i :: 0 <= i < |s| ==> s[i] != '}' && s[i] != ']'
  }

  /** The arguments written out, each in braces. */
  function Braced(arguments: seq<string>): string
  {
    if arguments == [] then "" else Braced(arguments[..|arguments| - 1]) + "{" + arguments[|arguments| - 1] + "}"
  }

  /** While a command name is read, its characters are collected and nothing is emitted. */
  lemma {:induction false} NameIsCollected(m: Machine, bib: Option<Bibliography>, name: string)
    requires m.state == COMMAND_NAME && NameChars(name)
    ensures Run(m, bib, name) == Success(Progress(m.(commandName := m.commandName + name), "", []))
  {
    if name != [] {
      var prefix := name[..|name| - 1];
      NameIsCollected(m, bib, prefix);
      assert m.commandName + prefix + [name[|name| - 1]] == m.commandName + name;
      assert "" + "" == "" && [] + OptionToSeq<Render>(None) == [];
    } else {
      assert m.commandName + name == m.commandName;
    }
  }

  /** While an argument is read, its characters are collected and nothing is emitted. */
  lemma {:induction false} ArgumentIsCollected(m: Machine, bib: Option<Bibliography>, text: string)
    requires m.state == ARGUMENT && ArgumentChars(text)
    ensures Run(m, bib, text) == Success(Progress(m.(argumentValue := m.argumentValue + text), "", []))
  {
    if text != [] {
      var prefix := text[..|text| - 1];
      ArgumentIsCollected(m, bib, prefix);
      assert m.argumentValue + prefix + [text[|text| - 1]] == m.argumentValue + text;
      assert "" + "" == "" && [] + OptionToSeq<Render>(None) == [];
    } else {
      assert m.argumentValue + text == m.argumentValue;
    }
  }

  /** One `{argument}` after a command name or an argument is appended to the arguments. */
  lemma BracedArgumentIsAppended(m: Machine, bib: Option<Bibliography>, argument: string)
    requires m.state == COMMAND_NAME || m.state == BETWEEN_ARGUMENTS
    requires m.argumentValue == "" && ArgumentChars(argument)
    ensures Run(m, bib, "{" + argument + "}") ==
      Success(Progress(m.(state := BETWEEN_ARGUMENTS, arguments := m.arguments + [argument]), "", []))
  {
    var reading := m.(state := ARGUMENT);
    RunOne(m, bib, '{');
    ArgumentIsCollected(reading, bib, argument);
    RunAppend(m, bib, "{", argument);
    assert "" + "" == "" && [] + OptionToSeq<Render>(None) == [];
    var read := reading.(argumentValue := argument);
    assert reading.(argumentValue := reading.argumentValue + argument) == read;
    RunOne(read, bib, '}');
    RunAppend(m, bib, "{" + argument, "}");
  }

  /** The parser state once `\name{a1}...{an}` has been read and the command is not yet complete. */
  function Pending(m: Machine, name: string, arguments: seq<string>): Machine
  {
    m.(state := if arguments == [] then COMMAND_NAME else BETWEEN_ARGUMENTS, commandName := name, arguments := arguments)
  }

  /** Reading the arguments of a command collects them in order, emitting nothing. */
  lemma {:induction false} ArgumentsAreCollected(m: Machine, bib: Option<Bibliography>, name: string, arguments: seq<string>)
    requires m.state == COMMAND_NAME && m.commandName == name && m.arguments == [] && m.argumentValue == ""
    requires forall i :: 0 <= i < |arguments| ==> ArgumentChars(arguments[i])
    ensures Run(m, bib, Braced(arguments)) == Success(Progress(Pending(m, name, arguments), "", []))
  {
    if arguments == [] {
      assert m.(state := COMMAND_NAME, commandName := name, arguments := []) == m;
    } else {
      var before := arguments[..|arguments| - 1];
      ArgumentsAreCollected(m, bib, name, before);
      OneMoreArgument(m, bib, name, before, arguments[|arguments| - 1]);
      assert before + [arguments[|arguments| - 1]] == arguments;
    }
  }

  lemma OneMoreArgument(m: Machine, bib: Option<Bibliography>, name: string, before: seq<string>, last: string)
    requires m.state == COMMAND_NAME && m.commandName == name && m.arguments == [] && m.argumentValue == ""
    requires ArgumentChars(last)
    requires Run(m, bib, Braced(before)) == Success(Progress(Pending(m, name, before), "", []))
    ensures Run(m, bib, Braced(before + [last])) == Success(Progress(Pending(m, name, before + [last]), "", []))
  {
    var p := Pending(m, name, before);
    BracedArgumentIsAppended(p, bib, last);
    assert p.(state := BETWEEN_ARGUMENTS, arguments := p.arguments + [last]) == Pending(m, name, before + [last]);
    RunSilentThen(m, bib, Braced(before), "{" + last + "}", p, Progress(Pending(m, name, before + [last]), "", []));
    BracedSnoc(before, last);
  }

  lemma BracedSnoc(before: seq<string>, last: string)
    ensures Braced(before + [last]) == Braced(before) + ("{" + last + "}")
  {
    assert (before + [last])[..|before|] == before;
  }

  /** Reading `\name{a1}...{an}` in normal mode leaves the command pending, emitting nothing. */
  lemma CommandIsRead(m: Machine, bib: Option<Bibliography>, name: string, arguments: seq<string>)
    requires Inv(m) && m.state == NORMAL
    requires NameChars(name) && forall i :: 0 <= i < |arguments| ==> ArgumentChars(arguments[i])
    ensures Run(m, bib, "\\" + name + Braced(arguments)) == Success(Progress(Pending(m, name, arguments), "", []))
  {
    var naming := m.(state := COMMAND_NAME);
    RunOne(m, bib, '\\');
    NameIsCollected(naming, bib, name);
    RunAppend(m, bib, "\\", name);
    assert "" + "" == "" && [] + OptionToSeq<Render>(None) == [];
    var named := naming.(commandName := name);
    assert naming.(commandName := naming.commandName + name) == named;
    ArgumentsAreCollected(named, bib, name, arguments);
    RunAppend(m, bib, "\\" + name, Braced(arguments));
    assert Pending(named, name, arguments) == Pending(m, name, arguments);
  }

  /** The source text of a command: a backslash, the name, the braced arguments. */
  function CommandText(name: string, arguments: seq<string>): string
  {
    "\\" + name + Braced(arguments)
  }

  /** `c` completes a command with these arguments: a space or newline after a bare name, anything but `{` or `[` after an argument. */
  predicate Completes(arguments: seq<string>, c: char)
  {
    if arguments == [] then c == ' ' || c == '\n' else c != '{' && c != '['
  }

  /** A well-formed command followed by a completing character does what `Complete` says, and nothing more. */
  lemma CommandIsCompleted(m: Machine, bib: Option<Bibliography>, name: string, arguments: seq<string>, c: char)
    requires Inv(m) && m.state == NORMAL
    requires NameChars(name) && forall i :: 0 <= i < |arguments| ==> ArgumentChars(arguments[i])
    requires Completes(arguments, c)
    ensures Run(m, bib, CommandText(name, arguments) + [c]) ==
      (var t :- Complete(Pending(m, name, arguments), bib, c); Success(Progress(t.next, t.output, [])))
  {
    var pending := Pending(m, name, arguments);
    CommandIsRead(m, bib, name, arguments);
    RunOne(pending, bib, c);
    RunAppend(m, bib, CommandText(name, arguments), [c]);
    if Complete(pending, bib, c).Success? {
      var t := Complete(pending, bib, c).value;
      assert Step(pending, bib, c) == Success(t) && OptionToSeq(t.render) == [];
      RunSilentThen(m, bib, CommandText(name, arguments), [c], pending, Progress(t.next, t.output, []));
    }
  }

  /** Once a command is complete the parser is back in normal mode with empty command buffers. */
  function Cleared(m: Machine): Machine
  {
    m.(state := NORMAL, commandName := "", argumentValue := "", arguments := [])
  }

  lemma ClearedPending(m: Machine, name: string, arguments: seq<string>)
    requires Inv(m) && m.state == NORMAL
    ensures Cleared(Pending(m, name, arguments)) == m
  {
  }

  predicate IsHeading(name: string)
  {
    name == "chapter" || name == "section" || name == "subsection" || name == "subsubsection"
  }

  /** The Markdown heading level of each sectioning command. */
  function HeadingLevel(name: string): nat
  {
    if name == "chapter" then 1
    else if name == "section" then 2
    else if name == "subsection" then 3
    else 4
  }

  /** A Markdown heading marker: `level` hash signs. */
  function Hashes(level: nat): string
  {
    seq(level, _ => '#')
  }

  /**
   * `\chapter`, `\section`, `\subsection` and `\subsubsection` become a Markdown
   * heading of level 1 to 4 holding the first argument; the completing character
   * is dropped after the heading's newline. Without an argument they raise.
   */
  lemma HeadingCommand(m: Machine, bib: Option<Bibliography>, name: string, arguments: seq<string>, c: char)
    requires Inv(m) && m.state == NORMAL && IsHeading(name)
    requires forall i :: 0 <= i < |arguments| ==> ArgumentChars(arguments[i])
    requires Completes(arguments, c)
    ensures arguments != [] ==>
      Run(m, bib, CommandText(name, arguments) + [c]) == Success(Progress(m, Hashes(HeadingLevel(name)) + " " + arguments[0] + "\n", []))
    ensures arguments == [] ==> Run(m, bib, CommandText(name, arguments) + [c]) == Failure(MissingArgument(name))
  {
    assert NameChars(name);
    CommandIsCompleted(m, bib, name, arguments, c);
    HeadingCompletes(m, bib, name, arguments, c);
  }

  lemma HeadingCompletes(m: Machine, bib: Option<Bibliography>, name: string, arguments: seq<string>, c: char)
    requires Inv(m) && m.state == NORMAL && IsHeading(name)
    ensures arguments != [] ==>
      Complete(Pending(m, name, arguments), bib, c) == Emit(m, Hashes(HeadingLevel(name)) + " " + arguments[0] + "\n")
    ensures arguments == [] ==> Complete(Pending(m, name, arguments), bib, c) == Failure(MissingArgument(name))
  {
    ClearedPending(m, name, arguments);
    if arguments != [] {
      var marks := Hashes(HeadingLevel(name)) + " ";
      if name == "chapter" {
        assert marks == "# ";
      } else if name == "section" {
        assert marks == "## ";
      } else if name == "subsection" {
        assert marks == "### ";
      } else {
        assert marks == "#### ";
      }
      var text := marks + arguments[0] + "\n";
      assert text[|text| - 1] == '\n';
      assert Evaluate(Pending(m, name, arguments), bib) == Success((Pending(m, name, arguments), text));
    }
  }

  /** `\\` and `\par` become a paragraph break; the completing character is dropped. */
  lemma ParagraphCommand(m: Machine, bib: Option<Bibliography>, name: string, arguments: seq<string>, c: char)
    requires Inv(m) && m.state == NORMAL && (name == "\\" || name == "par")
    requires forall i :: 0 <= i < |arguments| ==> ArgumentChars(arguments[i])
    requires Completes(arguments, c)
    ensures Run(m, bib, CommandText(name, arguments) + [c]) == Success(Progress(m, "\n\n", []))
  {
    CommandIsCompleted(m, bib, name, arguments, c);
    ClearedPending(m, name, arguments);
  }

  /** `\label` disappears together with its completing character. */
  lemma LabelCommand(m: Machine, bib: Option<Bibliography>, arguments: seq<string>, c: char)
    requires Inv(m) && m.state == NORMAL
    requires forall i :: 0 <= i < |arguments| ==> ArgumentChars(arguments[i])
    requires Completes(arguments, c)
    ensures Run(m, bib, CommandText("label", arguments) + [c]) == Success(Progress(m, "", []))
  {
    CommandIsCompleted(m, bib, "label", arguments, c);
    ClearedPending(m, "label", arguments);
  }

  /** The commands `evaluate` knows, given the bibliography and the list context. */
  predicate Recognised(name: string, bib: Option<Bibliography>, blockType: Option<string>)
  {
    || name == "\\" || name == "par" || IsHeading(name) || name == "label"
    || (name == "cite" && bib.Some?) || name == "begin" || name == "end"
    || (name == "item" && (blockType == Some("itemize") || blockType == Some("enumerate")))
  }

  /**
   * Any other command is written back as `\name[a1][a2]`, in backticks outside a
   * list, followed by its completing character.
   */
  lemma OtherCommand(m: Machine, bib: Option<Bibliography>, name: string, arguments: seq<string>, c: char)
    requires Inv(m) && m.state == NORMAL && !Recognised(name, bib, m.blockType)
    requires NameChars(name) && forall i :: 0 <= i < |arguments| ==> ArgumentChars(arguments[i])
    requires Completes(arguments, c)
    ensures var text := Literal(name, arguments);
      Run(m, bib, CommandText(name, arguments) + [c]) ==
        Success(Progress(m, (if m.blockType.None? then "`" + text + "`" else text) + [c], []))
  {
    CommandIsCompleted(m, bib, name, arguments, c);
    ClearedPending(m, name, arguments);
  }

  /**
   * `\begin{itemize}` and `\begin{enumerate}` open a list: a newline is emitted,
   * the list type is recorded and the item counter restarts at 0. A list inside
   * a list raises.
   */
  lemma BeginListCommand(m: Machine, bib: Option<Bibliography>, arguments: seq<string>, c: char)
    requires Inv(m) && m.state == NORMAL
    requires arguments != [] && arguments[0] in KNOWN_BLOCKS
    requires forall i :: 0 <= i < |arguments| ==> ArgumentChars(arguments[i])
    requires Completes(arguments, c)
    ensures m.blockType.None? ==>
      Run(m, bib, CommandText("begin", arguments) + [c]) ==
        Success(Progress(m.(blockType := Some(arguments[0]), enumerateCounter := 0), "\n", []))
    ensures m.blockType.Some? ==> Run(m, bib, CommandText("begin", arguments) + [c]) == Failure(NestedBlock(m.blockType.value))
  {
    assert NameChars("begin");
    CommandIsCompleted(m, bib, "begin", arguments, c);
    ClearedPending(m, "begin", arguments);
  }

  /** `\end` closes the list: a newline, no list type, the counter back at 0. */
  lemma EndCommand(m: Machine, bib: Option<Bibliography>, arguments: seq<string>, c: char)
    requires Inv(m) && m.state == NORMAL
    requires forall i :: 0 <= i < |arguments| ==> ArgumentChars(arguments[i])
    requires Completes(arguments, c)
    ensures Run(m, bib, CommandText("end", arguments) + [c]) ==
      Success(Progress(m.(blockType := None, enumerateCounter := 0), "\n", []))
  {
    assert NameChars("end");
    CommandIsCompleted(m, bib, "end", arguments, c);
    ClearedPending(m, "end", arguments);
  }

  /** In an itemize list, `\item` followed by a space becomes `* `. */
  lemma ItemizeItem(m: Machine, bib: Option<Bibliography>)
    requires Inv(m) && m.state == NORMAL && m.blockType == Some("itemize")
    ensures Run(m, bib, "\\item ") == Success(Progress(m, "* ", []))
  {
    ItemText();
    CommandIsCompleted(m, bib, "item", [], ' ');
    ItemCompletes(m, bib);
  }

  /** In an enumerate list, `\item` followed by a space becomes the next number, a dot and the space. */
  lemma EnumerateItem(m: Machine, bib: Option<Bibliography>)
    requires Inv(m) && m.state == NORMAL && m.blockType == Some("enumerate")
    ensures var n := m.enumerateCounter + 1;
      Run(m, bib, "\\item ") == Success(Progress(m.(enumerateCounter := n), IntToString(n) + ". ", []))
  {
    ItemText();
    CommandIsCompleted(m, bib, "item", [], ' ');
    ItemCompletes(m, bib);
  }

  lemma ItemText()
    ensures NameChars("item") && CommandText("item", []) + [' '] == "\\item "
  {
  }

  lemma ItemCompletes(m: Machine, bib: Option<Bibliography>)
    requires Inv(m) && m.state == NORMAL
    requires m.blockType == Some("itemize") || m.blockType == Some("enumerate")
    ensures m.blockType == Some("itemize") ==> Complete(Pending(m, "item", []), bib, ' ') == Emit(m, "* ")
    ensures var n := m.enumerateCounter + 1;
      m.blockType == Some("enumerate") ==>
        Complete(Pending(m, "item", []), bib, ' ') == Emit(m.(enumerateCounter := n), IntToString(n) + ". ")
  {
    ClearedPending(m, "item", []);
    var n := m.enumerateCounter + 1;
    var number := IntToString(n) + ".";
    assert number + [' '] == IntToString(n) + ". ";
    assert "*" + [' '] == "* ";
  }

  /** `text` written `n` times. */
  function Repeat(text: string, n: nat): string
  {
    if n == 0 then "" else Repeat(text, n - 1) + text
  }

  /** The numbers `from + 1` to `from + n`, each followed by `. `. */
  function Numbered(from: int, n: nat): string
  {
    if n == 0 then "" else Numbered(from, n - 1) + IntToString(from + n) + ". "
  }

  /** Successive items of an enumerate list are numbered on from the counter: after `\begin{enumerate}`, from 1. */
  lemma {:induction false} EnumerateNumbering(m: Machine, bib: Option<Bibliography>, n: nat)
    requires Inv(m) && m.state == NORMAL && m.blockType == Some("enumerate")
    ensures Run(m, bib, Repeat("\\item ", n)) ==
      Success(Progress(m.(enumerateCounter := m.enumerateCounter + n), Numbered(m.enumerateCounter, n), []))
    decreases n, 1
  {
    if n == 0 {
      assert m.(enumerateCounter := m.enumerateCounter) == m;
    } else {
      NextNumber(m, bib, n);
    }
  }

  /** One more item after `n - 1` numbered ones. */
  lemma {:induction false} NextNumber(m: Machine, bib: Option<Bibliography>, n: nat)
    requires Inv(m) && m.state == NORMAL && m.blockType == Some("enumerate") && n > 0
    ensures Run(m, bib, Repeat("\\item ", n)) ==
      Success(Progress(m.(enumerateCounter := m.enumerateCounter + n), Numbered(m.enumerateCounter, n), []))
    decreases n, 0
  {
    EnumerateNumbering(m, bib, n - 1);
    var k := m.enumerateCounter;
    var before := m.(enumerateCounter := k + (n - 1));
    assert before.enumerateCounter + 1 == k + n;
    EnumerateItem(before, bib);
    NumberedStep(m, bib, Repeat("\\item ", n - 1), "\\item ", k, n);
  }

  /** Joining the run of `n - 1` numbered items with the run of the next one. */
  lemma NumberedStep(m: Machine, bib: Option<Bibliography>, items: string, item: string, k: int, n: nat)
    requires n > 0
    requires Run(m, bib, items) == Success(Progress(m.(enumerateCounter := k + (n - 1)), Numbered(k, n - 1), []))
    requires Run(m.(enumerateCounter := k + (n - 1)), bib, item) ==
      Success(Progress(m.(enumerateCounter := k + n), IntToString(k + n) + ". ", []))
    ensures Run(m, bib, items + item) == Success(Progress(m.(enumerateCounter := k + n), Numbered(k, n), []))
  {
    var before := m.(enumerateCounter := k + (n - 1));
    var after := m.(enumerateCounter := k + n);
    var numberText := IntToString(k + n) + ". ";
    RunSeq(m, bib, items, item, Progress(before, Numbered(k, n - 1), []), Progress(after, numberText, []));
    assert Numbered(k, n - 1) + numberText == Numbered(k, n);
    var none: seq<Render> := [];
    assert none + none == none;
  }

  /**
   * With a bibliography, `\cite{...}` takes its last argument as the key and
   * emits the key's footnote marker followed by the completing character: a
   * key cited before keeps its id, a new key is registered under the next id,
   * and a new key missing from the bibliography raises.
   */
  lemma CiteCommand(m: Machine, bib: Bibliography, arguments: seq<string>, c: char)
    requires Inv(m) && m.state == NORMAL && arguments != []
    requires forall i :: 0 <= i < |arguments| ==> ArgumentChars(arguments[i])
    requires Completes(arguments, c)
    ensures var key := arguments[|arguments| - 1];
      var run := Run(m, Some(bib), CommandText("cite", arguments) + [c]);
      var cited := Cite(m.citations, bib, key);
      && (cited.Success? ==>
            run == Success(Progress(m.(citations := cited.value.0), Marker(cited.value.1) + [c], [])))
      && (cited.Failure? ==> run == Failure(cited.error))
  {
    assert NameChars("cite");
    CommandIsCompleted(m, Some(bib), "cite", arguments, c);
    CiteCompletes(m, bib, arguments, c);
  }

  lemma CiteCompletes(m: Machine, bib: Bibliography, arguments: seq<string>, c: char)
    requires Inv(m) && m.state == NORMAL && arguments != []
    ensures var cited := Cite(m.citations, bib, arguments[|arguments| - 1]);
      var done := Complete(Pending(m, "cite", arguments), Some(bib), c);
      && (cited.Success? ==> done == Emit(m.(citations := cited.value.0), Marker(cited.value.1) + [c]))
      && (cited.Failure? ==> done == Failure(cited.error))
  {
    ClearedPending(m, "cite", arguments);
  }

  /** A heading, `\cite` with a bibliography, or `\begin` without an argument raises. */
  lemma MissingArgumentRaises(m: Machine, bib: Option<Bibliography>, name: string, c: char)
    requires Inv(m) && m.state == NORMAL && (c == ' ' || c == '\n')
    requires IsHeading(name) || (name == "cite" && bib.Some?) || name == "begin"
    ensures Run(m, bib, CommandText(name, []) + [c]) == Failure(MissingArgument(name))
  {
    assert NameChars(name);
    CommandIsCompleted(m, bib, name, [], c);
    MissingArgumentCompletes(m, bib, name, c);
  }

  lemma MissingArgumentCompletes(m: Machine, bib: Option<Bibliography>, name: string, c: char)
    requires Inv(m) && m.state == NORMAL && (c == ' ' || c == '\n')
    requires IsHeading(name) || (name == "cite" && bib.Some?) || name == "begin"
    ensures Complete(Pending(m, name, []), bib, c) == Failure(MissingArgument(name))
  {
  }

  /**
   * The registry changes only in the citation branch of `evaluate`: after a
   * successful evaluation it is either untouched or what `Cite` makes of it for
   * the last argument.
   */
  lemma EvaluateRegistry(m: Machine, bib: Option<Bibliography>)
    ensures Evaluate(m, bib).Success? ==>
      var r := Evaluate(m, bib).value.0.citations;
      || r == m.citations
      || (&& bib.Some? && |m.arguments| > 0
          && Cite(m.citations, bib.value, m.arguments[|m.arguments| - 1]).Success?
          && r == Cite(m.citations, bib.value, m.arguments[|m.arguments| - 1]).value.0)
  {
  }

  /** The same for one character: the registry is kept, or a `\cite` just completed updates it through `Cite`. */
  lemma StepRegistry(m: Machine, bib: Option<Bibliography>, c: char)
    requires Step(m, bib, c).Success?
    ensures var r := Step(m, bib, c).value.next.citations;
      || r == m.citations
      || (&& bib.Some? && |m.arguments| > 0
          && Cite(m.citations, bib.value, m.arguments[|m.arguments| - 1]).Success?
          && r == Cite(m.citations, bib.value, m.arguments[|m.arguments| - 1]).value.0)
  {
    var s := m.state;
    if (s == COMMAND_NAME && (c == ' ' || c == '\n')) || (s == BETWEEN_ARGUMENTS && c != '{' && c != '[') {
      EvaluateRegistry(m, bib);
    } else if InBlock(s) {
      BlockStepEffect(m, c);
    }
  }

  /** One character keeps the citation numbering valid, possibly with one more key cited. */
  lemma StepKeepsRegistryValid(m: Machine, bib: Bibliography, c: char, start: int, keys: seq<string>)
    requires Valid(m.citations, start, bib, keys) && Step(m, Some(bib), c).Success?
    ensures exists keys' :: keys <= keys' && Valid(Step(m, Some(bib), c).value.next.citations, start, bib, keys')
  {
    StepRegistry(m, Some(bib), c);
    var r := Step(m, Some(bib), c).value.next.citations;
    if r == m.citations {
      assert keys <= keys;
    } else {
      var key := m.arguments[|m.arguments| - 1];
      CiteKeepsValid(m.citations, start, bib, keys, key);
      assert keys <= AddKey(keys, key);
    }
  }

  /**
   * A whole run keeps the citation numbering valid: the keys cited so far only
   * grow, each new key taking the next id, whatever text the keys are cited in.
   */
  lemma {:induction false} RunKeepsRegistryValid(m: Machine, bib: Bibliography, input: string, start: int, keys: seq<string>)
    requires Valid(m.citations, start, bib, keys)
    ensures Run(m, Some(bib), input).Success? ==>
      exists keys' :: keys <= keys' && Valid(Run(m, Some(bib), input).value.machine.citations, start, bib, keys')
  {
    if input == [] {
      assert keys <= keys;
    } else if Run(m, Some(bib), input).Success? {
      var prefix := input[..|input| - 1];
      var c := input[|input| - 1];
      RunKeepsRegistryValid(m, bib, prefix, start, keys);
      var before := Run(m, Some(bib), prefix).value;
      var middle :| keys <= middle && Valid(before.machine.citations, start, bib, middle);
      var t := Step(before.machine, Some(bib), c).value;
      RunSnoc(m, Some(bib), input, before, t);
      StepKeepsRegistryValid(before.machine, bib, c, start, middle);
      var after :| middle <= after && Valid(t.next.citations, start, bib, after);
      assert keys <= after by {
        assert after[..|keys|] == after[..|middle|][..|keys|];
      }
    }
  }

  /**
   * In any successful conversion with a bibliography, the footer is written from
   * a registry in which the keys cited in the document are numbered
   * `citation_count + 1, + 2, ...` in order of first citation, each once.
   */
  lemma ConvertNumbersCitations(input: string, bib: Bibliography, citationCount: int)
    ensures var done := Run(Initial(citationCount), Some(bib), NormalizeNewlines(input));
      Convert(input, Some(bib), citationCount).Success? ==>
        && done.Success? && Footer(done.value.machine.citations).Success?
        && Convert(input, Some(bib), citationCount).value.0 == done.value.output + Footer(done.value.machine.citations).value
        && exists keys :: Valid(done.value.machine.citations, citationCount, bib, keys)
  {
    EmptyRegistryValid(citationCount, bib);
    RunKeepsRegistryValid(Initial(citationCount), bib, NormalizeNewlines(input), citationCount, []);
  }
}
