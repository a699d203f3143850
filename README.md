# latex-to-md: a verified model of the converter core

`tools/latex-to-md/main.py` turns a LaTeX document into Markdown in one pass,
one character at a time. A `Parser` object holds a small state machine:
- normal text;
- comments;
- a command name and its `{…}`/`[…]` arguments;
- three block-copy modes, used for environments that are not lists.

When a command is complete it is *evaluated* into a Markdown fragment:
- headings become `#` lines;
- `\item` becomes a list marker;
- `\cite` becomes a footnote marker, numbered through a citation registry;
- any other command is written back literally.

A `\begin{T}` of an environment other than `itemize`/`enumerate` switches to
block copy. Block copy buffers everything up to the matching `\end`:
- a non-equation block is then emitted inside a `latex` code fence, followed by
  a note asking for manual conversion;
- an equation is handed to a renderer and replaced by an `<img>` link to
  `assets/equation_<n>.svg`.

`convert` normalises line endings, feeds every character to a fresh parser,
and appends the footnote footer. The footer is written from the registry, which
holds the bibliography records that `parse_bibtex` cut out of a BibTeX text.

The project has two layers.

- **The state machine on values** (`StateMachine`, machine.dfy). A `Machine`
  value holds every field of a parser. `Step` is `next_char`, `Evaluate` is
  `evaluate`, `Run` folds `Step` over a text and `Convert` is the string part
  of `convert`. Python's exceptions become `Failure` values of `Errors.Error`,
  and the renderer becomes a `Render(equation, path)` request returned with
  the step.
- **The objects and loops of the source** (`Converter.Parser`, parser.dfy).
  The class has the Python fields and methods that update them in place. Each
  method is proved to do what the corresponding function does on `Snapshot()`,
  the fields read as a `Machine`. `Converter.Feed` (called by `Converter.Convert`)
  and `Parser.WriteFooter` are the loops of `convert` and `write_footer`. `Bibtex.ParseBibtex` and
  `Bibtex.ParseFields` are the nested loops of `parse_bibtex`, proved equal to
  `Bibtex.Parse`.

The other modules hold the rest of the model and the proofs:
- `MachineProperties` (machine_properties.dfy) and `BlockProperties`
  (block_properties.dfy) prove what the converter does to whole pieces of
  text.
- `Citations` holds the registry and the footer.
- `PyStr` models the Python string operations the source relies on: `find`,
  slicing with negative indices, `split`, `splitlines`, `strip`, `replace`,
  `removesuffix` and `str(int)`.

## Model

| member | source | states |
|---|---|---|
| Converter.Parser.constructor | tools/latex-to-md/main.py:35-56 | a new parser is in normal mode with empty buffers, no open block, both counters at 0, no citation, and the citation counter at `citation_count` |
| Converter.Parser.WriteFooter | tools/latex-to-md/main.py:58-72 | the loop returns exactly `Footer` of the registry held in the fields: a newline, one footnote per registered citation in insertion order, a newline; a url without a host raises |
| Converter.WriteFootnote | tools/latex-to-md/main.py:61-71 | one pass of the footer loop produces `FootnoteFor(k, v)`: `[^k]: `, then `author, `, `title, `, `year, ` when present, then `[host](url)`, then a blank line |
| Converter.Parser.NextChar | tools/latex-to-md/main.py:74-176 | appends `c` to `parsed`; the fields become the next state of `Step` and the result is its text and rendering request, or the exception `Step` raises |
| Converter.Parser.TextChar | tools/latex-to-md/main.py:77-87 | normal and comment mode update the fields as `TextStep` does and return its text |
| Converter.Parser.CommandChar | tools/latex-to-md/main.py:88-118 | command name and argument modes update the fields as `CommandStep` does; completion goes through `CompleteCommand` |
| Converter.Parser.CompleteCommand | tools/latex-to-md/main.py:92-112 | completing a command follows `Complete`: a missing `\begin` argument raises, a non-list `\begin` opens a block, anything else is evaluated, the delimiter is appended unless the text is empty or ends in a newline, and the command buffers are cleared |
| Converter.Parser.OpenBlock | tools/latex-to-md/main.py:93-104 | the fields become block copy at depth 1 with empty buffers and the emitted text is the `<img>` link or the code-fence header (`StateMachine.OpenBlock`) |
| Converter.Parser.EnterBlock | tools/latex-to-md/main.py:94-100 | the fields `\begin` of a copied block sets: block copy mode, the environment as block type, depth 1, empty command buffers and block buffer; every other field is kept |
| Converter.Parser.ClearCommand | tools/latex-to-md/main.py:107-112 | after an evaluated command the parser is back in normal mode with empty command buffers; every other field is kept |
| Converter.Parser.BlockChar | tools/latex-to-md/main.py:120-148 | the block modes buffer every character, track nested command names and argument depth, and close nested commands, as `BlockStep` does |
| Converter.Parser.CloseNestedCommand | tools/latex-to-md/main.py:148-173 | a nested command ends: the depth moves by `NestedDepth`, the block closes at depth 0, and the command buffers are cleared (`StateMachine.CloseNestedCommand`) |
| Converter.Parser.CountNesting | tools/latex-to-md/main.py:150-154 | the delimiter joins the buffer; `begin` adds one to the block depth, `end` subtracts one, other names leave it |
| Converter.Parser.CloseBlock | tools/latex-to-md/main.py:155-168 | the block closes as `StateMachine.CloseBlock` says: an equation yields a rendering request and `"\n"` and the equation counter moves by one; another block yields its buffer and the manual-conversion note |
| Converter.Parser.Evaluate | tools/latex-to-md/main.py:178-221 | the fields change and the fragment is returned as `StateMachine.Evaluate` says, or the same exception is raised; `parsed` is untouched |
| Converter.Parser.CiteKey | tools/latex-to-md/main.py:194-202 | the citation branch updates the counter and both dictionaries and returns the marker as `Citations.Cite` says, or raises `KeyError` for a new key missing from the bibliography |
| Converter.Convert | tools/latex-to-md/main.py:255-261 | line endings fixed, the characters fed and the footer appended: the result is exactly `StateMachine.Convert`, with the rendering requests in order |
| Converter.Feed | tools/latex-to-md/main.py:259-260 | feeding the characters one by one gives what `Run` of the machine gives from the parser's state: the concatenated text, the rendering requests and the final fields, or the first exception |
| StateMachine.Initial | tools/latex-to-md/main.py:42-56 | the initial state is normal mode, no open block, and the citation counter at `citation_count` |
| StateMachine.Evaluate | tools/latex-to-md/main.py:178-221 | evaluation changes only the block type, the enumerate counter and the registry |
| StateMachine.Complete | tools/latex-to-md/main.py:92-112 | completing a command never requests a rendering |
| StateMachine.Step | tools/latex-to-md/main.py:74-176 | a successful step always lands in one of the eight known modes; `Unknown state` is raised exactly from an unknown mode |
| StateMachine.Literal | tools/latex-to-md/main.py:218-221 | an unknown command is written back starting with a backslash and its name and ending with `]` |
| StateMachine.Heading | tools/latex-to-md/main.py:184-191 | a heading succeeds exactly when there is an argument (an `IndexError` otherwise), leaves the state unchanged, and its text starts with the `#` prefix and ends with a newline |
| StateMachine.OpenBlock | tools/latex-to-md/main.py:93-104 | `\begin` of a copied block: block copy at depth 1 with the environment as block type, empty command buffers and block buffer, no rendering request; the equation counter and the registry are kept |
| StateMachine.Opening | tools/latex-to-md/main.py:101-104 | what an opened block emits (the `<img>` link or the code-fence header) ends with a newline |
| StateMachine.CloseBlock | tools/latex-to-md/main.py:155-168 | the closed block leaves normal mode, no block type and an empty buffer; there is a rendering request exactly for an equation, which emits `"\n"`, targets `assets/equation_<counter>.svg` and moves the counter by one; any other block emits its buffer first and keeps the counter |
| StateMachine.Run | tools/latex-to-md/main.py:261-262 | a run issues at most one rendering request per character fed |
| StateMachine.Convert | tools/latex-to-md/main.py:255-262 | a conversion issues at most one rendering request per character of the input |
| MachineProperties.InitialInv | tools/latex-to-md/main.py:42-56 | the initial state satisfies the parser invariant `Inv` |
| MachineProperties.CompleteKeepsInv | tools/latex-to-md/main.py:92-112 | completing a command keeps `Inv` |
| MachineProperties.CloseKeepsInv | tools/latex-to-md/main.py:148-173 | closing a nested command never fails and keeps `Inv` |
| MachineProperties.StepKeepsInv | tools/latex-to-md/main.py:74-176 | every successful step keeps `Inv`: a known mode, argument depth at least 1 exactly in mode 92 and 0 elsewhere, a positive block depth and a non-list block type in block modes, empty buffers outside them |
| MachineProperties.RunKeepsInv | tools/latex-to-md/main.py:261-262 | a run from a state satisfying `Inv` never raises `Unknown state` and ends in a state satisfying `Inv` |
| MachineProperties.ConvertNeverUnknownState | tools/latex-to-md/main.py:175 | no input makes the conversion reach the `Unknown state` exception |
| MachineProperties.RunAppend | tools/latex-to-md/main.py:261-262 | feeding `a + b` is feeding `a`, then `b` from where `a` stopped, with the outputs and requests concatenated |
| MachineProperties.RunSeq | tools/latex-to-md/main.py:261-262 | two successful runs compose into one run of the concatenated input |
| MachineProperties.RunPrefixStep | tools/latex-to-md/main.py:261-262 | one more character of the document adds one step to the run of its prefix |
| MachineProperties.RunKeepsFailure | tools/latex-to-md/main.py:261-262 | once a prefix raises, the whole document raises the same exception |
| MachineProperties.RunSilentThen | tools/latex-to-md/main.py:261-262 | a run that emits nothing followed by another run gives the second run's result |
| MachineProperties.RunThenStep | tools/latex-to-md/main.py:261-262 | a silent run followed by one step gives the step's text and request |
| MachineProperties.RunSilentStep | tools/latex-to-md/main.py:261-262 | a silent run followed by a silent step is silent |
| MachineProperties.RunOne | tools/latex-to-md/main.py:261-262 | a one-character run is exactly one step |
| MachineProperties.TextStepEffect | tools/latex-to-md/main.py:77-87 | normal and comment mode never raise and never render; they emit nothing or the character read, and only the mode changes |
| MachineProperties.CommandStepEffect | tools/latex-to-md/main.py:88-118 | reading a command never renders; inside an argument nothing is emitted and nothing raises; only a completion (a space or newline after the name, or any character after the arguments) can raise |
| MachineProperties.CloseNestedEffect | tools/latex-to-md/main.py:148-173 | a nested command ends without raising and with the command buffers cleared; the block closes exactly when `NestedDepth` reaches 0, and otherwise the character is buffered silently in block copy |
| MachineProperties.BlockStepEffect | tools/latex-to-md/main.py:120-173 | block mode never raises; while the block stays open every character is appended to the buffer, nothing is emitted or rendered, and the list context, counters and registry are kept |
| MachineProperties.PlainTextPassesThrough | tools/latex-to-md/main.py:81-82 | in normal mode, text without `#` and backslash is emitted unchanged and the state does not move |
| MachineProperties.CommentTextDiscarded | tools/latex-to-md/main.py:83-84 | in comment mode, text without a newline is dropped and the state does not move |
| MachineProperties.CommentIsDropped | tools/latex-to-md/main.py:77-87 | `#`, any text without a newline, then a newline emits exactly that newline and returns to the starting state |
| MachineProperties.NameIsCollected | tools/latex-to-md/main.py:88-89 | command-name characters are appended to `command_name` and nothing is emitted |
| MachineProperties.ArgumentIsCollected | tools/latex-to-md/main.py:113-114 | argument characters are appended to `command_argument_value` and nothing is emitted |
| MachineProperties.BracedArgumentIsAppended | tools/latex-to-md/main.py:90-118 | `{arg}` appends `arg` to `command_arguments` and leaves the machine between arguments |
| MachineProperties.ArgumentsAreCollected | tools/latex-to-md/main.py:90-118 | a sequence of braced arguments is collected in order, silently |
| MachineProperties.OneMoreArgument | tools/latex-to-md/main.py:90-118 | one more braced argument extends the collected list by exactly that argument |
| MachineProperties.CommandIsRead | tools/latex-to-md/main.py:79-118 | `\name{a1}…{an}` read from normal mode leaves the command pending with that name and those arguments, having emitted nothing |
| MachineProperties.CommandIsCompleted | tools/latex-to-md/main.py:92-112 | the completing character hands the pending command to `Complete` |
| MachineProperties.HeadingCommand | tools/latex-to-md/main.py:184-191 | `\chapter`…`\subsubsection{t}` emits 1 to 4 `#`, a space, `t` and a newline and leaves the state unchanged; without an argument it raises |
| MachineProperties.HeadingCompletes | tools/latex-to-md/main.py:184-191 | the same at the level of one completion |
| MachineProperties.ParagraphCommand | tools/latex-to-md/main.py:180-183 | `\\` and `\par` emit a blank line and leave the state unchanged |
| MachineProperties.LabelCommand | tools/latex-to-md/main.py:192-193 | `\label{…}` emits nothing (not even its delimiter) and leaves the state unchanged |
| MachineProperties.OtherCommand | tools/latex-to-md/main.py:218-221 | any other command is written back as `\name[a1][a2]`, in backticks only outside a block, followed by its delimiter |
| MachineProperties.BeginListCommand | tools/latex-to-md/main.py:203-208 | `\begin{itemize}`/`\begin{enumerate}` sets the block type, resets the counter and emits a newline; inside an open block it raises |
| MachineProperties.EndCommand | tools/latex-to-md/main.py:214-217 | `\end{…}` clears the block type, resets the counter and emits a newline |
| MachineProperties.ItemizeItem | tools/latex-to-md/main.py:209-210 | `\item ` in an itemize block emits `* ` |
| MachineProperties.EnumerateItem | tools/latex-to-md/main.py:211-213 | `\item ` in an enumerate block increments the counter and emits `<n>. ` |
| MachineProperties.ItemCompletes | tools/latex-to-md/main.py:209-213 | the two item rules at the level of one completion |
| MachineProperties.EnumerateNumbering | tools/latex-to-md/main.py:211-213 | n items in an enumerate block are numbered consecutively after the counter, so a fresh block numbers from 1 |
| MachineProperties.NextNumber | tools/latex-to-md/main.py:211-213 | the inductive step: one more item gets the next number |
| MachineProperties.CiteCommand | tools/latex-to-md/main.py:194-202 | with a bibliography, `\cite{…}{key}` emits the marker of `Cite` for the last argument and updates the registry, or raises for an unknown key |
| MachineProperties.CiteCompletes | tools/latex-to-md/main.py:194-202 | the same at the level of one completion |
| MachineProperties.MissingArgumentRaises | tools/latex-to-md/main.py:184-195 | a heading, `\cite` with a bibliography, or `\begin` with no argument raises |
| MachineProperties.MissingArgumentCompletes | tools/latex-to-md/main.py:184-195 | the same at the level of one completion |
| BlockProperties.BlockIsOpened | tools/latex-to-md/main.py:93-104 | `\begin{T}` with T not a list enters block copy at depth 1 with an empty buffer, keeps `Inv`, and emits the `<img>` link for an equation, the code-fence header otherwise |
| BlockProperties.BlockTextIsBuffered | tools/latex-to-md/main.py:120-121 | in block copy, text without a backslash is buffered and nothing is emitted |
| BlockProperties.BlockNameIsCollected | tools/latex-to-md/main.py:125-127 | a nested command name is buffered and collected |
| BlockProperties.BlockArgumentTextIsBuffered | tools/latex-to-md/main.py:140-141 | a nested argument's text is buffered |
| BlockProperties.BlockArgumentIsCopied | tools/latex-to-md/main.py:128-139 | a nested `{arg}` is buffered and the argument depth returns to 0 |
| BlockProperties.OpenArgument | tools/latex-to-md/main.py:128-141 | a nested `{` raises the argument depth to 1 and its text is buffered |
| BlockProperties.InnerCommandIsRead | tools/latex-to-md/main.py:122-139 | a nested `\name{arg}` is buffered verbatim and leaves the command pending |
| BlockProperties.InnerNameIsRead | tools/latex-to-md/main.py:122-127 | a nested `\name` is buffered and collected |
| BlockProperties.InnerCommandIsCopied | tools/latex-to-md/main.py:148-173 | a nested command that does not close the block is buffered verbatim, and the depth moves by one for `begin` and `end` only, whatever the environment name |
| BlockProperties.LiteralBlockIsClosed | tools/latex-to-md/main.py:148-168 | at depth 1, `\end{…}` closes a non-equation block: the buffer with the closing command is emitted, then the manual-conversion note |
| BlockProperties.LiteralCloseStep | tools/latex-to-md/main.py:148-168 | the closing step of a non-equation block |
| BlockProperties.EquationBlockIsClosed | tools/latex-to-md/main.py:148-164 | at depth 1, `\end{…}` closes an equation block: one rendering request for the buffer at the current counter, `"\n"` emitted, the counter moves by exactly one |
| BlockProperties.EquationCloseStep | tools/latex-to-md/main.py:148-164 | the closing step of an equation block |
| BlockProperties.BlockIsFilled | tools/latex-to-md/main.py:93-121 | opening a block and buffering text without commands emits only the opening |
| BlockProperties.BlockCharIsBuffered | tools/latex-to-md/main.py:120-173 | from any block state satisfying `Inv`, a character never raises; it closes the block exactly when it ends a nested command that brings the depth to 0; otherwise it is buffered silently, the depth moves only at the end of a nested `\begin`/`\end`, and the context is kept; when it closes, the buffer with it is emitted or rendered as `BlockClosed` says |
| BlockProperties.BlockBodyIsBuffered | tools/latex-to-md/main.py:120-173 | by induction on the text: while a block stays open, ANY text is appended verbatim to the buffer, nothing is emitted or rendered, `Inv` holds and the context is kept |
| BlockProperties.BlockCloses | tools/latex-to-md/main.py:148-168 | a block that closes with the last character of ANY text emits, or renders, its starting buffer followed by the whole text, and leaves normal mode |
| BlockProperties.WordStaysOpen | tools/latex-to-md/main.py:148-173 | text without a space or newline never closes a block, whatever commands it holds |
| BlockProperties.StaysOpenAppend | tools/latex-to-md/main.py:120-173 | a block open over every prefix of `a`, then of `b`, is open over every prefix of `a + b` |
| BlockProperties.ClosesAtEndAppend | tools/latex-to-md/main.py:120-173 | a block open over `a` that then closes with the last character of `b` closes with the last character of `a + b` |
| BlockProperties.EndCommandCloses | tools/latex-to-md/main.py:148-156 | at depth 1, `\end{T}` and a space or newline closes the block at that last character and not before |
| BlockProperties.EndTextCloses | tools/latex-to-md/main.py:120-156 | ANY text after which one level is open, followed by `\end{T}` and a space or newline, closes the block at that last character |
| BlockProperties.EquationTextCloses | tools/latex-to-md/main.py:120-164 | the same with `\end{equation}` and a newline |
| BlockProperties.LiteralBlock | tools/latex-to-md/main.py:93-168 | `\begin{T}` for a non-list, non-equation T, its completing character, and ANY body up to the character that closes the block emit the code-fence header, the body verbatim (nested commands, arguments and inner environments included), and the manual-conversion note; nothing is rendered and the state returns to where it was with no list open |
| BlockProperties.EquationBlock | tools/latex-to-md/main.py:93-164 | a whole equation block with ANY body up to the character that closes it emits the `<img>` link for `assets/equation_<n>.svg` and a newline, and requests rendering of that body (as `EquationRequest` prepares it) to that same path; the counter moves by one and nothing else changes |
| BlockProperties.RenderedEquation | tools/latex-to-md/main.py:93-164 | an equation written as `\begin{equation}`, ANY text after which one level is open, then `\end{equation}` and a newline: the link and a newline are emitted, and the renderer receives exactly that text with newlines turned into spaces and outer blanks stripped, under `assets/equation_<n>.svg` |
| BlockProperties.EquationEnd | tools/latex-to-md/main.py:159-162 | `\end{equation}` plus a newline is the suffix removed; the request is the body with newlines turned into spaces and stripped |
| BlockProperties.UnclosedBlockIsDropped | tools/latex-to-md/main.py:261-263 | a block still open at the end of the document, whatever its body holds, contributes only its opening; nothing of its buffer is flushed, nothing is rendered, and the footer follows |
| BlockProperties.TrailingCommandIsDropped | tools/latex-to-md/main.py:261-263 | a command name still being read at the end of the document is lost |
| Citations.Cite | tools/latex-to-md/main.py:195-202 | a known key returns its id and changes nothing; a new key takes the next id and enters both dictionaries; a new key missing from the bibliography raises, exactly then |
| Citations.DictSet | tools/latex-to-md/main.py:200 | assigning into the insertion-ordered dictionary keeps the ids in order, adds a new id last, and holds the assigned pair |
| Citations.Marker | tools/latex-to-md/main.py:197-202 | a footnote marker has the form `[^…]` |
| Citations.CiteAll | tools/latex-to-md/main.py:194-202 | citing a sequence of keys either raises `KeyError` or moves the counter forward by at most one per citation |
| Citations.Listed | tools/latex-to-md/main.py:62-67 | an optional field contributes nothing exactly when the entry lacks it |
| Citations.DictSetFresh | tools/latex-to-md/main.py:200 | assigning a new id appends it to the insertion-ordered dictionary |
| Citations.EmptyRegistryValid | tools/latex-to-md/main.py:51-53 | a fresh registry is valid with no key cited |
| Citations.CiteKeepsValid | tools/latex-to-md/main.py:194-202 | citing keeps the registry valid: a repeated key changes nothing and a new key gets id `start + 1 + (number of keys before)` |
| MachineProperties.EvaluateRegistry | tools/latex-to-md/main.py:194-202 | evaluating a command leaves the citation registry alone, or (only for `\cite` with a bibliography) replaces it by `Cite` of the last argument |
| MachineProperties.StepRegistry | tools/latex-to-md/main.py:194-202 | one character keeps the registry, or applies `Cite` of the last argument of the command it completes |
| MachineProperties.StepKeepsRegistryValid | tools/latex-to-md/main.py:194-202 | one character keeps the numbering valid, the list of cited keys only growing |
| MachineProperties.RunKeepsRegistryValid | tools/latex-to-md/main.py:261-262 | any successful run keeps the numbering valid: the cited keys only grow, each new key taking the next id after the ones before it |
| MachineProperties.ConvertNumbersCitations | tools/latex-to-md/main.py:252-263 | in any successful conversion with a bibliography, the footer is written from a registry that numbers the cited keys `citation_count + 1`, `+ 2`, … in order of first citation, each key once |
| Citations.CiteNewKey | tools/latex-to-md/main.py:198-202 | a new key in the bibliography is appended with the next id |
| Citations.CiteIdempotent | tools/latex-to-md/main.py:196-197 | citing the same key again returns the same id and the same registry |
| Citations.CiteAllNumbering | tools/latex-to-md/main.py:194-202 | citing a sequence of known keys numbers them `citation_count + 1, +2, …` in order of first citation, each key once |
| Citations.UrlLink | tools/latex-to-md/main.py:68-70 | the link is `[part 2](url)`, and it raises exactly when `url.split('/')` has fewer than three parts |
| Citations.FootnoteFor | tools/latex-to-md/main.py:61-71 | a footnote fails only for a malformed url |
| Citations.Footnotes | tools/latex-to-md/main.py:60-71 | the footnotes fail only with a malformed url |
| Citations.Footer | tools/latex-to-md/main.py:58-72 | the footer fails only with a malformed url |
| Citations.HostOfUrl | tools/latex-to-md/main.py:69-70 | an url `scheme://host/path` links with its host as the text |
| Citations.FootnoteShape | tools/latex-to-md/main.py:61-71 | every footnote starts with `[^id]: ` and ends with a blank line; an entry without author, title, year and url leaves no placeholder |
| Citations.FootnotesFailOnBadUrl | tools/latex-to-md/main.py:60-71 | the footer succeeds exactly when every entry's footnote does |
| Citations.FootnotesSucceed | tools/latex-to-md/main.py:60-71 | when every entry's footnote can be written, so can the footer's |
| Citations.FootnoteNeeded | tools/latex-to-md/main.py:60-71 | when the footnotes can be written, each entry's footnote can |
| Citations.FootnotesKeepFailure | tools/latex-to-md/main.py:60-71 | once a footnote raises, the footer raises the same exception |
| Citations.FootnotesStep | tools/latex-to-md/main.py:60-71 | one more entry appends its footnote, or makes the whole footer raise |
| Bibtex.TrimClosingBrace | tools/latex-to-md/main.py:242-245 | exactly one trailing `},` is removed, or failing that one trailing `}`, or nothing |
| Bibtex.ParseField | tools/latex-to-md/main.py:239-241 | the field name is stripped of whitespace at both ends |
| Bibtex.ToMap | tools/latex-to-md/main.py:246-248 | every key of the dictionary comes with its value from one of the pairs |
| Bibtex.BodyLines | tools/latex-to-md/main.py:236 | no body line holds a line boundary |
| Bibtex.ParseRecord | tools/latex-to-md/main.py:232-247 | every record has `reference_type`, and it is a prefix of the record text |
| Bibtex.RecordTexts | tools/latex-to-md/main.py:229 | no record text holds `"\n@"` |
| Bibtex.Parse | tools/latex-to-md/main.py:229-249 | every parsed record has `reference_type` |
| Bibtex.ToMapSnoc | tools/latex-to-md/main.py:246 | one more pair overwrites the dictionary at its key |
| Bibtex.FieldPairs | tools/latex-to-md/main.py:238-246 | one (name, value) pair per body line |
| Bibtex.RecordPairs | tools/latex-to-md/main.py:231-248 | one (key, fields) pair per record text |
| Bibtex.ParseFields | tools/latex-to-md/main.py:237-246 | the inner loop builds the dictionary of the record's field pairs, a later name replacing an earlier one |
| Bibtex.ParseBibtex | tools/latex-to-md/main.py:229-249 | the outer loop builds exactly `Parse(content)` |
| Bibtex.RecordKeyAndType | tools/latex-to-md/main.py:232-247 | a record `type{key,…` has key `key`, and `reference_type` is `type` whatever its lines say |
| Bibtex.RecordWithoutBrace | tools/latex-to-md/main.py:232-235 | without `{`, `find` gives -1: the type is the text without its last character, and the key is sliced from 0 |
| Bibtex.BracedField | tools/latex-to-md/main.py:239-246 | a line `name = {value},` gives the stripped name and the value without its brace |
| Bibtex.QuotedFieldKeepsQuote | tools/latex-to-md/main.py:239-246 | a line `name = "value",` keeps the closing quote and comma in the value |
| Bibtex.LastPairWins | tools/latex-to-md/main.py:246-248 | the dictionary holds the value of the last pair with a given key |
| Bibtex.ToMapKeys | tools/latex-to-md/main.py:246-248 | the dictionary's keys are exactly the pairs' keys |
| Bibtex.PreambleIgnored | tools/latex-to-md/main.py:229 | text before the first `"\n@"` is ignored and the rest is split at every `"\n@"` |
| PyStr.FindSpec | tools/latex-to-md/main.py:232-239 | `find` returns the first occurrence, or -1 exactly when there is none |
| PyStr.Find | tools/latex-to-md/main.py:232-239 | `find` returns -1 or an index at which the pattern fits inside the text |
| PyStr.Split | tools/latex-to-md/main.py:229 | `split` gives at least one piece |
| PyStr.SplitLines | tools/latex-to-md/main.py:236 | `splitlines` gives no more lines than the text has characters |
| PyStr.LStrip | tools/latex-to-md/main.py:240-241 | the result does not start with whitespace |
| PyStr.RStrip | tools/latex-to-md/main.py:240-241 | the result does not end with whitespace |
| PyStr.Strip | tools/latex-to-md/main.py:240-241 | the result neither starts nor ends with whitespace |
| PyStr.Slice | tools/latex-to-md/main.py:234-241 | a slice is a prefix of the text from its normalised lower bound |
| PyStr.ReplaceAll | tools/latex-to-md/main.py:159 | replacing by a text no longer than the pattern never lengthens |
| PyStr.RemoveSuffix | tools/latex-to-md/main.py:159 | `removesuffix` gives a prefix of the text |
| PyStr.Join | tools/latex-to-md/main.py:219 | the first part begins the joined text |
| PyStr.NatToString | tools/latex-to-md/main.py:213 | `str(n)` is not empty and ends with the digit of `n % 10` |
| PyStr.IntToString | tools/latex-to-md/main.py:213 | `str(n)` is not empty and ends with a digit |
| PyStr.NormalizeNewlines | tools/latex-to-md/main.py:257 | the line-ending fix never lengthens the text |
| PyStr.NormalizeDropsCrBeforeLf | tools/latex-to-md/main.py:257 | the line-ending fix removes exactly the `\r` characters directly before a `\n` and keeps every other character in order (`WithoutCrBeforeLf`) |
| PyStr.FindChar | tools/latex-to-md/main.py:232-239 | `find` of a character is the index of its first occurrence |
| PyStr.FindCharAbsent | tools/latex-to-md/main.py:232-239 | `find` of an absent character is -1 |
| PyStr.SliceSpec | tools/latex-to-md/main.py:234-241 | Python slicing with a possibly negative or out-of-range bound |
| PyStr.SplitSpec | tools/latex-to-md/main.py:229 | `split` gives at least one piece, no piece holds the separator, and joining the pieces gives the text back |
| PyStr.SplitLinesSpec | tools/latex-to-md/main.py:236 | `splitlines` gives no line for the empty text and no line holds a line boundary |
| PyStr.LStripSpec | tools/latex-to-md/main.py:240-241 | leading whitespace is removed, and only that |
| PyStr.RStripSpec | tools/latex-to-md/main.py:240-241 | trailing whitespace is removed, and only that |
| PyStr.StripSpec | tools/latex-to-md/main.py:240-241 | the stripped text neither starts nor ends with whitespace, and is empty exactly for a blank text |
| PyStr.StripUnchanged | tools/latex-to-md/main.py:240-241 | a text that neither starts nor ends with whitespace is left unchanged |
| PyStr.RemoveSuffixSpec | tools/latex-to-md/main.py:159 | `removesuffix` removes the suffix exactly when it is there |
| PyStr.RemoveAppendedSuffix | tools/latex-to-md/main.py:159 | removing a suffix just appended gives the text back |
| PyStr.NatToStringDigits | tools/latex-to-md/main.py:213 | `str(n)` is decimal digits without a leading zero |
| PyStr.NatToStringRoundTrip | tools/latex-to-md/main.py:213 | the digits of `str(n)` read back as `n` |
| PyStr.IntToStringSign | tools/latex-to-md/main.py:213 | `str(n)` starts with `-` exactly for a negative `n` |
| PyStr.IntToStringInjective | tools/latex-to-md/main.py:196-202 | distinct ids give distinct footnote markers |
| PyStr.NormalizeWithoutCarriageReturn | tools/latex-to-md/main.py:257 | a text without `\r` is left unchanged by the line-ending fix |
| PyStr.NormalizeConcat | tools/latex-to-md/main.py:257 | the fix works piecewise unless a `\r\n` pair straddles the cut |
| PyStr.NewlinesToSpaces | tools/latex-to-md/main.py:159 | replacing newlines by spaces keeps the length and changes exactly the newlines |

## Left out

- File reading and writing in `parse_bibtex` and `convert`: the model takes and returns the text. So do the assets directory check (`os.path.exists`, `os.mkdir`), `post_process`, `main` with its command-line handling, and the matplotlib configuration.
- `latex2svg`: the renderer is not modelled. An equation block produces a `Render(equation, path)` request, returned by the step that closes the block and collected in order by `Convert`. What the renderer writes, and its check of the equation text, are not part of this model.
- The state after an exception. Every exception aborts the conversion. The model returns the error and says nothing about the fields afterwards. `Converter.Parser.CiteKey` still performs the source's increment of `citation_counter` before the unknown-key exception.
- `parsed` is recorded by `Converter.Parser.NextChar` and nothing reads it, so it has no counterpart in `Machine`.
- Python's `str`/`dict` semantics are modelled only as far as the code uses them. Dictionaries iterated in insertion order (`citation_map`) are sequences of pairs. `isspace` and the line boundaries of `splitlines` are the fixed Unicode sets Python uses.
- `Converter.Convert`: does not say which rendering requests were issued before an exception, because the exception aborts the conversion.
- `Converter.Feed`: likewise says nothing about the requests or the fields after an exception.
- BlockProperties.InnerCommandIsCopied: states the effect of a whole nested command only for `\name{argument}` with a flat argument followed by a space or newline. Nested text of any other shape is covered one character at a time by `BlockCharIsBuffered` and by `BlockBodyIsBuffered`.
- BlockProperties.LiteralBlock, BlockProperties.EquationBlock, BlockProperties.UnclosedBlockIsDropped: these take the body through `StaysOpen`/`ClosesAtEnd`, which say where the block closes. That point is whatever `Run` finds. `EndTextCloses` and `RenderedEquation` derive it for a body followed by its `\end`.
- StateMachine.Initial: states only the mode, the block type and the citation counter; the other fields are given by its definition.

The source's behaviour is followed where it differs from a natural reading of
what the converter is for:
- a backslash does not reset the command buffers, which are cleared when a
  command completes;
- BibTeX values keep their quotes, and only one trailing `},` or `}` is
  removed;
- a malformed record never fails: `find` gives -1 and the slices are taken
  anyway;
- nothing pending at the end of the input is flushed.
