# latex2markdown in Dafny

A model of `latex2markdown.py`, a script that turns a LaTeX paper into
Markdown in five passes over the text:

1. `filter_document` strips lines, drops `%` comments and collapses blank runs.
2. `main_latext2markdown` rewrites citations, the abstract, figures and
   headings.
3. `filter_commands` keeps only allow-listed command lines.
4. `format_font` turns `\textbf{...}` into `**...**`.
5. `filter_document` runs once more.

The two rewriting passes push the text, one character at a time, through a
forty-character lookahead `Buffer`. A command is recognised when the window
starts with it. Each character the window lets go of is then emitted,
collected into the construct being read, or dropped.

The model has one module per part of the script:

- **Outcomes** (`outcomes.dfy`): `Option`, and `Outcome`, which is a result
  or a `Fault`. A fault stands for a Python exception (an index out of range
  or a failed assertion) or for a loop that never ends.
- **Text** (`text.dfy`): strings as `seq<char>`, and Python's `strip`,
  `split`, `join` and `replace`, each with its laws.
- **LookaheadBuffer** (`buffer.dfy`): the `Buffer` class (`add`, `empty`,
  `match`, `isempty`), and the step both windowed passes share.
- **LineFilter** (`line_filter.dfy`): `filter_document`.
- **CommandFilter** (`command_filter.dfy`): `filter_commands`.
- **FigureFields** (`figure_fields.dfy`): `get_figure`. The two loops that
  never end are modelled as the fault `NonTermination`.
- **FontStyle** (`font_style.dfy`): `format_font`, a per-character step
  folded over the input.
- **Conversion** (`conversion.dfy`): `main_latext2markdown`, modelled as
  follows:
  - an immutable state holds the window, the set of open constructs (the
    `store_...` flags), the accumulators, `bracket_count`, `figure_count`,
    `start_record` and the output as a sequence of chunks;
  - a step function takes the state one character forward;
  - a run folds the step over the input and stops at the first fault.
- **Pipeline** (`pipeline.dfy`): the five passes composed.

## Model

| member | source | states |
|---|---|---|
| LookaheadBuffer.New | latex2markdown.py:4-10 | a new buffer has the given capacity, holds nothing and is empty |
| LookaheadBuffer.Add | latex2markdown.py:11-19 | the window never exceeds its capacity; a character is evicted exactly when the window was full; the window grows by one until it is full |
| LookaheadBuffer.AddKeeps | latex2markdown.py:11-19 | nothing is lost: the evicted character, if any, followed by the new window is the old window followed by the added character |
| LookaheadBuffer.Empty | latex2markdown.py:20-32 | exactly `num` characters are taken when `0 <= num <= count`, and otherwise the whole window; the taken and remaining lengths add up to the old count, so an empty window gives `""` |
| LookaheadBuffer.EmptyKeeps | latex2markdown.py:20-32 | nothing is lost: the taken text followed by what remains is the old window |
| LookaheadBuffer.MatchMeans | latex2markdown.py:33-39 | `match` holds exactly when the window starts with the pattern, so it is false when fewer characters than the pattern are held; the pattern must fit the capacity |
| LookaheadBuffer.DrainMatched | latex2markdown.py:20-39 | draining a matched pattern's length returns that pattern and leaves the rest of the window |
| LookaheadBuffer.DoubledSpaceDropped | latex2markdown.py:183-184 | the oldest character is dropped exactly when the window starts with two spaces, and otherwise the window is unchanged |
| LookaheadBuffer.AdvanceKeeps | latex2markdown.py:182-184 | after one step the window is a suffix of the old window plus the new character; without a doubled space, nothing is lost between the evicted character and the window |
| LookaheadBuffer.AdvanceAt | latex2markdown.py:240-243 | over a text, when the new window does not start with two spaces (so nothing is dropped), the window after `n` characters is the last forty characters read, and the character evicted is the one forty places back |
| LineFilter.EntryOf | latex2markdown.py:53-60 | each input line yields at most one entry, a stripped, non-comment line followed by a newline: a blank line gives a lone newline, a line whose stripped text starts with `%` gives nothing, and any other line gives its stripped text |
| LineFilter.Collapse | latex2markdown.py:61-68 | the output has no two blank entries in a row; every entry comes from the input; the non-blank entries are exactly those of the input |
| LineFilter.CollapseKeeps | latex2markdown.py:61-68 | entries without two blanks in a row (and without a leading blank after a blank) pass through unchanged |
| LineFilter.CollapseRun | latex2markdown.py:61-68 | a run of one or more blank entries between two kept entries becomes exactly one blank entry |
| LineFilter.FilterDocument | latex2markdown.py:42-70 | the output is empty or ends in a newline; every line is stripped and not a `%` comment; it never holds three newlines in a row |
| LineFilter.FilterDocumentContent | latex2markdown.py:42-70 | the non-empty output lines are exactly the input's stripped, non-blank, non-comment lines, in order |
| LineFilter.ParagraphBreak | latex2markdown.py:42-70 | a line of text, one or more blank lines and a line of text come out as the two stripped lines with exactly one empty line between them |
| CommandFilter.FindEnv | latex2markdown.py:91-94 | the environment found is allow-listed and begun by the line; nothing is found exactly when no allow-listed environment is begun |
| CommandFilter.Decide | latex2markdown.py:88-113 | a line without a leading backslash is kept and leaves the scope alone; inside an environment every line is kept, and a line starting with that environment's `\end{...}` closes it |
| CommandFilter.DecideOutside | latex2markdown.py:89-103 | outside an environment, a backslash line is kept exactly when it begins an allow-listed environment (which it opens) or starts with `\paragraph` |
| CommandFilter.ParagraphListed | latex2markdown.py:96-100 | the command allow-list matches exactly the lines starting with `\paragraph` |
| CommandFilter.DropsUnlisted | latex2markdown.py:95-103 | outside an environment, an unlisted backslash line is dropped and nothing else changes |
| CommandFilter.EnvironmentBlock | latex2markdown.py:104-111 | inside environment `E`, every line up to and including the first one starting with `\end{E}` is kept, and the filter is outside after it |
| CommandFilter.KeptFrom | latex2markdown.py:88-113 | the kept lines are input lines in input order |
| CommandFilter.KeptProse | latex2markdown.py:112-113 | every line that does not start with a backslash is kept |
| CommandFilter.FilterCommands | latex2markdown.py:72-114 | the output splits into exactly the kept lines, each ended by a newline |
| FigureFields.PlainArgumentSplits | latex2markdown.py:126-134 | the argument read after `\includegraphics` or `\label` holds no `}`; once the `{` is found, the window is the argument, its `}` and what remains |
| FigureFields.CaptionArgumentSplits | latex2markdown.py:149-161 | the caption read keeps what was collected before; once the `{` is found, the window is the caption, its closing `}` and what remains |
| FigureFields.CollectCaption | latex2markdown.py:149-161 | a caption whose braces balance is read up to its depth-matched `}`, with inner braces kept |
| FigureFields.GetFigure | latex2markdown.py:116-164 | an empty body gives three empty fields; a body of 1 to 15 characters fails the capacity assertion; the only faults are that assertion and a loop that never ends |
| FigureFields.ScanCommand | latex2markdown.py:123-162 | a command other than the three, such as `\centering`, is dropped character by character and changes no field |
| FigureFields.FieldsRoundTrip | latex2markdown.py:116-164 | a body built from well-formed commands, other commands and other characters yields the arguments of each command, concatenated in order, and an empty field for a command that never occurs |
| FigureFields.UnclosedLabelSpins | latex2markdown.py:135-145 | a `\label` whose argument is never closed by `}` makes `get_figure` loop forever |
| FontStyle.FontStepOutGrows | latex2markdown.py:181-210 | one step only appends to the output |
| FontStyle.FontStepWindow | latex2markdown.py:181-204 | after one step the window is a suffix of the old window plus the new character |
| FontStyle.RunFromAppend | latex2markdown.py:181-210 | a run over positions `i` to `k` is the run over `i` to `j` continued over `j` to `k` |
| FontStyle.NoCommandNoBold | latex2markdown.py:186-204 | text without `\textbf{` never enters bold mode |
| FontStyle.FormatFont | latex2markdown.py:169-213 | the result is the loop's output followed by the final window, unconverted; for text without `\textbf{` or doubled spaces, every character except the last forty is emitted with `~` as a space, and the last forty (all of a shorter text) come out unchanged |
| FontStyle.BoldSpan | latex2markdown.py:169-213 | `pre \textbf{x} post` becomes `pre` (with `~` as a space), then `**`, then `x` with newlines as spaces, then `**`, then `post` (with `~` as a space except its last forty characters, which come out unchanged) |
| Conversion.ModeOrder | latex2markdown.py:245-401 | no branch runs exactly when no flag is set; otherwise the branch that runs is a set flag and every flag tested before it is clear |
| Conversion.CiteEmpty | latex2markdown.py:250-252 | an empty citation renders as `[@]` |
| Conversion.CiteRoundTrip | latex2markdown.py:250-252 | keys without commas, joined by commas, come back as `[@k1; @k2; ...]`, each key stripped of surrounding whitespace, so `\cite{a, b}` gives `[@a; @b]` |
| Conversion.CiteRead | latex2markdown.py:245-256 | a citation step that releases anything but `}` appends it to the citation text (nothing when nothing is released) and changes nothing but the window |
| Conversion.AbstractRead | latex2markdown.py:258-275 | an abstract step whose window does not start with `\end{abstract}` appends the released character to the abstract text and changes nothing but the window |
| Conversion.FigureRead | latex2markdown.py:278-300 | a figure step whose window does not start with the closing command appends the released character to the figure text and changes nothing but the window |
| Conversion.HeadingRead | latex2markdown.py:303-326 | a heading step that does not close the title applies the title scan to the released character, which sets the title and bracket depth; with nothing released only the window changes |
| Conversion.Reads | latex2markdown.py:240-401 | while a construct goes on, a run of any length is exactly the state whose window is the last forty characters and whose accumulator holds everything released (for a heading, the title and depth the scan makes of it) |
| Conversion.CiteClose | latex2markdown.py:245-256 | a `}` leaving the window ends the citation: its rendered text is emitted as one chunk and its flag clears |
| Conversion.FeedTitle | latex2markdown.py:303-326 | `Feed`, the per-character title scan that a heading's read applies to every released character (`ReadAt`, `HeadingRead`), reads a title whose braces stay open back whole at the depth it started from, and closes exactly at the `}` after it |
| Conversion.HeadingClose | latex2markdown.py:303-401 | a heading closed with fewer than two chunks emitted fails at `target[-2]`; otherwise it emits an optional newline, then `# ` or `## `, then the title with newlines as spaces, then an optional newline, and its flag clears |
| Conversion.AbstractText | latex2markdown.py:262-271 | the abstract's chunks join to `---\nabstract: >\n`, then the text, then the released character and a newline, then `---\n`, then an optional blank line |
| Conversion.AbstractClose | latex2markdown.py:258-275 | `\end{abstract}` at the window head fails at `buffer[1]` when fewer than two characters remain after it; otherwise it is drained, the front matter is emitted and the flag clears |
| Conversion.FigureClose | latex2markdown.py:278-300 | `\end{figure}` (or `\end{figure*}`) at the window head emits one numbered image line from `get_figure`, drops the released character, bumps the figure count and clears the flag; a fault of `get_figure` ends the pass |
| Conversion.CiteFromText | latex2markdown.py:245-256 | a citation read to its `}` gives exactly the state with the rendered text of everything released before the `}` appended as one chunk, and citation mode ended |
| Conversion.CiteFromKeys | latex2markdown.py:245-256 | from just after `\cite{`, keys released as `k1,k2,...` and then `}` come out as the one chunk `[@k1; @k2; ...]`, and citation mode ends |
| Conversion.AbstractFromText | latex2markdown.py:258-275 | an abstract read to `\end{abstract}` fails when fewer than two characters follow it in the window, and otherwise emits the front matter built from everything released since it opened, with the closing command drained and abstract mode ended |
| Conversion.FigureFromText | latex2markdown.py:278-300 | a figure read to its closing command fails with `get_figure`'s fault on a body it rejects, and otherwise gives exactly the state with that body's image line appended, numbered with the current count, the count raised by one and figure mode ended |
| Conversion.HeadingFromTitle | latex2markdown.py:303-326 | a heading read to the `}` that closes its title fails with fewer than two chunks before it, and otherwise emits an optional newline, the marker, the title it started with followed by the released title, newlines as spaces, and an optional newline, and heading mode ends; the starting title is non-empty only when one step opened both headings of a level, which share their title |
| Conversion.FigureFromParts | latex2markdown.py:278-300 | a figure whose body is built from well-formed commands emits the image line carrying exactly those commands' arguments |
| Conversion.OpenAllKeeps | latex2markdown.py:406-446 | testing the opening commands only sets flags of the constructs tested; it leaves the output and the figure count alone, and it starts recording only by opening the abstract |
| Conversion.NoTrigger | latex2markdown.py:406-446 | a window not starting with a backslash opens nothing |
| Conversion.BeginOpens | latex2markdown.py:406-446 | an opening command at the window head is drained, the construct's accumulator is emptied and its flag set; only `\begin{abstract}` starts recording, and the output and figure count are untouched |
| Conversion.OpenersApart | latex2markdown.py:406-446 | no opening command is a prefix of another, so a window starts with at most one of them |
| Conversion.IdleOpens | latex2markdown.py:406-451 | in idle mode, a window that starts with one opening command not followed by another command opens exactly that construct, then emits the released character (with `~` as a space) if recording is on |
| Conversion.OpensOne | latex2markdown.py:240-451 | the step that brings such an opening command to the window head gives exactly that state, and the construct is then the one being read |
| Conversion.IdleStepOutput | latex2markdown.py:448-451 | in idle mode the released character is emitted (with `~` as a space) whenever recording is on after the opening commands are tested, including the step that opens the abstract; nothing is emitted before the abstract opens |
| Conversion.StepGrows | latex2markdown.py:240-451 | one step only appends to the output and never stops recording; while a construct is read, no new flag is set; the figure count changes only while a figure is read, and then by exactly one, with that figure's image line, numbered with the count before it, as the one chunk appended |
| Conversion.RunGrows | latex2markdown.py:240-451 | over a whole run the output only grows, recording, once started, never stops, and the figure count rises by exactly the number of image lines (`![...`) emitted |
| Conversion.RunNumbers | latex2markdown.py:278-300 | over a whole run the image lines emitted are figure lines numbered on from the count at the start, one after another |
| Conversion.ConvertFigures | latex2markdown.py:239-300 | after the whole pass, `figure_count` is one more than the number of image lines the loop emitted (before the window is flushed), and those are figures numbered 1, 2, 3 and so on, in order |
| Conversion.RunSplit | latex2markdown.py:240-451 | a run over `i..k` that reaches state `r` at `j` is the run from `r` over `j..k`, so runs compose |
| Conversion.PlainRun | latex2markdown.py:240-451 | over text without a backslash or doubled space, the pass only slides the window |
| Conversion.Convert | latex2markdown.py:215-454 | the pass fails exactly when the loop fails; otherwise the result is the emitted chunks followed by whatever the window still holds, unconverted (lines 452-454); a document without commands and doubled spaces outputs only its last forty characters, or all of it when shorter |
| Pipeline.Latex2Markdown | latex2markdown.py:469-473 | only the conversion pass can fail, and then with its fault; any output is empty or ends in a newline, its lines are stripped and not comments, and it has no two blank lines in a row |

## Left out

- Reading the arguments and files (lines 456-475) is not modelled. The
  pipeline is a function from the input text to the output text, or to a
  fault.
- Python's `strip` removes every Unicode whitespace character. The model
  strips only space, tab, `\r` and `\n`.
- The buffer's `count` field always equals the list's length, so it is not
  kept separately.
- Python exceptions and endless loops are not executed behaviour here. They
  are the faults `IndexOutOfRange`, `AssertionFailed` and `NonTermination`,
  and a fault ends the run.
- Conversion.HeadingClose: `buffer.buffer[1]` in a heading branch cannot
  fail, because the window holds at least thirty-nine characters whenever a
  character is released. The model therefore has no fault for it there.
- FontStyle.BoldSpan: stated only for a span with at least one character
  before it, no backslash before it, no `}` inside it, at least forty
  characters after it, no second `\textbf{` after it and no doubled space
  anywhere. Other inputs are
  covered by the step function but not by a closed-form law.
- FontStyle.FormatFont and Conversion.Convert: the closed forms are stated only for text
  without doubled spaces. With a doubled space the window drops a
  character, and the closed form changes.
- FigureFields.FieldsRoundTrip and Conversion.FigureFromParts: stated for
  bodies built from well-formed parts. The three commands need option text
  without `{` and a closed argument. Any other command, such as
  `\centering`, needs a name without a backslash that is not a prefix of
  `includegraphics`, `label` or `caption`, and does not start with one. A
  body outside these forms is still modelled by `GetFigure`: a never-closed
  argument gives its `NonTermination` fault, and the rest is scanned as the
  script does. A lone backslash followed by another backslash, as in `\\`,
  and a command name that is a prefix of one of the three, are not covered
  by the round trip.
- Conversion.AbstractClose, Conversion.FigureClose and
  Conversion.HeadingClose describe one closing step; `CiteFromText`,
  `AbstractFromText`, `FigureFromText` and `HeadingFromTitle` describe one
  construct read from its opening to its close. A closed form for a whole
  document with several constructs is not stated; `RunSplit` composes runs
  and `RunGrows` states what every run keeps.
- Conversion.Reads, Conversion.CiteFromText, Conversion.CiteFromKeys,
  Conversion.AbstractFromText, Conversion.FigureFromText and
  Conversion.HeadingFromTitle: stated only while no window starts with two
  spaces. With a doubled space the window drops a character and the text
  released shifts, which these closed forms do not follow.
- Conversion.HeadingFromTitle: stated for a title whose brackets never close
  below the heading's own `{`, read at depth zero. A title with an unbalanced
  `}` ends the heading early, which `HeadingRead` and `HeadingClose` still
  cover step by step.
- Conversion.IdleOpens and Conversion.OpensOne: stated for a window with one
  opening command not followed by another command. When the drained window
  starts with a second opening command, the script opens it too in the same
  step only if it is tested after the first (the test order of lines
  406-446); otherwise it is read as text of the first construct.
  `OpenAllKeeps` still covers both cases.
- Pipeline.Latex2Markdown: the composition is stated through each pass's
  own contract. No end-to-end closed form for a whole paper is given.
- The `\l` in the image line's format string is kept as a backslash
  followed by `l`, as Python does for an unknown escape. Python's
  deprecation warning for it is not modelled.

