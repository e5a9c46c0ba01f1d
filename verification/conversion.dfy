/** `main_latext2markdown`: the first windowed pass. Characters enter a
    forty-character window; each one the window lets go of is either emitted,
    collected into the construct being read (a citation, the abstract, a
    figure, a heading) or dropped, and a construct's command is recognised
    when the window starts with it. */
module Conversion {
  import opened Outcomes
  import opened Text
  import opened LookaheadBuffer
  import opened FigureFields

  /** The constructs the pass rewrites, one per `store_...` flag of the script. */
  datatype Construct =
    | Cite | Abstract | FigureEnv | FigureStarEnv
    | Section | SectionStar | Subsection | SubsectionStar

  /** The command that opens a construct, tested in idle mode. */
  function Opener(k: Construct): (p: String)
    ensures 6 <= |p| <= 16 && p[0] == '\\'
  {
    match k
    case Cite => "\\cite{"
    case Section => "\\section{"
    case SectionStar => "\\section*{"
    case Subsection => "\\subsection{"
    case SubsectionStar => "\\subsection*{"
    case Abstract => "\\begin{abstract}"
    case FigureEnv => "\\begin{figure}"
    case FigureStarEnv => "\\begin{figure*}"
  }

  const EndAbstract: String := "\\end{abstract}"

  predicate IsFigure(k: Construct) {
    k == FigureEnv || k == FigureStarEnv
  }

  predicate IsHeading(k: Construct) {
    k == Section || k == SectionStar || k == Subsection || k == SubsectionStar
  }

  /** `\section` and `\section*` give a level-one heading. */
  predicate TopLevel(k: Construct) {
    k == Section || k == SectionStar
  }

  function FigureCloser(k: Construct): (p: String)
    ensures 12 <= |p| <= 13
  {
    if k == FigureStarEnv then "\\end{figure*}" else "\\end{figure}"
  }

  function Marker(k: Construct): String {
    if TopLevel(k) then "# " else "## "
  }

  /** The loop state of lines 227-239: the window, the flags that are set,
      `start_record`, the accumulators (`cite_arr`, `abstract_text`,
      `figure_text`, `section_title`, `subsection_title`), `bracket_count`,
      `figure_count` and the output chunks `target`. */
  datatype State = State(
    buf: Buffer,
    open: set<Construct>,
    startRecord: bool,
    cite: String,
    abstractText: String,
    figureText: String,
    sectionTitle: String,
    subsectionTitle: String,
    brackets: nat,
    figures: nat,
    target: seq<String>)

  predicate Ready(s: State) {
    Valid(s.buf) && s.buf.cap == WindowSize
  }

  function Init(): (s: State)
    ensures Ready(s) && s.open == {} && !s.startRecord && s.target == [] && s.figures == 1
  {
    State(New(WindowSize), {}, false, [], [], [], [], [], 0, 1, [])
  }

  // ---------------------------------------------------------------- modes

  /** The order in which the loop tests the flags (lines 245-401). */
  const Priority: seq<Construct> :=
    [Cite, Abstract, FigureEnv, FigureStarEnv, Section, SectionStar, Subsection, SubsectionStar]

  /** The construct whose branch runs: the first set flag in the loop's order. */
  function Mode(open: set<Construct>): (r: Option<Construct>)
    ensures r.Some? ==> r.value in open
  {
    if Cite in open then Some(Cite)
    else if Abstract in open then Some(Abstract)
    else if FigureEnv in open then Some(FigureEnv)
    else if FigureStarEnv in open then Some(FigureStarEnv)
    else if Section in open then Some(Section)
    else if SectionStar in open then Some(SectionStar)
    else if Subsection in open then Some(Subsection)
    else if SubsectionStar in open then Some(SubsectionStar)
    else None
  }

  function Rank(k: Construct): (i: nat)
    ensures i < |Priority| && Priority[i] == k
  {
    match k
    case Cite => 0
    case Abstract => 1
    case FigureEnv => 2
    case FigureStarEnv => 3
    case Section => 4
    case SectionStar => 5
    case Subsection => 6
    case SubsectionStar => 7
  }

  /** Idle exactly when no flag is set; otherwise the branch that runs is the
      set flag that comes first, and every flag before it is clear. */
  lemma ModeOrder(open: set<Construct>)
    ensures Mode(open).None? <==> open == {}
    ensures Mode(open).Some? ==>
              Mode(open).value in open &&
              forall j :: 0 <= j < Rank(Mode(open).value) ==> Priority[j] !in open
  {
    if Mode(open).None? {
      forall k | k in open ensures false {
        match k
        case Cite =>
        case Abstract =>
        case FigureEnv =>
        case FigureStarEnv =>
        case Section =>
        case SectionStar =>
        case Subsection =>
        case SubsectionStar =>
      }
    }
  }

  // ------------------------------------------------------------ citations

  /** The keys of `\cite{a,b}` each become `@key`, stripped. */
  function CiteKeys(entries: seq<String>): (r: seq<String>)
    ensures |r| == |entries|
    ensures forall i :: 0 <= i < |r| ==> r[i] == "@" + Strip(entries[i])
  {
    seq(|entries|, i requires 0 <= i < |entries| => "@" + Strip(entries[i]))
  }

  /** Lines 250-252: the collected text split at commas, rendered as
      `[@a; @b]`. */
  function CiteText(collected: String): String {
    "[" + Join(CiteKeys(Split(collected, ',')), "; ") + "]"
  }

  /** Lines 245-256 for one released character. */
  function CiteStep(a: State, v: Option<char>): State {
    if v.None? then a
    else if v.value == '}' then a.(open := a.open - {Cite}, target := a.target + [CiteText(a.cite)])
    else a.(cite := a.cite + [v.value])
  }

  /** An empty citation renders as `[@]`: Python's split of the empty text
      yields one empty key. */
  lemma CiteEmpty()
    ensures CiteText([]) == "[@]"
  {
    var keys := CiteKeys(Split([], ','));
    assert Split([], ',') == [[]];
    assert |keys| == 1 && keys[0] == "@" + Strip([]);
    var none: String := [];
    assert Stripped(none) && Strip(none) == none;
    assert "@" + none == "@";
    assert keys == ["@"];
    assert Join(keys, "; ") == "@";
  }

  /** Keys without commas, joined by commas, come back as the same keys, each
      stripped of surrounding spaces, marked with `@` and separated by `; `. */
  lemma CiteRoundTrip(keys: seq<String>)
    requires |keys| >= 1
    requires forall i :: 0 <= i < |keys| ==> ',' !in keys[i]
    ensures CiteText(Join(keys, ",")) == "[" + Join(CiteKeys(keys), "; ") + "]"
  {
    SplitJoin(keys, ',');
  }

  // ------------------------------------------------------------- abstract

  /** Lines 262-271: the YAML front matter. The character the window let go
      of as it reached `\end{abstract}` comes after the collected text, with
      a newline unless it is one; a newline also follows when the second
      character left in the window is not one. */
  function AbstractChunks(text: String, v: Option<char>, window: String): seq<String>
    requires |window| >= 2
  {
    ["---\nabstract: >\n"] + Chars(text)
      + (if v.Some? then [[v.value]] + (if v.value != '\n' then ["\n"] else []) else [])
      + ["---\n"]
      + (if window[1] != '\n' then ["\n"] else [])
  }

  /** Lines 258-275 for one step. Reading `buffer.buffer[1]` fails when
      fewer than two characters remain after `\end{abstract}` is drained. */
  function AbstractStep(a: State, v: Option<char>): (r: Outcome<State>)
    requires Ready(a)
    ensures r.Done? ==> Ready(r.value)
  {
    if Match(a.buf, EndAbstract) then
      var b := Empty(a.buf, |EndAbstract|).buf;
      if |b.items| < 2 then Failed(IndexOutOfRange)
      else Done(a.(buf := b, open := a.open - {Abstract},
                   target := a.target + AbstractChunks(a.abstractText, v, b.items)))
    else if v.Some? then Done(a.(abstractText := a.abstractText + [v.value]))
    else Done(a)
  }

  // -------------------------------------------------------------- figures

  /** Lines 283 and 295: the Markdown image line of a figure, numbered `n`. The `\l`
      of the script's format string is not an escape, so it stays. */
  function FigureLine(fig: Figure, n: nat): String {
    "![\\label{" + fig.labelText + "}**Figure " + ShowNat(n) + ":** " + fig.caption
      + "](" + fig.path + "){fullwidth=t}\n"
  }

  /** A chunk that starts a Markdown image, `![`. Of all the chunks the pass
      emits, only a figure's line does. */
  predicate IsImage(chunk: String) {
    |chunk| >= 2 && chunk[0] == '!' && chunk[1] == '['
  }

  /** The number of image lines among the chunks. */
  function Images(chunks: seq<String>): nat
    decreases |chunks|
  {
    if |chunks| == 0 then 0 else (if IsImage(chunks[0]) then 1 else 0) + Images(chunks[1..])
  }

  lemma {:induction false} ImagesAppend(a: seq<String>, b: seq<String>)
    ensures Images(a + b) == Images(a) + Images(b)
    decreases |a|
  {
    if |a| > 0 {
      assert (a + b)[1..] == a[1..] + b;
      ImagesAppend(a[1..], b);
    } else {
      assert a + b == b;
    }
  }

  lemma {:induction false} NoImages(chunks: seq<String>)
    requires forall i :: 0 <= i < |chunks| ==> !IsImage(chunks[i])
    ensures Images(chunks) == 0
    decreases |chunks|
  {
    if |chunks| > 0 {
      NoImages(chunks[1..]);
    }
  }

  lemma FigureLineIsImage(fig: Figure, n: nat)
    ensures Images([FigureLine(fig, n)]) == 1
  {
    var x := FigureLine(fig, n);
    assert x[0] == '!' && x[1] == '[';
  }

  /** Lines 278-300 for one step: at `\end{figure}` (or `\end{figure*}`) the
      collected body is read by `get_figure`, whose failure ends the pass. */
  function FigureStep(a: State, v: Option<char>, k: Construct): (r: Outcome<State>)
    requires Ready(a) && IsFigure(k)
    ensures r.Done? ==> Ready(r.value)
  {
    if Match(a.buf, FigureCloser(k)) then
      var b := Empty(a.buf, |FigureCloser(k)|).buf;
      match GetFigure(a.figureText)
      case Failed(f) => Failed(f)
      case Done(fig) =>
        Done(a.(buf := b, open := a.open - {k},
                target := a.target + [FigureLine(fig, a.figures)], figures := a.figures + 1))
    else if v.Some? then Done(a.(figureText := a.figureText + [v.value]))
    else Done(a)
  }

  // ------------------------------------------------------------- headings

  /** The title being read, or the title once its closing brace arrived. */
  datatype TitleScan = Reading(title: String, depth: nat) | Closed(title: String)

  /** One released character of a heading: braces nest, and a `}` at depth
      zero ends the title. */
  function TitleStep(title: String, depth: nat, v: char): (r: TitleScan)
    ensures r.Closed? <==> v == '}' && depth == 0
    ensures r.Closed? ==> r.title == title
    ensures r.Reading? ==> r.title == title + [v]
  {
    if v == '{' then Reading(title + [v], depth + 1)
    else if v == '}' then
      if depth > 0 then Reading(title + [v], depth - 1) else Closed(title)
    else Reading(title + [v], depth)
  }

  /** `TitleStep` over a sequence of released characters, stopping at the close. */
  function Feed(title: String, depth: nat, x: String): TitleScan
    decreases |x|
  {
    if |x| == 0 then Reading(title, depth)
    else match TitleStep(title, depth, x[0])
      case Closed(t) => Closed(t)
      case Reading(t, d) => Feed(t, d, x[1..])
  }

  /** A title whose braces balance is read whole and leaves the depth at zero;
      followed by `}`, it closes exactly at that brace, with nested braces
      kept. */
  lemma {:induction false} FeedTitle(title: String, depth: nat, x: String)
    requires Closes(x, depth + 1)
    ensures Feed(title, depth, x) == Reading(title + x, 0)
    ensures Feed(title, depth, x + "}") == Closed(title + x)
    decreases |x|
  {
    if |x| == 0 {
      assert x + "}" == "}";
      assert title + x == title;
    } else {
      var d: nat := if x[0] == '{' then depth + 1 else if x[0] == '}' then depth - 1 else depth;
      assert (x + "}")[0] == x[0] && (x + "}")[1..] == x[1..] + "}";
      FeedTitle(title + [x[0]], d, x[1..]);
      assert title + [x[0]] + x[1..] == title + x;
    }
  }

  function Title(a: State, k: Construct): String {
    if TopLevel(k) then a.sectionTitle else a.subsectionTitle
  }

  function WithTitle(a: State, k: Construct, t: String): State {
    if TopLevel(k) then a.(sectionTitle := t) else a.(subsectionTitle := t)
  }

  /** Lines 314-323: what a heading emits when it closes. A newline first
      unless the chunk before the last one is a lone newline, then the
      marker, the title with newlines as spaces, and a newline unless the
      window's second character is one. */
  function HeadingChunks(target: seq<String>, k: Construct, title: String, window: String): seq<String>
    requires |target| >= 2 && |window| >= 2
  {
    (if target[|target| - 2] != "\n" then ["\n"] else [])
      + [Marker(k)] + Chars(NewlinesToSpaces(title))
      + (if window[1] != '\n' then ["\n"] else [])
  }

  /** Lines 303-401 for one step of a heading. `target[-2]` fails when fewer
      than two chunks have been emitted. The window holds at least
      thirty-nine characters whenever one is released, so `buffer.buffer[1]`
      cannot fail here. */
  function HeadingStep(a: State, v: Option<char>, k: Construct): (r: Outcome<State>)
    requires Ready(a) && IsHeading(k)
    requires v.Some? ==> |a.buf.items| >= 2
    ensures r.Done? ==> Ready(r.value)
  {
    if v.None? then Done(a)
    else match TitleStep(Title(a, k), a.brackets, v.value)
      case Reading(t, d) => Done(WithTitle(a, k, t).(brackets := d))
      case Closed(t) =>
        if |a.target| < 2 then Failed(IndexOutOfRange)
        else Done(a.(open := a.open - {k},
                     target := a.target + HeadingChunks(a.target, k, t, a.buf.items)))
  }

  // ------------------------------------------------------------ idle mode

  /** The order in which idle mode tests the opening commands (lines 406-446). */
  const Triggers: seq<Construct> :=
    [Cite, Section, SectionStar, Subsection, SubsectionStar, Abstract, FigureEnv, FigureStarEnv]

  /** Opening a construct: its command is drained from the window, its
      accumulator starts empty and its flag is set; `\begin{abstract}` also
      starts recording. */
  function Begin(a: State, k: Construct): (r: State)
    requires Ready(a)
    ensures Ready(r)
  {
    var b := a.(buf := Empty(a.buf, |Opener(k)|).buf, open := a.open + {k});
    match k
    case Cite => b.(cite := [])
    case Section => b.(sectionTitle := [])
    case SectionStar => b.(sectionTitle := [])
    case Subsection => b.(subsectionTitle := [])
    case SubsectionStar => b.(subsectionTitle := [])
    case Abstract => b.(abstractText := [], startRecord := true)
    case FigureEnv => b.(figureText := [])
    case FigureStarEnv => b.(figureText := [])
  }

  /** Each opening command is tested in turn on the window as the earlier
      tests left it. (The state is part of the measure only so that a call on
      the constant list `Triggers` is not unfolded all the way by the
      verifier.) */
  function OpenAll(a: State, ks: seq<Construct>): (r: State)
    requires Ready(a)
    ensures Ready(r)
    decreases |ks|, a
  {
    if |ks| == 0 then a
    else OpenAll(if Match(a.buf, Opener(ks[0])) then Begin(a, ks[0]) else a, ks[1..])
  }

  /** Lines 406-451 for one step: after the opening commands are tested, the
      released character is emitted, with `~` as a space, once recording
      has started. */
  function IdleStep(a: State, v: Option<char>): (r: State)
    requires Ready(a)
    ensures Ready(r)
  {
    var b := OpenAll(a, Triggers);
    if v.Some? && b.startRecord then b.(target := b.target + [[Tilde(v.value)]]) else b
  }

  // ------------------------------------------------------------- the loop

  /** The branch of a set flag. */
  function Inside(a: State, v: Option<char>, k: Construct): (r: Outcome<State>)
    requires Ready(a)
    requires v.Some? ==> |a.buf.items| >= 2
    ensures r.Done? ==> Ready(r.value)
  {
    match k
    case Cite => Done(CiteStep(a, v))
    case Abstract => AbstractStep(a, v)
    case FigureEnv => FigureStep(a, v, k)
    case FigureStarEnv => FigureStep(a, v, k)
    case _ => HeadingStep(a, v, k)
  }

  /** One iteration of the loop of lines 240-451: the character enters the
      window, a doubled leading space is dropped, and the branch of the first
      set flag runs, or idle mode when none is set. */
  function Step(s: State, c: char): (r: Outcome<State>)
    requires Ready(s)
    ensures r.Done? ==> Ready(r.value)
  {
    var p := Advance(s.buf, c);
    var a := s.(buf := p.buf);
    match Mode(s.open)
    case None => Done(IdleStep(a, p.evicted))
    case Some(k) => Inside(a, p.evicted, k)
  }

  /** The state reached from `s` over the characters of `t` from `lo` up to
      (not including) `hi`; a failing step ends the run. */
  function RunFrom(s: State, t: String, lo: nat, hi: nat): (r: Outcome<State>)
    requires Ready(s) && lo <= hi <= |t|
    ensures r.Done? ==> Ready(r.value)
    decreases hi - lo
  {
    if hi == lo then Done(s)
    else match RunFrom(s, t, lo, hi - 1)
      case Failed(f) => Failed(f)
      case Done(r) => Step(r, t[hi - 1])
  }

  /** `latex2markdown.py`'s `main_latext2markdown`: the loop, then the window flushed
      as it is, and the chunks joined. */
  function Convert(document: String): (r: Outcome<String>)
    ensures r.Failed? <==> RunFrom(Init(), document, 0, |document|).Failed?
    ensures RunFrom(Init(), document, 0, |document|).Done? ==>
              var s := RunFrom(Init(), document, 0, |document|).value;
              r == Done(Concat(s.target + [s.buf.items]))
    ensures '\\' !in document && NoDoubledSpace(document) ==>
              r == Done(if |document| <= WindowSize then document else document[|document| - WindowSize..])
  {
    var o := RunFrom(Init(), document, 0, |document|);
    PlainFinish(document);
    Finish(o)
  }

  /** After the loop: the chunks so far, then whatever the window still holds. */
  function Finish(o: Outcome<State>): (r: Outcome<String>)
    requires o.Done? ==> Ready(o.value)
    ensures r.Failed? <==> o.Failed?
  {
    match o
    case Failed(f) => Failed(f)
    case Done(s) => Done(Concat(s.target + [Empty(s.buf, -1).taken]))
  }

  // ---------------------------------------------------------- single steps

  /** The released character and the window after it enters. */
  function Released(s: State, c: char): Option<char>
    requires Ready(s)
  {
    Advance(s.buf, c).evicted
  }

  function Moved(s: State, c: char): (a: State)
    requires Ready(s)
    ensures Ready(a)
  {
    s.(buf := Advance(s.buf, c).buf)
  }

  lemma StepIdle(s: State, c: char)
    requires Ready(s) && s.open == {}
    ensures Step(s, c) == Done(IdleStep(Moved(s, c), Released(s, c)))
  {
    ModeOrder(s.open);
  }

  lemma StepInside(s: State, c: char, k: Construct)
    requires Ready(s) && Mode(s.open) == Some(k)
    ensures Released(s, c).Some? ==> |Moved(s, c).buf.items| >= 2
    ensures Step(s, c) == Inside(Moved(s, c), Released(s, c), k)
  {
  }

  /** A citation ends at the first `}` the window lets go of: its collected
      text is emitted as one `[@a; @b]` chunk and its flag clears. */
  lemma CiteClose(s: State, c: char)
    requires Ready(s) && Mode(s.open) == Some(Cite) && Released(s, c) == Some('}')
    ensures Step(s, c) == Done(Moved(s, c).(open := s.open - {Cite}, target := s.target + [CiteText(s.cite)]))
  {
    StepInside(s, c, Cite);
  }

  /** The text of a heading's chunks. */
  lemma HeadingText(target: seq<String>, k: Construct, title: String, w: String)
    requires |target| >= 2 && |w| >= 2
    ensures Concat(target + HeadingChunks(target, k, title, w)) ==
              Concat(target)
              + (if target[|target| - 2] != "\n" then "\n" else "")
              + Marker(k) + NewlinesToSpaces(title)
              + (if w[1] != '\n' then "\n" else "")
  {
    var lead: seq<String> := if target[|target| - 2] != "\n" then ["\n"] else [];
    var trail: seq<String> := if w[1] != '\n' then ["\n"] else [];
    var body := Chars(NewlinesToSpaces(title));
    var C, L, M, N, T := Concat(target), Concat(lead), Marker(k), NewlinesToSpaces(title), Concat(trail);
    assert HeadingChunks(target, k, title, w) == lead + [Marker(k)] + body + trail;
    ConcatOne("\n");
    ConcatOne(M);
    if target[|target| - 2] != "\n" {
      assert L == "\n";
    } else {
      assert L == [];
    }
    if w[1] != '\n' {
      assert T == "\n";
    } else {
      assert T == [];
    }
    ConcatAppend(lead, [M]);
    ConcatChars(N);
    ConcatAppend(lead + [M], body);
    ConcatAppend(lead + [M] + body, trail);
    ConcatAppend(target, lead + [M] + body + trail);
    AppendAssoc(C, L + M + N, T);
    AppendAssoc(C, L + M, N);
    AppendAssoc(C, L, M);
  }

  /** A heading ends at a `}` let go of at brace depth zero. With fewer than
      two chunks emitted so far the script's `target[-2]` fails; otherwise
      the heading line is emitted: a newline first unless the chunk before
      the last is a lone newline, `# ` or `## `, the title with newlines as
      spaces, and a newline unless the window's second character is one. */
  lemma HeadingClose(s: State, c: char, k: Construct)
    requires Ready(s) && Mode(s.open) == Some(k) && IsHeading(k)
    requires Released(s, c) == Some('}') && s.brackets == 0
    ensures |s.target| < 2 ==> Step(s, c) == Failed(IndexOutOfRange)
    ensures |s.target| >= 2 ==>
              Step(s, c).Done? && Step(s, c).value.open == s.open - {k} &&
              Concat(Step(s, c).value.target) ==
                Concat(s.target)
                + (if s.target[|s.target| - 2] != "\n" then "\n" else "")
                + Marker(k) + NewlinesToSpaces(Title(s, k))
                + (if Moved(s, c).buf.items[1] != '\n' then "\n" else "")
  {
    StepInside(s, c, k);
    var a := Moved(s, c);
    assert Title(a, k) == Title(s, k);
    assert Step(s, c) == HeadingStep(a, Some('}'), k);
    if |s.target| >= 2 {
      assert Step(s, c) == Done(a.(open := a.open - {k}, target := a.target + HeadingChunks(a.target, k, Title(s, k), a.buf.items)));
      HeadingText(s.target, k, Title(s, k), a.buf.items);
    }
  }

  /** The character let go of as the abstract closes, ending in a newline. */
  function LastLine(v: Option<char>): String {
    if v.None? then [] else if v.value == '\n' then "\n" else [v.value, '\n']
  }

  /** A newline unless the window goes on with one. */
  function Spacer(w: String): String
    requires |w| >= 2
  {
    if w[1] != '\n' then "\n" else []
  }

  /** The front matter as text: the collected abstract and the last
      character let go of, between `---` lines. */
  function FrontMatter(text: String, v: Option<char>, w: String): String
    requires |w| >= 2
  {
    "---\nabstract: >\n" + text + LastLine(v) + "---\n" + Spacer(w)
  }

  lemma AbstractText(text: String, v: Option<char>, w: String)
    requires |w| >= 2
    ensures Concat(AbstractChunks(text, v, w)) == FrontMatter(text, v, w)
  {
    var A: seq<String> := ["---\nabstract: >\n"];
    var B := Chars(text);
    var V: seq<String> := if v.Some? then [[v.value]] + (if v.value != '\n' then ["\n"] else []) else [];
    var D: seq<String> := ["---\n"];
    var T: seq<String> := if w[1] != '\n' then ["\n"] else [];
    assert AbstractChunks(text, v, w) == A + B + V + D + T;
    ConcatOne("---\nabstract: >\n");
    ConcatOne("---\n");
    ConcatOne("\n");
    ConcatChars(text);
    if v.Some? {
      ConcatOne([v.value]);
      if v.value != '\n' {
        ConcatAppend([[v.value]], ["\n"]);
        assert Concat(V) == LastLine(v);
      } else {
        assert V == [[v.value]];
        assert Concat(V) == LastLine(v);
      }
    } else {
      assert Concat(V) == LastLine(v);
    }
    if w[1] != '\n' {
      assert Concat(T) == Spacer(w);
    } else {
      assert Concat(T) == Spacer(w);
    }
    ConcatAppend(A, B);
    ConcatAppend(A + B, V);
    ConcatAppend(A + B + V, D);
    ConcatAppend(A + B + V + D, T);
  }

  /** At `\end{abstract}` the command is drained and the front matter is
      emitted, unless fewer than two characters are left in the window, where
      the script's `buffer.buffer[1]` fails. */
  lemma AbstractClose(s: State, c: char)
    requires Ready(s) && Mode(s.open) == Some(Abstract)
    requires StartsWith(Moved(s, c).buf.items, EndAbstract)
    ensures |Moved(s, c).buf.items| < |EndAbstract| + 2 ==> Step(s, c) == Failed(IndexOutOfRange)
    ensures |Moved(s, c).buf.items| >= |EndAbstract| + 2 ==>
              var w := Moved(s, c).buf.items[|EndAbstract|..];
              Step(s, c).Done? && Step(s, c).value.open == s.open - {Abstract} &&
              Step(s, c).value.buf.items == w &&
              Concat(Step(s, c).value.target) ==
                Concat(s.target) + FrontMatter(s.abstractText, Released(s, c), w)
  {
    var a := Moved(s, c);
    StepInside(s, c, Abstract);
    MatchMeans(a.buf, EndAbstract);
    DrainMatched(a.buf, EndAbstract);
    if |a.buf.items| >= |EndAbstract| + 2 {
      var w := a.buf.items[|EndAbstract|..];
      var chunks := AbstractChunks(s.abstractText, Released(s, c), w);
      assert Step(s, c).value.target == s.target + chunks;
      ConcatAppend(s.target, chunks);
      AbstractText(s.abstractText, Released(s, c), w);
    }
  }

  /** At `\end{figure}` (or `\end{figure*}` for a starred figure) the command
      is drained and the collected body is read: a failure of `get_figure`
      ends the pass with that failure; otherwise the figure's image line,
      numbered with the running count, is emitted and the count goes up. */
  lemma FigureClose(s: State, c: char, k: Construct)
    requires Ready(s) && Mode(s.open) == Some(k) && IsFigure(k)
    requires StartsWith(Moved(s, c).buf.items, FigureCloser(k))
    ensures GetFigure(s.figureText).Failed? ==> Step(s, c) == Failed(GetFigure(s.figureText).fault)
    ensures GetFigure(s.figureText).Done? ==>
              Step(s, c) == Done(s.(buf := Buffer(WindowSize, Moved(s, c).buf.items[|FigureCloser(k)|..]),
                                   open := s.open - {k},
                                   target := s.target + [FigureLine(GetFigure(s.figureText).value, s.figures)],
                                   figures := s.figures + 1))
  {
    StepInside(s, c, k);
    FigureStepClose(Moved(s, c), Released(s, c), k);
  }

  lemma FigureStepClose(a: State, v: Option<char>, k: Construct)
    requires Ready(a) && IsFigure(k) && StartsWith(a.buf.items, FigureCloser(k))
    ensures GetFigure(a.figureText).Failed? ==> FigureStep(a, v, k) == Failed(GetFigure(a.figureText).fault)
    ensures GetFigure(a.figureText).Done? ==>
              FigureStep(a, v, k) == Done(a.(buf := Buffer(WindowSize, a.buf.items[|FigureCloser(k)|..]),
                                             open := a.open - {k},
                                             target := a.target + [FigureLine(GetFigure(a.figureText).value, a.figures)],
                                             figures := a.figures + 1))
  {
    MatchMeans(a.buf, FigureCloser(k));
    DrainMatched(a.buf, FigureCloser(k));
  }

  /** A figure whose body is built from well-formed `\includegraphics`,
      `\label` and `\caption` commands and other text is emitted with exactly
      those commands' arguments. */
  lemma FigureFromParts(s: State, c: char, k: Construct, ps: seq<Part>)
    requires Ready(s) && Mode(s.open) == Some(k) && IsFigure(k)
    requires StartsWith(Moved(s, c).buf.items, FigureCloser(k))
    requires s.figureText == EncodeAll(ps)
    requires forall i :: 0 <= i < |ps| ==> WellFormed(ps[i])
    requires |EncodeAll(ps)| == 0 || |EncodeAll(ps)| >= |GraphicsCmd|
    ensures Step(s, c).Done?
    ensures Step(s, c).value.target == s.target + [FigureLine(FieldsOf(ps, NoFields), s.figures)]
  {
    FieldsRoundTrip(ps);
    FigureClose(s, c, k);
  }

  // ------------------------------------------------------------ idle steps

  /** Testing the opening commands only sets flags, and only of the
      constructs tested; it leaves the output and the figure count alone, and
      starts recording only by opening the abstract. */
  lemma {:induction false} OpenAllKeeps(a: State, ks: seq<Construct>)
    requires Ready(a)
    ensures a.open <= OpenAll(a, ks).open
    ensures forall k :: k in OpenAll(a, ks).open - a.open ==> k in ks
    ensures OpenAll(a, ks).target == a.target && OpenAll(a, ks).figures == a.figures
    ensures a.startRecord ==> OpenAll(a, ks).startRecord
    ensures OpenAll(a, ks).startRecord && !a.startRecord ==> Abstract in OpenAll(a, ks).open
    decreases |ks|
  {
    if |ks| > 0 {
      var b := if Match(a.buf, Opener(ks[0])) then Begin(a, ks[0]) else a;
      OpenAllKeeps(b, ks[1..]);
      forall k | k in OpenAll(a, ks).open - a.open ensures k in ks {
        if k != ks[0] {
          InTail(k, ks);
        }
      }
    }
  }

  /** The window does not go on with a command. */
  predicate Calm(w: String) {
    |w| == 0 || w[0] != '\\'
  }

  /** A window that does not start with a backslash opens nothing. */
  lemma {:induction false} NoTrigger(a: State, ks: seq<Construct>)
    requires Ready(a) && Calm(a.buf.items)
    ensures OpenAll(a, ks) == a
    decreases |ks|
  {
    if |ks| > 0 {
      MatchMeans(a.buf, Opener(ks[0]));
      NoTrigger(a, ks[1..]);
    }
  }

  /** In idle mode the released character is emitted, with `~` as a space,
      exactly when recording has started, including the step that opens the
      abstract and starts recording; recording starts only with the abstract. */
  lemma IdleStepOutput(a: State, v: Option<char>)
    requires Ready(a)
    ensures IdleStep(a, v).startRecord && v.Some? ==>
              IdleStep(a, v).target == a.target + [[Tilde(v.value)]]
    ensures v.None? ==> IdleStep(a, v).target == a.target
    ensures !a.startRecord && Abstract !in IdleStep(a, v).open ==>
              !IdleStep(a, v).startRecord && IdleStep(a, v).target == a.target
  {
    OpenAllKeeps(a, Triggers);
  }

  // ------------------------------------------------------ what a step keeps

  /** The output only grows, the figure count goes up by exactly the number
      of image lines emitted, and recording, once started, never stops. */
  predicate Grows(s: State, r: State) {
    IsPrefix(s.target, r.target)
    && r.figures == s.figures + Images(r.target[|s.target|..])
    && (s.startRecord ==> r.startRecord)
  }

  /** `Grows` and the other facts of `StepGrows`, branch by branch: no new
      flag, and a count that moves only by one figure line, numbered with
      the count before it. */
  predicate GrowsByOne(a: State, r: Outcome<State>) {
    r.Done? ==>
      Grows(a, r.value) && r.value.open <= a.open &&
      (r.value.figures != a.figures ==>
         GetFigure(a.figureText).Done? && r.value.figures == a.figures + 1 &&
         r.value.target == a.target + [FigureLine(GetFigure(a.figureText).value, a.figures)])
  }

  /** Chunks that hold no image line, appended to the output. */
  lemma PlainChunks(target: seq<String>, d: seq<String>)
    requires Images(d) == 0
    ensures IsPrefix(target, target + d) && Images((target + d)[|target|..]) == 0
  {
    assert (target + d)[|target|..] == d;
  }

  lemma CiteTextPlain(collected: String)
    ensures Images([CiteText(collected)]) == 0
  {
    var x := CiteText(collected);
    assert x[0] == '[';
  }

  lemma CharsPlain(text: String)
    ensures Images(Chars(text)) == 0
  {
    NoImages(Chars(text));
  }

  lemma AbstractChunksPlain(text: String, v: Option<char>, w: String)
    requires |w| >= 2
    ensures Images(AbstractChunks(text, v, w)) == 0
  {
    var A: seq<String> := ["---\nabstract: >\n"];
    var B := Chars(text);
    var V: seq<String> := if v.Some? then [[v.value]] + (if v.value != '\n' then ["\n"] else []) else [];
    var D: seq<String> := ["---\n"];
    var T: seq<String> := if w[1] != '\n' then ["\n"] else [];
    assert AbstractChunks(text, v, w) == A + B + V + D + T;
    NoImages(A);
    CharsPlain(text);
    NoImages(V);
    NoImages(D);
    NoImages(T);
    ImagesAppend(A, B);
    ImagesAppend(A + B, V);
    ImagesAppend(A + B + V, D);
    ImagesAppend(A + B + V + D, T);
  }

  lemma HeadingChunksPlain(target: seq<String>, k: Construct, title: String, w: String)
    requires |target| >= 2 && |w| >= 2
    ensures Images(HeadingChunks(target, k, title, w)) == 0
  {
    var L: seq<String> := if target[|target| - 2] != "\n" then ["\n"] else [];
    var M: seq<String> := [Marker(k)];
    var B := Chars(NewlinesToSpaces(title));
    var T: seq<String> := if w[1] != '\n' then ["\n"] else [];
    assert HeadingChunks(target, k, title, w) == L + M + B + T;
    NoImages(L);
    NoImages(M);
    CharsPlain(NewlinesToSpaces(title));
    NoImages(T);
    ImagesAppend(L, M);
    ImagesAppend(L + M, B);
    ImagesAppend(L + M + B, T);
  }

  lemma CiteGrows(a: State, v: Option<char>)
    ensures GrowsByOne(a, Done(CiteStep(a, v)))
    ensures CiteStep(a, v).figures == a.figures
  {
    if v.Some? && v.value == '}' {
      CiteTextPlain(a.cite);
      PlainChunks(a.target, [CiteText(a.cite)]);
    } else {
      PlainChunks(a.target, []);
    }
  }

  lemma AbstractGrows(a: State, v: Option<char>)
    requires Ready(a)
    ensures GrowsByOne(a, AbstractStep(a, v))
    ensures AbstractStep(a, v).Done? ==> AbstractStep(a, v).value.figures == a.figures
  {
    PlainChunks(a.target, []);
    if Match(a.buf, EndAbstract) {
      var b := Empty(a.buf, |EndAbstract|).buf;
      if |b.items| >= 2 {
        AbstractChunksPlain(a.abstractText, v, b.items);
        PlainChunks(a.target, AbstractChunks(a.abstractText, v, b.items));
      }
    }
  }

  lemma FigureGrows(a: State, v: Option<char>, k: Construct)
    requires Ready(a) && IsFigure(k)
    ensures GrowsByOne(a, FigureStep(a, v, k))
  {
    PlainChunks(a.target, []);
    if Match(a.buf, FigureCloser(k)) && GetFigure(a.figureText).Done? {
      var x := FigureLine(GetFigure(a.figureText).value, a.figures);
      FigureLineIsImage(GetFigure(a.figureText).value, a.figures);
      assert (a.target + [x])[|a.target|..] == [x];
    }
  }

  lemma HeadingGrows(a: State, v: Option<char>, k: Construct)
    requires Ready(a) && IsHeading(k)
    requires v.Some? ==> |a.buf.items| >= 2
    ensures GrowsByOne(a, HeadingStep(a, v, k))
    ensures HeadingStep(a, v, k).Done? ==> HeadingStep(a, v, k).value.figures == a.figures
  {
    PlainChunks(a.target, []);
    if v.Some? && |a.target| >= 2 {
      match TitleStep(Title(a, k), a.brackets, v.value)
      case Reading(t, d) =>
      case Closed(t) =>
        HeadingChunksPlain(a.target, k, t, a.buf.items);
        PlainChunks(a.target, HeadingChunks(a.target, k, t, a.buf.items));
    }
  }

  lemma InsideGrows(a: State, v: Option<char>, k: Construct)
    requires Ready(a)
    requires v.Some? ==> |a.buf.items| >= 2
    ensures GrowsByOne(a, Inside(a, v, k))
    ensures Inside(a, v, k).Done? && !IsFigure(k) ==> Inside(a, v, k).value.figures == a.figures
  {
    match k
    case Cite => CiteGrows(a, v);
    case Abstract => AbstractGrows(a, v);
    case FigureEnv => FigureGrows(a, v, k);
    case FigureStarEnv => FigureGrows(a, v, k);
    case Section => HeadingGrows(a, v, k);
    case SectionStar => HeadingGrows(a, v, k);
    case Subsection => HeadingGrows(a, v, k);
    case SubsectionStar => HeadingGrows(a, v, k);
  }

  lemma IdleGrows(a: State, v: Option<char>)
    requires Ready(a)
    ensures Grows(a, IdleStep(a, v)) && IdleStep(a, v).figures == a.figures
  {
    OpenAllKeeps(a, Triggers);
    var b := OpenAll(a, Triggers);
    if v.Some? && b.startRecord {
      NoImages([[Tilde(v.value)]]);
      PlainChunks(a.target, [[Tilde(v.value)]]);
    } else {
      PlainChunks(a.target, []);
    }
  }

  /** One step keeps `Grows`. The figure count changes only when a figure
      closes: then it goes up by one, and the one chunk appended is that
      figure's image line, numbered with the count before it. While a
      construct is being read no new flag is set. */
  lemma StepGrows(s: State, c: char)
    requires Ready(s)
    ensures Step(s, c).Done? ==> Grows(s, Step(s, c).value) && Step(s, c).value.figures <= s.figures + 1
    ensures Step(s, c).Done? && s.open != {} ==> Step(s, c).value.open <= s.open
    ensures Step(s, c).Done? && Step(s, c).value.figures != s.figures ==>
              Mode(s.open).Some? && IsFigure(Mode(s.open).value) &&
              GetFigure(s.figureText).Done? && Step(s, c).value.figures == s.figures + 1 &&
              Step(s, c).value.target == s.target + [FigureLine(GetFigure(s.figureText).value, s.figures)]
  {
    ModeOrder(s.open);
    if s.open == {} {
      StepIdle(s, c);
      IdleGrows(Moved(s, c), Released(s, c));
    } else {
      var k := Mode(s.open).value;
      StepInside(s, c, k);
      InsideGrows(Moved(s, c), Released(s, c), k);
    }
  }

  lemma GrowsTrans(s: State, r: State, q: State)
    requires Grows(s, r) && Grows(r, q)
    ensures Grows(s, q)
  {
    PrefixTrans(s.target, r.target, q.target);
    var d1 := r.target[|s.target|..];
    var d2 := q.target[|r.target|..];
    assert q.target[|s.target|..] == d1 + d2;
    ImagesAppend(d1, d2);
  }

  /** Over a whole run the output only grows, the figure count goes up by
      exactly the number of image lines emitted (so from `Init`, the figures
      are numbered 1, 2, 3, ... in order), and recording, once started,
      never stops. */
  lemma {:induction false} RunGrows(s: State, t: String, lo: nat, hi: nat)
    requires Ready(s) && lo <= hi <= |t|
    ensures RunFrom(s, t, lo, hi).Done? ==> Grows(s, RunFrom(s, t, lo, hi).value)
    decreases hi - lo
  {
    if hi > lo {
      RunGrows(s, t, lo, hi - 1);
      if RunFrom(s, t, lo, hi - 1).Done? {
        var r := RunFrom(s, t, lo, hi - 1).value;
        StepGrows(r, t[hi - 1]);
        if Step(r, t[hi - 1]).Done? {
          GrowsTrans(s, r, Step(r, t[hi - 1]).value);
        }
      }
    }
  }

  /** The image lines among `chunks` are figure lines numbered `n`, `n + 1`,
      `n + 2` and so on, in order. */
  ghost predicate NumberedFrom(chunks: seq<String>, n: nat)
    decreases |chunks|
  {
    |chunks| == 0 ||
    if IsImage(chunks[0]) then
      (exists fig :: chunks[0] == FigureLine(fig, n)) && NumberedFrom(chunks[1..], n + 1)
    else NumberedFrom(chunks[1..], n)
  }

  lemma {:induction false} ZeroNumbered(chunks: seq<String>, n: nat)
    requires Images(chunks) == 0
    ensures NumberedFrom(chunks, n)
    decreases |chunks|
  {
    if |chunks| > 0 {
      ZeroNumbered(chunks[1..], n);
    }
  }

  lemma {:induction false} NumberedAppend(a: seq<String>, b: seq<String>, n: nat)
    requires NumberedFrom(a, n) && NumberedFrom(b, n + Images(a))
    ensures NumberedFrom(a + b, n)
    decreases |a|
  {
    if |a| == 0 {
      assert a + b == b;
    } else {
      assert (a + b)[0] == a[0] && (a + b)[1..] == a[1..] + b;
      NumberedAppend(a[1..], b, if IsImage(a[0]) then n + 1 else n);
    }
  }

  /** One step numbers the image line it emits, if any, with the count
      before it. */
  lemma StepNumbers(s: State, c: char)
    requires Ready(s)
    ensures Step(s, c).Done? ==>
              IsPrefix(s.target, Step(s, c).value.target) &&
              NumberedFrom(Step(s, c).value.target[|s.target|..], s.figures)
  {
    StepGrows(s, c);
    if Step(s, c).Done? {
      var q := Step(s, c).value;
      var d := q.target[|s.target|..];
      if q.figures != s.figures {
        var fig := GetFigure(s.figureText).value;
        assert d == [FigureLine(fig, s.figures)];
        FigureLineIsImage(fig, s.figures);
        assert IsImage(d[0]) && d[1..] == [];
      } else {
        ZeroNumbered(d, s.figures);
      }
    }
  }

  lemma NumberedTrans(a: seq<String>, b: seq<String>, c: seq<String>, n: nat, m: nat)
    requires IsPrefix(a, b) && IsPrefix(b, c) && m == n + Images(b[|a|..])
    requires NumberedFrom(b[|a|..], n) && NumberedFrom(c[|b|..], m)
    ensures NumberedFrom(c[|a|..], n)
  {
    assert c[|a|..] == b[|a|..] + c[|b|..];
    NumberedAppend(b[|a|..], c[|b|..], n);
  }

  lemma NothingNumbered(chunks: seq<String>, n: nat)
    ensures IsPrefix(chunks, chunks) && NumberedFrom(chunks[|chunks|..], n)
  {
    assert chunks[|chunks|..] == [];
  }

  /** The figure lines `r` emitted after `s` are numbered on from the count
      in `s`. */
  ghost predicate NumberedSince(s: State, r: State) {
    IsPrefix(s.target, r.target) && NumberedFrom(r.target[|s.target|..], s.figures)
  }

  /** A run one character longer goes on numbering figure lines where the
      shorter run left off. */
  lemma NumbersOn(s: State, t: String, lo: nat, hi: nat)
    requires Ready(s) && lo < hi <= |t|
    requires RunFrom(s, t, lo, hi - 1).Done? ==> NumberedSince(s, RunFrom(s, t, lo, hi - 1).value)
    ensures RunFrom(s, t, lo, hi).Done? ==> NumberedSince(s, RunFrom(s, t, lo, hi).value)
  {
    RunGrows(s, t, lo, hi - 1);
    if RunFrom(s, t, lo, hi - 1).Done? {
      NumbersStep(s, RunFrom(s, t, lo, hi - 1).value, t[hi - 1]);
    }
  }

  /** A step after a stretch of run that numbered its figure lines from
      `s.figures` goes on numbering them. */
  lemma NumbersStep(s: State, r: State, c: char)
    requires Ready(r) && Grows(s, r) && NumberedSince(s, r)
    ensures Step(r, c).Done? ==> NumberedSince(s, Step(r, c).value)
  {
    StepNumbers(r, c);
    if Step(r, c).Done? {
      NumberedTrans(s.target, r.target, Step(r, c).value.target, s.figures, r.figures);
    }
  }

  /** Over a whole run, the figure lines emitted are numbered on from the
      count at the start, one after another. */
  lemma {:induction false} RunNumbers(s: State, t: String, lo: nat, hi: nat)
    requires Ready(s) && lo <= hi <= |t|
    ensures RunFrom(s, t, lo, hi).Done? ==> NumberedSince(s, RunFrom(s, t, lo, hi).value)
    decreases hi - lo
  {
    if hi == lo {
      NothingNumbered(s.target, s.figures);
    } else {
      RunNumbers(s, t, lo, hi - 1);
      NumbersOn(s, t, lo, hi);
    }
  }

  /** After the whole pass, `figure_count` is one more than the number of
      image lines emitted, and those are the figures numbered 1, 2, 3 and so
      on, in order. */
  lemma ConvertFigures(document: String)
    ensures RunFrom(Init(), document, 0, |document|).Done? ==>
              var s := RunFrom(Init(), document, 0, |document|).value;
              s.figures == 1 + Images(s.target) && NumberedFrom(s.target, 1)
  {
    RunGrows(Init(), document, 0, |document|);
    RunNumbers(Init(), document, 0, |document|);
    if RunFrom(Init(), document, 0, |document|).Done? {
      var s := RunFrom(Init(), document, 0, |document|).value;
      assert s.target[0..] == s.target;
    }
  }

  // ------------------------------------------------- text before the abstract

  /** Over text with no backslash and no doubled space, idle mode only slides
      the window: nothing is opened, recorded or emitted. */
  lemma {:induction false} PlainRun(t: String, n: nat)
    requires n <= |t| && '\\' !in t && NoDoubledSpace(t)
    ensures RunFrom(Init(), t, 0, n) == Done(Init().(buf := Buffer(WindowSize, t[Head(0, n)..n])))
    decreases n
  {
    if n > 0 {
      var m := n - 1;
      PlainRun(t, m);
      var r := Init().(buf := Buffer(WindowSize, t[Head(0, m)..m]));
      assert !StartsWith(t[Head(0, n)..n], "  ") by {
        if StartsWith(t[Head(0, n)..n], "  ") {
          ContainsInSlice(t, Head(0, n), n, "  ");
        }
      }
      AdvanceAt(t, 0, m, n);
      StepIdle(r, t[m]);
      var a := Moved(r, t[m]);
      assert a.buf.items[0] == t[Head(0, n)];
      NoTrigger(a, Triggers);
    }
  }

  /** A document with no command and no doubled space produces no output of
      its own: all that comes out is the last window, flushed at the end. */
  lemma PlainFinish(doc: String)
    ensures '\\' !in doc && NoDoubledSpace(doc) ==>
              Finish(RunFrom(Init(), doc, 0, |doc|)) ==
              Done(if |doc| <= WindowSize then doc else doc[|doc| - WindowSize..])
  {
    if '\\' !in doc && NoDoubledSpace(doc) {
      PlainRun(doc, |doc|);
      var w := doc[Head(0, |doc|)..|doc|];
      var s := Init().(buf := Buffer(WindowSize, w));
      assert s.target + [s.buf.items] == [w];
      ConcatOne(w);
      assert Finish(RunFrom(Init(), doc, 0, |doc|)) == Done(w);
      if |doc| <= WindowSize {
        assert w == doc;
      } else {
        assert w == doc[|doc| - WindowSize..];
      }
    }
  }

  // ------------------------------------------------------ runs in pieces

  /** Runs compose: a run over positions `i` to `k` that reaches state `r`
      at `j` goes on from `r` as a run from `j` would. */
  lemma {:induction false} RunSplit(s: State, t: String, i: nat, j: nat, k: nat, r: State)
    requires Ready(s) && i <= j <= k <= |t| && RunFrom(s, t, i, j) == Done(r)
    ensures Ready(r) && RunFrom(s, t, i, k) == RunFrom(r, t, j, k)
    decreases k - j
  {
    if k > j {
      RunSplit(s, t, i, j, k - 1, r);
    }
  }

  // ------------------------------------------------------ opening a construct

  /** The accumulator a construct collects into. */
  function Collected(s: State, k: Construct): String {
    match k
    case Cite => s.cite
    case Abstract => s.abstractText
    case FigureEnv => s.figureText
    case FigureStarEnv => s.figureText
    case _ => Title(s, k)
  }

  /** Opening a construct whose command heads the window drains exactly that
      command, sets the flag and empties the construct's accumulator; only
      the abstract starts recording, and the output and the figure count
      are untouched. */
  lemma BeginOpens(a: State, k: Construct)
    requires Ready(a) && StartsWith(a.buf.items, Opener(k))
    ensures Begin(a, k).buf.items == a.buf.items[|Opener(k)|..]
    ensures Begin(a, k).open == a.open + {k} && Collected(Begin(a, k), k) == []
    ensures Begin(a, k).startRecord == (a.startRecord || k == Abstract)
    ensures Begin(a, k).target == a.target && Begin(a, k).figures == a.figures
  {
    MatchMeans(a.buf, Opener(k));
    DrainMatched(a.buf, Opener(k));
  }

  /** A position where two different opening commands differ. */
  function Fork(j: Construct, k: Construct): nat {
    if j == Cite || k == Cite || IsHeading(j) != IsHeading(k) then 1
    else if IsHeading(j) then (if TopLevel(j) != TopLevel(k) then 2 else if TopLevel(j) then 8 else 11)
    else if IsFigure(j) && IsFigure(k) then 13
    else 7
  }

  /** No opening command is a prefix of another, so a window starts with at
      most one of them. */
  lemma OpenersApart(j: Construct, k: Construct, w: String)
    requires j != k && StartsWith(w, Opener(k))
    ensures !StartsWith(w, Opener(j))
  {
    var i := Fork(j, k);
    assert i < |Opener(j)| && i < |Opener(k)| && Opener(j)[i] != Opener(k)[i];
    assert w[..|Opener(k)|][i] == w[i];
  }

  /** A window that starts with one opening command and does not go on with
      another command opens just that construct. */
  lemma {:induction false} OpenOnly(a: State, ks: seq<Construct>, k: Construct)
    requires Ready(a) && k in ks && StartsWith(a.buf.items, Opener(k))
    requires Calm(a.buf.items[|Opener(k)|..])
    ensures OpenAll(a, ks) == Begin(a, k)
    decreases |ks|
  {
    MatchMeans(a.buf, Opener(k));
    if ks[0] == k {
      BeginOpens(a, k);
      NoTrigger(Begin(a, k), ks[1..]);
    } else {
      OpenersApart(ks[0], k, a.buf.items);
      MatchMeans(a.buf, Opener(ks[0]));
      InTail(k, ks);
      OpenOnly(a, ks[1..], k);
    }
  }

  lemma EveryTrigger(k: Construct)
    ensures k in Triggers
  {
  }

  /** The idle branch on a window that starts with one opening command, not
      followed by another command: it opens that construct and then emits
      the released character (with `~` as a space) if recording is on. */
  lemma IdleOpens(a: State, v: Option<char>, k: Construct)
    requires Ready(a) && StartsWith(a.buf.items, Opener(k))
    requires Calm(a.buf.items[|Opener(k)|..])
    ensures var b := Begin(a, k);
            IdleStep(a, v) == if v.Some? && b.startRecord then b.(target := b.target + [[Tilde(v.value)]]) else b
  {
    EveryTrigger(k);
    OpenOnly(a, Triggers, k);
  }

  /** A set of one construct reads that construct. */
  lemma ModeOne(k: Construct)
    ensures Mode({k}) == Some(k)
  {
  }

  /** In idle mode, a character that brings an opening command to the head of
      the window, not followed by another command, opens that construct: the
      command is drained, the construct's accumulator is emptied, it becomes
      the one construct read, and the released character is emitted (with
      `~` as a space) if recording is on. */
  lemma OpensOne(s: State, c: char, k: Construct)
    requires Ready(s) && s.open == {}
    requires StartsWith(Moved(s, c).buf.items, Opener(k))
    requires Calm(Moved(s, c).buf.items[|Opener(k)|..])
    ensures var b := Begin(Moved(s, c), k);
            Step(s, c) == Done(if Released(s, c).Some? && b.startRecord
                               then b.(target := b.target + [[Tilde(Released(s, c).value)]]) else b)
    ensures Begin(Moved(s, c), k).open == {k} && Mode({k}) == Some(k)
  {
    StepIdle(s, c);
    IdleOpens(Moved(s, c), Released(s, c), k);
    BeginOpens(Moved(s, c), k);
    assert {} + {k} == {k};
    ModeOne(k);
  }

  // ------------------------------------------------ reading a construct

  /** What the loop has ahead of it in state `s` at position `lo` of `t`:
      the window it holds, then the rest of the text. */
  function Ahead(s: State, t: String, lo: nat): String
    requires lo <= |t|
  {
    s.buf.items + t[lo..]
  }

  /** The window once `n` characters of `u` have entered it, when no doubled
      space was dropped: the last forty of them. */
  function WindowAt(u: String, n: nat): String
    requires n <= |u|
  {
    u[Head(0, n)..n]
  }

  /** The characters the window has let go of by then, oldest first. */
  function GoneAt(u: String, n: nat): String
    requires n <= |u|
  {
    u[..Head(0, n)]
  }

  /** The character let go of as character `n` of `u` enters. */
  function LetGo(u: String, n: nat): Option<char>
    requires n < |u|
  {
    if n >= WindowSize then Some(u[n - WindowSize]) else None
  }

  /** Character `n` of `u` enters while construct `k` is read without
      ending it early: the window does not start with a doubled space or
      with the closing command, and a citation has let go of no `}`. (A
      heading's end is found by `Feed`.) */
  predicate GoesOn(k: Construct, u: String, n: nat)
    requires n <= |u|
  {
    !StartsWith(WindowAt(u, n), "  ") &&
    (k == Cite ==> '}' !in GoneAt(u, n)) &&
    (k == Abstract ==> !StartsWith(WindowAt(u, n), EndAbstract)) &&
    (IsFigure(k) ==> !StartsWith(WindowAt(u, n), FigureCloser(k)))
  }

  /** `GoesOn` for every character after the `m`-th up to the `n`-th. */
  predicate GoesOnUntil(k: Construct, u: String, m: nat, n: nat)
    requires m <= n <= |u|
  {
    forall j :: m < j <= n ==> GoesOn(k, u, j)
  }

  /** What is let go of by character `m` was let go of by any later one. */
  lemma GoneAvoids(u: String, m: nat, n: nat, c: char)
    requires m <= n <= |u| && c !in GoneAt(u, n)
    ensures c !in GoneAt(u, m)
  {
    assert GoneAt(u, m) == GoneAt(u, n)[..Head(0, m)];
  }

  lemma GoneStep(u: String, n: nat)
    requires n < |u|
    ensures GoneAt(u, n + 1) == GoneAt(u, n) + EvictedText(LetGo(u, n))
  {
    if n >= WindowSize {
      assert u[..n + 1 - WindowSize] == u[..n - WindowSize] + [u[n - WindowSize]];
    }
  }

  /** The window held is the start of what is ahead, with nothing let go of. */
  lemma AheadStart(s: State, t: String, lo: nat)
    requires Ready(s) && lo <= |t|
    ensures WindowAt(Ahead(s, t, lo), |s.buf.items|) == s.buf.items
    ensures GoneAt(Ahead(s, t, lo), |s.buf.items|) == []
  {
    assert Ahead(s, t, lo)[..|s.buf.items|] == s.buf.items;
  }

  lemma AheadAt(s: State, t: String, lo: nat, j: nat, i: nat)
    requires lo <= j < |t| && i == |s.buf.items| + (j - lo)
    ensures Ahead(s, t, lo)[i] == t[j]
  {
  }

  /** One more character of the stream: the window slides on by one and lets
      go of the character forty places back, once forty have entered. */
  lemma StreamStep(s: State, u: String, n: nat)
    requires Ready(s) && n < |u| && s.buf.items == WindowAt(u, n)
    requires !StartsWith(WindowAt(u, n + 1), "  ")
    ensures Moved(s, u[n]).buf == Buffer(WindowSize, WindowAt(u, n + 1))
    ensures Released(s, u[n]) == LetGo(u, n)
    ensures GoneAt(u, n + 1) == GoneAt(u, n) + EvictedText(LetGo(u, n))
  {
    AdvanceAt(u, 0, n, n + 1);
    assert s.buf == Buffer(WindowSize, WindowAt(u, n));
    GoneStep(u, n);
  }

  /** A citation step that lets go of anything but `}` collects what it lets
      go of and changes nothing but the window. */
  lemma CiteRead(s: State, c: char)
    requires Ready(s) && Mode(s.open) == Some(Cite) && Released(s, c) != Some('}')
    ensures Step(s, c) == Done(Moved(s, c).(cite := s.cite + EvictedText(Released(s, c))))
  {
    StepInside(s, c, Cite);
    if Released(s, c).None? {
      assert s.cite + EvictedText(Released(s, c)) == s.cite;
    }
  }

  /** An abstract step whose window does not start with `\end{abstract}`
      collects what it lets go of and changes nothing but the window. */
  lemma AbstractRead(s: State, c: char)
    requires Ready(s) && Mode(s.open) == Some(Abstract)
    requires !StartsWith(Moved(s, c).buf.items, EndAbstract)
    ensures Step(s, c) == Done(Moved(s, c).(abstractText := s.abstractText + EvictedText(Released(s, c))))
  {
    StepInside(s, c, Abstract);
    MatchMeans(Moved(s, c).buf, EndAbstract);
    if Released(s, c).None? {
      assert s.abstractText + EvictedText(Released(s, c)) == s.abstractText;
    }
  }

  /** A figure step whose window does not start with the closing command
      collects what it lets go of and changes nothing but the window. */
  lemma FigureRead(s: State, c: char, k: Construct)
    requires Ready(s) && Mode(s.open) == Some(k) && IsFigure(k)
    requires !StartsWith(Moved(s, c).buf.items, FigureCloser(k))
    ensures Step(s, c) == Done(Moved(s, c).(figureText := s.figureText + EvictedText(Released(s, c))))
  {
    StepInside(s, c, k);
    MatchMeans(Moved(s, c).buf, FigureCloser(k));
    if Released(s, c).None? {
      assert s.figureText + EvictedText(Released(s, c)) == s.figureText;
    }
  }

  /** A heading step that does not close the title feeds what it lets go of
      to `TitleStep`, whose title and depth become the heading's; a step
      that lets go of nothing changes nothing but the window. */
  lemma HeadingRead(s: State, c: char, k: Construct)
    requires Ready(s) && Mode(s.open) == Some(k) && IsHeading(k)
    requires Released(s, c).Some? ==> TitleStep(Title(s, k), s.brackets, Released(s, c).value).Reading?
    ensures Released(s, c).None? ==> Step(s, c) == Done(Moved(s, c))
    ensures Released(s, c).Some? ==>
              var r := TitleStep(Title(s, k), s.brackets, Released(s, c).value);
              Step(s, c) == Done(WithTitle(Moved(s, c), k, r.title).(brackets := r.depth))
  {
    StepInside(s, c, k);
    assert Title(Moved(s, c), k) == Title(s, k);
  }

  /** Construct `k` once `n` characters of `u` have entered the window: the
      window they leave and, for a citation, the abstract or a figure, what
      it let go of added to what was collected; for a heading, the title
      and depth `Feed` makes of it. */
  function ReadAt(s: State, k: Construct, u: String, n: nat): (r: State)
    requires n <= |u|
    ensures Ready(r)
  {
    var a := s.(buf := Buffer(WindowSize, WindowAt(u, n)));
    if k == Cite then a.(cite := s.cite + GoneAt(u, n))
    else if k == Abstract then a.(abstractText := s.abstractText + GoneAt(u, n))
    else if IsFigure(k) then a.(figureText := s.figureText + GoneAt(u, n))
    else
      var f := Feed(Title(s, k), s.brackets, GoneAt(u, n));
      WithTitle(a, k, f.title).(brackets := if f.Reading? then f.depth else 0)
  }

  /** The states of construct `k` from `m` characters on up to `n`. */
  function ReadChain(s: State, k: Construct, u: String, m: nat, n: nat): (r: seq<State>)
    requires m <= n <= |u|
    ensures |r| == n - m + 1
    decreases n - m
  {
    if m == n then [ReadAt(s, k, u, n)] else ReadChain(s, k, u, m, n - 1) + [ReadAt(s, k, u, n)]
  }

  /** Entry `i` of the chain is the state after `m + i` characters. */
  lemma {:induction false} ChainAt(s: State, k: Construct, u: String, m: nat, n: nat, i: nat, p: nat)
    requires m <= n <= |u| && i <= n - m && p == m + i
    ensures ReadChain(s, k, u, m, n)[i] == ReadAt(s, k, u, p)
    decreases n - m
  {
    if m < n {
      var c := ReadChain(s, k, u, m, n - 1);
      assert ReadChain(s, k, u, m, n) == c + [ReadAt(s, k, u, n)];
      if i < n - m {
        ChainAt(s, k, u, m, n - 1, i, p);
        assert (c + [ReadAt(s, k, u, n)])[i] == c[i];
      } else {
        assert p == n;
      }
    }
  }

  lemma ChainEnds(s: State, k: Construct, u: String, m: nat, n: nat)
    requires m <= n <= |u|
    ensures ReadChain(s, k, u, m, n)[0] == ReadAt(s, k, u, m)
    ensures ReadChain(s, k, u, m, n)[n - m] == ReadAt(s, k, u, n)
  {
    ChainAt(s, k, u, m, n, 0, m);
    ChainAt(s, k, u, m, n, n - m, n);
  }

  /** A window that is not yet full is all that has entered it. */
  lemma WindowStart(u: String, n: nat)
    requires n <= WindowSize && n <= |u|
    ensures WindowAt(u, n) == u[..n] && |GoneAt(u, n)| == 0
  {
  }

  lemma AppendNone(a: String, b: String)
    requires |b| == 0
    ensures a + b == a
  {
  }

  lemma SameTitle(s: State, k: Construct)
    ensures WithTitle(s, k, Title(s, k)) == s
  {
  }

  /** Before the run, nothing has been let go of. */
  lemma ReadStart(s: State, k: Construct, u: String)
    requires Ready(s) && IsPrefix(s.buf.items, u)
    ensures ReadAt(s, k, u, |s.buf.items|) == s
  {
    var n := |s.buf.items|;
    WindowStart(u, n);
    assert s.buf == Buffer(WindowSize, WindowAt(u, n));
    if k == Cite {
      AppendNone(s.cite, GoneAt(u, n));
    } else if k == Abstract {
      AppendNone(s.abstractText, GoneAt(u, n));
    } else if IsFigure(k) {
      AppendNone(s.figureText, GoneAt(u, n));
    } else {
      assert Feed(Title(s, k), s.brackets, GoneAt(u, n)) == Reading(Title(s, k), s.brackets);
      SameTitle(s, k);
    }
  }

  lemma CiteStepAt(s: State, u: String, m: nat, m1: nat)
    requires Ready(s) && Mode(s.open) == Some(Cite) && m < |u| && m1 == m + 1
    requires GoesOn(Cite, u, m1)
    ensures Step(ReadAt(s, Cite, u, m), u[m]) == Done(ReadAt(s, Cite, u, m1))
  {
    var r := ReadAt(s, Cite, u, m);
    StreamStep(r, u, m);
    CiteRead(r, u[m]);
    assert Moved(r, u[m]) == r.(buf := Buffer(WindowSize, WindowAt(u, m1)));
    assert r.cite + EvictedText(LetGo(u, m)) == s.cite + GoneAt(u, m1);
  }

  lemma AbstractStepAt(s: State, u: String, m: nat, m1: nat)
    requires Ready(s) && Mode(s.open) == Some(Abstract) && m < |u| && m1 == m + 1
    requires GoesOn(Abstract, u, m1)
    ensures Step(ReadAt(s, Abstract, u, m), u[m]) == Done(ReadAt(s, Abstract, u, m1))
  {
    var r := ReadAt(s, Abstract, u, m);
    StreamStep(r, u, m);
    AbstractRead(r, u[m]);
    assert Moved(r, u[m]) == r.(buf := Buffer(WindowSize, WindowAt(u, m1)));
    assert r.abstractText + EvictedText(LetGo(u, m)) == s.abstractText + GoneAt(u, m1);
  }

  lemma FigureStepAt(s: State, k: Construct, u: String, m: nat, m1: nat)
    requires Ready(s) && Mode(s.open) == Some(k) && IsFigure(k) && m < |u| && m1 == m + 1
    requires GoesOn(k, u, m1)
    ensures Step(ReadAt(s, k, u, m), u[m]) == Done(ReadAt(s, k, u, m1))
  {
    var r := ReadAt(s, k, u, m);
    StreamStep(r, u, m);
    FigureRead(r, u[m], k);
    assert Moved(r, u[m]) == r.(buf := Buffer(WindowSize, WindowAt(u, m1)));
    assert r.figureText + EvictedText(LetGo(u, m)) == s.figureText + GoneAt(u, m1);
  }

  /** Feeding one more character goes on from where `Feed` left off. */
  lemma {:induction false} FeedSnoc(title: String, depth: nat, x: String, c: char)
    ensures Feed(title, depth, x + [c]) ==
              match Feed(title, depth, x)
              case Closed(t) => Closed(t)
              case Reading(t, d) => TitleStep(t, d, c)
    decreases |x|
  {
    if |x| == 0 {
      assert x + [c] == [c];
    } else {
      assert (x + [c])[0] == x[0] && (x + [c])[1..] == x[1..] + [c];
      match TitleStep(title, depth, x[0])
      case Closed(t) =>
      case Reading(t, d) => FeedSnoc(t, d, x[1..], c);
    }
  }

  /** A title still being read after more characters was being read before
      them. */
  lemma {:induction false} FeedPrefix(title: String, depth: nat, x: String, y: String)
    requires Feed(title, depth, x + y).Reading?
    ensures Feed(title, depth, x).Reading?
    decreases |x|
  {
    if |x| > 0 {
      assert (x + y)[0] == x[0] && (x + y)[1..] == x[1..] + y;
      match TitleStep(title, depth, x[0])
      case Closed(t) =>
      case Reading(t, d) => FeedPrefix(t, d, x[1..], y);
    }
  }

  /** What a heading's title scan makes of one more released character. */
  lemma HeadingFeedStep(s: State, k: Construct, u: String, m: nat, m1: nat)
    requires m < |u| && m1 == m + 1 && Feed(Title(s, k), s.brackets, GoneAt(u, m1)).Reading?
    ensures var f := Feed(Title(s, k), s.brackets, GoneAt(u, m));
            f.Reading? &&
            Feed(Title(s, k), s.brackets, GoneAt(u, m1)) ==
              if LetGo(u, m).Some? then TitleStep(f.title, f.depth, LetGo(u, m).value) else f
  {
    GoneStep(u, m);
    var x := GoneAt(u, m);
    if LetGo(u, m).Some? {
      FeedSnoc(Title(s, k), s.brackets, x, LetGo(u, m).value);
    } else {
      AppendNone(x, EvictedText(LetGo(u, m)));
    }
  }

  lemma HeadingStepAt(s: State, k: Construct, u: String, m: nat, m1: nat)
    requires Ready(s) && Mode(s.open) == Some(k) && IsHeading(k) && m < |u| && m1 == m + 1
    requires GoesOn(k, u, m1) && Feed(Title(s, k), s.brackets, GoneAt(u, m1)).Reading?
    ensures Step(ReadAt(s, k, u, m), u[m]) == Done(ReadAt(s, k, u, m1))
  {
    var r := ReadAt(s, k, u, m);
    var f := Feed(Title(s, k), s.brackets, GoneAt(u, m));
    HeadingFeedStep(s, k, u, m, m1);
    assert Title(r, k) == f.title && r.brackets == f.depth;
    StreamStep(r, u, m);
    HeadingRead(r, u[m], k);
  }

  /** Link `j` of a chain of states: one step on character `lo + j` of `t`
      goes from state `j` to state `j + 1`. */
  predicate Link(chain: seq<State>, t: String, lo: nat, j: nat)
    requires j + 1 < |chain| && lo + j < |t|
  {
    Ready(chain[j]) && Step(chain[j], t[lo + j]) == Done(chain[j + 1])
  }

  /** A run that goes, one step per character, through a given chain of
      states ends in the chain's last state. */
  lemma {:induction false} RunChain(s: State, t: String, lo: nat, hi: nat, chain: seq<State>, e: nat)
    requires Ready(s) && lo <= hi <= |t| && e == hi - lo && e < |chain| && chain[0] == s
    requires forall j :: 0 <= j < e ==> Link(chain, t, lo, j)
    ensures RunFrom(s, t, lo, hi) == Done(chain[e])
    decreases e
  {
    if e > 0 {
      RunChain(s, t, lo, hi - 1, chain, e - 1);
      LastLink(chain, t, lo, hi, e);
      assert Link(chain, t, lo, e - 1);
    }
  }

  /** The last link of a chain of `e` links steps on character `hi - 1`. */
  lemma LastLink(chain: seq<State>, t: String, lo: nat, hi: nat, e: nat)
    requires 0 < e == hi - lo && e < |chain| && hi <= |t|
    ensures t[lo + (e - 1)] == t[hi - 1] && chain[(e - 1) + 1] == chain[e]
  {
  }

  /** The facts about the stream and the chain that one link of a read
      needs, apart from the step itself. */
  lemma LinkFacts(s: State, k: Construct, t: String, lo: nat, hi: nat, u: String, n: nat, j: nat)
    requires Ready(s) && lo + j < hi <= |t|
    requires u == Ahead(s, t, lo) && n == |s.buf.items| + (hi - lo)
    requires GoesOnUntil(k, u, |s.buf.items|, n)
    requires IsHeading(k) ==> Feed(Title(s, k), s.brackets, GoneAt(u, n)).Reading?
    ensures var b := |s.buf.items|;
            b + j < |u| && u[b + j] == t[lo + j] && GoesOn(k, u, b + (j + 1)) &&
            (IsHeading(k) ==> Feed(Title(s, k), s.brackets, GoneAt(u, b + (j + 1))).Reading?)
  {
    var b := |s.buf.items|;
    AheadAt(s, t, lo, lo + j, b + j);
    if IsHeading(k) {
      var m := b + (j + 1);
      assert GoneAt(u, n) == GoneAt(u, m) + u[Head(0, m)..Head(0, n)];
      FeedPrefix(Title(s, k), s.brackets, GoneAt(u, m), u[Head(0, m)..Head(0, n)]);
    }
  }

  /** One link of a read: the step on character `lo + j` of `t`. */
  lemma ReadLink(s: State, k: Construct, t: String, lo: nat, hi: nat, u: String, n: nat, j: nat)
    requires Ready(s) && Mode(s.open) == Some(k) && lo + j < hi <= |t|
    requires u == Ahead(s, t, lo) && n == |s.buf.items| + (hi - lo)
    requires GoesOnUntil(k, u, |s.buf.items|, n)
    requires IsHeading(k) ==> Feed(Title(s, k), s.brackets, GoneAt(u, n)).Reading?
    ensures Link(ReadChain(s, k, u, |s.buf.items|, n), t, lo, j)
  {
    LinkFacts(s, k, t, lo, hi, u, n, j);
    if k == Cite {
      CiteLink(s, t, lo, u, n, j);
    } else if k == Abstract {
      AbstractLink(s, t, lo, u, n, j);
    } else if IsFigure(k) {
      FigureLink(s, k, t, lo, u, n, j);
    } else {
      HeadingLink(s, k, t, lo, u, n, j);
    }
  }

  /** A step between the states after `b + j` and `b + j + 1` characters,
      where `b` is the length of the window at the start, is link `j` of
      the chain, over a text with that character at `lo + j`. */
  lemma ChainLink(s: State, k: Construct, t: String, lo: nat, u: String, n: nat, j: nat)
    requires |s.buf.items| + j < n <= |u| && lo + j < |t|
    requires u[|s.buf.items| + j] == t[lo + j]
    requires Step(ReadAt(s, k, u, |s.buf.items| + j), u[|s.buf.items| + j]) ==
               Done(ReadAt(s, k, u, |s.buf.items| + (j + 1)))
    ensures Link(ReadChain(s, k, u, |s.buf.items|, n), t, lo, j)
  {
    var b := |s.buf.items|;
    ChainAt(s, k, u, b, n, j, b + j);
    ChainAt(s, k, u, b, n, j + 1, b + (j + 1));
  }

  lemma CiteLink(s: State, t: String, lo: nat, u: String, n: nat, j: nat)
    requires Ready(s) && Mode(s.open) == Some(Cite)
    requires |s.buf.items| + j < n <= |u| && lo + j < |t| && u[|s.buf.items| + j] == t[lo + j]
    requires GoesOn(Cite, u, |s.buf.items| + (j + 1))
    ensures Link(ReadChain(s, Cite, u, |s.buf.items|, n), t, lo, j)
  {
    var b := |s.buf.items|;
    CiteStepAt(s, u, b + j, b + (j + 1));
    ChainLink(s, Cite, t, lo, u, n, j);
  }

  lemma AbstractLink(s: State, t: String, lo: nat, u: String, n: nat, j: nat)
    requires Ready(s) && Mode(s.open) == Some(Abstract)
    requires |s.buf.items| + j < n <= |u| && lo + j < |t| && u[|s.buf.items| + j] == t[lo + j]
    requires GoesOn(Abstract, u, |s.buf.items| + (j + 1))
    ensures Link(ReadChain(s, Abstract, u, |s.buf.items|, n), t, lo, j)
  {
    var b := |s.buf.items|;
    AbstractStepAt(s, u, b + j, b + (j + 1));
    ChainLink(s, Abstract, t, lo, u, n, j);
  }

  lemma FigureLink(s: State, k: Construct, t: String, lo: nat, u: String, n: nat, j: nat)
    requires Ready(s) && Mode(s.open) == Some(k) && IsFigure(k)
    requires |s.buf.items| + j < n <= |u| && lo + j < |t| && u[|s.buf.items| + j] == t[lo + j]
    requires GoesOn(k, u, |s.buf.items| + (j + 1))
    ensures Link(ReadChain(s, k, u, |s.buf.items|, n), t, lo, j)
  {
    var b := |s.buf.items|;
    FigureStepAt(s, k, u, b + j, b + (j + 1));
    ChainLink(s, k, t, lo, u, n, j);
  }

  lemma HeadingLink(s: State, k: Construct, t: String, lo: nat, u: String, n: nat, j: nat)
    requires Ready(s) && Mode(s.open) == Some(k) && IsHeading(k)
    requires |s.buf.items| + j < n <= |u| && lo + j < |t| && u[|s.buf.items| + j] == t[lo + j]
    requires GoesOn(k, u, |s.buf.items| + (j + 1))
    requires Feed(Title(s, k), s.brackets, GoneAt(u, |s.buf.items| + (j + 1))).Reading?
    ensures Link(ReadChain(s, k, u, |s.buf.items|, n), t, lo, j)
  {
    var b := |s.buf.items|;
    HeadingStepAt(s, k, u, b + j, b + (j + 1));
    ChainLink(s, k, t, lo, u, n, j);
  }

  /** While construct `k` goes on, the run reads it character by character:
      a citation, the abstract or a figure collects every character the
      window lets go of, a heading feeds each one to `TitleStep`, and
      nothing but the window and that accumulator changes. */
  lemma Reads(s: State, k: Construct, t: String, lo: nat, hi: nat, u: String, n: nat)
    requires Ready(s) && Mode(s.open) == Some(k) && lo <= hi <= |t|
    requires u == Ahead(s, t, lo) && n == |s.buf.items| + (hi - lo)
    requires GoesOnUntil(k, u, |s.buf.items|, n)
    requires IsHeading(k) ==> Feed(Title(s, k), s.brackets, GoneAt(u, n)).Reading?
    ensures RunFrom(s, t, lo, hi) == Done(ReadAt(s, k, u, n))
  {
    forall j | 0 <= j < hi - lo
      ensures Link(ReadChain(s, k, u, |s.buf.items|, n), t, lo, j)
    {
      ReadLink(s, k, t, lo, hi, u, n, j);
    }
    assert IsPrefix(s.buf.items, u);
    ReadStart(s, k, u);
    ChainEnds(s, k, u, |s.buf.items|, n);
    RunChain(s, t, lo, hi, ReadChain(s, k, u, |s.buf.items|, n), n - |s.buf.items|);
  }

  // ------------------------------------------------ a construct from open to close

  /** A read that goes on up to the `m`-th character of what is ahead and
      then takes one more step: the run is that step, taken from where
      `Reads` left off. */
  lemma ReadsThenStep(s: State, k: Construct, t: String, lo: nat, h: nat, u: String, m: nat)
    requires Ready(s) && Mode(s.open) == Some(k) && lo <= h < |t|
    requires u == Ahead(s, t, lo) && m == |s.buf.items| + (h - lo)
    requires GoesOnUntil(k, u, |s.buf.items|, m)
    requires IsHeading(k) ==> Feed(Title(s, k), s.brackets, GoneAt(u, m)).Reading?
    ensures RunFrom(s, t, lo, h + 1) == Step(ReadAt(s, k, u, m), u[m])
  {
    Reads(s, k, t, lo, h, u, m);
    AheadAt(s, t, lo, h, m);
  }

  /** No window from the one after the `m`-th character up to the `n`-th
      starts with a doubled space, so the buffer never drops one. */
  predicate SingleSpaced(u: String, m: nat, n: nat)
    requires m <= n <= |u|
  {
    forall j :: m < j <= n ==> !StartsWith(WindowAt(u, j), "  ")
  }

  /** A window that starts with a command does not start with a space. */
  lemma CommandNotSpaced(w: String, p: String)
    requires StartsWith(w, p) && |p| > 0 && p[0] == '\\'
    ensures !StartsWith(w, "  ")
  {
    assert w[0] == p[0];
  }

  /** A whole citation: when what the window lets go of after `\cite{` is
      `x`, free of `}`, and then `}`, the run emits `CiteText(x)` (after
      anything collected before), drops citation mode and changes nothing
      else but the window and the accumulator. */
  lemma CiteFromText(s: State, t: String, lo: nat, h: nat, u: String, m: nat)
    requires Ready(s) && Mode(s.open) == Some(Cite) && lo <= h < |t|
    requires u == Ahead(s, t, lo) && m == |s.buf.items| + (h - lo)
    requires GoesOnUntil(Cite, u, |s.buf.items|, m) && !StartsWith(WindowAt(u, m + 1), "  ")
    requires LetGo(u, m) == Some('}')
    ensures RunFrom(s, t, lo, h + 1) ==
              Done(s.(buf := Buffer(WindowSize, WindowAt(u, m + 1)), cite := s.cite + GoneAt(u, m),
                      open := s.open - {Cite}, target := s.target + [CiteText(s.cite + GoneAt(u, m))]))
  {
    ReadsThenStep(s, Cite, t, lo, h, u, m);
    StreamStep(ReadAt(s, Cite, u, m), u, m);
    CiteClose(ReadAt(s, Cite, u, m), u[m]);
  }

  /** `\cite{k1,k2}` end to end: the keys the window lets go of become one
      bracketed, `; `-separated list of `@`-keys, and citation mode ends. */
  lemma CiteFromKeys(s: State, t: String, lo: nat, h: nat, u: String, m: nat, keys: seq<String>)
    requires Ready(s) && Mode(s.open) == Some(Cite) && s.cite == [] && lo <= h < |t|
    requires u == Ahead(s, t, lo) && m == |s.buf.items| + (h - lo)
    requires SingleSpaced(u, |s.buf.items|, m + 1)
    requires |keys| >= 1 && forall i :: 0 <= i < |keys| ==> ',' !in keys[i] && '}' !in keys[i]
    requires GoneAt(u, m) == Join(keys, ",") && LetGo(u, m) == Some('}')
    ensures RunFrom(s, t, lo, h + 1).Done?
    ensures RunFrom(s, t, lo, h + 1).value.target == s.target + ["[" + Join(CiteKeys(keys), "; ") + "]"]
    ensures RunFrom(s, t, lo, h + 1).value.open == s.open - {Cite}
  {
    JoinAvoids(keys, ",", '}');
    forall j | |s.buf.items| < j <= m
      ensures GoesOn(Cite, u, j)
    {
      GoneAvoids(u, j, m, '}');
    }
    CiteFromText(s, t, lo, h, u, m);
    assert s.cite + GoneAt(u, m) == Join(keys, ",");
    CiteRoundTrip(keys);
  }

  /** A whole abstract: when the window reaches `\end{abstract}`, the run
      fails as line 270 does on a window too short to index, and otherwise
      drains the closing command, drops abstract mode and emits the front
      matter built from everything the window let go of since `\begin{abstract}`
      (after anything collected before). */
  lemma AbstractFromText(s: State, t: String, lo: nat, h: nat, u: String, m: nat)
    requires Ready(s) && Mode(s.open) == Some(Abstract) && lo <= h < |t|
    requires u == Ahead(s, t, lo) && m == |s.buf.items| + (h - lo)
    requires GoesOnUntil(Abstract, u, |s.buf.items|, m) && StartsWith(WindowAt(u, m + 1), EndAbstract)
    ensures |WindowAt(u, m + 1)| < |EndAbstract| + 2 ==> RunFrom(s, t, lo, h + 1) == Failed(IndexOutOfRange)
    ensures |WindowAt(u, m + 1)| >= |EndAbstract| + 2 ==>
              var w := WindowAt(u, m + 1)[|EndAbstract|..];
              RunFrom(s, t, lo, h + 1).Done? &&
              RunFrom(s, t, lo, h + 1).value.open == s.open - {Abstract} &&
              RunFrom(s, t, lo, h + 1).value.buf.items == w &&
              Concat(RunFrom(s, t, lo, h + 1).value.target) ==
                Concat(s.target) + FrontMatter(s.abstractText + GoneAt(u, m), LetGo(u, m), w)
  {
    CommandNotSpaced(WindowAt(u, m + 1), EndAbstract);
    ReadsThenStep(s, Abstract, t, lo, h, u, m);
    StreamStep(ReadAt(s, Abstract, u, m), u, m);
    AbstractClose(ReadAt(s, Abstract, u, m), u[m]);
  }

  /** The step that ends a figure, from where the read left it. */
  lemma FigureEnds(s: State, k: Construct, u: String, m: nat)
    requires Ready(s) && IsFigure(k) && Mode(s.open) == Some(k) && m < |u|
    requires StartsWith(WindowAt(u, m + 1), FigureCloser(k))
    ensures var x := s.figureText + GoneAt(u, m);
            GetFigure(x).Failed? ==> Step(ReadAt(s, k, u, m), u[m]) == Failed(GetFigure(x).fault)
    ensures var x := s.figureText + GoneAt(u, m);
            GetFigure(x).Done? ==>
              Step(ReadAt(s, k, u, m), u[m]) ==
                Done(s.(buf := Buffer(WindowSize, WindowAt(u, m + 1)[|FigureCloser(k)|..]), figureText := x,
                        open := s.open - {k}, target := s.target + [FigureLine(GetFigure(x).value, s.figures)],
                        figures := s.figures + 1))
  {
    var r := ReadAt(s, k, u, m);
    var x := s.figureText + GoneAt(u, m);
    assert r == s.(buf := Buffer(WindowSize, WindowAt(u, m)), figureText := x);
    CommandNotSpaced(WindowAt(u, m + 1), FigureCloser(k));
    StreamStep(r, u, m);
    FigureClose(r, u[m], k);
    if GetFigure(x).Done? {
      var w := WindowAt(u, m + 1)[|FigureCloser(k)|..];
      assert Moved(r, u[m]).buf.items[|FigureCloser(k)|..] == w;
      assert r.(buf := Buffer(WindowSize, w), open := r.open - {k},
                target := r.target + [FigureLine(GetFigure(x).value, r.figures)], figures := r.figures + 1) ==
             s.(buf := Buffer(WindowSize, w), figureText := x, open := s.open - {k},
                target := s.target + [FigureLine(GetFigure(x).value, s.figures)], figures := s.figures + 1);
    }
  }

  /** A whole figure: when the window reaches the closing command, the run
      parses everything the window let go of since the opening command
      (after anything collected before); a body `GetFigure` rejects fails
      the run with its fault, and any other is emitted as the next numbered
      figure, with the closing command drained and figure mode dropped. */
  lemma FigureFromText(s: State, k: Construct, t: String, lo: nat, h: nat, u: String, m: nat)
    requires Ready(s) && IsFigure(k) && Mode(s.open) == Some(k) && lo <= h < |t|
    requires u == Ahead(s, t, lo) && m == |s.buf.items| + (h - lo)
    requires GoesOnUntil(k, u, |s.buf.items|, m) && StartsWith(WindowAt(u, m + 1), FigureCloser(k))
    ensures var x := s.figureText + GoneAt(u, m);
            GetFigure(x).Failed? ==> RunFrom(s, t, lo, h + 1) == Failed(GetFigure(x).fault)
    ensures var x := s.figureText + GoneAt(u, m);
            GetFigure(x).Done? ==>
              RunFrom(s, t, lo, h + 1) ==
                Done(s.(buf := Buffer(WindowSize, WindowAt(u, m + 1)[|FigureCloser(k)|..]), figureText := x,
                        open := s.open - {k}, target := s.target + [FigureLine(GetFigure(x).value, s.figures)],
                        figures := s.figures + 1))
  {
    CommandNotSpaced(WindowAt(u, m + 1), FigureCloser(k));
    ReadsThenStep(s, k, t, lo, h, u, m);
    FigureEnds(s, k, u, m);
  }

  /** A title read on at depth zero: `Feed` keeps reading it, and the
      heading's title becomes the title it started with (empty unless a
      heading sharing its title closed earlier) followed by exactly what
      was let go of. */
  lemma HeadingReadAt(s: State, k: Construct, u: String, m: nat)
    requires IsHeading(k) && s.brackets == 0
    requires m <= |u| && Closes(GoneAt(u, m), 1)
    ensures Feed(Title(s, k), s.brackets, GoneAt(u, m)).Reading?
    ensures ReadAt(s, k, u, m) ==
              WithTitle(s.(buf := Buffer(WindowSize, WindowAt(u, m))), k, Title(s, k) + GoneAt(u, m)).(brackets := 0)
  {
    FeedTitle(Title(s, k), 0, GoneAt(u, m));
  }

  /** The step that ends a heading, from where the read left it. */
  lemma HeadingEnds(s: State, k: Construct, u: String, m: nat)
    requires Ready(s) && IsHeading(k) && Mode(s.open) == Some(k) && m < |u|
    requires s.brackets == 0
    requires !StartsWith(WindowAt(u, m + 1), "  ")
    requires Closes(GoneAt(u, m), 1) && LetGo(u, m) == Some('}')
    ensures |s.target| < 2 ==> Step(ReadAt(s, k, u, m), u[m]) == Failed(IndexOutOfRange)
    ensures |s.target| >= 2 ==>
              Step(ReadAt(s, k, u, m), u[m]).Done? &&
              Step(ReadAt(s, k, u, m), u[m]).value.open == s.open - {k} &&
              Concat(Step(ReadAt(s, k, u, m), u[m]).value.target) ==
                Concat(s.target)
                + (if s.target[|s.target| - 2] != "\n" then "\n" else "")
                + Marker(k) + NewlinesToSpaces(Title(s, k) + GoneAt(u, m))
                + (if WindowAt(u, m + 1)[1] != '\n' then "\n" else "")
  {
    var r := ReadAt(s, k, u, m);
    HeadingReadAt(s, k, u, m);
    assert Title(r, k) == Title(s, k) + GoneAt(u, m) && r.brackets == 0 && r.target == s.target && r.open == s.open;
    StreamStep(r, u, m);
    HeadingClose(r, u[m], k);
  }

  /** A whole heading: when the window lets go of `x`, whose brackets stay
      open, and then the `}` that closes the title, the run emits a newline
      when the chunk before last is not one, the heading marker, the title
      it started with followed by `x`, its newlines made spaces, and a
      newline unless the window goes on with one; with fewer than two chunks
      emitted before, it fails as line 315 does. The starting title is empty
      unless the same step that opened this heading also opened the other
      heading of its level, which shares the title and closed first. */
  lemma HeadingFromTitle(s: State, k: Construct, t: String, lo: nat, h: nat, u: String, m: nat)
    requires Ready(s) && IsHeading(k) && Mode(s.open) == Some(k) && lo <= h < |t|
    requires s.brackets == 0
    requires u == Ahead(s, t, lo) && m == |s.buf.items| + (h - lo)
    requires SingleSpaced(u, |s.buf.items|, m + 1)
    requires Closes(GoneAt(u, m), 1) && LetGo(u, m) == Some('}')
    ensures |s.target| < 2 ==> RunFrom(s, t, lo, h + 1) == Failed(IndexOutOfRange)
    ensures |s.target| >= 2 ==>
              RunFrom(s, t, lo, h + 1).Done? &&
              RunFrom(s, t, lo, h + 1).value.open == s.open - {k} &&
              Concat(RunFrom(s, t, lo, h + 1).value.target) ==
                Concat(s.target)
                + (if s.target[|s.target| - 2] != "\n" then "\n" else "")
                + Marker(k) + NewlinesToSpaces(Title(s, k) + GoneAt(u, m))
                + (if WindowAt(u, m + 1)[1] != '\n' then "\n" else "")
  {
    HeadingReadAt(s, k, u, m);
    ReadsThenStep(s, k, t, lo, h, u, m);
    HeadingEnds(s, k, u, m);
  }
}
