/** `get_figure`: re-reads the body of one figure environment through a buffer
    as long as the body, and pulls out the arguments of `\includegraphics`,
    `\label` and `\caption`. */
module FigureFields {
  import opened Outcomes
  import opened Text
  import opened LookaheadBuffer

  const GraphicsCmd: String := "\\includegraphics"
  const LabelCmd: String := "\\label"
  const CaptionCmd: String := "\\caption"

  /** The three fields the script returns as `path, caption, label`. */
  datatype Figure = Figure(path: String, caption: String, labelText: String)

  const NoFields := Figure([], [], [])

  /** An argument read by an inner loop, and the buffer left after it. */
  datatype Scanned = Scanned(arg: String, buf: Buffer)

  /** Lines 117-119: pushing the body into a buffer with room for all of it
      evicts nothing, so the buffer ends up holding exactly the body. */
  function Fill(b: Buffer, s: String): (r: Buffer)
    requires Valid(b) && |b.items| + |s| <= b.cap
    ensures Valid(r) && r.cap == b.cap && r.items == b.items + s
    decreases |s|
  {
    if |s| == 0 then b
    else
      assert b.items + [s[0]] + s[1..] == b.items + s;
      Fill(Add(b, s[0]).buf, s[1..])
  }

  /** One `empty(1)` on a non-empty buffer takes its first character. */
  lemma TakeOne(b: Buffer)
    requires Valid(b) && |b.items| > 0
    ensures Empty(b, 1).taken == [b.items[0]]
    ensures Empty(b, 1).buf == b.(items := b.items[1..])
  {
    var d := Empty(b, 1);
    assert d.taken == b.items[..1];
  }

  /** The inner loops of lines 127-134 and 138-145. Characters are skipped up to
      the first `{`; after it they are collected up to the next `}`, which is
      dropped. `None` stands for a loop that never ends: once the buffer is
      empty, `empty(1)` keeps returning `""` and the `break` is never reached. */
  function PlainArgument(b: Buffer, found: bool, acc: String): (r: Option<Scanned>)
    requires Valid(b)
    ensures r.Some? ==> Valid(r.value.buf) && r.value.buf.cap == b.cap
    ensures r.Some? ==> |r.value.buf.items| < |b.items|
    decreases |b.items|
  {
    var d := Empty(b, 1);
    if d.taken == [] then None
    else
      TakeOne(b);
      var v := d.taken[0];
      if found && v == '}' then Some(Scanned(acc, d.buf))
      else PlainArgument(d.buf, found || v == '{', if found then acc + [v] else acc)
  }

  /** A plain argument extends what was collected with text free of `}`, and
      what is left is a suffix of the window. Once the `{` has been seen, the
      window read is exactly the collected text, the closing `}` and the
      window left after it. */
  lemma {:induction false} PlainArgumentSplits(b: Buffer, found: bool, acc: String)
    requires Valid(b) && PlainArgument(b, found, acc).Some?
    ensures var r := PlainArgument(b, found, acc).value;
            IsPrefix(acc, r.arg) && '}' !in r.arg[|acc|..] && IsSuffix(r.buf.items, b.items)
    ensures var r := PlainArgument(b, found, acc).value;
            found ==> b.items == r.arg[|acc|..] + "}" + r.buf.items
    decreases |b.items|
  {
    var d := Empty(b, 1);
    TakeOne(b);
    var v := d.taken[0];
    assert b.items == [v] + d.buf.items;
    assert IsSuffix(d.buf.items, b.items);
    if found && v == '}' {
      var r := PlainArgument(b, found, acc).value;
      assert r == Scanned(acc, d.buf);
      assert r.arg[|acc|..] == [];
    } else {
      var found1 := found || v == '{';
      var acc1 := if found then acc + [v] else acc;
      var r := PlainArgument(d.buf, found1, acc1);
      assert PlainArgument(b, found, acc) == r;
      PlainArgumentSplits(d.buf, found1, acc1);
      var x := r.value.arg;
      SuffixTrans(r.value.buf.items, d.buf.items, b.items);
      if found {
        PrefixSnoc(acc, v, x);
        ConsAssoc(v, x[|acc1|..], "}", r.value.buf.items);
      } else {
        assert x[|acc|..] == x[|acc1|..];
      }
    }
  }

  /** Lines 149-161: like `PlainArgument`, but a depth counter lets the caption
      hold nested `{...}` groups; the argument ends at the `}` that brings the
      depth back to zero. */
  function CaptionArgument(b: Buffer, found: bool, depth: int, acc: String): (r: Option<Scanned>)
    requires Valid(b)
    ensures r.Some? ==> Valid(r.value.buf) && r.value.buf.cap == b.cap
    ensures r.Some? ==> |r.value.buf.items| < |b.items|
    decreases |b.items|
  {
    var d := Empty(b, 1);
    if d.taken == [] then None
    else
      TakeOne(b);
      var v := d.taken[0];
      var depth1 := if found && v == '}' then depth - 1 else depth;
      if found && v == '}' && depth1 == 0 then Some(Scanned(acc, d.buf))
      else
        var acc1 := if found then acc + [v] else acc;
        var depth2 := if v == '{' then depth1 + 1 else depth1;
        CaptionArgument(d.buf, found || v == '{', depth2, acc1)
  }

  /** A caption extends what was collected, and what is left is a suffix of
      the window. Once the `{` has been seen, the window read is exactly the
      collected text, the closing `}` and the window left after it. */
  lemma {:induction false} CaptionArgumentSplits(b: Buffer, found: bool, depth: int, acc: String)
    requires Valid(b) && CaptionArgument(b, found, depth, acc).Some?
    ensures var r := CaptionArgument(b, found, depth, acc).value;
            IsPrefix(acc, r.arg) && IsSuffix(r.buf.items, b.items)
    ensures var r := CaptionArgument(b, found, depth, acc).value;
            found ==> b.items == r.arg[|acc|..] + "}" + r.buf.items
    decreases |b.items|
  {
    var d := Empty(b, 1);
    TakeOne(b);
    var v := d.taken[0];
    assert b.items == [v] + d.buf.items;
    assert IsSuffix(d.buf.items, b.items);
    var depth1 := if found && v == '}' then depth - 1 else depth;
    if found && v == '}' && depth1 == 0 {
      var r := CaptionArgument(b, found, depth, acc).value;
      assert r == Scanned(acc, d.buf);
      assert r.arg[|acc|..] == [];
    } else {
      var found1 := found || v == '{';
      var depth2 := if v == '{' then depth1 + 1 else depth1;
      var acc1 := if found then acc + [v] else acc;
      var r := CaptionArgument(d.buf, found1, depth2, acc1);
      assert CaptionArgument(b, found, depth, acc) == r;
      CaptionArgumentSplits(d.buf, found1, depth2, acc1);
      var x := r.value.arg;
      SuffixTrans(r.value.buf.items, d.buf.items, b.items);
      if found {
        PrefixSnoc(acc, v, x);
        ConsAssoc(v, x[|acc1|..], "}", r.value.buf.items);
      }
    }
  }

  /** The outer loop of lines 123-162. Every `match` tests a pattern of at most
      16 characters, which the capacity must allow. After each command's
      argument one more character is dropped, and a character that starts
      no command is itself dropped (line 162). */
  function Scan(b: Buffer, fig: Figure): (r: Outcome<Figure>)
    requires Valid(b) && b.cap >= |GraphicsCmd|
    ensures r.Failed? ==> r.fault == NonTermination
    decreases |b.items|
  {
    if IsEmpty(b) then Done(fig)
    else if Match(b, GraphicsCmd) then
      match PlainArgument(Empty(b, |GraphicsCmd|).buf, false, [])
      case None => Failed(NonTermination)
      case Some(s) => Scan(Empty(s.buf, 1).buf, fig.(path := fig.path + s.arg))
    else if Match(b, LabelCmd) then
      match PlainArgument(Empty(b, |LabelCmd|).buf, false, [])
      case None => Failed(NonTermination)
      case Some(s) => Scan(Empty(s.buf, 1).buf, fig.(labelText := fig.labelText + s.arg))
    else if Match(b, CaptionCmd) then
      match CaptionArgument(Empty(b, |CaptionCmd|).buf, false, 0, [])
      case None => Failed(NonTermination)
      case Some(s) => Scan(Empty(s.buf, 1).buf, fig.(caption := fig.caption + s.arg))
    else
      Scan(Empty(b, 1).buf, fig)
  }

  /** `latex2markdown.py`'s `get_figure`. An empty body gives three empty fields; a body
      of 1 to 15 characters trips the assertion of `match`, because the
      buffer's capacity is the body's length. */
  function GetFigure(data: String): (r: Outcome<Figure>)
    ensures data == [] ==> r == Done(NoFields)
    ensures 0 < |data| < |GraphicsCmd| ==> r == Failed(AssertionFailed)
    ensures r.Failed? ==> r.fault == AssertionFailed || r.fault == NonTermination
  {
    var b := Fill(New(|data|), data);
    if IsEmpty(b) then Done(NoFields)
    else if |GraphicsCmd| > b.cap then Failed(AssertionFailed)
    else Scan(b, NoFields)
  }

  // ------------------------------------------------------------ round trip

  /** `Closes(s, d)`: reading `s` at depth `d` never brings the depth to zero
      and ends at depth one, so the next `}` closes the caption. */
  predicate Closes(s: String, depth: int)
    decreases |s|
  {
    if |s| == 0 then depth == 1
    else if s[0] == '}' then depth > 1 && Closes(s[1..], depth - 1)
    else if s[0] == '{' then Closes(s[1..], depth + 1)
    else Closes(s[1..], depth)
  }

  /** A piece of a figure body: one of the three commands, with the text
      skipped before its `{`, its argument and the character dropped after its
      `}`; any other command, such as `\centering`; or a character that
      starts no command. */
  datatype Part =
    | Graphic(opt: String, arg: String, sep: char)
    | Label(opt: String, arg: String, sep: char)
    | Caption(opt: String, arg: String, sep: char)
    | Command(name: String)
    | Other(c: char)

  /** Neither text is a prefix of the other. */
  predicate Apart(a: String, b: String) {
    !StartsWith(a, b) && !StartsWith(b, a)
  }

  /** The name of a command the scan does not look for: whatever follows it,
      `\name` starts none of the three commands. */
  predicate OtherName(name: String) {
    name != [] && '\\' !in name &&
    Apart("\\" + name, GraphicsCmd) && Apart("\\" + name, LabelCmd) && Apart("\\" + name, CaptionCmd)
  }

  predicate WellFormed(p: Part) {
    match p
    case Graphic(opt, arg, _) => '{' !in opt && '}' !in arg
    case Label(opt, arg, _) => '{' !in opt && '}' !in arg
    case Caption(opt, arg, _) => '{' !in opt && Closes(arg, 1)
    case Command(name) => OtherName(name)
    case Other(c) => c != '\\'
  }

  function Encode(p: Part): String {
    match p
    case Graphic(opt, arg, sep) => GraphicsCmd + Argument(opt, arg, sep)
    case Label(opt, arg, sep) => LabelCmd + Argument(opt, arg, sep)
    case Caption(opt, arg, sep) => CaptionCmd + Argument(opt, arg, sep)
    case Command(name) => "\\" + name
    case Other(c) => [c]
  }

  function EncodeAll(ps: seq<Part>): String
    decreases |ps|
  {
    if |ps| == 0 then [] else Encode(ps[0]) + EncodeAll(ps[1..])
  }

  /** The fields after one part: a command's argument is appended to its field. */
  function AddPart(p: Part, fig: Figure): Figure {
    match p
    case Graphic(_, arg, _) => fig.(path := fig.path + arg)
    case Label(_, arg, _) => fig.(labelText := fig.labelText + arg)
    case Caption(_, arg, _) => fig.(caption := fig.caption + arg)
    case Command(_) => fig
    case Other(_) => fig
  }

  /** The fields a body built from `ps` should yield: each command's arguments
      concatenated in order, and empty for a command that never occurs. */
  function FieldsOf(ps: seq<Part>, fig: Figure): Figure
    decreases |ps|
  {
    if |ps| == 0 then fig else FieldsOf(ps[1..], AddPart(ps[0], fig))
  }

  lemma PlainStep(cap: nat, v: char, s: String, found: bool, acc: String)
    requires |s| + 1 <= cap
    ensures PlainArgument(Buffer(cap, [v] + s), found, acc) ==
              if found && v == '}' then Some(Scanned(acc, Buffer(cap, s)))
              else PlainArgument(Buffer(cap, s), found || v == '{', if found then acc + [v] else acc)
  {
    TakeOne(Buffer(cap, [v] + s));
    assert ([v] + s)[1..] == s;
  }

  lemma CaptionStep(cap: nat, v: char, s: String, found: bool, depth: int, acc: String)
    requires |s| + 1 <= cap
    ensures CaptionArgument(Buffer(cap, [v] + s), found, depth, acc) ==
              var depth1 := if found && v == '}' then depth - 1 else depth;
              if found && v == '}' && depth1 == 0 then Some(Scanned(acc, Buffer(cap, s)))
              else CaptionArgument(Buffer(cap, s), found || v == '{',
                                   if v == '{' then depth1 + 1 else depth1,
                                   if found then acc + [v] else acc)
  {
    TakeOne(Buffer(cap, [v] + s));
    assert ([v] + s)[1..] == s;
  }

  lemma {:induction false} SkipOption(cap: nat, opt: String, rest: String, acc: String)
    requires |opt + rest| <= cap && '{' !in opt
    ensures PlainArgument(Buffer(cap, opt + rest), false, acc) == PlainArgument(Buffer(cap, rest), false, acc)
    ensures CaptionArgument(Buffer(cap, opt + rest), false, 0, acc) == CaptionArgument(Buffer(cap, rest), false, 0, acc)
    decreases |opt|
  {
    if |opt| > 0 {
      assert opt + rest == [opt[0]] + (opt[1..] + rest);
      assert opt[0] != '{';
      PlainStep(cap, opt[0], opt[1..] + rest, false, acc);
      CaptionStep(cap, opt[0], opt[1..] + rest, false, 0, acc);
      SkipOption(cap, opt[1..], rest, acc);
    } else {
      assert opt + rest == rest;
    }
  }

  lemma {:induction false} CollectPlain(cap: nat, arg: String, rest: String, acc: String)
    requires |arg + "}" + rest| <= cap && '}' !in arg
    ensures PlainArgument(Buffer(cap, arg + "}" + rest), true, acc) == Some(Scanned(acc + arg, Buffer(cap, rest)))
    decreases |arg|
  {
    if |arg| > 0 {
      var v := arg[0];
      var tl := arg[1..] + "}" + rest;
      HeadSplit(arg, "}", rest);
      assert v != '}';
      PlainStep(cap, v, tl, true, acc);
      CollectPlain(cap, arg[1..], rest, acc + [v]);
      HeadJoin(acc, arg);
    } else {
      assert arg + "}" + rest == ['}'] + rest;
      PlainStep(cap, '}', rest, true, acc);
      assert acc + arg == acc;
    }
  }

  lemma {:induction false} CollectCaption(cap: nat, arg: String, depth: int, rest: String, acc: String)
    requires |arg + "}" + rest| <= cap && Closes(arg, depth)
    ensures CaptionArgument(Buffer(cap, arg + "}" + rest), true, depth, acc) == Some(Scanned(acc + arg, Buffer(cap, rest)))
    decreases |arg|
  {
    if |arg| > 0 {
      var v := arg[0];
      var tl := arg[1..] + "}" + rest;
      HeadSplit(arg, "}", rest);
      var next := if v == '}' then depth - 1 else if v == '{' then depth + 1 else depth;
      CaptionStep(cap, v, tl, true, depth, acc);
      CollectCaption(cap, arg[1..], next, rest, acc + [v]);
      HeadJoin(acc, arg);
    } else {
      assert arg + "}" + rest == ['}'] + rest;
      CaptionStep(cap, '}', rest, true, depth, acc);
      assert acc + arg == acc;
    }
  }

  /** The text after a command name: skipped text, `{`, the argument, `}` and
      the character dropped after it. */
  function Argument(opt: String, arg: String, sep: char): String {
    opt + (['{'] + (arg + (['}'] + [sep])))
  }

  lemma ArgumentSplit(opt: String, arg: String, sep: char, tail: String)
    ensures Argument(opt, arg, sep) + tail == opt + (['{'] + (arg + ("}" + ([sep] + tail))))
  {
  }

  /** A plain argument after its command: skip to `{`, collect up to `}`. */
  lemma ReadPlain(cap: nat, opt: String, arg: String, sep: char, tail: String)
    requires '{' !in opt && '}' !in arg
    requires |Argument(opt, arg, sep) + tail| <= cap
    ensures PlainArgument(Buffer(cap, Argument(opt, arg, sep) + tail), false, []) ==
              Some(Scanned(arg, Buffer(cap, [sep] + tail)))
  {
    var rest := [sep] + tail;
    var after := ['{'] + (arg + ("}" + rest));
    ArgumentSplit(opt, arg, sep, tail);
    SkipOption(cap, opt, after, []);
    PlainStep(cap, '{', arg + ("}" + rest), false, []);
    assert arg + ("}" + rest) == arg + "}" + rest;
    CollectPlain(cap, arg, rest, []);
    assert [] + arg == arg;
  }

  lemma ReadCaption(cap: nat, opt: String, arg: String, sep: char, tail: String)
    requires '{' !in opt && Closes(arg, 1)
    requires |Argument(opt, arg, sep) + tail| <= cap
    ensures CaptionArgument(Buffer(cap, Argument(opt, arg, sep) + tail), false, 0, []) ==
              Some(Scanned(arg, Buffer(cap, [sep] + tail)))
  {
    var rest := [sep] + tail;
    var after := ['{'] + (arg + ("}" + rest));
    ArgumentSplit(opt, arg, sep, tail);
    SkipOption(cap, opt, after, []);
    CaptionStep(cap, '{', arg + ("}" + rest), false, 0, []);
    assert arg + ("}" + rest) == arg + "}" + rest;
    CollectCaption(cap, arg, 1, rest, []);
    assert [] + arg == arg;
  }

  /** Dropping the character after an argument. */
  lemma DropSep(cap: nat, sep: char, tail: String)
    requires |tail| + 1 <= cap
    ensures Empty(Buffer(cap, [sep] + tail), 1).buf == Buffer(cap, tail)
  {
    TakeOne(Buffer(cap, [sep] + tail));
    assert ([sep] + tail)[1..] == tail;
  }

  lemma ScanGraphic(cap: nat, opt: String, arg: String, sep: char, tail: String, fig: Figure)
    requires '{' !in opt && '}' !in arg && cap >= |GraphicsCmd|
    requires |GraphicsCmd + Argument(opt, arg, sep) + tail| <= cap
    ensures Scan(Buffer(cap, GraphicsCmd + Argument(opt, arg, sep) + tail), fig) ==
            Scan(Buffer(cap, tail), fig.(path := fig.path + arg))
  {
    var after := Argument(opt, arg, sep) + tail;
    var b := Buffer(cap, GraphicsCmd + Argument(opt, arg, sep) + tail);
    assert b.items == GraphicsCmd + after;
    assert Match(b, GraphicsCmd) by { MatchMeans(b, GraphicsCmd); assert b.items[..16] == GraphicsCmd; }
    assert Empty(b, 16).buf == Buffer(cap, after) by { assert b.items[16..] == after; }
    ReadPlain(cap, opt, arg, sep, tail);
    DropSep(cap, sep, tail);
  }

  lemma ScanLabel(cap: nat, opt: String, arg: String, sep: char, tail: String, fig: Figure)
    requires '{' !in opt && '}' !in arg && cap >= |GraphicsCmd|
    requires |LabelCmd + Argument(opt, arg, sep) + tail| <= cap
    ensures Scan(Buffer(cap, LabelCmd + Argument(opt, arg, sep) + tail), fig) ==
            Scan(Buffer(cap, tail), fig.(labelText := fig.labelText + arg))
  {
    var after := Argument(opt, arg, sep) + tail;
    var b := Buffer(cap, LabelCmd + Argument(opt, arg, sep) + tail);
    assert b.items == LabelCmd + after;
    assert !Match(b, GraphicsCmd) by { MatchMeans(b, GraphicsCmd); assert b.items[1] == 'l'; }
    assert Match(b, LabelCmd) by { MatchMeans(b, LabelCmd); assert b.items[..6] == LabelCmd; }
    assert Empty(b, 6).buf == Buffer(cap, after) by { assert b.items[6..] == after; }
    ReadPlain(cap, opt, arg, sep, tail);
    DropSep(cap, sep, tail);
  }

  lemma ScanCaption(cap: nat, opt: String, arg: String, sep: char, tail: String, fig: Figure)
    requires '{' !in opt && Closes(arg, 1) && cap >= |GraphicsCmd|
    requires |CaptionCmd + Argument(opt, arg, sep) + tail| <= cap
    ensures Scan(Buffer(cap, CaptionCmd + Argument(opt, arg, sep) + tail), fig) ==
            Scan(Buffer(cap, tail), fig.(caption := fig.caption + arg))
  {
    var after := Argument(opt, arg, sep) + tail;
    var b := Buffer(cap, CaptionCmd + Argument(opt, arg, sep) + tail);
    assert b.items == CaptionCmd + after;
    assert !Match(b, GraphicsCmd) by { MatchMeans(b, GraphicsCmd); assert b.items[1] == 'c'; }
    assert !Match(b, LabelCmd) by { MatchMeans(b, LabelCmd); assert b.items[1] == 'c'; }
    assert Match(b, CaptionCmd) by { MatchMeans(b, CaptionCmd); assert b.items[..8] == CaptionCmd; }
    assert Empty(b, 8).buf == Buffer(cap, after) by { assert b.items[8..] == after; }
    ReadCaption(cap, opt, arg, sep, tail);
    DropSep(cap, sep, tail);
  }

  lemma ScanOther(cap: nat, c: char, tail: String, fig: Figure)
    requires c != '\\' && cap >= |GraphicsCmd| && |[c] + tail| <= cap
    ensures Scan(Buffer(cap, [c] + tail), fig) == Scan(Buffer(cap, tail), fig)
  {
    var b := Buffer(cap, [c] + tail);
    assert !Match(b, GraphicsCmd) && !Match(b, LabelCmd) && !Match(b, CaptionCmd) by {
      MatchMeans(b, GraphicsCmd);
      MatchMeans(b, LabelCmd);
      MatchMeans(b, CaptionCmd);
      assert b.items[0] == c;
    }
    DropSep(cap, c, tail);
  }

  /** `\centering`, common at the top of a figure, is such a command. */
  lemma CenteringIsOther()
    ensures OtherName("centering")
  {
    var c: String := "\\centering";
    assert c[1] == 'c' && c[2] == 'e' && GraphicsCmd[1] == 'i' && LabelCmd[1] == 'l' && CaptionCmd[2] == 'a';
  }

  /** Text without a backslash starts no command and is dropped. */
  lemma {:induction false} ScanText(cap: nat, s: String, tail: String, fig: Figure)
    requires '\\' !in s && cap >= |GraphicsCmd| && |s + tail| <= cap
    ensures Scan(Buffer(cap, s + tail), fig) == Scan(Buffer(cap, tail), fig)
    decreases |s|
  {
    if |s| > 0 {
      assert s + tail == [s[0]] + (s[1..] + tail);
      ScanOther(cap, s[0], s[1..] + tail, fig);
      ScanText(cap, s[1..], tail, fig);
    } else {
      assert s + tail == tail;
    }
  }

  /** Text that is a prefix of neither of two texts cannot start, followed by
      anything, with the other. */
  lemma ApartStarts(a: String, tail: String, w: String)
    requires Apart(a, w)
    ensures !StartsWith(a + tail, w)
  {
  }

  /** A command the scan does not look for loses its backslash, and its name
      is dropped character by character. */
  lemma ScanCommand(cap: nat, name: String, tail: String, fig: Figure)
    requires OtherName(name) && cap >= |GraphicsCmd| && |"\\" + name + tail| <= cap
    ensures Scan(Buffer(cap, "\\" + name + tail), fig) == Scan(Buffer(cap, tail), fig)
  {
    var b := Buffer(cap, "\\" + name + tail);
    assert !Match(b, GraphicsCmd) && !Match(b, LabelCmd) && !Match(b, CaptionCmd) by {
      ApartStarts("\\" + name, tail, GraphicsCmd);
      ApartStarts("\\" + name, tail, LabelCmd);
      ApartStarts("\\" + name, tail, CaptionCmd);
      MatchMeans(b, GraphicsCmd);
      MatchMeans(b, LabelCmd);
      MatchMeans(b, CaptionCmd);
    }
    assert b.items == ['\\'] + (name + tail);
    DropSep(cap, '\\', name + tail);
    ScanText(cap, name, tail, fig);
  }

  /** A command whose argument is well formed is read in one go: its argument
      is added to its field and scanning resumes after the dropped character. */
  lemma ScanPart(cap: nat, p: Part, tail: String, fig: Figure)
    requires WellFormed(p) && cap >= |GraphicsCmd| && |Encode(p) + tail| <= cap
    ensures Scan(Buffer(cap, Encode(p) + tail), fig) == Scan(Buffer(cap, tail), AddPart(p, fig))
  {
    match p
    case Graphic(opt, arg, sep) => ScanGraphic(cap, opt, arg, sep, tail, fig);
    case Label(opt, arg, sep) => ScanLabel(cap, opt, arg, sep, tail, fig);
    case Caption(opt, arg, sep) => ScanCaption(cap, opt, arg, sep, tail, fig);
    case Command(name) => ScanCommand(cap, name, tail, fig);
    case Other(c) => ScanOther(cap, c, tail, fig);
  }

  lemma {:induction false} ScanParts(cap: nat, ps: seq<Part>, tail: String, fig: Figure)
    requires forall i :: 0 <= i < |ps| ==> WellFormed(ps[i])
    requires cap >= |GraphicsCmd| && |EncodeAll(ps) + tail| <= cap
    ensures Scan(Buffer(cap, EncodeAll(ps) + tail), fig) == Scan(Buffer(cap, tail), FieldsOf(ps, fig))
    decreases |ps|
  {
    if |ps| > 0 {
      var p := ps[0];
      var rest := EncodeAll(ps[1..]) + tail;
      assert EncodeAll(ps) + tail == Encode(p) + rest;
      ScanParts(cap, ps[1..], tail, AddPart(p, fig));
      ScanPart(cap, p, rest, fig);
    } else {
      assert EncodeAll(ps) + tail == tail;
    }
  }

  /** Round trip: a body assembled from well-formed commands (in any order,
      repeated or absent, with other text between them) yields exactly the
      commands' arguments, each field concatenated in order of appearance. */
  lemma FieldsRoundTrip(ps: seq<Part>)
    requires forall i :: 0 <= i < |ps| ==> WellFormed(ps[i])
    requires |EncodeAll(ps)| == 0 || |EncodeAll(ps)| >= |GraphicsCmd|
    ensures GetFigure(EncodeAll(ps)) == Done(FieldsOf(ps, NoFields))
  {
    var data := EncodeAll(ps);
    EncodeAllEmpty(ps);
    if |data| > 0 {
      assert Fill(New(|data|), data).items == data;
      ScanParts(|data|, ps, [], NoFields);
      assert data + [] == data;
    }
  }

  lemma EncodeAllEmpty(ps: seq<Part>)
    ensures |EncodeAll(ps)| == 0 ==> ps == []
  {
    if |ps| > 0 {
      assert |Encode(ps[0])| > 0;
    }
  }

  lemma {:induction false} UnclosedPlain(cap: nat, s: String, found: bool, acc: String)
    requires |s| <= cap && '}' !in s
    ensures PlainArgument(Buffer(cap, s), found, acc) == None
    decreases |s|
  {
    if |s| > 0 {
      TakeOne(Buffer(cap, s));
      var v := s[0];
      UnclosedPlain(cap, s[1..], found || v == '{', if found then acc + [v] else acc);
    }
  }

  /** Scanning a window that starts with `\label` but never closes its
      argument does not end. */
  lemma LabelUnclosed(cap: nat, s: String)
    requires '}' !in s && cap >= |GraphicsCmd| && |LabelCmd + s| <= cap
    ensures Scan(Buffer(cap, LabelCmd + s), NoFields) == Failed(NonTermination)
  {
    var b := Buffer(cap, LabelCmd + s);
    assert !Match(b, GraphicsCmd) by { MatchMeans(b, GraphicsCmd); assert b.items[1] == 'l'; }
    assert Match(b, LabelCmd) by { MatchMeans(b, LabelCmd); assert b.items[..6] == LabelCmd; }
    assert Empty(b, 6).buf == Buffer(cap, s) by { assert b.items[6..] == s; }
    UnclosedPlain(cap, s, false, []);
  }

  /** A `\label` whose argument is never closed makes the script loop forever. */
  lemma UnclosedLabelSpins(s: String)
    requires '}' !in s && |LabelCmd + s| >= |GraphicsCmd|
    ensures GetFigure(LabelCmd + s) == Failed(NonTermination)
  {
    var data := LabelCmd + s;
    assert Fill(New(|data|), data) == Buffer(|data|, data);
    LabelUnclosed(|data|, s);
  }
}
