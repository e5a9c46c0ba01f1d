/** `filter_document`: strips every line, drops comment lines and collapses runs
    of blank lines into one. */
module LineFilter {
  import opened Text

  /** A line of filtered output: no newline inside, no whitespace at either end,
      and not a comment. */
  predicate CleanLine(l: String) {
    '\n' !in l && Stripped(l) && !StartsWith(l, "%")
  }

  /** One element of the script's `document` list: a clean line and its newline. */
  predicate IsEntry(e: String) {
    |e| >= 1 && e[|e| - 1] == '\n' && CleanLine(e[..|e| - 1])
  }

  function LineOf(e: String): String
    requires IsEntry(e)
  {
    e[..|e| - 1]
  }

  predicate AllEntries(es: seq<String>) {
    forall i :: 0 <= i < |es| ==> IsEntry(es[i])
  }

  /** No three newlines in a row, that is, never two blank lines in a row. */
  predicate NoBlankRun(s: String) {
    forall i :: 0 <= i && i + 2 < |s| ==> !(s[i] == '\n' && s[i + 1] == '\n' && s[i + 2] == '\n')
  }

  /** Lines 54-60 for one line: a blank line becomes a lone newline, a line
      whose stripped text starts with `%` is dropped, any other line is kept
      stripped. */
  function EntryOf(line: String): (r: seq<String>)
    requires '\n' !in line
    ensures AllEntries(r) && |r| <= 1
    ensures Strip(line) == [] ==> r == ["\n"]
    ensures |r| == 0 <==> StartsWith(Strip(line), "%")
    ensures |r| == 1 ==> LineOf(r[0]) == Strip(line)
  {
    var l := Strip(line);
    assert StartsWith(l, "%") <==> |l| > 0 && l[0] == '%' by {
      if |l| > 0 {
        assert l[..1] == [l[0]];
      }
    }
    if |l| == 0 then ["\n"]
    else if l[0] == '%' then []
    else
      assert (l + "\n")[..|l|] == l;
      [l + "\n"]
  }

  /** The loop of lines 53-60. */
  function Entries(lines: seq<String>): (r: seq<String>)
    requires forall i :: 0 <= i < |lines| ==> '\n' !in lines[i]
    ensures AllEntries(r)
    ensures |r| <= |lines|
    decreases |lines|
  {
    if |lines| == 0 then []
    else
      var head := EntryOf(lines[0]);
      var rest := Entries(lines[1..]);
      AllEntriesAppend(head, rest);
      head + rest
  }

  /** Lines 61-68: an entry that is a lone newline is skipped when the last
      kept entry was one too. */
  function Collapse(es: seq<String>, prev: String): (r: seq<String>)
    ensures forall i :: 0 <= i < |r| ==> r[i] in es
    ensures forall i :: 0 <= i < |r| - 1 ==> !(r[i] == "\n" && r[i + 1] == "\n")
    ensures prev == "\n" && |r| > 0 ==> r[0] != "\n"
    ensures NonBlank(r) == NonBlank(es)
    decreases |es|
  {
    if |es| == 0 then []
    else if prev == "\n" && es[0] == "\n" then Collapse(es[1..], prev)
    else
      var rest := Collapse(es[1..], es[0]);
      var r := [es[0]] + rest;
      assert r[1..] == rest;
      assert forall i :: 0 < i < |r| ==> r[i] == rest[i - 1] && rest[i - 1] in es[1..];
      r
  }

  /** The entries that are not a lone newline. */
  function NonBlank(es: seq<String>): (r: seq<String>)
    ensures AllEntries(es) ==> AllEntries(r)
    decreases |es|
  {
    if |es| == 0 then []
    else
      var head := if es[0] == "\n" then [] else [es[0]];
      var rest := NonBlank(es[1..]);
      if AllEntries(es) then
        assert AllEntries(head);
        AllEntriesAppend(head, rest);
        head + rest
      else head + rest
  }

  lemma AllEntriesAppend(a: seq<String>, b: seq<String>)
    requires AllEntries(a) && AllEntries(b)
    ensures AllEntries(a + b)
  {
    forall i | 0 <= i < |a + b| ensures IsEntry((a + b)[i]) {
      if i < |a| {
        assert (a + b)[i] == a[i];
      } else {
        assert (a + b)[i] == b[i - |a|];
      }
    }
  }

  /** `latex2markdown.py`'s `filter_document`. Its output is empty or ends in a newline,
      every line of it is stripped and not a comment, and it never holds two
      blank lines in a row. */
  function FilterDocument(data: String): (r: String)
    ensures r == [] || r[|r| - 1] == '\n'
    ensures forall l :: l in Split(r, '\n') ==> CleanLine(l)
    ensures NoBlankRun(r)
  {
    var es := Collapse(Entries(Split(Strip(data), '\n')), "");
    assert AllEntries(es);
    EntriesAreLines(es);
    CleanPieces(es);
    NoBlankRunConcat(es);
    Concat(es)
  }

  /** Glued entries split into clean lines and a final empty piece. */
  lemma CleanPieces(es: seq<String>)
    requires AllEntries(es)
    ensures forall l :: l in LinesOf(es) + [[]] ==> CleanLine(l)
  {
    var empty: String := [];
    assert Stripped(empty);
    forall l | l in LinesOf(es) + [[]] ensures CleanLine(l) {
      if l != empty {
        var i :| 0 <= i < |LinesOf(es)| && LinesOf(es)[i] == l;
      }
    }
  }

  function LinesOf(es: seq<String>): (r: seq<String>)
    requires AllEntries(es)
    ensures |r| == |es|
    ensures forall i :: 0 <= i < |r| ==> r[i] == LineOf(es[i]) && CleanLine(r[i])
    decreases |es|
  {
    if |es| == 0 then [] else [LineOf(es[0])] + LinesOf(es[1..])
  }

  /** Entries glued together are their lines, each with a newline, and so
      split back into those lines. */
  lemma {:induction false} EntriesAreLines(es: seq<String>)
    requires AllEntries(es)
    ensures Concat(es) == Terminate(LinesOf(es))
    ensures Split(Concat(es), '\n') == LinesOf(es) + [[]]
    ensures Concat(es) == [] || Concat(es)[|Concat(es)| - 1] == '\n'
    decreases |es|
  {
    if |es| > 0 {
      EntriesAreLines(es[1..]);
      assert LinesOf(es)[1..] == LinesOf(es[1..]);
      assert es[0] == LineOf(es[0]) + "\n";
    }
    SplitTerminate(LinesOf(es));
  }

  /** An entry that starts with a newline is a lone newline. */
  lemma NewlineStart(es: seq<String>)
    requires AllEntries(es)
    ensures |Concat(es)| >= 1 && Concat(es)[0] == '\n' ==> |es| >= 1 && es[0] == "\n"
  {
    if |es| > 0 {
      var e := es[0];
      assert Concat(es) == e + Concat(es[1..]);
      assert |e| > 1 ==> e[0] == LineOf(e)[0];
    }
  }

  /** Glued entries start with two newlines only when the first two entries
      are both blank. */
  lemma BlankStart(es: seq<String>)
    requires AllEntries(es)
    ensures |Concat(es)| >= 2 && Concat(es)[0] == '\n' && Concat(es)[1] == '\n' ==>
              |es| >= 2 && es[0] == "\n" && es[1] == "\n"
  {
    NewlineStart(es);
    if |es| > 0 {
      assert Concat(es) == es[0] + Concat(es[1..]);
      NewlineStart(es[1..]);
    }
  }

  lemma {:induction false} NoBlankRunConcat(es: seq<String>)
    requires AllEntries(es)
    requires forall i :: 0 <= i < |es| - 1 ==> !(es[i] == "\n" && es[i + 1] == "\n")
    ensures NoBlankRun(Concat(es))
    decreases |es|
  {
    if |es| > 0 {
      var e := es[0];
      var rest := Concat(es[1..]);
      var s := Concat(es);
      assert s == e + rest;
      NoBlankRunConcat(es[1..]);
      NewlineStart(es[1..]);
      BlankStart(es[1..]);
      forall i | 0 <= i && i + 2 < |s|
        ensures !(s[i] == '\n' && s[i + 1] == '\n' && s[i + 2] == '\n')
      {
        if i >= |e| {
          assert s[i] == rest[i - |e|] && s[i + 1] == rest[i - |e| + 1] && s[i + 2] == rest[i - |e| + 2];
        } else if i < |e| - 1 {
          assert s[i] == LineOf(e)[i];
        } else if |e| == 1 {
          assert s[i + 1] == rest[0];
        } else {
          assert s[i + 1] == rest[0] && s[i + 2] == rest[1];
        }
      }
    }
  }

  /** The stripped line, unless it is blank or a comment. */
  function ContentLine(line: String): seq<String> {
    var l := Strip(line);
    if |l| == 0 || l[0] == '%' then [] else [l]
  }

  /** The non-blank stripped lines of the input that are not comments, in order. */
  function ContentLines(lines: seq<String>): seq<String>
    decreases |lines|
  {
    if |lines| == 0 then [] else ContentLine(lines[0]) + ContentLines(lines[1..])
  }

  function NonEmptyLines(lines: seq<String>): seq<String>
    decreases |lines|
  {
    if |lines| == 0 then [] else (if lines[0] == [] then [] else [lines[0]]) + NonEmptyLines(lines[1..])
  }

  lemma {:induction false} NonEmptyLinesAppend(a: seq<String>, b: seq<String>)
    ensures NonEmptyLines(a + b) == NonEmptyLines(a) + NonEmptyLines(b)
    decreases |a|
  {
    if |a| > 0 {
      assert (a + b)[1..] == a[1..] + b;
      NonEmptyLinesAppend(a[1..], b);
    } else {
      assert a + b == b;
    }
  }

  lemma {:induction false} NonBlankLines(es: seq<String>)
    requires AllEntries(es)
    ensures AllEntries(NonBlank(es))
    ensures NonEmptyLines(LinesOf(es)) == LinesOf(NonBlank(es))
    decreases |es|
  {
    if |es| > 0 {
      NonBlankLines(es[1..]);
      assert LinesOf(es)[1..] == LinesOf(es[1..]);
      assert LineOf(es[0]) == [] <==> es[0] == "\n";
      if es[0] != "\n" {
        assert LinesOf(NonBlank(es)) == [LineOf(es[0])] + LinesOf(NonBlank(es[1..])) by {
          assert NonBlank(es) == [es[0]] + NonBlank(es[1..]);
          assert NonBlank(es)[1..] == NonBlank(es[1..]);
        }
      }
    }
  }

  lemma {:induction false} EntriesContent(lines: seq<String>)
    requires forall i :: 0 <= i < |lines| ==> '\n' !in lines[i]
    ensures LinesOf(NonBlank(Entries(lines))) == ContentLines(lines)
    decreases |lines|
  {
    if |lines| > 0 {
      EntriesContent(lines[1..]);
      var head := EntryOf(lines[0]);
      var rest := Entries(lines[1..]);
      NonBlankAppend(head, rest);
      NonBlankLines(head);
      NonBlankLines(rest);
      LinesOfAppend(NonBlank(head), NonBlank(rest));
      var l := Strip(lines[0]);
      if |l| > 0 && l[0] != '%' {
        assert (l + "\n")[..|l|] == l;
        assert NonBlank(head) == [l + "\n"];
      }
    }
  }

  lemma {:induction false} NonBlankAppend(a: seq<String>, b: seq<String>)
    ensures NonBlank(a + b) == NonBlank(a) + NonBlank(b)
    decreases |a|
  {
    if |a| > 0 {
      assert (a + b)[1..] == a[1..] + b;
      NonBlankAppend(a[1..], b);
    } else {
      assert a + b == b;
    }
  }

  lemma LinesOfAppend(a: seq<String>, b: seq<String>)
    requires AllEntries(a) && AllEntries(b)
    ensures AllEntries(a + b) && LinesOf(a + b) == LinesOf(a) + LinesOf(b)
  {
    AllEntriesAppend(a, b);
    var l := LinesOf(a + b);
    forall i | 0 <= i < |l| ensures l[i] == (LinesOf(a) + LinesOf(b))[i] {
      if i < |a| {
        assert (a + b)[i] == a[i];
      } else {
        assert (a + b)[i] == b[i - |a|];
      }
    }
  }

  /** Nothing but comments and whitespace is lost: the non-empty lines of the
      output are exactly the stripped, non-blank, non-comment lines of the
      input, in their order. */
  lemma FilterDocumentContent(data: String)
    ensures NonEmptyLines(Split(FilterDocument(data), '\n')) ==
            ContentLines(Split(Strip(data), '\n'))
  {
    var lines := Split(Strip(data), '\n');
    var es0 := Entries(lines);
    var es := Collapse(es0, "");
    assert AllEntries(es);
    EntriesAreLines(es);
    NonEmptyLinesAppend(LinesOf(es), [[]]);
    NonBlankLines(es);
    NonBlankLines(es0);
    EntriesContent(lines);
  }

  // ------------------------------------------------------- runs of blanks

  /** `k` blank entries. */
  function Blanks(k: nat): (r: seq<String>)
    ensures |r| == k && forall i :: 0 <= i < k ==> r[i] == "\n"
  {
    seq(k, i => "\n")
  }

  /** Entries that never hold two blanks in a row, and that do not open with
      a blank right after one, pass through unchanged. */
  lemma {:induction false} CollapseKeeps(es: seq<String>, prev: String)
    requires forall i :: 0 <= i < |es| - 1 ==> !(es[i] == "\n" && es[i + 1] == "\n")
    requires prev == "\n" && |es| > 0 ==> es[0] != "\n"
    ensures Collapse(es, prev) == es
    decreases |es|
  {
    if |es| > 0 {
      CollapseKeeps(es[1..], es[0]);
      assert [es[0]] + es[1..] == es;
    }
  }

  /** After a blank entry, further blank entries are skipped. */
  lemma {:induction false} SkipBlanks(k: nat, rest: seq<String>)
    ensures Collapse(Blanks(k) + rest, "\n") == Collapse(rest, "\n")
    decreases k
  {
    if k > 0 {
      assert (Blanks(k) + rest)[1..] == Blanks(k - 1) + rest;
      SkipBlanks(k - 1, rest);
    } else {
      assert Blanks(k) + rest == rest;
    }
  }

  /** A run of one or more blank entries between two kept entries becomes a
      single blank entry. */
  lemma {:induction false} CollapseRun(a: String, k: nat, b: String, prev: String)
    requires a != "\n" && b != "\n" && k >= 1
    ensures Collapse([a] + Blanks(k) + [b], prev) == [a, "\n", b]
  {
    var nl: String := "\n";
    var run := Blanks(k) + [b];
    BlanksCons(k);
    AppendAssoc([nl], Blanks(k - 1), [b]);
    AppendAssoc([a], Blanks(k), [b]);
    CollapseCons(a, run, prev);
    CollapseCons(nl, Blanks(k - 1) + [b], a);
    CollapseTail(k - 1, b);
  }

  lemma {:induction false} BlanksCons(k: nat)
    requires k >= 1
    ensures Blanks(k) == ["\n"] + Blanks(k - 1)
  {
  }

  /** Blank entries after a blank one vanish up to the next kept entry. */
  lemma {:induction false} CollapseTail(k: nat, b: String)
    requires b != "\n"
    ensures Collapse(Blanks(k) + [b], "\n") == [b]
  {
    SkipBlanks(k, [b]);
    CollapseCons(b, [], "\n");
    assert [b] + [] == [b];
  }

  /** An entry that is not skipped is kept and becomes the new `prev`. */
  lemma {:induction false} CollapseCons(e: String, rest: seq<String>, prev: String)
    requires !(prev == "\n" && e == "\n")
    ensures Collapse([e] + rest, prev) == [e] + Collapse(rest, e)
  {
    assert ([e] + rest)[1..] == rest;
  }

  /** Lines that are all whitespace each give one blank entry. */
  lemma {:induction false} BlankEntries(lines: seq<String>, k: nat)
    requires k <= |lines|
    requires forall i :: 0 <= i < |lines| ==> '\n' !in lines[i]
    requires forall i :: 0 <= i < k ==> AllSpace(lines[i])
    ensures Entries(lines) == Blanks(k) + Entries(lines[k..])
    decreases k
  {
    if k > 0 {
      var tail := lines[1..];
      BlankEntries(tail, k - 1);
      assert tail[k - 1..] == lines[k..];
      assert Strip(lines[0]) == [];
      BlanksCons(k);
      AppendAssoc(["\n"], Blanks(k - 1), Entries(lines[k..]));
    } else {
      assert lines[k..] == lines;
    }
  }

  /** A line with text that is not a comment gives one entry: its stripped
      text and a newline. */
  lemma {:induction false} ContentEntry(line: String)
    requires '\n' !in line && Strip(line) != [] && !StartsWith(Strip(line), "%")
    ensures EntryOf(line) == [Strip(line) + "\n"]
  {
    var r := EntryOf(line);
    assert r[0] == LineOf(r[0]) + "\n";
  }

  /** A run of one or more blank lines between two lines of text comes out as
      exactly one empty line between them. */
  lemma {:induction false} ParagraphBreak(data: String, x: String, blanks: seq<String>, y: String)
    requires Split(Strip(data), '\n') == [x] + blanks + [y]
    requires Strip(x) != [] && !StartsWith(Strip(x), "%")
    requires Strip(y) != [] && !StartsWith(Strip(y), "%")
    requires |blanks| >= 1 && forall i :: 0 <= i < |blanks| ==> AllSpace(blanks[i])
    ensures FilterDocument(data) == Strip(x) + "\n\n" + Strip(y) + "\n"
  {
    var lines := Split(Strip(data), '\n');
    BlankRunEntries(lines, x, blanks, y);
    BlankRunGlued(Strip(x), |blanks|, Strip(y));
    assert FilterDocument(data) == Concat(Collapse(Entries(lines), ""));
  }

  /** The parts of `[x] + blanks + [y]` by position. */
  lemma RunPieces(lines: seq<String>, x: String, blanks: seq<String>, y: String)
    requires lines == [x] + blanks + [y]
    ensures lines[0] == x && lines[1..][|blanks|..] == [y]
    ensures forall i :: 0 <= i < |blanks| ==> lines[1..][i] == blanks[i]
  {
    assert lines[1..] == blanks + [y];
  }

  lemma {:induction false} BlankRunEntries(lines: seq<String>, x: String, blanks: seq<String>, y: String)
    requires lines == [x] + blanks + [y]
    requires forall i :: 0 <= i < |lines| ==> '\n' !in lines[i]
    requires Strip(x) != [] && !StartsWith(Strip(x), "%")
    requires Strip(y) != [] && !StartsWith(Strip(y), "%")
    requires forall i :: 0 <= i < |blanks| ==> AllSpace(blanks[i])
    ensures Entries(lines) == [Strip(x) + "\n"] + Blanks(|blanks|) + [Strip(y) + "\n"]
  {
    RunPieces(lines, x, blanks, y);
    var tail := lines[1..];
    var ex := Strip(x) + "\n";
    var ey := Strip(y) + "\n";
    assert Entries(tail) == Blanks(|blanks|) + [ey] by {
      BlankEntries(tail, |blanks|);
      LastEntry(y);
    }
    assert Entries(lines) == [ex] + Entries(tail) by {
      ContentEntry(x);
    }
    AppendAssoc([ex], Blanks(|blanks|), [ey]);
  }

  lemma {:induction false} LastEntry(y: String)
    requires '\n' !in y && Strip(y) != [] && !StartsWith(Strip(y), "%")
    ensures Entries([y]) == [Strip(y) + "\n"]
  {
    ContentEntry(y);
    assert [y][1..] == [];
  }

  lemma {:induction false} BlankRunGlued(a: String, k: nat, b: String)
    requires a != [] && b != [] && k >= 1
    ensures Concat(Collapse([a + "\n"] + Blanks(k) + [b + "\n"], "")) == a + "\n\n" + b + "\n"
  {
    var ea := a + "\n";
    var eb := b + "\n";
    assert |ea| != 1 && |eb| != 1;
    CollapseRun(ea, k, eb, "");
    ConcatThree(ea, "\n", eb);
    ParagraphGlue(a, b);
  }

  lemma ParagraphGlue(a: String, b: String)
    ensures (a + "\n") + "\n" + (b + "\n") == a + "\n\n" + b + "\n"
  {
  }
}
