/** `format_font`: the second windowed pass, which turns `\textbf{...}` into
    `**...**`. It has two modes: idle, where evicted characters are emitted with
    `~` turned into a space, and bold, where they are collected until the `}`. */
module FontStyle {
  import opened Outcomes
  import opened Text
  import opened LookaheadBuffer

  const BoldCmd: String := "\\textbf{"

  /** The loop state of lines 179-210: the window, `store_bold`, `bold_text`
      and the output so far (the script's `target`, already joined). */
  datatype FontState = FontState(buf: Buffer, bold: bool, boldText: String, out: String)

  predicate Ready(s: FontState) {
    Valid(s.buf) && s.buf.cap == WindowSize
  }

  function Init(): (s: FontState)
    ensures Ready(s) && !s.bold && s.out == [] && IsEmpty(s.buf)
  {
    FontState(New(WindowSize), false, [], [])
  }

  /** One iteration of the loop of lines 181-209. */
  function FontStep(s: FontState, c: char): (r: FontState)
    requires Ready(s)
    ensures Ready(r)
  {
    var p := Advance(s.buf, c);
    var v := p.evicted;
    if s.bold then
      if v.None? then s.(buf := p.buf)
      else if v.value == '}' then
        FontState(p.buf, false, s.boldText, s.out + "**" + NewlinesToSpaces(s.boldText) + "**")
      else s.(buf := p.buf, boldText := s.boldText + [v.value])
    else
      var t := if Match(p.buf, BoldCmd) then FontState(Empty(p.buf, |BoldCmd|).buf, true, [], s.out)
               else s.(buf := p.buf);
      if v.Some? then t.(out := t.out + [Tilde(v.value)]) else t
  }

  /** The output only grows: a step appends to it and never rewrites it. */
  lemma FontStepOutGrows(s: FontState, c: char)
    requires Ready(s)
    ensures IsPrefix(s.out, FontStep(s, c).out)
  {
    var r := FontStep(s, c);
    var v := Advance(s.buf, c).evicted;
    if s.bold && v.Some? && v.value == '}' {
      assert r.out == s.out + ("**" + NewlinesToSpaces(s.boldText) + "**");
    } else if !s.bold && v.Some? {
      assert r.out == s.out + [Tilde(v.value)];
    } else {
      assert r.out == s.out;
    }
  }

  /** The window after a step is a suffix of the old window followed by the
      new character. */
  lemma FontStepWindow(s: FontState, c: char)
    requires Ready(s)
    ensures IsSuffix(FontStep(s, c).buf.items, s.buf.items + [c])
  {
    var p := Advance(s.buf, c);
    AdvanceKeeps(s.buf, c);
    if !s.bold && Match(p.buf, BoldCmd) {
      var q := Empty(p.buf, |BoldCmd|);
      EmptyKeeps(p.buf, |BoldCmd|);
      assert IsSuffix(q.buf.items, p.buf.items);
      SuffixTrans(q.buf.items, p.buf.items, s.buf.items + [c]);
      assert FontStep(s, c).buf == q.buf;
    } else {
      assert FontStep(s, c).buf == p.buf;
    }
  }

  /** The loop over the input, one character at a time: the state reached
      from `s` by the characters of `t` from position `lo` up to (not
      including) `hi`. */
  function RunFrom(s: FontState, t: String, lo: nat, hi: nat): (r: FontState)
    requires Ready(s) && lo <= hi <= |t|
    ensures Ready(r)
    decreases hi - lo
  {
    if hi == lo then s else FontStep(RunFrom(s, t, lo, hi - 1), t[hi - 1])
  }

  /** `latex2markdown.py`'s `format_font`: the loop over the whole input, then the
      window flushed as it is. */
  function FormatFont(data: String): (r: String)
    ensures r == RunFrom(Init(), data, 0, |data|).out + RunFrom(Init(), data, 0, |data|).buf.items
    ensures !Contains(data, BoldCmd) && NoDoubledSpace(data) && |data| <= WindowSize ==> r == data
    ensures !Contains(data, BoldCmd) && NoDoubledSpace(data) && |data| >= WindowSize ==>
              r == TildeAll(data[..|data| - WindowSize]) + data[|data| - WindowSize..]
  {
    var s := RunFrom(Init(), data, 0, |data|);
    PlainWindow(data);
    s.out + Empty(s.buf, -1).taken
  }

  /** Runs compose: the run over positions `i` to `k` is the run over `i` to
      `j`, continued over `j` to `k`. */
  lemma {:induction false} RunFromAppend(s: FontState, t: String, i: nat, j: nat, k: nat)
    requires Ready(s) && i <= j <= k <= |t|
    ensures RunFrom(s, t, i, k) == RunFrom(RunFrom(s, t, i, j), t, j, k)
    decreases k - j
  {
    if k > j {
      var m := k - 1;
      RunFromAppend(s, t, i, j, m);
      assert RunFrom(s, t, i, k) == FontStep(RunFrom(s, t, i, m), t[m]);
    }
  }

  // ------------------------------------------------------ no command, no bold

  /** One idle step over text free of `\textbf{` stays idle, and the window
      stays a suffix of the text read. */
  lemma {:induction false} IdleStepSuffix(r: FontState, d: String, c: char)
    requires Ready(r) && !r.bold && IsSuffix(r.buf.items, d)
    requires !Contains(d + [c], BoldCmd)
    ensures !FontStep(r, c).bold && IsSuffix(FontStep(r, c).buf.items, d + [c])
  {
    var p := Advance(r.buf, c);
    FontStepWindow(r, c);
    assert IsSuffix(r.buf.items + [c], d + [c]);
    SuffixTrans(FontStep(r, c).buf.items, r.buf.items + [c], d + [c]);
    MatchMeans(p.buf, BoldCmd);
    if StartsWith(p.buf.items, BoldCmd) {
      AdvanceKeeps(r.buf, c);
      SuffixTrans(p.buf.items, r.buf.items + [c], d + [c]);
      SuffixStartsWith(p.buf.items, d + [c], BoldCmd);
    }
  }

  /** A document in which `\textbf{` never occurs never enters bold mode, and
      the window stays a suffix of the text read so far. */
  lemma {:induction false} IdleThroughout(t: String, n: nat)
    requires n <= |t| && !Contains(t, BoldCmd)
    ensures !RunFrom(Init(), t, 0, n).bold && IsSuffix(RunFrom(Init(), t, 0, n).buf.items, t[..n])
    decreases n
  {
    if n > 0 {
      var m := n - 1;
      IdleThroughout(t, m);
      assert t[..m] + [t[m]] == t[..n];
      SliceAvoids(t, 0, n, BoldCmd);
      assert t[0..n] == t[..n];
      IdleStepSuffix(RunFrom(Init(), t, 0, m), t[..m], t[m]);
    }
  }

  /** Without `\textbf{` in the input, `format_font` ends in idle mode. */
  lemma {:induction false} NoCommandNoBold(data: String)
    requires !Contains(data, BoldCmd)
    ensures !RunFrom(Init(), data, 0, |data|).bold
  {
    IdleThroughout(data, |data|);
  }

  // ------------------------------------------------------------- run phases

  /** `s0` reaches `s1` over positions `i` to `j` and `s1` reaches `s2` over
      `j` to `k`, so `s0` reaches `s2` over `i` to `k`. */
  lemma {:induction false} RunChain(s0: FontState, s1: FontState, s2: FontState, t: String, i: nat, j: nat, k: nat)
    requires Ready(s0) && Ready(s1) && i <= j <= k <= |t|
    requires RunFrom(s0, t, i, j) == s1 && RunFrom(s1, t, j, k) == s2
    ensures RunFrom(s0, t, i, k) == s2
  {
    RunFromAppend(s0, t, i, j, k);
  }

  /** Positions that hold no backslash cannot start `\textbf{`. */
  lemma {:induction false} AbsentFromChars(t: String, lo: nat, hi: nat)
    requires lo <= hi <= |t| && '\\' !in t[lo..hi]
    ensures Absent(t, BoldCmd, lo, hi)
    decreases hi - lo
  {
    if lo < hi {
      assert t[lo] == t[lo..hi][0];
      assert t[lo + 1..hi] == t[lo..hi][1..];
      AbsentFromChars(t, lo + 1, hi);
    }
  }

  /** Idle after `n` characters of `t`, with idle output starting at `e`
      after the output `o`: the window is `t[Head(e, n)..n]` and everything
      before it since `e` has been emitted with `~` as a space. */
  function IdleAt(t: String, e: nat, o: String, bt: String, n: nat): (s: FontState)
    requires e <= n <= |t|
    ensures Ready(s) && !s.bold
  {
    FontState(Buffer(WindowSize, t[Head(e, n)..n]), false, bt, o + TildeAll(t[e..Head(e, n)]))
  }

  /** Bold after `n` characters of `t`, where the bold text starts at `e`:
      the window is `t[Head(e, n)..n]` and everything before it since `e`
      has been collected. */
  function BoldAt(t: String, e: nat, o: String, n: nat): (s: FontState)
    requires e <= n <= |t|
    ensures Ready(s) && s.bold
  {
    FontState(Buffer(WindowSize, t[Head(e, n)..n]), true, t[e..Head(e, n)], o)
  }

  /** Emitting one more character of `t` with `~` as a space. */
  lemma {:induction false} TildeSnoc(o: String, t: String, e: nat, k: nat, j: nat)
    requires e <= k < |t| && j == k + 1
    ensures o + TildeAll(t[e..j]) == o + TildeAll(t[e..k]) + [Tilde(t[k])]
  {
    assert t[e..j] == t[e..k] + [t[k]];
    ReplaceAppend(t[e..k], [t[k]], '~', ' ');
    assert Replace([t[k]], '~', ' ') == [Tilde(t[k])];
  }

  /** One idle step: the window moves on, and the character it lets go of,
      if any, is emitted with `~` as a space. */
  lemma {:induction false} IdleStepAt(t: String, e: nat, o: String, bt: String, m: nat, n: nat)
    requires e <= m < |t| && n == m + 1
    requires !StartsWith(t[Head(e, n)..], "  ") && !StartsWith(t[Head(e, n)..], BoldCmd)
    ensures FontStep(IdleAt(t, e, o, bt, m), t[m]) == IdleAt(t, e, o, bt, n)
  {
    var s := IdleAt(t, e, o, bt, m);
    var w := t[Head(e, n)..n];
    WindowStarts(t, Head(e, n), n, "  ");
    WindowStarts(t, Head(e, n), n, BoldCmd);
    AdvanceAt(t, e, m, n);
    MatchMeans(Buffer(WindowSize, w), BoldCmd);
    if m >= e + WindowSize {
      var k := m - WindowSize;
      TildeSnoc(o, t, e, k, Head(e, n));
      assert FontStep(s, t[m]) == s.(buf := Buffer(WindowSize, w), out := s.out + [Tilde(t[k])]);
    } else {
      assert FontStep(s, t[m]) == s.(buf := Buffer(WindowSize, w));
    }
  }

  /** One bold step: the window moves on, and the character it lets go of,
      if any, is collected. */
  lemma {:induction false} BoldStepAt(t: String, e: nat, o: String, m: nat, n: nat)
    requires e <= m < |t| && n == m + 1
    requires !StartsWith(t[Head(e, n)..], "  ")
    requires m >= e + WindowSize ==> t[m - WindowSize] != '}'
    ensures FontStep(BoldAt(t, e, o, m), t[m]) == BoldAt(t, e, o, n)
  {
    var s := BoldAt(t, e, o, m);
    var w := t[Head(e, n)..n];
    WindowStarts(t, Head(e, n), n, "  ");
    AdvanceAt(t, e, m, n);
    if m >= e + WindowSize {
      var k := m - WindowSize;
      assert t[e..Head(e, n)] == t[e..k] + [t[k]];
      assert FontStep(s, t[m]) == s.(buf := Buffer(WindowSize, w), boldText := s.boldText + [t[k]]);
    } else {
      assert FontStep(s, t[m]) == s.(buf := Buffer(WindowSize, w));
    }
  }

  /** The step whose new window `t[j..n]` starts with `\textbf{`: the
      character let go of is still emitted, the command is dropped and bold
      mode starts, collecting from `e2`, just after the command. */
  lemma {:induction false} TriggerAt(t: String, e: nat, o: String, bt: String, j: nat, m: nat, n: nat, e2: nat)
    requires e + WindowSize <= m < |t| && n == m + 1 && j + WindowSize == n && e2 == j + |BoldCmd|
    requires StartsWith(t[j..n], BoldCmd)
    ensures FontStep(IdleAt(t, e, o, bt, m), t[m]) == BoldAt(t, e2, o + TildeAll(t[e..j]), n)
  {
    var s := IdleAt(t, e, o, bt, m);
    var w := t[j..n];
    var b := Buffer(WindowSize, w);
    assert w[0] == '\\';
    AdvanceAt(t, e, m, n);
    MatchMeans(b, BoldCmd);
    DrainMatched(b, BoldCmd);
    assert w[|BoldCmd|..] == t[e2..n];
    assert FontStep(s, t[m]) == FontState(Buffer(WindowSize, t[e2..n]), true, [], s.out + [Tilde(t[m - WindowSize])]);
    TildeSnoc(o, t, e, m - WindowSize, j);
  }

  /** The step that lets go of the closing `}` at `k`: the collected text is
      emitted between `**` marks with newlines as spaces, and idle mode
      resumes from `e2`, just after the brace. */
  lemma {:induction false} CloseAt(t: String, e: nat, o: String, k: nat, m: nat, n: nat, e2: nat)
    requires e + WindowSize <= m < |t| && n == m + 1 && k + WindowSize == m && e2 == k + 1
    requires t[k] == '}' && !StartsWith(t[e2..], "  ")
    ensures FontStep(BoldAt(t, e, o, m), t[m]) ==
            IdleAt(t, e2, o + "**" + NewlinesToSpaces(t[e..k]) + "**", t[e..k], n)
  {
    WindowStarts(t, e2, n, "  ");
    AdvanceAt(t, e, m, n);
    assert TildeAll(t[e2..e2]) == [];
  }

  /** A run over the single character `t[m]` is one step. */
  lemma {:induction false} RunOne(s0: FontState, s1: FontState, t: String, m: nat, n: nat)
    requires Ready(s0) && m < |t| && n == m + 1
    requires FontStep(s0, t[m]) == s1
    ensures RunFrom(s0, t, m, n) == s1
  {
    assert RunFrom(s0, t, m, n - 1) == s0;
  }

  /** A run one character longer is one more step. */
  lemma {:induction false} RunStep(s0: FontState, s1: FontState, s2: FontState, t: String, lo: nat, m: nat, n: nat)
    requires Ready(s0) && Ready(s1) && lo <= m && n == m + 1 && n <= |t|
    requires RunFrom(s0, t, lo, m) == s1 && FontStep(s1, t[m]) == s2
    ensures RunFrom(s0, t, lo, n) == s2
  {
  }

  /** A stretch of idle steps, none of whose windows starts with a doubled
      space or with `\textbf{`. */
  lemma {:induction false} IdleRunAt(t: String, e: nat, o: String, bt: String, n0: nat, n: nat)
    requires e <= n0 <= n <= |t|
    requires Absent(t, "  ", e, Head(e, n) + 1) && Absent(t, BoldCmd, e, Head(e, n) + 1)
    ensures RunFrom(IdleAt(t, e, o, bt, n0), t, n0, n) == IdleAt(t, e, o, bt, n)
    decreases n - n0
  {
    if n > n0 {
      var m := n - 1;
      AbsentShrink(t, "  ", e, Head(e, n) + 1, Head(e, m) + 1);
      AbsentShrink(t, BoldCmd, e, Head(e, n) + 1, Head(e, m) + 1);
      IdleRunAt(t, e, o, bt, n0, m);
      IdleStepWithin(t, e, o, bt, m, n, n);
      RunStep(IdleAt(t, e, o, bt, n0), IdleAt(t, e, o, bt, m), IdleAt(t, e, o, bt, n), t, n0, m, n);
    }
  }

  /** An idle step inside a stretch free of doubled spaces and `\textbf{`. */
  lemma {:induction false} IdleStepWithin(t: String, e: nat, o: String, bt: String, m: nat, j: nat, n: nat)
    requires e <= m && j == m + 1 && j <= n <= |t|
    requires Absent(t, "  ", e, Head(e, n) + 1) && Absent(t, BoldCmd, e, Head(e, n) + 1)
    ensures FontStep(IdleAt(t, e, o, bt, m), t[m]) == IdleAt(t, e, o, bt, j)
  {
    AbsentAt(t, "  ", e, Head(e, n) + 1, Head(e, j));
    AbsentAt(t, BoldCmd, e, Head(e, n) + 1, Head(e, j));
    IdleStepAt(t, e, o, bt, m, j);
  }

  /** No `}` among the characters let go of within `n` steps means none
      within `m = n - 1`, and the one let go of at step `n`, if any, is not one. */
  lemma {:induction false} NoBraceBefore(t: String, e: nat, m: nat, n: nat)
    requires e <= m && n == m + 1 && n <= |t| && '}' !in t[e..Head(e, n)]
    ensures '}' !in t[e..Head(e, m)]
    ensures m >= e + WindowSize ==> t[m - WindowSize] != '}'
  {
    var a := t[e..Head(e, n)];
    if m >= e + WindowSize {
      assert t[m - WindowSize] == a[m - WindowSize - e];
    }
  }

  /** A stretch of bold steps, none of whose windows starts with a doubled
      space, and none of which lets go of a `}`. */
  lemma {:induction false} BoldRunAt(t: String, e: nat, o: String, n0: nat, n: nat)
    requires e <= n0 <= n <= |t|
    requires Absent(t, "  ", e, Head(e, n) + 1) && '}' !in t[e..Head(e, n)]
    ensures RunFrom(BoldAt(t, e, o, n0), t, n0, n) == BoldAt(t, e, o, n)
    decreases n - n0
  {
    if n > n0 {
      var m := n - 1;
      AbsentShrink(t, "  ", e, Head(e, n) + 1, Head(e, m) + 1);
      AbsentAt(t, "  ", e, Head(e, n) + 1, Head(e, n));
      NoBraceBefore(t, e, m, n);
      BoldRunAt(t, e, o, n0, m);
      BoldStepAt(t, e, o, m, n);
      RunStep(BoldAt(t, e, o, n0), BoldAt(t, e, o, m), BoldAt(t, e, o, n), t, n0, m, n);
    }
  }

  // ------------------------------------------------------------ whole runs

  /** The result is the output of the loop followed by the whole window. */
  lemma {:induction false} Flushed(data: String, fin: FontState)
    requires RunFrom(Init(), data, 0, |data|) == fin
    ensures FormatFont(data) == fin.out + fin.buf.items
  {
  }

  lemma {:induction false} InitIsIdle(t: String)
    ensures Init() == IdleAt(t, 0, [], [], 0)
  {
    assert t[0..0] == [];
  }

  /** Text without `\textbf{` and without doubled spaces: every character
      but the last forty is emitted with `~` as a space, and the last forty
      (all of a shorter text), still in the window at the end, come out
      unchanged. */
  lemma {:induction false} PlainWindow(data: String)
    ensures !Contains(data, BoldCmd) && NoDoubledSpace(data) ==>
              var fin := RunFrom(Init(), data, 0, |data|);
              (|data| <= WindowSize ==> fin.out + fin.buf.items == data) &&
              (|data| >= WindowSize ==>
                 fin.out + fin.buf.items == TildeAll(data[..|data| - WindowSize]) + data[|data| - WindowSize..])
  {
    if !Contains(data, BoldCmd) && NoDoubledSpace(data) {
      var n := |data|;
      assert data[0..] == data;
      AbsentFromContains(data, "  ", 0, Head(0, n) + 1);
      AbsentFromContains(data, BoldCmd, 0, Head(0, n) + 1);
      InitIsIdle(data);
      IdleRunAt(data, 0, [], [], 0, n);
      assert [] + TildeAll(data[0..Head(0, n)]) == TildeAll(data[..Head(0, n)]);
    }
  }

  /** The places in `pre + \textbf{ + x + } + post`. */
  lemma {:induction false} SpanPieces(pre: String, x: String, post: String, t: String)
    requires t == pre + BoldCmd + x + "}" + post && |post| >= WindowSize
    ensures t[..|pre|] == pre && t[0..|pre|] == pre && t[|pre|..|pre| + |BoldCmd|] == BoldCmd
    ensures t[|pre| + |BoldCmd|..|pre| + |BoldCmd| + |x|] == x && t[|pre| + |BoldCmd| + |x|] == '}'
    ensures t[|pre| + |BoldCmd| + |x| + 1..] == post
    ensures t[|pre| + |BoldCmd| + |x| + 1..|t| - WindowSize] == post[..|post| - WindowSize]
    ensures t[|t| - WindowSize..|t|] == post[|post| - WindowSize..]
  {
    assert t[|t| - WindowSize..|t|] == t[|t| - WindowSize..];
  }

  /** The text before the command, up to the step whose window starts with it. */
  lemma {:induction false} SpanBefore(t: String, P: nat, a1: nat)
    requires 0 < P && a1 + 1 == P + WindowSize && a1 <= |t|
    requires '\\' !in t[..P] && !Contains(t, "  ")
    ensures RunFrom(Init(), t, 0, a1) == IdleAt(t, 0, [], [], a1)
  {
    assert t[0..] == t;
    assert t[0..P] == t[..P];
    assert Head(0, a1) + 1 == P;
    AbsentFromContains(t, "  ", 0, Head(0, a1) + 1);
    AbsentFromChars(t, 0, Head(0, a1) + 1);
    InitIsIdle(t);
    IdleRunAt(t, 0, [], [], 0, a1);
  }

  /** The bold text passing through the window. */
  lemma {:induction false} SpanBold(t: String, e1: nat, o1: String, q: nat, b1: nat, a2: nat)
    requires e1 <= q && a2 == q + WindowSize && e1 <= b1 <= a2 <= |t|
    requires '}' !in t[e1..q] && !Contains(t[e1..], "  ")
    ensures RunFrom(BoldAt(t, e1, o1, b1), t, b1, a2) == BoldAt(t, e1, o1, a2)
  {
    assert Head(e1, a2) == q;
    AbsentFromContains(t, "  ", e1, Head(e1, a2) + 1);
    BoldRunAt(t, e1, o1, b1, a2);
  }

  /** The text after the closing brace. */
  lemma {:induction false} SpanAfter(t: String, e3: nat, o2: String, bt: String, b2: nat)
    requires e3 + WindowSize == b2 && b2 <= |t|
    requires !Contains(t[e3..], "  ") && !Contains(t[e3..], BoldCmd)
    ensures RunFrom(IdleAt(t, e3, o2, bt, b2), t, b2, |t|) == IdleAt(t, e3, o2, bt, |t|)
  {
    AbsentFromContains(t, "  ", e3, Head(e3, |t|) + 1);
    AbsentFromContains(t, BoldCmd, e3, Head(e3, |t|) + 1);
    IdleRunAt(t, e3, o2, bt, b2, |t|);
  }

  /** Up to the step that lets go of the closing brace at `q`: the text
      before `P` has been emitted and the bold text is being collected. */
  lemma {:induction false} SpanOpen(t: String, P: nat, q: nat, a2: nat)
    requires 0 < P && P + |BoldCmd| <= q && a2 == q + WindowSize && a2 <= |t|
    requires t[P..P + |BoldCmd|] == BoldCmd
    requires '\\' !in t[..P] && '}' !in t[P + |BoldCmd|..q] && !Contains(t, "  ")
    ensures RunFrom(Init(), t, 0, a2) == BoldAt(t, P + |BoldCmd|, [] + TildeAll(t[0..P]), a2)
  {
    var e1 := P + |BoldCmd|;
    var a1 := P + WindowSize - 1;
    var b1 := a1 + 1;
    assert StartsWith(t[P..b1], BoldCmd) by {
      assert t[P..b1][..|BoldCmd|] == t[P..P + |BoldCmd|];
    }
    SuffixAvoids(t[e1..], t, "  ");
    var o1 := [] + TildeAll(t[0..P]);
    var s1 := IdleAt(t, 0, [], [], a1);
    var s2 := BoldAt(t, e1, o1, b1);
    var s3 := BoldAt(t, e1, o1, a2);
    SpanBefore(t, P, a1);
    TriggerAt(t, 0, [], [], P, a1, b1, e1);
    RunOne(s1, s2, t, a1, b1);
    SpanBold(t, e1, o1, q, b1, a2);
    RunChain(Init(), s1, s2, t, 0, a1, b1);
    RunChain(Init(), s2, s3, t, 0, b1, a2);
  }

  /** From the step that lets go of the closing brace at `q` to the end: the
      bold text is emitted and idle mode runs to the end from `e3`, just
      after the brace. */
  lemma {:induction false} SpanClose(t: String, e1: nat, o1: String, q: nat, e3: nat, a2: nat)
    requires e1 <= q && e3 == q + 1 && a2 == q + WindowSize && a2 < |t| && t[q] == '}'
    requires !Contains(t[e3..], "  ") && !Contains(t[e3..], BoldCmd)
    ensures RunFrom(BoldAt(t, e1, o1, a2), t, a2, |t|) ==
            IdleAt(t, e3, o1 + "**" + NewlinesToSpaces(t[e1..q]) + "**", t[e1..q], |t|)
  {
    var bt := t[e1..q];
    var o2 := o1 + "**" + NewlinesToSpaces(bt) + "**";
    var b2 := a2 + 1;
    var s3 := BoldAt(t, e1, o1, a2);
    var s4 := IdleAt(t, e3, o2, bt, b2);
    var s5 := IdleAt(t, e3, o2, bt, |t|);
    CloseAt(t, e1, o1, q, a2, b2, e3);
    RunOne(s3, s4, t, a2, b2);
    SpanAfter(t, e3, o2, bt, b2);
    RunChain(s3, s4, s5, t, a2, b2, |t|);
  }

  /** The bold round trip on a text `t` with `\textbf{` at `P`, the closing
      brace at `q` and at least forty characters after it. */
  lemma {:induction false} BoldSpanAt(t: String, P: nat, q: nat, pre: String, x: String, rest: String, last: String)
    requires 0 < P && P + |BoldCmd| <= q && q + 1 + WindowSize <= |t|
    requires t[P..P + |BoldCmd|] == BoldCmd && t[q] == '}'
    requires '\\' !in t[..P] && '}' !in t[P + |BoldCmd|..q]
    requires !Contains(t, "  ") && !Contains(t[q + 1..], BoldCmd)
    requires t[0..P] == pre && t[P + |BoldCmd|..q] == x
    requires t[q + 1..|t| - WindowSize] == rest && t[|t| - WindowSize..|t|] == last
    ensures FormatFont(t) == TildeAll(pre) + "**" + NewlinesToSpaces(x) + "**" + TildeAll(rest) + last
  {
    var e1 := P + |BoldCmd|;
    var e3 := q + 1;
    var a2 := q + WindowSize;
    var o1 := [] + TildeAll(t[0..P]);
    var bt := t[e1..q];
    var o2 := o1 + "**" + NewlinesToSpaces(bt) + "**";
    var s3 := BoldAt(t, e1, o1, a2);
    var s5 := IdleAt(t, e3, o2, bt, |t|);
    SpanOpen(t, P, q, a2);
    SuffixAvoids(t[e3..], t, "  ");
    SpanClose(t, e1, o1, q, e3, a2);
    RunChain(Init(), s3, s5, t, 0, a2, |t|);
    Flushed(t, s5);
    assert o1 == TildeAll(t[0..P]);
    assert Head(e3, |t|) == |t| - WindowSize;
  }

  /** The bold round trip: a `\textbf{x}` preceded by at least one character
      and no backslash, and followed by at least forty characters without
      `\textbf{`, becomes `**x**` with the newlines of `x` as spaces. The text
      before it is emitted with `~` as a space, and so is the text after it
      except its last forty characters, which come out unchanged. */
  lemma {:induction false} BoldSpan(pre: String, x: String, post: String)
    requires |pre| > 0 && '\\' !in pre && '}' !in x && |post| >= WindowSize
    requires !Contains(post, BoldCmd)
    requires NoDoubledSpace(pre + BoldCmd + x + "}" + post)
    ensures FormatFont(pre + BoldCmd + x + "}" + post) ==
            TildeAll(pre) + "**" + NewlinesToSpaces(x) + "**" +
            TildeAll(post[..|post| - WindowSize]) + post[|post| - WindowSize..]
  {
    var t := pre + BoldCmd + x + "}" + post;
    var P := |pre|;
    var q := P + |BoldCmd| + |x|;
    SpanPieces(pre, x, post, t);
    BoldSpanAt(t, P, q, pre, x, post[..|post| - WindowSize], post[|post| - WindowSize..]);
  }
}
