/** `latex2markdown.py`'s `Buffer`: a bounded first-in-first-out window of characters.
    Its `size` is `cap` and its list is `items`; the script also keeps a
    `count`, which always equals the length of the list, so here it is `|items|`. */
module LookaheadBuffer {
  import opened Outcomes
  import opened Text

  datatype Buffer = Buffer(cap: nat, items: String)

  /** The result of `add`: the new window and the character pushed out, if any. */
  datatype Pushed = Pushed(buf: Buffer, evicted: Option<char>)

  /** The result of `empty`: the characters taken off the front and what is left. */
  datatype Drained = Drained(taken: String, buf: Buffer)

  /** The window capacity of both streaming passes. */
  const WindowSize: nat := 40

  /** The window never holds more than its capacity. */
  predicate Valid(b: Buffer) {
    |b.items| <= b.cap
  }

  function New(cap: nat): (b: Buffer)
    ensures Valid(b) && b.cap == cap && IsEmpty(b)
  {
    Buffer(cap, [])
  }

  predicate IsEmpty(b: Buffer) {
    |b.items| == 0
  }

  function EvictedText(v: Option<char>): String {
    if v.Some? then [v.value] else []
  }

  /** `add`: appends `c`; once the window is full the oldest character leaves
      and is returned. With capacity 0 the script pops from an empty list, so
      the capacity must be positive. */
  function Add(b: Buffer, c: char): (r: Pushed)
    requires Valid(b) && b.cap > 0
    ensures Valid(r.buf) && r.buf.cap == b.cap
    ensures r.evicted.Some? <==> |b.items| == b.cap
    ensures |r.buf.items| == if |b.items| < b.cap then |b.items| + 1 else b.cap
  {
    if |b.items| < b.cap then
      Pushed(b.(items := b.items + [c]), None)
    else
      Pushed(b.(items := b.items[1..] + [c]), Some(b.items[0]))
  }

  /** Nothing is lost by `add`: the evicted character followed by the new
      window is the old window followed by `c`. */
  lemma AddKeeps(b: Buffer, c: char)
    requires Valid(b) && b.cap > 0
    ensures EvictedText(Add(b, c).evicted) + Add(b, c).buf.items == b.items + [c]
  {
  }

  /** `empty(num)`: takes a prefix off the window; exactly `num` characters
      when `0 <= num <= count`, and everything otherwise (the default
      `num = -1`). */
  function Empty(b: Buffer, num: int): (r: Drained)
    requires Valid(b)
    ensures Valid(r.buf) && r.buf.cap == b.cap
    ensures |r.taken| + |r.buf.items| == |b.items|
    ensures 0 <= num <= |b.items| ==> |r.taken| == num
    ensures (num < 0 || num > |b.items|) ==> r.buf.items == []
  {
    if |b.items| == 0 then
      Drained([], b)
    else if num < 0 || num > |b.items| then
      Drained(b.items, b.(items := []))
    else
      Drained(b.items[..num], b.(items := b.items[num..]))
  }

  /** Nothing is lost by `empty`: the taken text followed by what remains is
      the old window. */
  lemma EmptyKeeps(b: Buffer, num: int)
    requires Valid(b)
    ensures Empty(b, num).taken + Empty(b, num).buf.items == b.items
  {
  }

  /** The window holds `pattern[i..]` from position `i` on. */
  predicate MatchFrom(items: String, pattern: String, i: nat)
    decreases |pattern| - i
  {
    i >= |pattern| || (i < |items| && items[i] == pattern[i] && MatchFrom(items, pattern, i + 1))
  }

  /** `match(pattern)`: the pattern must fit the capacity (the script asserts
      it); the window's first characters are compared with the pattern's, and
      a window shorter than the pattern does not match. */
  predicate Match(b: Buffer, pattern: String)
    requires |pattern| <= b.cap
  {
    MatchFrom(b.items, pattern, 0)
  }

  lemma {:induction false} MatchFromMeans(items: String, pattern: String, i: nat)
    requires i <= |pattern|
    ensures MatchFrom(items, pattern, i) <==>
              forall j :: i <= j < |pattern| ==> j < |items| && items[j] == pattern[j]
    ensures MatchFrom(items, pattern, i) && i < |pattern| ==> |pattern| <= |items|
    decreases |pattern| - i
  {
    if i < |pattern| {
      MatchFromMeans(items, pattern, i + 1);
      if forall j :: i <= j < |pattern| ==> j < |items| && items[j] == pattern[j] {
        assert i < |items| && items[i] == pattern[i];
      }
    }
  }

  /** `match` is true exactly when the window starts with the pattern, so it
      is false whenever fewer characters than the pattern are held. */
  lemma MatchMeans(b: Buffer, pattern: String)
    requires |pattern| <= b.cap
    ensures Match(b, pattern) <==> StartsWith(b.items, pattern)
  {
    MatchFromMeans(b.items, pattern, 0);
    if Match(b, pattern) {
      forall j | 0 <= j < |pattern| ensures b.items[..|pattern|][j] == pattern[j] {
        assert pattern[j] == pattern[j];
      }
    }
    if StartsWith(b.items, pattern) {
      forall j | 0 <= j < |pattern| ensures b.items[j] == pattern[j] {
        assert b.items[..|pattern|][j] == b.items[j];
      }
    }
  }

  /** Draining exactly the characters of a pattern the window starts with
      returns that pattern. */
  lemma DrainMatched(b: Buffer, pattern: String)
    requires Valid(b) && |pattern| <= b.cap && Match(b, pattern)
    ensures Empty(b, |pattern|).taken == pattern
    ensures Empty(b, |pattern|).buf.items == b.items[|pattern|..]
  {
    MatchMeans(b, pattern);
  }

  /** Lines 183-184 and 242-243 of the script: when the two oldest characters
      are spaces, the oldest is dropped. At most one character goes. */
  function DropDoubledSpace(b: Buffer): (r: Buffer)
    requires Valid(b) && b.cap >= 2
    ensures Valid(r) && r.cap == b.cap
    ensures |r.items| + 1 >= |b.items|
  {
    if Match(b, "  ") then Empty(b, 1).buf else b
  }

  /** The oldest character is dropped exactly when the window starts with two
      spaces. */
  lemma DoubledSpaceDropped(b: Buffer)
    requires Valid(b) && b.cap >= 2
    ensures StartsWith(b.items, "  ") ==> DropDoubledSpace(b).items == b.items[1..]
    ensures !StartsWith(b.items, "  ") ==> DropDoubledSpace(b) == b
  {
    MatchMeans(b, "  ");
  }

  /** One input step shared by both streaming passes: push the character,
      then drop a doubled leading space. */
  function Advance(b: Buffer, c: char): (r: Pushed)
    requires Valid(b) && b.cap >= 2
    ensures Valid(r.buf) && r.buf.cap == b.cap
    ensures r.evicted.Some? <==> |b.items| == b.cap
    ensures r.evicted.Some? ==> |r.buf.items| >= b.cap - 1
  {
    var p := Add(b, c);
    Pushed(DropDoubledSpace(p.buf), p.evicted)
  }

  /** The window after a step is a suffix of the old window followed by the
      new character, and when no doubled space is dropped, the evicted
      character followed by the new window is exactly that text. */
  lemma AdvanceKeeps(b: Buffer, c: char)
    requires Valid(b) && b.cap >= 2
    ensures IsSuffix(Advance(b, c).buf.items, b.items + [c])
    ensures !StartsWith(Add(b, c).buf.items, "  ") ==>
              EvictedText(Advance(b, c).evicted) + Advance(b, c).buf.items == b.items + [c]
  {
    AddKeeps(b, c);
    DoubledSpaceDropped(Add(b, c).buf);
  }

  // ------------------------------------------------- a window sliding over a text

  /** Where the window begins after `n` characters of `t` when filling began
      at `e`: at `e` until the window is full, then forty characters back. */
  function Head(e: nat, n: nat): (h: nat)
    requires e <= n
    ensures e <= h <= n && n - h <= WindowSize
    ensures n >= e + WindowSize ==> h + WindowSize == n
  {
    if n >= e + WindowSize then n - WindowSize else e
  }

  /** `Advance` on the window `t[Head(e, m)..m]` with `t[m]`, when the next
      window does not start with a doubled space. */
  lemma {:induction false} AdvanceAt(t: String, e: nat, m: nat, n: nat)
    requires e <= m < |t| && n == m + 1
    requires !StartsWith(t[Head(e, n)..n], "  ")
    ensures Advance(Buffer(WindowSize, t[Head(e, m)..m]), t[m]) ==
            Pushed(Buffer(WindowSize, t[Head(e, n)..n]),
                   if m >= e + WindowSize then Some(t[m - WindowSize]) else None)
  {
    var p := Add(Buffer(WindowSize, t[Head(e, m)..m]), t[m]);
    if m >= e + WindowSize {
      assert p.buf.items == t[Head(e, n)..n] by {
        assert t[m - WindowSize..m][1..] + [t[m]] == t[Head(e, n)..n];
      }
    } else {
      assert p.buf.items == t[Head(e, n)..n] by {
        assert t[e..m] + [t[m]] == t[Head(e, n)..n];
      }
    }
    DoubledSpaceDropped(p.buf);
  }

}
