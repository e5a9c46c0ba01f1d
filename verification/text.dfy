/** Strings as sequences of characters and the few Python string operations the
    converter relies on: `strip`, `split`, `''.join`, prefix tests, `str(int)`. */
module Text {

  type String = seq<char>

  /** The whitespace `strip` removes. Python also strips other Unicode
      whitespace; this model fixes the four ASCII characters that occur in text. */
  predicate IsSpace(c: char) {
    c == ' ' || c == '\t' || c == '\r' || c == '\n'
  }

  predicate StartsWith(s: String, p: String) {
    |p| <= |s| && s[..|p|] == p
  }

  predicate IsSuffix(a: String, b: String) {
    |a| <= |b| && b[|b| - |a|..] == a
  }

  predicate IsPrefix<T(==)>(a: seq<T>, b: seq<T>) {
    |a| <= |b| && b[..|a|] == a
  }

  /** `p` occurs somewhere in `s` (Python's `p in s`). */
  predicate Contains(s: String, p: String)
    decreases |s|
  {
    StartsWith(s, p) || (|s| > 0 && Contains(s[1..], p))
  }

  /** No two adjacent spaces. */
  predicate NoDoubledSpace(s: String) {
    !Contains(s, "  ")
  }

  lemma {:induction false} ContainsInSuffix(s: String, k: nat, p: String)
    requires k <= |s|
    requires Contains(s[k..], p)
    ensures Contains(s, p)
    decreases k
  {
    if k > 0 {
      assert s[1..][k - 1..] == s[k..];
      ContainsInSuffix(s[1..], k - 1, p);
    }
  }

  lemma {:induction false} ContainsExtend(s: String, t: String, p: String)
    requires Contains(s, p)
    ensures Contains(s + t, p)
    decreases |s|
  {
    if StartsWith(s, p) {
      assert (s + t)[..|p|] == s[..|p|];
    } else {
      assert (s + t)[1..] == s[1..] + t;
      ContainsExtend(s[1..], t, p);
    }
  }

  /** A suffix that begins with `p` shows that `p` occurs in the whole string. */
  lemma SuffixStartsWith(w: String, s: String, p: String)
    requires IsSuffix(w, s) && StartsWith(w, p)
    ensures Contains(s, p)
  {
    var k := |s| - |w|;
    assert s[k..] == w;
    assert Contains(s[k..], p);
    ContainsInSuffix(s, k, p);
  }

  /** Text free of `p` stays free of it in every suffix. */
  lemma SuffixAvoids(w: String, s: String, p: String)
    requires IsSuffix(w, s) && !Contains(s, p)
    ensures !Contains(w, p)
  {
    if Contains(w, p) {
      var k := |s| - |w|;
      assert s[k..] == w;
      ContainsInSuffix(s, k, p);
    }
  }

  /** An occurrence inside a slice is an occurrence in the whole string. */
  lemma ContainsInSlice(s: String, i: nat, j: nat, p: String)
    requires i <= j <= |s| && Contains(s[i..j], p)
    ensures Contains(s, p)
  {
    ContainsExtend(s[i..j], s[j..], p);
    assert s[i..j] + s[j..] == s[i..];
    ContainsInSuffix(s, i, p);
  }

  /** A window that starts with `p` shows that the text starts with `p` there. */
  lemma {:induction false} WindowStarts(t: String, h: nat, j: nat, p: String)
    requires h <= j <= |t|
    ensures StartsWith(t[h..j], p) ==> StartsWith(t[h..], p)
  {
    if StartsWith(t[h..j], p) {
      assert t[h..j][..|p|] == t[h..][..|p|];
    }
  }

  /** `p` starts at none of the positions `lo` up to (not including) `hi`. */
  predicate Absent(t: String, p: String, lo: nat, hi: nat)
    requires hi <= |t| + 1
    decreases hi - lo
  {
    lo >= hi || (!StartsWith(t[lo..], p) && Absent(t, p, lo + 1, hi))
  }

  lemma {:induction false} AbsentAt(t: String, p: String, lo: nat, hi: nat, j: nat)
    requires hi <= |t| + 1 && Absent(t, p, lo, hi) && lo <= j < hi
    ensures !StartsWith(t[j..], p)
    decreases j - lo
  {
    if j > lo {
      AbsentAt(t, p, lo + 1, hi, j);
    }
  }

  lemma {:induction false} AbsentShrink(t: String, p: String, lo: nat, hi: nat, hi': nat)
    requires hi' <= hi <= |t| + 1 && Absent(t, p, lo, hi)
    ensures Absent(t, p, lo, hi')
    decreases hi - lo
  {
    if lo < hi' {
      AbsentShrink(t, p, lo + 1, hi, hi');
    }
  }

  /** Text from `lo` on that is free of `p` has no occurrence at any position. */
  lemma {:induction false} AbsentFromContains(t: String, p: String, lo: nat, hi: nat)
    requires lo <= |t| && hi <= |t| + 1 && !Contains(t[lo..], p)
    ensures Absent(t, p, lo, hi)
    decreases hi - lo
  {
    if lo < hi && lo < |t| {
      assert t[lo..][1..] == t[lo + 1..];
      AbsentFromContains(t, p, lo + 1, hi);
    }
  }

  lemma SplitAt<T>(s: seq<T>, i: nat)
    requires i <= |s|
    ensures s[..i] + s[i..] == s
  {
  }

  /** Text free of `p` stays free of it in every slice. */
  lemma SliceAvoids(s: String, i: nat, j: nat, p: String)
    requires i <= j <= |s| && !Contains(s, p)
    ensures !Contains(s[i..j], p)
  {
    if Contains(s[i..j], p) {
      ContainsInSlice(s, i, j, p);
    }
  }

  lemma SuffixTrans(a: String, b: String, c: String)
    requires IsSuffix(a, b) && IsSuffix(b, c)
    ensures IsSuffix(a, c)
  {
    assert c[|c| - |a|..] == c[|c| - |b|..][|b| - |a|..];
  }

  /** Past a prefix `acc + [v]`, the rest starts with `v`. */
  lemma PrefixSnoc<T>(acc: seq<T>, v: T, x: seq<T>)
    requires IsPrefix(acc + [v], x)
    ensures IsPrefix(acc, x) && x[|acc|..] == [v] + x[|acc| + 1..]
  {
    assert x[|acc|] == (acc + [v])[|acc|];
    assert x[..|acc|] == (acc + [v])[..|acc|];
  }

  lemma HeadSplit<T>(a: seq<T>, b: seq<T>, c: seq<T>)
    requires |a| > 0
    ensures a + b + c == [a[0]] + (a[1..] + b + c)
    ensures a == [a[0]] + a[1..]
  {
  }

  lemma HeadJoin<T>(acc: seq<T>, a: seq<T>)
    requires |a| > 0
    ensures acc + [a[0]] + a[1..] == acc + a
  {
    HeadSplit(a, [], []);
  }

  lemma ConsTail<T>(v: T, s: seq<T>)
    ensures ([v] + s)[0] == v && ([v] + s)[1..] == s
  {
  }

  lemma InTail<T>(x: T, s: seq<T>)
    requires |s| > 0 && x in s[1..]
    ensures x in s
  {
    var i :| 0 <= i < |s[1..]| && s[1..][i] == x;
    assert s[i + 1] == x;
  }

  /** A sequence is its head followed by its tail, slice by slice. */
  lemma ConsSlices<T>(s: seq<T>, k: nat)
    requires k < |s|
    ensures [s[0]] + s[1..][..k] == s[..k + 1] && s[1..][k..] == s[k + 1..]
  {
  }

  lemma PrefixTrans<T>(a: seq<T>, b: seq<T>, c: seq<T>)
    requires IsPrefix(a, b) && IsPrefix(b, c)
    ensures IsPrefix(a, c)
  {
    assert c[..|a|] == c[..|b|][..|a|];
  }

  lemma AppendAssoc<T>(a: seq<T>, b: seq<T>, c: seq<T>)
    ensures a + (b + c) == a + b + c
  {
  }

  lemma ConsAssoc3<T>(v: T, a: seq<T>, b: seq<T>)
    ensures [v] + (a + b) == [v] + a + b
  {
  }

  lemma ConsAssoc<T>(v: T, a: seq<T>, b: seq<T>, c: seq<T>)
    ensures [v] + a + b + c == [v] + (a + b + c)
  {
  }

  // ---------------------------------------------------------------- strip

  function StripLeft(s: String): (r: String)
    ensures |r| <= |s| && r == s[|s| - |r|..]
    ensures forall i :: 0 <= i < |s| - |r| ==> IsSpace(s[i])
    ensures r == [] || !IsSpace(r[0])
    decreases |s|
  {
    if |s| > 0 && IsSpace(s[0]) then StripLeft(s[1..]) else s
  }

  function StripRight(s: String): (r: String)
    ensures |r| <= |s| && r == s[..|r|]
    ensures forall i :: |r| <= i < |s| ==> IsSpace(s[i])
    ensures r == [] || !IsSpace(r[|r| - 1])
    decreases |s|
  {
    if |s| > 0 && IsSpace(s[|s| - 1]) then StripRight(s[..|s| - 1]) else s
  }

  /** No whitespace at either end. */
  predicate Stripped(s: String) {
    s == [] || (!IsSpace(s[0]) && !IsSpace(s[|s| - 1]))
  }

  predicate AllSpace(s: String) {
    forall i :: 0 <= i < |s| ==> IsSpace(s[i])
  }

  /** Python's `str.strip()`: the result has no whitespace at either end, is
      empty exactly when the input is all whitespace, and leaves already
      stripped text alone. */
  function Strip(s: String): (r: String)
    ensures Stripped(r)
    ensures |r| <= |s|
    ensures r == [] <==> AllSpace(s)
    ensures Stripped(s) ==> r == s
    ensures forall c :: c in r ==> c in s
  {
    var l := StripLeft(s);
    var r := StripRight(l);
    assert r == [] ==> AllSpace(s) by {
      if r == [] && |l| > 0 {
        assert false;
      }
    }
    assert AllSpace(s) ==> r == [] by {
      if AllSpace(s) && l != [] {
        assert false;
      }
    }
    r
  }

  // ---------------------------------------------------------- split / join

  /** Python's `sep.join(parts)`. */
  function Join(parts: seq<String>, sep: String): String
    decreases |parts|
  {
    if |parts| == 0 then []
    else if |parts| == 1 then parts[0]
    else parts[0] + sep + Join(parts[1..], sep)
  }

  /** Python's `s.split(sep)` for a one-character separator: always at least one
      piece, and no piece holds the separator. */
  function Split(s: String, sep: char): (r: seq<String>)
    ensures |r| >= 1
    ensures forall i :: 0 <= i < |r| ==> sep !in r[i]
    decreases |s|
  {
    if |s| == 0 then [[]]
    else
      var rest := Split(s[1..], sep);
      if s[0] == sep then [[]] + rest
      else [[s[0]] + rest[0]] + rest[1..]
  }

  /** Joining the pieces of a split with the separator gives back the text. */
  lemma {:induction false} JoinSplit(s: String, sep: char)
    ensures Join(Split(s, sep), [sep]) == s
    decreases |s|
  {
    if |s| > 0 {
      var rest := Split(s[1..], sep);
      JoinSplit(s[1..], sep);
      if s[0] != sep && |rest| > 1 {
        assert Split(s, sep)[1..] == rest[1..];
        assert Join(Split(s, sep), [sep]) == ([s[0]] + rest[0]) + [sep] + Join(rest[1..], [sep]);
      }
    }
  }

  /** Splitting text that starts with a separator-free piece and a separator. */
  lemma {:induction false} SplitCons(a: String, sep: char, b: String)
    requires sep !in a
    ensures Split(a + [sep] + b, sep) == [a] + Split(b, sep)
    decreases |a|
  {
    if |a| > 0 {
      assert (a + [sep] + b)[1..] == a[1..] + [sep] + b;
      SplitCons(a[1..], sep, b);
      assert [a[0]] + a[1..] == a;
    } else {
      assert a + [sep] + b == [sep] + b;
      assert ([sep] + b)[1..] == b;
    }
  }

  /** Splitting separator-free pieces joined by the separator gives them back. */
  lemma {:induction false} SplitJoin(parts: seq<String>, sep: char)
    requires |parts| >= 1
    requires forall i :: 0 <= i < |parts| ==> sep !in parts[i]
    ensures Split(Join(parts, [sep]), sep) == parts
    decreases |parts|
  {
    if |parts| == 1 {
      SplitNoSep(parts[0], sep);
    } else {
      SplitJoin(parts[1..], sep);
      SplitCons(parts[0], sep, Join(parts[1..], [sep]));
      assert [parts[0]] + parts[1..] == parts;
    }
  }

  /** A character in none of the pieces and not in the separator is not in
      their join. */
  lemma {:induction false} JoinAvoids(parts: seq<String>, sep: String, c: char)
    requires c !in sep && forall i :: 0 <= i < |parts| ==> c !in parts[i]
    ensures c !in Join(parts, sep)
    decreases |parts|
  {
    if |parts| > 1 {
      JoinAvoids(parts[1..], sep, c);
      assert c !in parts[0];
    }
  }

  lemma {:induction false} SplitNoSep(s: String, sep: char)
    requires sep !in s
    ensures Split(s, sep) == [s]
    decreases |s|
  {
    if |s| > 0 {
      SplitNoSep(s[1..], sep);
      assert [s[0]] + s[1..] == s;
    }
  }

  // ------------------------------------------------------ chunks and lines

  /** Python's `''.join(chunks)`. */
  function Concat(chunks: seq<String>): String
    decreases |chunks|
  {
    if |chunks| == 0 then [] else chunks[0] + Concat(chunks[1..])
  }

  lemma {:induction false} ConcatAppend(a: seq<String>, b: seq<String>)
    ensures Concat(a + b) == Concat(a) + Concat(b)
    decreases |a|
  {
    if |a| > 0 {
      assert (a + b)[1..] == a[1..] + b;
      ConcatAppend(a[1..], b);
    } else {
      assert a + b == b;
    }
  }

  lemma ConcatOne(x: String)
    ensures Concat([x]) == x
  {
    assert [x][1..] == [];
  }

  lemma ConcatThree(a: String, b: String, c: String)
    ensures Concat([a, b, c]) == a + b + c
  {
    assert [a, b, c][1..] == [b, c];
    assert [b, c][1..] == [c];
    ConcatOne(c);
  }

  /** One chunk per character, as the script's `for s in text: target.append(s)`. */
  function Chars(s: String): (r: seq<String>)
    ensures |r| == |s|
    ensures forall i :: 0 <= i < |s| ==> r[i] == [s[i]]
  {
    seq(|s|, i requires 0 <= i < |s| => [s[i]])
  }

  lemma {:induction false} ConcatChars(s: String)
    ensures Concat(Chars(s)) == s
    decreases |s|
  {
    if |s| > 0 {
      assert Chars(s)[1..] == Chars(s[1..]);
      ConcatChars(s[1..]);
      assert [s[0]] + s[1..] == s;
    }
  }

  /** Lines each followed by a newline: Python's `''.join(l + '\n' for l in ls)`. */
  function Terminate(lines: seq<String>): (r: String)
    decreases |lines|
  {
    if |lines| == 0 then [] else lines[0] + "\n" + Terminate(lines[1..])
  }

  /** Newline-terminated lines split back into the lines and a final empty piece. */
  lemma {:induction false} SplitTerminate(lines: seq<String>)
    requires forall i :: 0 <= i < |lines| ==> '\n' !in lines[i]
    ensures Split(Terminate(lines), '\n') == lines + [[]]
    decreases |lines|
  {
    if |lines| > 0 {
      SplitTerminate(lines[1..]);
      SplitCons(lines[0], '\n', Terminate(lines[1..]));
      assert [lines[0]] + (lines[1..] + [[]]) == lines + [[]];
    }
  }

  lemma {:induction false} TerminateAppend(a: seq<String>, b: seq<String>)
    ensures Terminate(a + b) == Terminate(a) + Terminate(b)
    decreases |a|
  {
    if |a| > 0 {
      assert (a + b)[1..] == a[1..] + b;
      TerminateAppend(a[1..], b);
    } else {
      assert a + b == b;
    }
  }

  /** Replaces every `from` with `to`, as the script's per-character rewrites
      (`'~'` to space, newline to space). */
  function Replace(s: String, from: char, to: char): (r: String)
    ensures |r| == |s|
    ensures from != to ==> from !in r
    decreases |s|
  {
    if |s| == 0 then [] else [if s[0] == from then to else s[0]] + Replace(s[1..], from, to)
  }

  /** Each character is replaced on its own, in place. */
  lemma {:induction false} ReplaceAt(s: String, from: char, to: char, i: nat)
    requires i < |s|
    ensures Replace(s, from, to)[i] == if s[i] == from then to else s[i]
    decreases i
  {
    if i > 0 {
      ReplaceAt(s[1..], from, to, i - 1);
    }
  }

  lemma {:induction false} ReplaceAppend(a: String, b: String, from: char, to: char)
    ensures Replace(a + b, from, to) == Replace(a, from, to) + Replace(b, from, to)
    decreases |a|
  {
    if |a| > 0 {
      assert (a + b)[1..] == a[1..] + b;
      ReplaceAppend(a[1..], b, from, to);
    } else {
      assert a + b == b;
    }
  }

  function NewlinesToSpaces(s: String): (r: String)
    ensures |r| == |s| && '\n' !in r
  {
    Replace(s, '\n', ' ')
  }

  function Tilde(c: char): char {
    if c == '~' then ' ' else c
  }

  /** `~` becomes a space, as idle characters are emitted. */
  function TildeAll(s: String): (r: String)
    ensures |r| == |s| && '~' !in r
  {
    Replace(s, '~', ' ')
  }

  /** `TildeAll` one character at a time. */
  lemma TildeAllSnoc(s: String, c: char)
    ensures TildeAll(s + [c]) == TildeAll(s) + [Tilde(c)]
  {
    ReplaceAppend(s, [c], '~', ' ');
  }

  lemma CharsSnoc(s: String, c: char)
    ensures Chars(s + [c]) == Chars(s) + [[c]]
  {
  }

  // -------------------------------------------------------------- str(int)

  function Digit(d: nat): char
    requires d < 10
  {
    "0123456789"[d]
  }

  predicate IsDigit(c: char) {
    '0' <= c <= '9'
  }

  /** Python's `str(n)` for a natural number. */
  function ShowNat(n: nat): (r: String)
    ensures |r| >= 1
    ensures forall i :: 0 <= i < |r| ==> IsDigit(r[i])
    ensures r[0] == '0' ==> n == 0
    decreases n
  {
    if n < 10 then [Digit(n)] else ShowNat(n / 10) + [Digit(n % 10)]
  }

  function ParseNat(s: String): nat
    requires forall i :: 0 <= i < |s| ==> IsDigit(s[i])
    decreases |s|
  {
    if |s| == 0 then 0
    else
      assert IsDigit(s[|s| - 1]);
      ParseNat(s[..|s| - 1]) * 10 + (s[|s| - 1] as int - '0' as int)
  }

  /** Reading back the decimal rendering of `n` gives `n`. */
  lemma {:induction false} ParseShowNat(n: nat)
    ensures ParseNat(ShowNat(n)) == n
    decreases n
  {
    var s := ShowNat(n);
    if n >= 10 {
      ParseShowNat(n / 10);
      assert s[..|s| - 1] == ShowNat(n / 10);
    }
  }
}
