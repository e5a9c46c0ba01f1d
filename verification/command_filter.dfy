/** `filter_commands`: after the main rewrite, a line that starts with a
    backslash survives only if it opens an allow-listed environment, lies
    inside the one environment currently open, or is an allow-listed command. */
module CommandFilter {
  import opened Outcomes
  import opened Text

  const KeepEnvs: seq<String> :=
    ["abstract", "equation", "equation*", "figure", "figure*", "table", "table*", "align"]
  const KeepCommands: seq<String> := ["paragraph"]

  function Begin(env: String): String {
    "\\begin{" + env + "}"
  }

  function End(env: String): String {
    "\\end{" + env + "}"
  }

  predicate IsCommandLine(line: String) {
    |line| > 0 && line[0] == '\\'
  }

  /** The single environment tracked by the filter (`in_env` and `found_env`). */
  datatype Scope = Outside | Inside(env: String)

  /** Whether a line is kept, and the scope for the next line. */
  datatype Decision = Decision(keep: bool, next: Scope)

  /** Lines 91-94: the first allow-listed environment the line begins. */
  function FindEnv(line: String, envs: seq<String>): (r: Option<String>)
    ensures r.Some? ==> r.value in envs && StartsWith(line, Begin(r.value))
    ensures r.None? <==> forall i :: 0 <= i < |envs| ==> !StartsWith(line, Begin(envs[i]))
    decreases |envs|
  {
    if |envs| == 0 then None
    else if StartsWith(line, Begin(envs[0])) then Some(envs[0])
    else FindEnv(line, envs[1..])
  }

  /** Lines 96-100: the line starts with an allow-listed command. */
  predicate HasCommand(line: String, commands: seq<String>)
    decreases |commands|
  {
    |commands| > 0 && (StartsWith(line, "\\" + commands[0]) || HasCommand(line, commands[1..]))
  }

  /** The per-line decision of lines 89-113. A line that does not start with a
      backslash is always kept. Inside an environment every line is kept, and a
      line starting with that environment's `\end{...}` closes it. */
  function Decide(scope: Scope, line: String): (d: Decision)
    ensures !IsCommandLine(line) ==> d == Decision(true, scope)
    ensures scope.Inside? ==> d.keep
    ensures scope.Inside? ==>
              (d.next == if StartsWith(line, End(scope.env)) then Outside else scope)
  {
    if IsCommandLine(line) then
      match scope
      case Outside =>
        (match FindEnv(line, KeepEnvs)
         case Some(env) => Decision(true, Inside(env))
         case None => Decision(HasCommand(line, KeepCommands), Outside))
      case Inside(env) =>
        Decision(true, if StartsWith(line, End(env)) then Outside else scope)
    else
      Decision(true, scope)
  }

  /** Outside an environment a backslash line is kept exactly when it begins an
      allow-listed environment, which it then opens, or starts with
      `\paragraph`; a line that opens nothing leaves the filter outside. */
  lemma DecideOutside(line: String)
    requires IsCommandLine(line)
    ensures Decide(Outside, line).keep <==>
              (exists e :: e in KeepEnvs && StartsWith(line, Begin(e))) || StartsWith(line, "\\paragraph")
    ensures Decide(Outside, line).next.Inside? ==>
              Decide(Outside, line).next.env in KeepEnvs && StartsWith(line, Begin(Decide(Outside, line).next.env))
    ensures Decide(Outside, line).next.Outside? ==>
              forall e :: e in KeepEnvs ==> !StartsWith(line, Begin(e))
  {
    ListedEnvFound(line);
    ParagraphListed(line);
  }

  lemma ListedEnvFound(line: String)
    ensures FindEnv(line, KeepEnvs).Some? <==> exists e :: e in KeepEnvs && StartsWith(line, Begin(e))
  {
    if FindEnv(line, KeepEnvs).None? {
      forall e | e in KeepEnvs ensures !StartsWith(line, Begin(e)) {
        var i :| 0 <= i < |KeepEnvs| && KeepEnvs[i] == e;
      }
    }
  }

  lemma ParagraphListed(line: String)
    ensures HasCommand(line, KeepCommands) <==> StartsWith(line, "\\paragraph")
  {
    assert KeepCommands[1..] == [];
    assert "\\" + KeepCommands[0] == "\\paragraph";
  }

  /** The loop of lines 88-113: the lines kept, in order. */
  function Kept(lines: seq<String>, scope: Scope): (r: seq<String>)
    decreases |lines|
  {
    if |lines| == 0 then []
    else
      var d := Decide(scope, lines[0]);
      (if d.keep then [lines[0]] else []) + Kept(lines[1..], d.next)
  }

  /** `latex2markdown.py`'s `filter_commands`: every kept line is re-terminated with a
      newline, so the output splits into the kept lines and a final empty piece. */
  function FilterCommands(document: String): (r: String)
    ensures Split(r, '\n') == Kept(Split(document, '\n'), Outside) + [[]]
  {
    var lines := Split(document, '\n');
    var kept := Kept(lines, Outside);
    KeptIn(lines, Outside);
    forall i | 0 <= i < |kept| ensures '\n' !in kept[i] {
      assert kept[i] in lines;
    }
    SplitTerminate(kept);
    Terminate(Kept(lines, Outside))
  }

  /** The lines that do not start with a backslash. */
  function Prose(lines: seq<String>): seq<String>
    decreases |lines|
  {
    if |lines| == 0 then []
    else (if IsCommandLine(lines[0]) then [] else [lines[0]]) + Prose(lines[1..])
  }

  /** `a` is `b` with some elements left out. */
  predicate Subsequence(a: seq<String>, b: seq<String>)
    decreases |b|
  {
    |a| == 0 || (|b| > 0 && ((a[0] == b[0] && Subsequence(a[1..], b[1..])) || Subsequence(a, b[1..])))
  }

  /** Kept lines are input lines in input order. */
  lemma {:induction false} KeptFrom(lines: seq<String>, scope: Scope)
    ensures Subsequence(Kept(lines, scope), lines)
    decreases |lines|
  {
    if |lines| > 0 {
      var d := Decide(scope, lines[0]);
      var rest := Kept(lines[1..], d.next);
      KeptFrom(lines[1..], d.next);
      if d.keep {
        assert Kept(lines, scope) == [lines[0]] + rest;
        ConsTail(lines[0], rest);
      } else {
        assert Kept(lines, scope) == rest;
      }
    }
  }

  /** The lines that do not start with a backslash are all kept. */
  lemma {:induction false} KeptProse(lines: seq<String>, scope: Scope)
    ensures Prose(Kept(lines, scope)) == Prose(lines)
    decreases |lines|
  {
    if |lines| > 0 {
      var d := Decide(scope, lines[0]);
      var rest := Kept(lines[1..], d.next);
      KeptProse(lines[1..], d.next);
      if d.keep {
        assert Kept(lines, scope) == [lines[0]] + rest;
        ConsTail(lines[0], rest);
      } else {
        assert Kept(lines, scope) == rest;
      }
    }
  }

  /** Every kept line is an input line. */
  lemma {:induction false} KeptIn(lines: seq<String>, scope: Scope)
    ensures forall l :: l in Kept(lines, scope) ==> l in lines
    decreases |lines|
  {
    if |lines| > 0 {
      var d := Decide(scope, lines[0]);
      var rest := Kept(lines[1..], d.next);
      KeptIn(lines[1..], d.next);
      var k := Kept(lines, scope);
      if d.keep {
        assert k == [lines[0]] + rest;
      } else {
        assert k == rest;
      }
      forall l | l in k ensures l in lines {
        if l != lines[0] {
          assert l in rest;
          InTail(l, lines);
        }
      }
    }
  }

  /** Inside environment `env`, every line is kept up to and including the first
      one that starts with `\end{env}`, after which the filter is outside again. */
  lemma {:induction false} EnvironmentBlock(lines: seq<String>, env: String, k: nat)
    requires k < |lines| && StartsWith(lines[k], End(env))
    requires forall i :: 0 <= i < k ==> !StartsWith(lines[i], End(env))
    ensures Kept(lines, Inside(env)) == lines[..k + 1] + Kept(lines[k + 1..], Outside)
    decreases k
  {
    var d := Decide(Inside(env), lines[0]);
    var tl := lines[1..];
    var rest := Kept(tl, d.next);
    assert Kept(lines, Inside(env)) == [lines[0]] + rest;
    ConsSlices(lines, k);
    if k > 0 {
      assert !StartsWith(lines[0], End(env));
      assert d.next == Inside(env);
      forall i | 0 <= i < k - 1 ensures !StartsWith(tl[i], End(env)) {
        assert tl[i] == lines[i + 1];
      }
      var m := k - 1;
      EnvironmentBlock(tl, env, m);
      assert m + 1 == k;
      ConsAssoc3(lines[0], tl[..k], Kept(tl[k..], Outside));
    } else {
      assert d.next == Outside;
    }
  }

  /** Outside any environment, a backslash line that neither begins an
      allow-listed environment nor starts with an allow-listed command is dropped. */
  lemma DropsUnlisted(line: String, rest: seq<String>)
    requires IsCommandLine(line)
    requires forall e :: e in KeepEnvs ==> !StartsWith(line, Begin(e))
    requires !StartsWith(line, "\\paragraph")
    ensures Kept([line] + rest, Outside) == Kept(rest, Outside)
  {
    DecideOutside(line);
    assert ([line] + rest)[1..] == rest;
  }
}
