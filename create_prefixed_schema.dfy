/**
  The command splitter of `create_prefixed_schema.py`: it walks a schema script
  line by line, skips comment lines, keeps a `DO $$ ... END $$;` block together
  as one command, and otherwise ends a command at every line that ends with `;`.
 */
module CreatePrefixedSchema {
  import opened Common
  import opened PyStr

  /** `\w` on ASCII: letters, digits and `_`. */
  predicate WordChar(c: char) {
    'a' <= c <= 'z' || 'A' <= c <= 'Z' || '0' <= c <= '9' || c == '_'
  }

  /** ASCII lower case, which is all that `re.IGNORECASE` changes for the
      letters of `DO` and `END`. */
  function Lower(c: char): char {
    if 'A' <= c <= 'Z' then (c as int + 32) as char else c
  }

  /** The lower-case keyword `kw` occurs at `i`, ignoring case. */
  predicate KeywordAt(s: string, kw: string, i: nat) {
    i + |kw| <= |s| && forall k :: 0 <= k < |kw| ==> Lower(s[i + k]) == kw[k]
  }

  /** The pattern `\b<kw>\s+\$\$` matches at `i`: a word boundary, the keyword
      in any case, one or more white-space characters, then `$$`. */
  predicate KeywordDollarAt(s: string, kw: string, i: nat) {
    i <= |s| && (i == 0 || !WordChar(s[i - 1])) && KeywordAt(s, kw, i) &&
    var j := i + |kw|;
    var n := LeadFrom(s, j) - j;
    n >= 1 && MatchAt(s, "$$", j + n)
  }

  /** `re.search(r'\b<kw>\s+\$\$', s, re.IGNORECASE)` for a lower-case keyword. */
  predicate Search(s: string, kw: string) {
    exists i: nat :: i <= |s| && KeywordDollarAt(s, kw, i)
  }

  predicate DoStart(ls: string) { Search(ls, "do") }

  predicate EndMark(ls: string) { Search(ls, "end") }

  /** The loop's variables: the finished commands, the command being built,
      and whether a `DO $$` block is open. */
  datatype SplitState = SplitState(commands: seq<string>, current: string, inDo: bool)

  const Initial := SplitState([], "", false)

  function WithNewline(line: string): string { line + "\n" }

  /** One turn of the loop for `line`. */
  function Step(st: SplitState, line: string): SplitState
  {
    var ls := Strip(line);
    if StartsWith(ls, "--") then st
    else if DoStart(ls) then SplitState(st.commands, line + "\n", true)
    else
      var cur := st.current + line + "\n";
      if st.inDo then
        if EndMark(ls) && EndsWith(ls, ";") then SplitState(st.commands + [Strip(cur)], "", false)
        else SplitState(st.commands, cur, true)
      else if EndsWith(ls, ";") then
        var cmd := Strip(cur);
        SplitState(st.commands + (if cmd != "" && !StartsWith(cmd, "--") then [cmd] else []), "", false)
      else SplitState(st.commands, cur, false)
  }

  /** After the loop: the text left over becomes a last command unless it is
      blank or starts with `--`. */
  function Finish(st: SplitState): seq<string>
  {
    var rest := Strip(st.current);
    if rest != "" && !StartsWith(rest, "--") then st.commands + [rest] else st.commands
  }

  /** The commands the script executes for `sql`, in order. */
  function SchemaCommands(sql: string): seq<string>
  {
    Finish(Fold(Step, Initial, Split(sql, '\n')))
  }

  /** One turn of the script's loop on its three variables. */
  method Turn(commands: seq<string>, current: string, inDo: bool, line: string)
    returns (commands': seq<string>, current': string, inDo': bool)
    ensures SplitState(commands', current', inDo') == Step(SplitState(commands, current, inDo), line)
  {
    commands', current', inDo' := commands, current, inDo;
    var ls := Strip(line);
    if StartsWith(ls, "--") {
      return;
    }
    if DoStart(ls) {
      inDo' := true;
      current' := line + "\n";
      return;
    }
    if inDo {
      current' := current + line + "\n";
      if EndMark(ls) {
        if EndsWith(ls, ";") {
          commands' := commands + [Strip(current')];
          current' := "";
          inDo' := false;
        }
      }
      return;
    }
    current' := current + line + "\n";
    if EndsWith(ls, ";") {
      var cmd := Strip(current');
      if cmd != "" && !StartsWith(cmd, "--") {
        commands' := commands + [cmd];
      }
      current' := "";
    }
  }

  /** The splitting loop of the script, proved to build exactly `SchemaCommands(sql)`. */
  method SplitSchemaCommands(sql: string) returns (commands: seq<string>)
    ensures commands == SchemaCommands(sql)
  {
    var lines := Split(sql, '\n');
    commands := [];
    var current := "";
    var inDo := false;
    var i := 0;
    while i < |lines|
      invariant 0 <= i <= |lines|
      invariant SplitState(commands, current, inDo) == Fold(Step, Initial, lines[..i])
    {
      assert lines[..i + 1][..i] == lines[..i];
      commands, current, inDo := Turn(commands, current, inDo, lines[i]);
      i := i + 1;
    }
    assert lines[..|lines|] == lines;
    var rest := Strip(current);
    if rest != "" && !StartsWith(rest, "--") {
      commands := commands + [rest];
    }
  }

  /** Every finished command is non-empty and already stripped. */
  predicate CleanCommands(st: SplitState) {
    forall c :: c in st.commands ==> c != "" && Strip(c) == c
  }

  /** `strip` of a text that has a non-blank part is not empty. */
  lemma StripNotBlank(a: string, line: string, c: string)
    requires Strip(line) != ""
    ensures Strip(a + line + c) != ""
  {
    StripSpec(line);
    var k := LeadCount(line);
    assert !IsSpace(line[k]);
    assert (a + line + c)[|a| + k] == line[k];
    StripSpec(a + line + c);
  }

  lemma StepClean(st: SplitState, line: string)
    requires CleanCommands(st)
    ensures CleanCommands(Step(st, line))
  {
    var cur := st.current + line + "\n";
    StripIdempotent(cur);
    if Strip(line) != "" {
      StripNotBlank(st.current, line, "\n");
    }
  }

  /** Every command the script executes is non-empty and has no white space
      at either end. */
  lemma SchemaCommandsClean(sql: string)
    ensures forall c :: c in SchemaCommands(sql) ==> c != "" && Strip(c) == c
  {
    forall st, line | CleanCommands(st) ensures CleanCommands(Step(st, line)) {
      StepClean(st, line);
    }
    FoldInvariant(Step, Initial, Split(sql, '\n'), CleanCommands);
    var st := Fold(Step, Initial, Split(sql, '\n'));
    StripIdempotent(st.current);
  }

  /** A turn keeps every finished command, in order, and adds at most one. */
  lemma StepKeepsCommands(st: SplitState, line: string)
    ensures var c := Step(st, line).commands;
      |st.commands| <= |c| <= |st.commands| + 1 && c[..|st.commands|] == st.commands
  {
  }

  /** The loop only appends: the commands finished before a run of lines are,
      in the same order, the first commands finished after it, and each line
      adds at most one. */
  lemma {:induction false} FoldKeepsCommands(st: SplitState, xs: seq<string>)
    ensures var c := Fold(Step, st, xs).commands;
      |st.commands| <= |c| <= |st.commands| + |xs| && c[..|st.commands|] == st.commands
  {
    if xs != [] {
      var n := |xs| - 1;
      var mid := Fold(Step, st, xs[..n]);
      FoldKeepsCommands(st, xs[..n]);
      StepKeepsCommands(mid, xs[n]);
      var c := Step(mid, xs[n]).commands;
      assert c[..|st.commands|] == c[..|mid.commands|][..|st.commands|];
    }
  }

  /** The leftover rule only adds a last command. */
  lemma FinishKeepsCommands(st: SplitState)
    ensures |st.commands| <= |Finish(st)| && Finish(st)[..|st.commands|] == st.commands
  {
  }

  /** The script runs the commands its opening lines finish first, in order,
      whatever lines follow them. */
  lemma SchemaCommandsKeepOrder(a: string, b: string)
    ensures var done := Fold(Step, Initial, Split(a, '\n')).commands;
      |done| <= |SchemaCommands(a + "\n" + b)| && SchemaCommands(a + "\n" + b)[..|done|] == done
  {
    var la, lb := Split(a, '\n'), Split(b, '\n');
    SplitConcat(a, b, '\n');
    assert Split(a + "\n" + b, '\n') == la + lb;
    var sa := Fold(Step, Initial, la);
    FoldConcat(Step, Initial, la, lb);
    FoldKeepsCommands(sa, lb);
    var end := Fold(Step, sa, lb);
    FinishKeepsCommands(end);
    var all := Finish(end);
    assert all[..|sa.commands|] == all[..|end.commands|][..|sa.commands|];
  }

  /** A comment line changes nothing, wherever it stands: removing it from the
      script leaves the commands as they were. */
  lemma CommentLineIgnored(a: string, line: string, b: string)
    requires '\n' !in line
    requires StartsWith(Strip(line), "--")
    ensures SchemaCommands(a + "\n" + line + "\n" + b) == SchemaCommands(a + "\n" + b)
  {
    var la := Split(a, '\n');
    var lb := Split(b, '\n');
    assert Split(a + "\n" + line + "\n" + b, '\n') == la + ([line] + lb) by {
      assert a + "\n" + line + "\n" + b == a + ['\n'] + (line + ['\n'] + b);
      SplitConcat(a, line + "\n" + b, '\n');
      SplitConcat(line, b, '\n');
      NoSeparator(line, '\n');
    }
    assert Split(a + "\n" + b, '\n') == la + lb by {
      SplitConcat(a, b, '\n');
    }
    var sa := Fold(Step, Initial, la);
    assert Fold(Step, sa, [line] + lb) == Fold(Step, sa, lb) by {
      FoldConcat(Step, sa, [line], lb);
      FoldSingle(Step, sa, line);
    }
    FoldConcat(Step, Initial, la, [line] + lb);
    FoldConcat(Step, Initial, la, lb);
  }

  /** A line inside an open block that neither opens a new block nor closes this one. */
  predicate InnerLine(l: string) {
    var ls := Strip(l);
    !StartsWith(ls, "--") && !DoStart(ls) && !(EndMark(ls) && EndsWith(ls, ";"))
  }

  /** Inside an open block every inner line, `;` or not, is appended to the
      command being built. */
  lemma StepInner(st: SplitState, l: string)
    requires st.inDo && InnerLine(l)
    ensures Step(st, l) == SplitState(st.commands, st.current + l + "\n", true)
  {
  }

  /** Every turn on an inner line inside a block appends it. */
  lemma InnerTurnsAppend()
    ensures forall s: SplitState, l: string :: s.inDo && InnerLine(l) ==>
      Step(s, l) == SplitState(s.commands, s.current + l + "\n", s.inDo)
  {
    forall s: SplitState, l: string | s.inDo && InnerLine(l)
      ensures Step(s, l) == SplitState(s.commands, s.current + l + "\n", s.inDo)
    {
      StepInner(s, l);
    }
  }

  /** The text of lines ends with the last line and its newline. */
  lemma FlatMapLastLine(body: seq<string>)
    requires body != []
    ensures FlatMap(WithNewline, body) == FlatMap(WithNewline, body[..|body| - 1]) + (body[|body| - 1] + "\n")
  {
  }

  /** A turn that appends each line of a run to the pending text, in either
      block mode, leaves that text followed by the run and changes nothing else. */
  lemma {:induction false} FoldAppendsLines(f: (SplitState, string) -> SplitState, st: SplitState,
                                            body: seq<string>, ok: string -> bool)
    requires forall s: SplitState, l: string :: s.inDo == st.inDo && ok(l) ==>
      f(s, l) == SplitState(s.commands, s.current + l + "\n", s.inDo)
    requires forall l :: l in body ==> ok(l)
    ensures Fold(f, st, body) == SplitState(st.commands, st.current + FlatMap(WithNewline, body), st.inDo)
    decreases |body|
  {
    if body != [] {
      var n := |body| - 1;
      forall l | l in body[..n] ensures ok(l) {
        assert l in body;
      }
      FoldAppendsLines(f, st, body[..n], ok);
      assert body[n] in body;
      FlatMapLastLine(body);
    }
  }

  /** Inner lines of an open block accumulate in order into the pending text. */
  lemma BlockAccumulates(st: SplitState, body: seq<string>)
    requires st.inDo
    requires forall l :: l in body ==> InnerLine(l)
    ensures Fold(Step, st, body) == SplitState(st.commands, st.current + FlatMap(WithNewline, body), true)
  {
    InnerTurnsAppend();
    FoldAppendsLines(Step, st, body, InnerLine);
  }

  /** A `DO $$` line, inner lines and a closing `END $$ ...;` line make exactly
      one command: the whole block, stripped, with every `;` inside it kept.
      Whatever text was pending before the `DO $$` line is discarded. */
  lemma DoBlockIsOneCommand(st: SplitState, start: string, body: seq<string>, end: string)
    requires !StartsWith(Strip(start), "--") && DoStart(Strip(start))
    requires forall l :: l in body ==> InnerLine(l)
    requires !StartsWith(Strip(end), "--") && !DoStart(Strip(end))
    requires EndMark(Strip(end)) && EndsWith(Strip(end), ";")
    ensures Fold(Step, st, [start] + body + [end])
      == SplitState(st.commands + [Strip(start + "\n" + FlatMap(WithNewline, body) + end + "\n")], "", false)
  {
    var open := Step(st, start);
    FoldConcat(Step, st, [start], body);
    FoldSingle(Step, st, start);
    BlockAccumulates(open, body);
    FoldConcat(Step, st, [start] + body, [end]);
    FoldSingle(Step, Fold(Step, st, [start] + body), end);
  }

  /** A line that continues an ordinary statement. */
  predicate PlainLine(l: string) {
    var ls := Strip(l);
    !StartsWith(ls, "--") && !DoStart(ls) && !EndsWith(ls, ";")
  }

  lemma StepPlain(st: SplitState, l: string)
    requires !st.inDo && PlainLine(l)
    ensures Step(st, l) == SplitState(st.commands, st.current + l + "\n", false)
  {
  }

  /** Every turn on a plain line outside a block appends it. */
  lemma PlainTurnsAppend()
    ensures forall s: SplitState, l: string :: !s.inDo && PlainLine(l) ==>
      Step(s, l) == SplitState(s.commands, s.current + l + "\n", s.inDo)
  {
    forall s: SplitState, l: string | !s.inDo && PlainLine(l)
      ensures Step(s, l) == SplitState(s.commands, s.current + l + "\n", s.inDo)
    {
      StepPlain(s, l);
    }
  }

  /** Outside a block, lines without a final `;` accumulate in order into
      the pending text. */
  lemma StatementAccumulates(st: SplitState, body: seq<string>)
    requires !st.inDo
    requires forall l :: l in body ==> PlainLine(l)
    ensures Fold(Step, st, body) == SplitState(st.commands, st.current + FlatMap(WithNewline, body), false)
  {
    PlainTurnsAppend();
    FoldAppendsLines(Step, st, body, PlainLine);
  }

  /** Outside a block, lines up to one that ends with `;` make one command: the
      pending text and those lines, stripped, kept unless blank or a comment. */
  lemma StatementIsOneCommand(st: SplitState, body: seq<string>, last: string)
    requires !st.inDo
    requires forall l :: l in body ==> PlainLine(l)
    requires !StartsWith(Strip(last), "--") && !DoStart(Strip(last)) && EndsWith(Strip(last), ";")
    ensures var cmd := Strip(st.current + FlatMap(WithNewline, body) + last + "\n");
      Fold(Step, st, body + [last])
      == SplitState(st.commands + (if cmd != "" && !StartsWith(cmd, "--") then [cmd] else []), "", false)
  {
    StatementAccumulates(st, body);
    FoldConcat(Step, st, body, [last]);
    FoldSingle(Step, Fold(Step, st, body), last);
  }

  /** Appending text after a string with a non-blank part keeps the first
      two characters of its stripped form. */
  lemma StripKeepsHead(x: string, y: string)
    requires |Strip(x)| >= 2
    ensures |Strip(x + y)| >= 2 && Strip(x + y)[..2] == Strip(x)[..2]
  {
    StripSpec(x);
    StripSpec(x + y);
    var a, r := LeadCount(x), Strip(x);
    var a', r' := LeadCount(x + y), Strip(x + y);
    assert (x + y)[a] == x[a] && !IsSpace(x[a]);
    assert (x + y)[a + |r| - 1] == x[a + |r| - 1] && !IsSpace(x[a + |r| - 1]);
    assert r' != [];
    assert a' == a;
    assert |r'| >= |r|;
    assert r'[..2] == (x + y)[a..a + 2] == x[a..a + 2] == r[..2];
  }

  /** A pending text whose stripped form has two characters and is no
      comment stays a kept command whatever follows it. */
  lemma PendingTextKept(start: string, tail: string)
    requires |Strip(start)| >= 2 && !StartsWith(Strip(start), "--")
    ensures Strip(start + tail) != "" && !StartsWith(Strip(start + tail), "--")
  {
    StripKeepsHead(start, tail);
    var r, r' := Strip(start), Strip(start + tail);
    assert r'[0] == r[0] && r'[1] == r[1];
  }

  /** A line that opens a block is at least as long as the keyword. */
  lemma DoStartLong(ls: string)
    requires DoStart(ls)
    ensures |ls| >= 2
  {
    var i: nat :| i <= |ls| && KeywordDollarAt(ls, "do", i);
  }

  /** A turn that opens the state `open`, followed by turns that append
      each line of a run, leaves `open` with the run's text appended. */
  lemma FoldOpensThenAppends(f: (SplitState, string) -> SplitState, st: SplitState, start: string,
                             open: SplitState, body: seq<string>, ok: string -> bool)
    requires f(st, start) == open
    requires forall s: SplitState, l: string :: s.inDo == open.inDo && ok(l) ==>
      f(s, l) == SplitState(s.commands, s.current + l + "\n", s.inDo)
    requires forall l :: l in body ==> ok(l)
    ensures Fold(f, st, [start] + body) == SplitState(open.commands, open.current + FlatMap(WithNewline, body), open.inDo)
  {
    FoldCons(f, st, start, body);
    FoldAppendsLines(f, open, body, ok);
  }

  /** A `DO $$` line followed by inner lines leaves the block open, holding
      the line and the inner lines. */
  lemma OpenBlockHoldsText(st: SplitState, start: string, body: seq<string>)
    requires !StartsWith(Strip(start), "--") && DoStart(Strip(start))
    requires forall l :: l in body ==> InnerLine(l)
    ensures Fold(Step, st, [start] + body)
      == SplitState(st.commands, start + "\n" + FlatMap(WithNewline, body), true)
  {
    var open := SplitState(st.commands, start + "\n", true);
    DoStartDiscardsPending(st, start);
    InnerTurnsAppend();
    FoldOpensThenAppends(Step, st, start, open, body, InnerLine);
  }

  /** A `DO $$` block that is never closed runs to the end of the script and
      becomes its last command. */
  lemma UnterminatedBlockIsLastCommand(st: SplitState, start: string, body: seq<string>)
    requires !StartsWith(Strip(start), "--") && DoStart(Strip(start))
    requires forall l :: l in body ==> InnerLine(l)
    ensures Finish(Fold(Step, st, [start] + body))
      == st.commands + [Strip(start + "\n" + FlatMap(WithNewline, body))]
  {
    var tail := "\n" + FlatMap(WithNewline, body);
    OpenBlockHoldsText(st, start, body);
    assert start + "\n" + FlatMap(WithNewline, body) == start + tail;
    DoStartLong(Strip(start));
    PendingTextKept(start, tail);
  }

  /** A line that opens a block discards the text pending before it. */
  lemma DoStartDiscardsPending(st: SplitState, line: string)
    requires !StartsWith(Strip(line), "--") && DoStart(Strip(line))
    ensures Step(st, line).commands == st.commands
    ensures Step(st, line).current == line + "\n" && Step(st, line).inDo
  {
  }

  /** The keyword needs a word boundary in front: `UNDO $$` opens no block. */
  lemma WordBoundaryRequired()
    ensures !DoStart("UNDO $$")
    ensures DoStart("DO $$")
  {
    var s := "UNDO $$";
    forall i: nat | i <= |s| && KeywordAt(s, "do", i) ensures !KeywordDollarAt(s, "do", i) {
      assert Lower(s[i + 0]) == "do"[0];
      assert i == 2;
      assert WordChar(s[i - 1]);
    }
    var t := "DO $$";
    assert KeywordAt(t, "do", 0);
    assert IsSpace(t[2]) && !IsSpace(t[3]);
    assert LeadFrom(t, 2) == LeadFrom(t, 3) == 3;
    assert t[3..5] == "$$";
    assert MatchAt(t, "$$", 3);
    assert KeywordDollarAt(t, "do", 0);
  }
}
