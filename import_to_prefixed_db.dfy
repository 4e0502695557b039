/**
  The command builder of `import_to_prefixed_db.py`: it cuts an SQL dump at
  every `;`, drops blank, comment and `SET` pieces, removes comment lines and
  end-of-line comments, and joins the surviving lines of each piece into one
  command.
 */
module ImportToPrefixedDb {
  import opened Common
  import opened PyStr

  /** What one line of a kept piece contributes: nothing when it is blank or a
      comment line, otherwise the line cut at its first `--` and stripped again,
      unless that leaves it empty. */
  function KeptLine(line: string): Option<string>
  {
    var l := Strip(line);
    if l == "" || StartsWith(l, "--") then None
    else
      var l' := if Contains(l, "--") then Strip(l[..IndexOf(l, "--")]) else l;
      if l' == "" then None else Some(l')
  }

  function KeptLineSeq(line: string): seq<string>
  {
    AsSeq(KeptLine(line))
  }

  /** The surviving lines of a piece, in order. */
  function KeptLines(lines: seq<string>): seq<string>
  {
    FlatMap(KeptLineSeq, lines)
  }

  /** The command a `;`-piece yields, if any: none for a piece that is blank or
      starts (after stripping) with `--` or `SET`, or that has no surviving line. */
  function PieceCommand(piece: string): Option<string>
  {
    var cmd := Strip(piece);
    if cmd == "" || StartsWith(cmd, "--") || StartsWith(cmd, "SET") then None
    else
      var lines := KeptLines(Split(cmd, '\n'));
      if lines == [] then None else Some(Join(lines, "\n"))
  }

  function PieceCommandSeq(piece: string): seq<string>
  {
    AsSeq(PieceCommand(piece))
  }

  /** The commands the script executes for the text `sql`, in input order. */
  function ImportCommands(sql: string): seq<string>
  {
    FlatMap(PieceCommandSeq, Split(sql, ';'))
  }

  /** The inner loop of the script, proved to keep exactly `KeptLines(raw)`. */
  method CleanLines(raw: seq<string>) returns (lines: seq<string>)
    ensures lines == KeptLines(raw)
  {
    lines := [];
    var j := 0;
    while j < |raw|
      invariant 0 <= j <= |raw|
      invariant lines == FlatMap(KeptLineSeq, raw[..j])
    {
      assert raw[..j + 1][..j] == raw[..j];
      var line := Strip(raw[j]);
      if line != "" && !StartsWith(line, "--") {
        if Contains(line, "--") {
          line := Strip(line[..IndexOf(line, "--")]);
        }
        if line != "" {
          lines := lines + [line];
        }
      }
      j := j + 1;
    }
    assert raw[..|raw|] == raw;
  }

  /** The outer loop of the script, proved to build exactly `ImportCommands(sql)`. */
  method SplitCommands(sql: string) returns (commands: seq<string>)
    ensures commands == ImportCommands(sql)
  {
    var pieces := Split(sql, ';');
    commands := [];
    var i := 0;
    while i < |pieces|
      invariant 0 <= i <= |pieces|
      invariant commands == FlatMap(PieceCommandSeq, pieces[..i])
    {
      assert pieces[..i + 1][..i] == pieces[..i];
      var cmd := Strip(pieces[i]);
      if cmd != "" && !StartsWith(cmd, "--") && !StartsWith(cmd, "SET") {
        var lines := CleanLines(Split(cmd, '\n'));
        if lines != [] {
          commands := commands + [Join(lines, "\n")];
        }
      }
      i := i + 1;
    }
    assert pieces[..|pieces|] == pieces;
  }

  /** A kept line is non-empty, stripped, has no `--`, and has only characters
      of the input line. */
  lemma KeptLineShape(line: string, c: char)
    requires KeptLine(line).Some?
    ensures var r := KeptLine(line).value;
      r != "" && Strip(r) == r && !Contains(r, "--") && (c !in line ==> c !in r)
  {
    var l := Strip(line);
    StripIdempotent(line);
    if c !in line { StripChars(line, c); }
    if Contains(l, "--") {
      var k := IndexOf(l, "--");
      BeforeFirstHasNone(l, "--");
      StripNotContains(l[..k], "--");
      StripIdempotent(l[..k]);
      if c !in line {
        assert c !in l[..k];
        StripChars(l[..k], c);
      }
    }
  }

  /** A line of a command: non-empty, stripped and free of `--`. */
  predicate CleanLine(l: string) {
    l != "" && Strip(l) == l && !Contains(l, "--")
  }

  /** Every surviving line is clean and has no character that none of the
      input lines has. */
  lemma KeptLinesShape(lines: seq<string>, c: char)
    ensures forall l :: l in KeptLines(lines) ==> CleanLine(l)
    ensures (forall i :: 0 <= i < |lines| ==> c !in lines[i]) ==>
      forall l :: l in KeptLines(lines) ==> c !in l
  {
    forall l | l in KeptLines(lines)
      ensures CleanLine(l)
      ensures (forall i :: 0 <= i < |lines| ==> c !in lines[i]) ==> c !in l
    {
      FlatMapFrom(KeptLineSeq, lines, l);
      var i :| 0 <= i < |lines| && l in KeptLineSeq(lines[i]);
      KeptLineShape(lines[i], c);
    }
  }

  /** A well-formed command: non-empty, has no `;`, and each of its lines is clean. */
  predicate WellFormed(c: string) {
    c != "" && ';' !in c && forall l :: l in Split(c, '\n') ==> CleanLine(l)
  }

  lemma {:induction false} JoinNoChar(parts: seq<string>, sep: string, c: char)
    requires c !in sep
    requires forall l :: l in parts ==> c !in l
    ensures c !in Join(parts, sep)
  {
    if |parts| > 1 {
      JoinNoChar(parts[1..], sep, c);
      assert parts[0] in parts;
    } else if |parts| == 1 {
      assert parts[0] in parts;
    }
  }

  /** A character absent from `s` is absent from every piece of its split. */
  lemma {:induction false} SplitChars(s: string, sep: char, c: char)
    requires c !in s
    ensures forall l :: l in Split(s, sep) ==> c !in l
  {
    if s != [] {
      SplitChars(s[1..], sep, c);
      var rest := Split(s[1..], sep);
      assert rest[0] in rest;
      forall l | l in rest[1..] ensures l in rest { }
    }
  }

  /** Every command a piece yields is well formed. */
  lemma PieceCommandWellFormed(piece: string)
    requires ';' !in piece
    requires PieceCommand(piece).Some?
    ensures WellFormed(PieceCommand(piece).value)
  {
    var cmd := Strip(piece);
    StripChars(piece, ';');
    var raw := Split(cmd, '\n');
    SplitChars(cmd, '\n', ';');
    var lines := KeptLines(raw);
    KeptLinesShape(raw, ';');
    KeptLinesShape(raw, '\n');
    JoinNoChar(lines, "\n", ';');
    assert lines[0] in lines;
    JoinSplit(lines, '\n');
  }

  /** Every command the script executes is well formed: it has no `;` (the text
      is cut at every `;`, whatever quoting surrounds it), and none of its lines
      is empty, carries surrounding white space or contains `--`. */
  lemma ImportCommandsWellFormed(sql: string)
    ensures forall c :: c in ImportCommands(sql) ==> WellFormed(c)
  {
    var pieces := Split(sql, ';');
    forall c | c in ImportCommands(sql) ensures WellFormed(c) {
      FlatMapFrom(PieceCommandSeq, pieces, c);
      var i :| 0 <= i < |pieces| && c in PieceCommandSeq(pieces[i]);
      PieceCommandWellFormed(pieces[i]);
    }
  }

  /** Commands keep input order: the commands of `a;b` are those of `a`
      followed by those of `b`. */
  lemma ImportCommandsConcat(a: string, b: string)
    ensures ImportCommands(a + ";" + b) == ImportCommands(a) + ImportCommands(b)
  {
    SplitConcat(a, b, ';');
    FlatMapConcat(PieceCommandSeq, Split(a, ';'), Split(b, ';'));
  }

  /** A piece that starts with `--` is dropped whole, so a statement that
      follows a leading comment line in the same piece is lost. */
  lemma LeadingCommentDropsStatement(rest: string)
    requires ';' !in rest
    ensures ImportCommands("--" + rest) == []
  {
    var s := "--" + rest;
    NoSeparator(s, ';');
    StripSpec(s);
    assert LeadCount(s) == 0;
    assert |Strip(s)| >= 2 by {
      assert !IsSpace(s[1]);
    }
    assert Strip(s)[..2] == "--";
    FlatMapSingle(PieceCommandSeq, s);
  }

  /** Likewise a piece whose first statement starts with `SET` is dropped whole. */
  lemma SetPieceDropped(rest: string)
    requires ';' !in rest
    ensures ImportCommands("SET" + rest) == []
  {
    var s := "SET" + rest;
    NoSeparator(s, ';');
    StripSpec(s);
    assert LeadCount(s) == 0;
    assert |Strip(s)| >= 3 by {
      assert !IsSpace(s[2]);
    }
    assert Strip(s)[..3] == "SET";
    FlatMapSingle(PieceCommandSeq, s);
  }
}
