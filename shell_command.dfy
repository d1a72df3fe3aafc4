// shellh_execute_command: a command line becomes argc/argv (quotes group
// words, runs of spaces separate them) and argv[0] is looked up in the
// command table. The handlers themselves and the messages printed are not
// part of this model; the outcome records which message would be printed.

module ShellCommand {

  import opened Words
  import opened CText

  /** Stands for a space inside quotes while the line is cut into words. */
  const ALT_SPACE: char := '\U{0007}'
  const MAX_ARGS: nat := 10

  /** The names in shell_commands, in table order; the NULL entry follows them. */
  const COMMANDS: seq<seq<char>> := ["help", "ver", "syslog", "stacks", "test", "i2c_probe", "recv", "send",
                                     "df", "format", "fdump", "rm", "setvolt", "setcfg", "sensor", "exit"]
  /** The entry of "exit", the one entry without a handler. */
  const EXIT: nat := 15

  predicate IsControlBlank(c: char) { c == '\r' || c == '\n' || c == '\t' }
  predicate IsQuote(c: char) { c == '\'' || c == '"' }

  // ---------------------------------------------------------------
  // Carriage returns, newlines and tabs become spaces
  // ---------------------------------------------------------------

  function Blanked(s: seq<char>): seq<char>
  {
    seq(|s|, i requires 0 <= i < |s| => if IsControlBlank(s[i]) then ' ' else s[i])
  }

  method BlankControls(cmd: seq<char>) returns (out: seq<char>)
    ensures out == Blanked(cmd)
  {
    out := cmd;
    var i := 0;
    while i < |out|
      invariant 0 <= i <= |out| == |cmd|
      invariant forall k | 0 <= k < i :: out[k] == Blanked(cmd)[k]
      invariant forall k | i <= k < |out| :: out[k] == cmd[k]
    {
      if IsControlBlank(out[i]) {
        out := out[i := ' '];
      }
      i := i + 1;
    }
  }

  /** Afterwards no carriage return, newline or tab is left, and every other character is where it was. */
  lemma BlankedShape(s: seq<char>)
    ensures |Blanked(s)| == |s|
    ensures forall i | 0 <= i < |s| :: !IsControlBlank(Blanked(s)[i])
    ensures forall i | 0 <= i < |s| && !IsControlBlank(s[i]) :: Blanked(s)[i] == s[i]
  {
  }

  // ---------------------------------------------------------------
  // Spaces inside quotes
  // ---------------------------------------------------------------

  /** Some(p + t) for Some(t); None stays None. */
  function Glue(p: seq<char>, o: Option<seq<char>>): Option<seq<char>>
  {
    if o.Some? then Some(p + o.value) else None
  }

  /**
   * The line with every space inside '' or "" replaced by ALT_SPACE,
   * scanning from a state inside quotes opened by qc (or outside); the
   * other kind of quote inside quotes is an ordinary character. None when
   * a quote is left open at the end.
   */
  function MarkFrom(s: seq<char>, inside: bool, qc: char): Option<seq<char>>
  {
    if s == [] then (if inside then None else Some([]))
    else if IsQuote(s[0]) then
      if !inside then Glue([s[0]], MarkFrom(s[1..], true, s[0]))
      else if s[0] == qc then Glue([s[0]], MarkFrom(s[1..], false, '\0'))
      else Glue([s[0]], MarkFrom(s[1..], true, qc))
    else if s[0] == ' ' && inside then Glue([ALT_SPACE], MarkFrom(s[1..], inside, qc))
    else Glue([s[0]], MarkFrom(s[1..], inside, qc))
  }

  function Marked(s: seq<char>): Option<seq<char>>
  {
    MarkFrom(s, false, '\0')
  }

  lemma GlueGlue(p: seq<char>, q: seq<char>, o: Option<seq<char>>)
    ensures Glue(p, Glue(q, o)) == Glue(p + q, o)
  {
    if o.Some? {
      assert p + (q + o.value) == p + q + o.value;
    }
  }

  /** The quote pass of shellh_execute_command, rewriting the line in place; None for "Invalid quoted string". */
  method MarkQuotedSpaces(cmd: seq<char>) returns (r: Option<seq<char>>)
    ensures r == Marked(cmd)
  {
    var out := cmd;
    var inside := false;
    var qc := '\0';
    var i := 0;
    assert cmd[0..] == cmd && out[..0] == [];
    if Marked(cmd).Some? {
      assert [] + Marked(cmd).value == Marked(cmd).value;
    }
    while i < |out|
      invariant 0 <= i <= |out| == |cmd|
      invariant forall k | i <= k < |out| :: out[k] == cmd[k]
      invariant Marked(cmd) == Glue(out[..i], MarkFrom(cmd[i..], inside, qc))
    {
      var rest := cmd[i..];
      assert rest[1..] == cmd[i + 1..] && rest[0] == out[i];
      if IsQuote(out[i]) {
        if !inside {
          inside := true;
          qc := out[i];
        } else if out[i] == qc {
          inside := false;
          qc := '\0';
        }
      } else if out[i] == ' ' && inside {
        out := out[i := ALT_SPACE];
      }
      GlueGlue(out[..i], [out[i]], MarkFrom(cmd[i + 1..], inside, qc));
      assert out[..i + 1] == out[..i] + [out[i]];
      i := i + 1;
    }
    assert out[..i] == out && cmd[i..] == [] && out + [] == out;
    if inside {
      return None;
    }
    return Some(out);
  }

  /** The quote pass only turns spaces into ALT_SPACE. */
  lemma {:induction false} MarkFromShape(s: seq<char>, inside: bool, qc: char)
    requires MarkFrom(s, inside, qc).Some?
    ensures var t := MarkFrom(s, inside, qc).value;
      |t| == |s| && forall i | 0 <= i < |s| :: t[i] == s[i] || (s[i] == ' ' && t[i] == ALT_SPACE)
  {
    if s != [] {
      if IsQuote(s[0]) {
        if !inside {
          MarkFromShape(s[1..], true, s[0]);
        } else if s[0] == qc {
          MarkFromShape(s[1..], false, '\0');
        } else {
          MarkFromShape(s[1..], true, qc);
        }
      } else {
        MarkFromShape(s[1..], inside, qc);
      }
    }
  }

  /** A line without quotes passes the quote pass unchanged. */
  lemma {:induction false} MarkFromUnquoted(s: seq<char>)
    requires forall i | 0 <= i < |s| :: !IsQuote(s[i])
    ensures MarkFrom(s, false, '\0') == Some(s)
  {
    if s != [] {
      MarkFromUnquoted(s[1..]);
      assert [s[0]] + s[1..] == s;
    }
  }

  // ---------------------------------------------------------------
  // Runs of spaces
  // ---------------------------------------------------------------

  /** s with every space that follows a space removed; afterSpace says the character before s was a space. */
  function CollapseFrom(s: seq<char>, afterSpace: bool): seq<char>
  {
    if s == [] then []
    else if s[0] == ' ' && afterSpace then CollapseFrom(s[1..], true)
    else [s[0]] + CollapseFrom(s[1..], s[0] == ' ')
  }

  function Collapse(s: seq<char>): seq<char>
  {
    CollapseFrom(s, false)
  }

  /** The pass that reduces every run of spaces to one. */
  method CollapseSpaces(cmd: seq<char>) returns (out: seq<char>)
    ensures out == Collapse(cmd)
  {
    out := [];
    var afterSpace := false;
    var i := 0;
    assert cmd[0..] == cmd;
    while i < |cmd|
      invariant 0 <= i <= |cmd|
      invariant Collapse(cmd) == out + CollapseFrom(cmd[i..], afterSpace)
    {
      assert cmd[i..][1..] == cmd[i + 1..];
      if !(cmd[i] == ' ' && afterSpace) {
        assert out + ([cmd[i]] + CollapseFrom(cmd[i + 1..], cmd[i] == ' ')) == (out + [cmd[i]]) + CollapseFrom(cmd[i + 1..], cmd[i] == ' ');
        out := out + [cmd[i]];
      }
      afterSpace := cmd[i] == ' ';
      i := i + 1;
    }
    assert out + [] == out;
  }

  /** No two spaces in a row. */
  predicate NoDoubleSpace(s: seq<char>)
  {
    forall i | 0 <= i < |s| - 1 :: !(s[i] == ' ' && s[i + 1] == ' ')
  }

  lemma NoDoubleSpaceSlice(s: seq<char>, lo: nat, hi: nat)
    requires lo <= hi <= |s| && NoDoubleSpace(s)
    ensures NoDoubleSpace(s[lo..hi])
  {
    forall j | 0 <= j < hi - lo - 1
      ensures !(s[lo..hi][j] == ' ' && s[lo..hi][j + 1] == ' ')
    {
      assert s[lo..hi][j] == s[lo + j] && s[lo..hi][j + 1] == s[lo + j + 1];
    }
  }

  /** The characters of s that are not spaces, in order. */
  function NonSpaces(s: seq<char>): seq<char>
  {
    if s == [] then [] else (if s[0] == ' ' then [] else [s[0]]) + NonSpaces(s[1..])
  }

  /** After the pass no two spaces follow each other, and none follows the space before the text. */
  lemma {:induction false} CollapseFromShape(s: seq<char>, afterSpace: bool)
    ensures NoDoubleSpace(CollapseFrom(s, afterSpace))
    ensures afterSpace && CollapseFrom(s, afterSpace) != [] ==> CollapseFrom(s, afterSpace)[0] != ' '
  {
    if s != [] {
      CollapseFromShape(s[1..], s[0] == ' ');
      if !(s[0] == ' ' && afterSpace) {
        var t := CollapseFrom(s[1..], s[0] == ' ');
        assert CollapseFrom(s, afterSpace) == [s[0]] + t;
        assert forall i | 1 <= i < |t| :: ([s[0]] + t)[i] == t[i - 1] && ([s[0]] + t)[i + 1] == t[i];
      }
    }
  }

  /** The pass removes spaces only: the other characters all stay, in order. */
  lemma {:induction false} CollapseKeepsNonSpaces(s: seq<char>, afterSpace: bool)
    ensures NonSpaces(CollapseFrom(s, afterSpace)) == NonSpaces(s)
  {
    if s != [] {
      CollapseKeepsNonSpaces(s[1..], s[0] == ' ');
      if !(s[0] == ' ' && afterSpace) {
        var t := CollapseFrom(s[1..], s[0] == ' ');
        assert ([s[0]] + t)[1..] == t;
      }
    }
  }

  /** Text already without runs of spaces passes unchanged, so collapsing twice is collapsing once. */
  lemma {:induction false} CollapseFromFixed(s: seq<char>, afterSpace: bool)
    requires NoDoubleSpace(s) && (afterSpace && s != [] ==> s[0] != ' ')
    ensures CollapseFrom(s, afterSpace) == s
  {
    if s != [] {
      assert NoDoubleSpace(s[1..]);
      CollapseFromFixed(s[1..], s[0] == ' ');
      assert [s[0]] + s[1..] == s;
    }
  }

  lemma CollapseIdempotent(s: seq<char>)
    ensures Collapse(Collapse(s)) == Collapse(s)
  {
    CollapseFromShape(s, false);
    CollapseFromFixed(Collapse(s), false);
  }

  // ---------------------------------------------------------------
  // One leading and one trailing space; words
  // ---------------------------------------------------------------

  /** The line without one trailing space and then without one leading space. */
  function Trimmed(c: seq<char>): seq<char>
  {
    var t := if |c| > 0 && c[|c| - 1] == ' ' then c[..|c| - 1] else c;
    if |t| > 0 && t[0] == ' ' then t[1..] else t
  }

  /** The words of s between single spaces. */
  function Fields(s: seq<char>): (fs: seq<seq<char>>)
    ensures |fs| >= 1
    decreases |s|
  {
    match IndexOf(s, ' ')
    case None => [s]
    case Some(i) => [s[..i]] + Fields(s[i + 1..])
  }

  /** Words joined again with single spaces. */
  function Join(fs: seq<seq<char>>): seq<char>
    requires |fs| >= 1
  {
    if |fs| == 1 then fs[0] else fs[0] + [' '] + Join(fs[1..])
  }

  /** Cutting at the spaces and joining with spaces gives the line back; no word holds a space. */
  lemma {:induction false} FieldsJoin(s: seq<char>)
    ensures Join(Fields(s)) == s
    ensures forall k | 0 <= k < |Fields(s)| :: ' ' !in Fields(s)[k]
    decreases |s|
  {
    match IndexOf(s, ' ')
    case None =>
    case Some(i) =>
      FieldsJoin(s[i + 1..]);
      assert ([s[..i]] + Fields(s[i + 1..]))[1..] == Fields(s[i + 1..]);
      assert s[..i] + [' '] + s[i + 1..] == s;
  }

  /** A line with no runs of spaces and no space at either end cuts into non-empty words. */
  lemma {:induction false} FieldsNonEmpty(s: seq<char>)
    requires s != [] && s[0] != ' ' && s[|s| - 1] != ' ' && NoDoubleSpace(s)
    ensures forall k | 0 <= k < |Fields(s)| :: Fields(s)[k] != []
    decreases |s|
  {
    match IndexOf(s, ' ')
    case None =>
    case Some(i) =>
      var rest := s[i + 1..];
      assert 0 < i < |s| - 1;
      assert rest[0] == s[i + 1] && rest[|rest| - 1] == s[|s| - 1];
      NoDoubleSpaceSlice(s, i + 1, |s|);
      FieldsNonEmpty(rest);
  }

  /** What is left to cut into words after collapsing and trimming: non-empty, no space at either end. */
  lemma TrimmedShape(c: seq<char>)
    requires NoDoubleSpace(c) && c != [] && c != " "
    ensures var b := Trimmed(c); b != [] && b[0] != ' ' && b[|b| - 1] != ' ' && NoDoubleSpace(b)
  {
    var t := if c[|c| - 1] == ' ' then c[..|c| - 1] else c;
    if |c| == 1 {
      assert c[0] != ' ';
    } else {
      assert t != [];
      if c[|c| - 1] == ' ' {
        assert t[|t| - 1] == c[|c| - 2] != ' ';
      }
      NoDoubleSpaceSlice(c, 0, |t|);
      if t[0] == ' ' {
        var b := t[1..];
        assert |t| >= 2 && t[1] != ' ';
        assert b[0] == t[1] && b[|b| - 1] == t[|t| - 1];
        NoDoubleSpaceSlice(t, 1, |t|);
      }
    }
  }

  /**
   * The argc/argv loop: words are cut at the spaces while fewer than
   * MAX_ARGS are taken; a line with more words is "too many arguments".
   */
  method SplitArgs(body: seq<char>) returns (argv: seq<seq<char>>, ok: bool)
    ensures ok <==> |Fields(body)| <= MAX_ARGS
    ensures ok ==> argv == Fields(body)
  {
    argv := [];
    var rest := body;
    while true
      invariant |argv| <= MAX_ARGS
      invariant Fields(body) == argv + Fields(rest)
      decreases |rest|
    {
      var space := IndexOf(rest, ' ');
      if space.None? {
        break;
      }
      if |argv| == MAX_ARGS {
        return argv, false;
      }
      var i := space.value;
      assert argv + ([rest[..i]] + Fields(rest[i + 1..])) == (argv + [rest[..i]]) + Fields(rest[i + 1..]);
      argv := argv + [rest[..i]];
      rest := rest[i + 1..];
    }
    if |argv| < MAX_ARGS {
      argv := argv + [rest];
      return argv, true;
    }
    return argv, false;
  }

  // ---------------------------------------------------------------
  // Argument clean-up
  // ---------------------------------------------------------------

  /** ALT_SPACE back to a space. */
  function Restored(a: seq<char>): seq<char>
  {
    seq(|a|, i requires 0 <= i < |a| => if a[i] == ALT_SPACE then ' ' else a[i])
  }

  /** A word that starts and ends with the same quote loses both. */
  function Unquoted(r: seq<char>): seq<char>
  {
    if |r| > 0 && IsQuote(r[0]) && r[0] == r[|r| - 1] then
      if |r| >= 2 then r[1..|r| - 1] else []
    else r
  }

  function FixArg(a: seq<char>): seq<char>
  {
    Unquoted(Restored(a))
  }

  /** Restoring the spaces undoes the quote pass on text that had no ALT_SPACE of its own. */
  lemma RestoreUndoesMark(s: seq<char>)
    requires Marked(s).Some? && ALT_SPACE !in s
    ensures Restored(Marked(s).value) == s
  {
    MarkFromShape(s, false, '\0');
  }

  /** Quoting a word and unquoting it gives it back. */
  lemma UnquoteQuoted(q: char, w: seq<char>)
    requires IsQuote(q)
    ensures Unquoted([q] + w + [q]) == w
  {
    assert ([q] + w + [q])[1..|w| + 1] == w;
  }

  /** The loop over argv: spaces put back, then matching outer quotes removed. */
  method FixArgs(argv: seq<seq<char>>) returns (out: seq<seq<char>>)
    ensures |out| == |argv| && forall i | 0 <= i < |argv| :: out[i] == FixArg(argv[i])
  {
    out := [];
    var i := 0;
    while i < |argv|
      invariant 0 <= i <= |argv| && |out| == i
      invariant forall k | 0 <= k < i :: out[k] == FixArg(argv[k])
    {
      var p := argv[i];
      var j := 0;
      while j < |p|
        invariant 0 <= j <= |p| == |argv[i]|
        invariant forall k | 0 <= k < j :: p[k] == Restored(argv[i])[k]
        invariant forall k | j <= k < |p| :: p[k] == argv[i][k]
      {
        if p[j] == ALT_SPACE {
          p := p[j := ' '];
        }
        j := j + 1;
      }
      assert p == Restored(argv[i]);
      if |p| > 0 && IsQuote(p[0]) && p[0] == p[|p| - 1] {
        p := if |p| >= 2 then p[1..|p| - 1] else [];
      }
      out := out + [p];
      i := i + 1;
    }
  }

  // ---------------------------------------------------------------
  // Command lookup and the whole command
  // ---------------------------------------------------------------

  /** The first table entry named name, or the NULL entry's position |COMMANDS| when there is none. */
  function CommandIndexFrom(name: seq<char>, k: nat): (i: nat)
    requires k <= |COMMANDS|
    ensures k <= i <= |COMMANDS|
    ensures i < |COMMANDS| ==> COMMANDS[i] == name
    ensures forall j | k <= j < i :: COMMANDS[j] != name
    decreases |COMMANDS| - k
  {
    if k == |COMMANDS| then k
    else if COMMANDS[k] == name then k
    else CommandIndexFrom(name, k + 1)
  }

  function CommandIndex(name: seq<char>): nat
  {
    CommandIndexFrom(name, 0)
  }

  method FindCommand(name: seq<char>) returns (i: nat)
    ensures i == CommandIndex(name)
  {
    i := 0;
    while i < |COMMANDS| && COMMANDS[i] != name
      invariant i <= |COMMANDS| && CommandIndexFrom(name, i) == CommandIndex(name)
    {
      i := i + 1;
    }
  }

  /** Which entries have a handler: all but "exit". */
  predicate HasHandler(i: nat)
  {
    i < |COMMANDS| && i != EXIT
  }

  /** What shellh_execute_command does with a line. */
  datatype Outcome =
    | NoCommand                                   // empty or blank line: NULL, nothing printed
    | InvalidQuote                                // "Invalid quoted string": NULL
    | TooManyArgs                                 // "Error: too many arguments": NULL
    | Unknown(argv: seq<seq<char>>)               // SHELL_ERRMSG; the NULL entry is returned
    | Run(index: nat, argv: seq<seq<char>>)       // entry index matched argv[0]

  function Tokenize(cmd: seq<char>): Outcome
  {
    if cmd == [] then NoCommand
    else match Marked(Blanked(cmd))
      case None => InvalidQuote
      case Some(m) =>
        var c := Collapse(m);
        if c == " " then NoCommand
        else
          var fs := Fields(Trimmed(c));
          if |fs| > MAX_ARGS then TooManyArgs
          else
            var argv := seq(|fs|, i requires 0 <= i < |fs| => FixArg(fs[i]));
            var k := CommandIndex(argv[0]);
            if k < |COMMANDS| then Run(k, argv) else Unknown(argv)
  }

  /** shellh_execute_command, without the handler call and the printing. */
  method ExecuteCommand(cmd: seq<char>) returns (r: Outcome)
    ensures r == Tokenize(cmd)
  {
    if |cmd| == 0 {
      return NoCommand;
    }
    var b := BlankControls(cmd);
    var m := MarkQuotedSpaces(b);
    if m.None? {
      return InvalidQuote;
    }
    var c := CollapseSpaces(m.value);
    if c == " " {
      return NoCommand;
    }
    var words, ok := SplitArgs(Trimmed(c));
    if !ok {
      return TooManyArgs;
    }
    var argv := FixArgs(words);
    var k := FindCommand(argv[0]);
    if k < |COMMANDS| {
      return Run(k, argv);
    }
    return Unknown(argv);
  }

  /**
   * A command that reaches the table has between 1 and MAX_ARGS
   * arguments, cut from the line at single spaces into non-empty words that
   * join back to the collapsed, trimmed line.
   */
  lemma TokenizeWords(cmd: seq<char>)
    requires Tokenize(cmd).Run? || Tokenize(cmd).Unknown?
    ensures 1 <= |Tokenize(cmd).argv| <= MAX_ARGS
    ensures var c := Collapse(Marked(Blanked(cmd)).value);
      var fs := Fields(Trimmed(c));
      && |fs| == |Tokenize(cmd).argv|
      && Join(fs) == Trimmed(c)
      && forall k | 0 <= k < |fs| :: fs[k] != [] && ' ' !in fs[k] && Tokenize(cmd).argv[k] == FixArg(fs[k])
  {
    var m := Marked(Blanked(cmd)).value;
    var c := Collapse(m);
    CollapseFromShape(m, false);
    assert |m| == |Blanked(cmd)| by {
      MarkFromShape(Blanked(cmd), false, '\0');
    }
    assert c != [] by {
      assert m[0] != ' ' ==> c[0] == m[0];
    }
    TrimmedShape(c);
    FieldsNonEmpty(Trimmed(c));
    FieldsJoin(Trimmed(c));
  }

  /** A non-empty line of spaces, tabs, carriage returns and newlines runs nothing. */
  lemma BlankLineIgnored(cmd: seq<char>)
    requires cmd != [] && forall i | 0 <= i < |cmd| :: cmd[i] == ' ' || IsControlBlank(cmd[i])
    ensures Tokenize(cmd) == NoCommand
  {
    var b := Blanked(cmd);
    assert forall i | 0 <= i < |b| :: b[i] == ' ';
    MarkFromUnquoted(b);
    AllSpacesCollapse(b);
  }

  lemma {:induction false} AllSpacesCollapse(s: seq<char>)
    requires s != [] && forall i | 0 <= i < |s| :: s[i] == ' '
    ensures Collapse(s) == " "
  {
    AllSpacesAfterSpace(s[1..]);
  }

  lemma {:induction false} AllSpacesAfterSpace(s: seq<char>)
    requires forall i | 0 <= i < |s| :: s[i] == ' '
    ensures CollapseFrom(s, true) == []
  {
    if s != [] {
      AllSpacesAfterSpace(s[1..]);
    }
  }

  /** shell_poll stops after "exit", the one command without a handler; every other match has one. */
  lemma ExitStopsShell(cmd: seq<char>)
    requires Tokenize(cmd).Run?
    ensures !HasHandler(Tokenize(cmd).index) <==> Tokenize(cmd).argv[0] == "exit"
  {
    RunMatchesEntry(cmd);
    ExitOnlyAtEnd(Tokenize(cmd).index);
  }

  /** A command that runs is the entry its first argument names. */
  lemma RunMatchesEntry(cmd: seq<char>)
    requires Tokenize(cmd).Run?
    ensures var o := Tokenize(cmd); |o.argv| > 0 && o.index < |COMMANDS| && COMMANDS[o.index] == o.argv[0]
  {
  }

  /** "exit" is the last entry of the table and no other. */
  lemma ExitOnlyAtEnd(i: nat)
    requires i < |COMMANDS|
    ensures COMMANDS[i] == "exit" <==> i == EXIT
  {
  }
}
