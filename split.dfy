// split_on_unescaped_newlines: cutting a text into lines at the newlines
// that are not inside double quotes, for the CSV reader of the waveform
// assembler. The text is the content before its terminating NUL.

module CsvSplit {

  import opened Words
  import opened Csv

  // ---------------------------------------------------------------
  // Reference definitions
  // ---------------------------------------------------------------

  /**
   * The newlines outside quotes in s, read from a state inside (quoted) or
   * outside quotes; inside quotes a doubled quote is skipped and a single
   * one closes the quotes.
   */
  function NewlinesFrom(s: seq<char>, quoted: bool): nat
  {
    if s == [] then 0
    else if quoted then
      if s[0] == '"' then
        if |s| > 1 && s[1] == '"' then NewlinesFrom(s[2..], true) else NewlinesFrom(s[1..], false)
      else NewlinesFrom(s[1..], true)
    else if s[0] == '"' then NewlinesFrom(s[1..], true)
    else if s[0] == '\n' then 1 + NewlinesFrom(s[1..], false)
    else NewlinesFrom(s[1..], false)
  }

  /** The first pass: the number of lines the result has room for, one more than the unescaped newlines. */
  function LineCount(txt: seq<char>): nat
  {
    1 + NewlinesFrom(txt, false)
  }

  /**
   * The lines of s, cur being the text of the line read so far: a newline
   * outside quotes ends a line, and the end of the text ends the last one.
   * Quotes stay in the text. A line that would be empty ends the result.
   */
  function LinesFrom(s: seq<char>, quoted: bool, cur: seq<char>): seq<seq<char>>
  {
    if s == [] then (if cur == [] then [] else [cur])
    else if quoted then
      if s[0] == '"' then
        if |s| > 1 && s[1] == '"' then LinesFrom(s[2..], true, cur + s[..2]) else LinesFrom(s[1..], false, cur + [s[0]])
      else LinesFrom(s[1..], true, cur + [s[0]])
    else if s[0] == '"' then LinesFrom(s[1..], true, cur + [s[0]])
    else if s[0] == '\n' then (if cur == [] then [] else [cur] + LinesFrom(s[1..], false, []))
    else LinesFrom(s[1..], false, cur + [s[0]])
  }

  /** The lines split_on_unescaped_newlines returns for a text. */
  function Lines(txt: seq<char>): seq<seq<char>>
  {
    LinesFrom(txt, false, [])
  }

  /** Lines joined again with newlines between them. */
  function JoinLines(ls: seq<seq<char>>): seq<char>
    requires |ls| >= 1
  {
    if |ls| == 1 then ls[0] else ls[0] + ['\n'] + JoinLines(ls[1..])
  }

  /** There are never more lines than the first pass counts. */
  lemma {:induction false} LinesFit(s: seq<char>, quoted: bool, cur: seq<char>)
    ensures |LinesFrom(s, quoted, cur)| <= 1 + NewlinesFrom(s, quoted)
  {
    if s == [] {
    } else if quoted {
      if s[0] == '"' {
        if |s| > 1 && s[1] == '"' {
          LinesFit(s[2..], true, cur + s[..2]);
        } else {
          LinesFit(s[1..], false, cur + [s[0]]);
        }
      } else {
        LinesFit(s[1..], true, cur + [s[0]]);
      }
    } else if s[0] == '"' {
      LinesFit(s[1..], true, cur + [s[0]]);
    } else if s[0] == '\n' {
      LinesFit(s[1..], false, []);
    } else {
      LinesFit(s[1..], false, cur + [s[0]]);
    }
  }

  /** Every line returned has at least one character. */
  lemma {:induction false} LinesNonEmpty(s: seq<char>, quoted: bool, cur: seq<char>)
    ensures forall k | 0 <= k < |LinesFrom(s, quoted, cur)| :: |LinesFrom(s, quoted, cur)[k]| > 0
  {
    if s == [] {
    } else if quoted {
      if s[0] == '"' {
        if |s| > 1 && s[1] == '"' {
          LinesNonEmpty(s[2..], true, cur + s[..2]);
        } else {
          LinesNonEmpty(s[1..], false, cur + [s[0]]);
        }
      } else {
        LinesNonEmpty(s[1..], true, cur + [s[0]]);
      }
    } else if s[0] == '"' {
      LinesNonEmpty(s[1..], true, cur + [s[0]]);
    } else if s[0] == '\n' {
      LinesNonEmpty(s[1..], false, []);
    } else {
      LinesNonEmpty(s[1..], false, cur + [s[0]]);
    }
  }

  /**
   * When no line is cut short (there are as many lines as the first pass
   * counts), joining the lines with newlines gives the text back.
   */
  lemma {:induction false} LinesJoin(s: seq<char>, quoted: bool, cur: seq<char>)
    requires |LinesFrom(s, quoted, cur)| == 1 + NewlinesFrom(s, quoted)
    ensures JoinLines(LinesFrom(s, quoted, cur)) == cur + s
  {
    if s == [] {
      assert cur + s == cur;
    } else if quoted {
      if s[0] == '"' {
        if |s| > 1 && s[1] == '"' {
          LinesJoin(s[2..], true, cur + s[..2]);
          MovedAhead(cur, s, 2);
        } else {
          LinesJoin(s[1..], false, cur + [s[0]]);
          MovedAhead(cur, s, 1);
        }
      } else {
        LinesJoin(s[1..], true, cur + [s[0]]);
        MovedAhead(cur, s, 1);
      }
    } else if s[0] == '"' {
      LinesJoin(s[1..], true, cur + [s[0]]);
      MovedAhead(cur, s, 1);
    } else if s[0] == '\n' {
      var later := LinesFrom(s[1..], false, []);
      LinesJoin(s[1..], false, []);
      assert ([cur] + later)[1..] == later;
      assert [] + s[1..] == s[1..];
      MovedAhead(cur, s, 1);
    } else {
      LinesJoin(s[1..], false, cur + [s[0]]);
      MovedAhead(cur, s, 1);
    }
  }

  /** Moving the first n characters of the rest onto the current line keeps the whole text. */
  lemma MovedAhead(cur: seq<char>, s: seq<char>, n: nat)
    requires n <= |s|
    ensures cur + s[..n] + s[n..] == cur + s
    ensures n == 1 ==> cur + [s[0]] + s[1..] == cur + s
  {
    assert s[..n] + s[n..] == s;
  }

  /** Once the text is used up, the pending line is the last one unless it is empty. */
  lemma EndOfText(txt: seq<char>, done: seq<seq<char>>, quoted: bool, cur: seq<char>)
    requires Lines(txt) == done + LinesFrom(txt[|txt|..], quoted, cur)
    ensures Lines(txt) == if cur == [] then done else done + [cur]
  {
    assert txt[|txt|..] == [];
  }

  /** A buffer holding the lines in order and then a NULL starts with their terminated copy. */
  lemma TerminatedPrefix(s: seq<Option<seq<char>>>, lines: seq<seq<char>>)
    requires |lines| < |s| && s[|lines|] == None
    requires forall k | 0 <= k < |lines| :: s[k] == Some(lines[k])
    ensures s[..|lines| + 1] == Terminated(lines)
  {
  }

  /** A text whose lines are all kept is the newline-join of its lines. */
  lemma JoinOfLines(txt: seq<char>)
    requires |Lines(txt)| == LineCount(txt)
    ensures JoinLines(Lines(txt)) == txt
  {
    LinesJoin(txt, false, []);
    assert [] + txt == txt;
  }

  /** A newline inside quotes does not split: the quoted newline stays inside the first line. */
  lemma QuotedNewlineKept()
    ensures Lines("\"\n\"x") == ["\"\n\"x"]
    ensures LineCount("\"\n\"x") == 1
  {
    var s0, s1, s2, s3 := "\"\n\"x", "\n\"x", "\"x", "x";
    assert s0[1..] == s1 && s1[1..] == s2 && s2[1..] == s3 && s3[1..] == [];
    var c1, c2, c3 := "\"", "\"\n", "\"\n\"";
    assert [] + [s0[0]] == c1 && c1 + [s1[0]] == c2 && c2 + [s2[0]] == c3 && c3 + [s3[0]] == s0;
    assert LinesFrom(s3, false, c3) == [s0];
    assert LinesFrom(s1, true, c1) == [s0];
    assert NewlinesFrom(s1, true) == 0;
  }

  /** An empty line ends the result: the lines after it are dropped. */
  lemma EmptyLineStops()
    ensures Lines("a\n\nb") == ["a"]
  {
    var s0, s1, s2 := "a\n\nb", "\n\nb", "\nb";
    assert s0[1..] == s1 && s1[1..] == s2;
    assert [] + [s0[0]] == "a";
    assert LinesFrom(s2, false, []) == [];
    assert LinesFrom(s1, false, "a") == ["a"];
  }

  // ---------------------------------------------------------------
  // split_on_unescaped_newlines
  // ---------------------------------------------------------------

  /** The first pass: counts the lines, one more than the newlines outside quotes. */
  method CountLines(txt: seq<char>) returns (nLines: nat)
    ensures nLines == LineCount(txt)
  {
    nLines := 1;
    var quoted := false;
    var p := 0;
    while p < |txt|
      invariant 0 <= p <= |txt| && nLines >= 1
      invariant LineCount(txt) == nLines + NewlinesFrom(txt[p..], quoted)
    {
      var rest := txt[p..];
      if quoted {
        if txt[p] == '"' && p + 1 < |txt| && txt[p + 1] == '"' {
          assert rest[2..] == txt[p + 2..];
          p := p + 2;
        } else {
          if txt[p] == '"' {
            quoted := false;
          }
          assert rest[1..] == txt[p + 1..];
          p := p + 1;
        }
      } else {
        if txt[p] == '"' {
          quoted := true;
        } else if txt[p] == '\n' {
          nLines := nLines + 1;
        }
        assert rest[1..] == txt[p + 1..];
        p := p + 1;
      }
    }
  }

  /**
   * split_on_unescaped_newlines: a fresh array with room for the counted
   * lines and a NULL terminator, holding copies of the lines up to the
   * terminator.
   */
  method SplitOnUnescapedNewlines(txt: seq<char>) returns (buf: array<Option<seq<char>>>)
    ensures fresh(buf) && buf.Length == LineCount(txt) + 1
    ensures |Lines(txt)| < buf.Length && buf[..|Lines(txt)| + 1] == Terminated(Lines(txt))
  {
    var nLines := CountLines(txt);
    buf := new Option<seq<char>>[nLines + 1](_ => None);
    var lineStart: nat := 0;
    var b: nat := 0;
    ghost var done: seq<seq<char>> := [];
    var quoted := false;
    var p: nat := 0;
    assert txt[0..] == txt && txt[0..0] == [] && [] + Lines(txt) == Lines(txt);
    while p < |txt|
      invariant lineStart <= p <= |txt| && b == |done| && NewlinesFrom(txt, false) == b + NewlinesFrom(txt[p..], quoted)
      invariant buf.Length == nLines + 1 == LineCount(txt) + 1
      invariant forall k | 0 <= k < b :: buf[k] == Some(done[k])
      invariant Lines(txt) == done + LinesFrom(txt[p..], quoted, txt[lineStart..p])
    {
      var stop;
      p, quoted, lineStart, b, done, stop := SplitStep(txt, buf, p, quoted, lineStart, b, done);
      if stop {
        return;
      }
    }
    // The terminating NUL ends the last line.
    var len := p - lineStart;
    EndOfText(txt, done, quoted, txt[lineStart..p]);
    if len == 0 {
      buf[b] := None;
      TerminatedPrefix(buf[..], done);
      return;
    }
    buf[b] := Some(txt[lineStart..p]);
    done := done + [txt[lineStart..p]];
    buf[b + 1] := None;
    TerminatedPrefix(buf[..], done);
  }

  /**
   * One pass of the second loop over the character at p (and the next one
   * for a doubled quote in quotes); stop when an empty line ended the result.
   */
  method SplitStep(txt: seq<char>, buf: array<Option<seq<char>>>, p: nat, quoted: bool, lineStart: nat, b: nat,
                   ghost done: seq<seq<char>>)
    returns (p': nat, quoted': bool, lineStart': nat, b': nat, ghost done': seq<seq<char>>, stop: bool)
    requires lineStart <= p < |txt| && b == |done| && NewlinesFrom(txt, false) == b + NewlinesFrom(txt[p..], quoted)
    requires buf.Length == LineCount(txt) + 1
    requires forall k | 0 <= k < b :: buf[k] == Some(done[k])
    requires Lines(txt) == done + LinesFrom(txt[p..], quoted, txt[lineStart..p])
    modifies buf
    ensures !stop ==> lineStart' <= p' <= |txt| && p < p' && b' == |done'|
    ensures !stop ==> NewlinesFrom(txt, false) == b' + NewlinesFrom(txt[p'..], quoted')
    ensures !stop ==> forall k | 0 <= k < b' :: buf[k] == Some(done'[k])
    ensures !stop ==> Lines(txt) == done' + LinesFrom(txt[p'..], quoted', txt[lineStart'..p'])
    ensures stop ==> |Lines(txt)| < buf.Length && buf[..|Lines(txt)| + 1] == Terminated(Lines(txt))
  {
    var rest := txt[p..];
    var cur := txt[lineStart..p];
    p', quoted', lineStart', b', done', stop := p + 1, quoted, lineStart, b, done, false;
    assert rest[1..] == txt[p + 1..];
    if quoted {
      if txt[p] == '"' && p + 1 < |txt| && txt[p + 1] == '"' {
        assert rest[2..] == txt[p + 2..] && rest[..2] == txt[p..p + 2];
        assert txt[lineStart..p + 2] == cur + rest[..2];
        p' := p + 2;
      } else {
        if txt[p] == '"' {
          quoted' := false;
        }
        assert txt[lineStart..p + 1] == cur + [rest[0]];
      }
    } else if txt[p] == '"' {
      quoted' := true;
      assert txt[lineStart..p + 1] == cur + [rest[0]];
    } else if txt[p] == '\n' {
      var len := p - lineStart;
      if len == 0 {
        buf[b] := None;
        assert Lines(txt) == done + [];
        TerminatedPrefix(buf[..], done);
        return p', quoted', lineStart', b', done', true;
      }
      LinesFit(txt, false, []);
      buf[b] := Some(cur);
      done' := done + [cur];
      b' := b + 1;
      lineStart' := p + 1;
      assert txt[p + 1..p + 1] == [];
      assert done + ([cur] + LinesFrom(txt[p + 1..], false, [])) == done' + LinesFrom(txt[p + 1..], false, []);
    } else {
      assert txt[lineStart..p + 1] == cur + [rest[0]];
    }
  }
}
