// linenoise.c: the shell's line editor. A line is edited in a fixed
// character buffer (text, then NUL) with a cursor position; the history is a
// list of earlier lines of bounded length that drops its oldest entry when
// full. Blocking mode is modelled: each line starts with linenoisePrompt's
// new-line set-up. Redrawing the line on the terminal is not modelled.

module LineEditor {

  import opened Words
  import opened CText
  import opened ShellPlatform

  const CTRL_C_CODE: int := -2
  const CTRL_Z_CODE: int := -1

  // ---------------------------------------------------------------
  // Edits of the line, as values
  // ---------------------------------------------------------------

  function InsertAt(s: seq<char>, p: nat, c: char): seq<char>
    requires p <= |s|
  {
    s[..p] + [c] + s[p..]
  }

  function RemoveAt(s: seq<char>, i: nat): seq<char>
    requires i < |s|
  {
    s[..i] + s[i + 1..]
  }

  /** The characters at p - 1 and p exchanged. */
  function SwapAround(s: seq<char>, p: nat): seq<char>
    requires 0 < p < |s|
  {
    s[..p - 1] + [s[p], s[p - 1]] + s[p + 1..]
  }

  /** Swapping the characters at p - 1 and p of a buffer swaps them in its first n and leaves the rest. */
  lemma SwapInBuffer(before: seq<char>, after: seq<char>, n: nat, p: nat)
    requires 0 < p < n < |before| && after == before[p - 1 := before[p]][p := before[p - 1]]
    ensures after[..n] == SwapAround(before[..n], p) && after[n..] == before[n..]
    ensures forall c :: c in after[..n] ==> c in before[..n]
  {
    assert after[..n] == before[..p - 1] + [before[p], before[p - 1]] + before[p + 1..n];
    assert before[..n] == before[..p - 1] + [before[p - 1], before[p]] + before[p + 1..n];
  }

  /** A character typed at p and erased again (Backspace at p + 1, or Delete at p) leaves the line as it was. */
  lemma RemoveUndoesInsert(s: seq<char>, p: nat, c: char)
    requires p <= |s|
    ensures |InsertAt(s, p, c)| == |s| + 1 && InsertAt(s, p, c)[p] == c
    ensures RemoveAt(InsertAt(s, p, c), p) == s
  {
    var t := InsertAt(s, p, c);
    assert t[..p] == s[..p] && t[p + 1..] == s[p..];
    assert s[..p] + s[p..] == s;
  }

  /** Ctrl-T only reorders: it is its own inverse and keeps the characters. */
  lemma SwapAroundPermutes(s: seq<char>, p: nat)
    requires 0 < p < |s|
    ensures |SwapAround(s, p)| == |s| && multiset(SwapAround(s, p)) == multiset(s)
    ensures SwapAround(SwapAround(s, p), p) == s
  {
    var t := SwapAround(s, p);
    assert s == s[..p - 1] + [s[p - 1], s[p]] + s[p + 1..];
    assert t[..p - 1] == s[..p - 1] && t[p + 1..] == s[p + 1..];
  }

  // ---------------------------------------------------------------
  // History, as values
  // ---------------------------------------------------------------

  /** One line added to a history of at most max lines: when full, the oldest is dropped. */
  function Pushed(h: seq<seq<char>>, line: seq<char>, max: nat): seq<seq<char>>
    requires 0 < max && |h| <= max
  {
    if |h| == max then h[1..] + [line] else h + [line]
  }

  /** The history keeps the newest min(n + 1, max) lines, the new one last. */
  lemma PushedKeepsNewest(h: seq<seq<char>>, line: seq<char>, max: nat)
    requires 0 < max && |h| <= max
    ensures var r := Pushed(h, line, max);
      && |r| == Min(|h| + 1, max) && r[|r| - 1] == line
      && r == (h + [line])[|h| + 1 - |r|..] && r == Newest(h + [line], max)
  {
    if |h| == max {
      assert (h + [line])[1..] == h[1..] + [line];
    } else {
      assert (h + [line])[0..] == h + [line];
    }
  }

  /**
   * The lines linenoise_internal_addhistory adds for line: its pieces
   * between newlines, empty ones only when forced; a final newline ends
   * the text without an empty piece after it.
   */
  function Pieces(line: seq<char>, force: bool): seq<seq<char>>
    decreases |line|
  {
    match IndexOf(line, '\n')
    case None => if line != [] || force then [line] else []
    case Some(i) =>
      (if i > 0 || force then [line[..i]] else [])
      + (if i + 1 == |line| then [] else Pieces(line[i + 1..], force))
  }

  function PushAll(h: seq<seq<char>>, ps: seq<seq<char>>, max: nat): (r: seq<seq<char>>)
    requires 0 < max && |h| <= max
    ensures |r| <= max
    decreases |ps|
  {
    if ps == [] then h else PushAll(Pushed(h, ps[0], max), ps[1..], max)
  }

  /** Adding the pieces of a text is adding its first piece, then the pieces of what follows its first newline. */
  lemma PushAllFirstPiece(h: seq<seq<char>>, text: seq<char>, force: bool, max: nat)
    requires 0 < max && |h| <= max
    ensures var nl := IndexOf(text, '\n');
      var end := if nl.Some? then nl.value else |text|;
      var h' := if end > 0 || force then Pushed(h, text[..end], max) else h;
      PushAll(h, Pieces(text, force), max)
        == if nl.None? || end + 1 == |text| then h' else PushAll(h', Pieces(text[end + 1..], force), max)
  {
    match IndexOf(text, '\n')
    case None =>
      assert text[..|text|] == text;
    case Some(i) =>
      var tail := if i + 1 == |text| then [] else Pieces(text[i + 1..], force);
      if i > 0 || force {
        assert ([text[..i]] + tail)[1..] == tail;
      } else {
        assert [] + tail == tail;
      }
  }

  /**
   * Pushing lines one at a time keeps the newest max of the old history and
   * the lines together: the history is a bounded FIFO that drops from the front.
   */
  lemma {:induction false} PushAllKeepsNewest(h: seq<seq<char>>, ps: seq<seq<char>>, max: nat)
    requires 0 < max && |h| <= max
    ensures PushAll(h, ps, max) == Newest(h + ps, max)
    decreases |ps|
  {
    if ps == [] {
      assert h + ps == h[0..];
    } else {
      var x, rest := ps[0], ps[1..];
      PushedKeepsNewest(h, x, max);
      PushAllKeepsNewest(Pushed(h, x, max), rest, max);
      NewestAppend(h + [x], rest, max);
      assert h + [x] + rest == h + ps;
    }
  }

  /** A line without newlines is added whole, and an empty one only when forced. */
  lemma PiecesOfOneLine(line: seq<char>, force: bool)
    requires '\n' !in line
    ensures Pieces(line, force) == if line != [] || force then [line] else []
  {
  }

  /** No piece holds a newline or a NUL of its own, and none is empty unless forced. */
  lemma {:induction false} PiecesShape(line: seq<char>, force: bool)
    ensures forall k | 0 <= k < |Pieces(line, force)| ::
      && '\n' !in Pieces(line, force)[k]
      && (forall c | c in Pieces(line, force)[k] :: c in line)
      && (!force ==> Pieces(line, force)[k] != [])
    decreases |line|
  {
    match IndexOf(line, '\n')
    case None =>
    case Some(i) =>
      if i + 1 < |line| {
        PiecesShape(line[i + 1..], force);
        var rest := Pieces(line[i + 1..], force);
        assert forall k | 0 <= k < |rest| :: forall c | c in rest[k] :: c in line;
      }
  }

  /** No history line holds a NUL. */
  predicate NulFree(h: seq<seq<char>>)
  {
    forall i | 0 <= i < |h| :: '\0' !in h[i]
  }

  lemma PushedNulFree(h: seq<seq<char>>, line: seq<char>, max: nat)
    requires 0 < max && |h| <= max && NulFree(h) && '\0' !in line
    ensures NulFree(Pushed(h, line, max)) && |Pushed(h, line, max)| >= |h|
  {
  }

  /** One round of linenoise_internal_addhistory's loop: the first piece of text pushed, and what is left after its newline. */
  method PushFirstPiece(h: seq<seq<char>>, text: seq<char>, force: bool, max: nat)
    returns (r: seq<seq<char>>, more: bool, next: seq<char>)
    requires 0 < max && |h| <= max && NulFree(h) && '\0' !in text
    ensures NulFree(r) && |h| <= |r| <= max
    ensures '\0' !in next && |next| < |text| + 1 && (more ==> |next| < |text|)
    ensures PushAll(h, Pieces(text, force), max) == if more then PushAll(r, Pieces(next, force), max) else r
  {
    var nl := IndexOf(text, '\n');
    var end := if nl.Some? then nl.value else |text|;
    PushAllFirstPiece(h, text, force, max);
    r := h;
    if end > 0 || force {
      PushedNulFree(h, text[..end], max);
      r := Pushed(h, text[..end], max);
    }
    more := nl.Some? && end + 1 < |text|;
    next := if more then text[end + 1..] else [];
  }

  /** The loop of linenoise_internal_addhistory: each piece of line pushed in turn. */
  method AddPieces(start: seq<seq<char>>, line: seq<char>, force: bool, max: nat) returns (h: seq<seq<char>>)
    requires 0 < max && |start| <= max && NulFree(start) && '\0' !in line
    ensures h == PushAll(start, Pieces(line, force), max)
    ensures NulFree(h) && |start| <= |h| <= max
  {
    var more, rest;
    h, more, rest := PushFirstPiece(start, line, force, max);
    while more
      invariant NulFree(h) && |start| <= |h| <= max && '\0' !in rest
      invariant PushAll(start, Pieces(line, force), max) == if more then PushAll(h, Pieces(rest, force), max) else h
      decreases more, |rest|
    {
      h, more, rest := PushFirstPiece(h, rest, force, max);
    }
  }

  // ---------------------------------------------------------------
  // Buffer moves
  // ---------------------------------------------------------------

  /** memmove(a + from + 1, a + from, to - from). */
  method ShiftRight(a: array<char>, from: nat, to: nat)
    requires from <= to < a.Length
    modifies a
    ensures a[from + 1..to + 1] == old(a[from..to])
    ensures a[..from + 1] == old(a[..from + 1]) && a[to + 1..] == old(a[to + 1..])
  {
    var k := to;
    while k > from
      invariant from <= k <= to
      invariant a[k + 1..to + 1] == old(a[k..to])
      invariant a[..k + 1] == old(a[..k + 1]) && a[to + 1..] == old(a[to + 1..])
    {
      a[k] := a[k - 1];
      k := k - 1;
    }
  }

  /** memmove(a + at, a + at + 1, end - at - 1). */
  method ShiftLeft(a: array<char>, at: nat, end: nat)
    requires at < end <= a.Length
    modifies a
    ensures a[at..end - 1] == old(a[at + 1..end])
    ensures a[..at] == old(a[..at]) && a[end - 1..] == old(a[end - 1..])
  {
    var k := at;
    while k < end - 1
      invariant at <= k <= end - 1
      invariant a[at..k] == old(a[at + 1..k + 1])
      invariant a[..at] == old(a[..at]) && a[k..] == old(a[k..])
    {
      a[k] := a[k + 1];
      k := k + 1;
    }
  }

  /** The buffer after the memmove and the store of c holds the line with c inserted at p. */
  lemma InsertedText(before: seq<char>, after: seq<char>, p: nat, n: nat, c: char)
    requires p <= n < |before| == |after|
    requires after[..p] == before[..p] && after[p] == c && after[p + 1..n + 1] == before[p..n]
    ensures after[..n + 1] == InsertAt(before[..n], p, c)
  {
    assert after[..n + 1] == after[..p] + [after[p]] + after[p + 1..n + 1];
  }

  // ---------------------------------------------------------------
  // The editor state of shell_context_t
  // ---------------------------------------------------------------

  class Editor {
    /** The caller's line buffer. */
    const buf: array<char>
    /** Room for text: linenoisePrompt keeps one character of maxinput for the NUL. */
    const buflen: nat
    var pos: nat
    var len: nat
    var histories: seq<seq<char>>
    const maxHistories: nat
    var historyIndex: int
    var newLine: bool

    predicate Valid()
      reads this, buf
    {
      && pos <= len <= buflen < buf.Length
      && buf[len] == '\0' && '\0' !in buf[..len]
      && |histories| <= maxHistories
      && NulFree(histories)
      && 0 <= historyIndex && (!newLine ==> historyIndex < Max(|histories|, 1))
    }

    /** The line being edited. */
    function Text(): seq<char>
      reads this, buf
      requires len <= buf.Length
    {
      buf[..len]
    }

    /** linenoise_init for a context reading into a buffer of size characters, with maxinput passed to linenoise_getline. */
    constructor (size: nat, maxinput: nat, maxH: nat)
      requires 1 <= maxinput <= size
      ensures Valid() && newLine && histories == [] && maxHistories == maxH
      ensures buflen == maxinput - 1 && buf.Length == size && fresh(buf)
    {
      buf := new char[size](_ => '\0');
      buflen := maxinput - 1;
      pos := 0;
      len := 0;
      histories := [];
      maxHistories := maxH;
      historyIndex := 0;
      newLine := true;
    }

    /**
     * linenoise_internal_addhistory: every piece of line is added; a
     * history of maximum 0 is disabled (result 0), otherwise the result is 1.
     */
    method AddHistory(line: seq<char>, force: bool) returns (ok: int)
      requires Valid() && '\0' !in line
      modifies this
      ensures Valid() && newLine == old(newLine) && historyIndex == old(historyIndex)
      ensures pos == old(pos) && len == old(len)
      ensures maxHistories == 0 ==> ok == 0 && histories == old(histories)
      ensures maxHistories > 0 ==> ok == 1 && histories == PushAll(old(histories), Pieces(line, force), maxHistories)
    {
      if maxHistories == 0 {
        return 0;
      }
      histories := AddPieces(histories, line, force, maxHistories);
      return 1;
    }

    /** The new-line set-up of linenoisePrompt: an empty line, the cursor at 0, an empty history entry for it. */
    method StartLine()
      requires Valid()
      modifies this, buf
      ensures Valid() && !newLine && Text() == [] && pos == 0 && historyIndex == 0
      ensures histories == if maxHistories > 0 then Pushed(old(histories), [], maxHistories) else old(histories)
    {
      pos := 0;
      len := 0;
      historyIndex := 0;
      buf[0] := '\0';
      PiecesOfOneLine([], true);
      var _ := AddHistory([], true);
      newLine := false;
    }

    /** Enter, Ctrl-C or Ctrl-Z: the line's own history entry is dropped and the next call starts a new line. */
    method Finish(k: Key) returns (code: int)
      requires Valid() && !newLine && k in {Enter, CtrlC, CtrlZ}
      modifies this
      ensures Valid() && newLine && Text() == old(Text())
      ensures histories == if |old(histories)| > 0 then old(histories)[..|old(histories)| - 1] else old(histories)
      ensures code == if k == CtrlC then CTRL_C_CODE else if k == CtrlZ then CTRL_Z_CODE else len
    {
      if |histories| > 0 {
        histories := histories[..|histories| - 1];
      }
      newLine := true;
      if k == CtrlC {
        return CTRL_C_CODE;
      } else if k == CtrlZ {
        return CTRL_Z_CODE;
      }
      return len;
    }

    /** A printable character: inserted at the cursor while the line has room. */
    method Insert(c: char)
      requires Valid() && !newLine && IsPrint(c)
      modifies this, buf
      ensures Valid() && !newLine && histories == old(histories) && historyIndex == old(historyIndex)
      ensures old(len) < buflen ==> Text() == InsertAt(old(Text()), old(pos), c) && pos == old(pos) + 1
      ensures old(len) >= buflen ==> Text() == old(Text()) && pos == old(pos)
    {
      if len < buflen {
        ghost var text := buf[..len];
        if len == pos {
          buf[pos] := c;
          pos := pos + 1;
          len := len + 1;
          buf[len] := '\0';
          assert buf[..len] == text + [c];
        } else {
          ghost var before := buf[..];
          ShiftRight(buf, pos, len);
          buf[pos] := c;
          InsertedText(before, buf[..], pos, len, c);
          ghost var inserted := buf[..len + 1];
          len := len + 1;
          pos := pos + 1;
          buf[len] := '\0';
          assert buf[..len] == inserted;
        }
      }
    }

    /** Backspace: the character before the cursor is removed. */
    method Backspace()
      requires Valid() && !newLine
      modifies this, buf
      ensures Valid() && !newLine && histories == old(histories) && historyIndex == old(historyIndex)
      ensures old(pos) > 0 ==> Text() == RemoveAt(old(Text()), old(pos) - 1) && pos == old(pos) - 1
      ensures old(pos) == 0 ==> Text() == old(Text()) && pos == 0
    {
      if pos > 0 && len > 0 {
        ghost var text := buf[..len];
        ShiftLeft(buf, pos - 1, len);
        pos := pos - 1;
        len := len - 1;
        buf[len] := '\0';
        assert buf[..len] == text[..pos] + text[pos + 1..] by {
          assert buf[..pos] == text[..pos];
          assert buf[pos..len] == text[pos + 1..];
          assert buf[..len] == buf[..pos] + buf[pos..len];
        }
      }
    }

    /** Delete: the character under the cursor is removed. */
    method Delete()
      requires Valid() && !newLine
      modifies this, buf
      ensures Valid() && !newLine && histories == old(histories) && historyIndex == old(historyIndex)
      ensures pos == old(pos)
      ensures old(pos) < old(len) ==> Text() == RemoveAt(old(Text()), old(pos))
      ensures old(pos) == old(len) ==> Text() == old(Text())
    {
      if len > 0 && pos < len {
        ghost var text := buf[..len];
        ShiftLeft(buf, pos, len);
        len := len - 1;
        buf[len] := '\0';
        assert buf[..len] == text[..pos] + text[pos + 1..] by {
          assert buf[..pos] == text[..pos];
          assert buf[pos..len] == text[pos + 1..];
          assert buf[..len] == buf[..pos] + buf[pos..len];
        }
      }
    }

    /** Ctrl-T: the characters around the cursor (the last two at the end of the line) change places. */
    method Transpose()
      requires Valid() && !newLine
      modifies this, buf
      ensures Valid() && !newLine && histories == old(histories) && historyIndex == old(historyIndex)
      ensures old(len) > 1 && old(pos) > 0 ==>
        var p := if old(pos) == old(len) then old(pos) - 1 else old(pos);
        Text() == SwapAround(old(Text()), p) && pos == p + 1
      ensures !(old(len) > 1 && old(pos) > 0) ==> Text() == old(Text()) && pos == old(pos)
    {
      if len > 1 && pos > 0 && pos <= len {
        ghost var before := buf[..];
        if pos == len {
          pos := pos - 1;
        }
        var aux := buf[pos - 1];
        buf[pos - 1] := buf[pos];
        buf[pos] := aux;
        SwapInBuffer(before, buf[..], len, pos);
        assert buf[len] == before[len];
        pos := pos + 1;
      }
    }

    /** Left, Right, Home (Ctrl-A's intent) and End: only the cursor moves, within the line. */
    method MoveCursor(k: Key)
      requires Valid() && !newLine && k in {Left, Right, Home, End}
      modifies this
      ensures Valid() && !newLine && Text() == old(Text()) && histories == old(histories) && historyIndex == old(historyIndex)
      ensures k == Left ==> pos == if old(pos) > 0 then old(pos) - 1 else 0
      ensures k == Right ==> pos == if old(pos) < len then old(pos) + 1 else old(pos)
      ensures k == Home ==> pos == 0
      ensures k == End ==> pos == len
    {
      if k == Left {
        if pos > 0 {
          pos := pos - 1;
        }
      } else if k == Right {
        if pos != len {
          pos := pos + 1;
        }
      } else if k == Home {
        pos := 0;
      } else {
        pos := len;
      }
    }

    /** Ctrl-U empties the line; Ctrl-K cuts it at the cursor. */
    method Kill(k: Key)
      requires Valid() && !newLine && k in {CtrlU, CtrlK}
      modifies this, buf
      ensures Valid() && !newLine && histories == old(histories) && historyIndex == old(historyIndex)
      ensures k == CtrlU ==> Text() == [] && pos == 0
      ensures k == CtrlK ==> Text() == old(Text())[..old(pos)] && pos == old(pos)
    {
      if k == CtrlU {
        buf[0] := '\0';
        pos := 0;
        len := 0;
      } else {
        ghost var text := buf[..len];
        buf[pos] := '\0';
        len := pos;
        assert buf[..len] == text[..pos];
      }
    }

    /** strncpy(buf, s, buflen) and buf[buflen] = '\0': the line becomes s cut to buflen characters. */
    method Load(s: seq<char>)
      requires buflen < buf.Length && '\0' !in s
      modifies buf
      ensures buf[..Min(|s|, buflen)] == Truncated(s, buflen) && buf[Min(|s|, buflen)] == '\0'
    {
      var k := 0;
      while k < buflen
        invariant k <= buflen
        invariant forall j | 0 <= j < k :: buf[j] == if j < |s| then s[j] else '\0'
      {
        buf[k] := if k < |s| then s[k] else '\0';
        k := k + 1;
      }
      buf[buflen] := '\0';
    }

    /**
     * Up and Down: with at least two history lines, the edited line is saved
     * into its entry and the index moves one older (Up) or newer (Down); an
     * index that would leave the history stays at its end and nothing is
     * loaded, otherwise that entry becomes the line with the cursor at its end.
     */
    method HistoryMove(up: bool)
      requires Valid() && !newLine
      modifies this, buf
      ensures Valid() && !newLine
      ensures |old(histories)| <= 1 ==>
        histories == old(histories) && Text() == old(Text()) && pos == old(pos) && historyIndex == old(historyIndex)
      ensures |old(histories)| > 1 ==>
        var n := |old(histories)|;
        var saved := old(histories)[n - 1 - old(historyIndex) := old(Text())];
        var idx := old(historyIndex) + (if up then 1 else -1);
        && histories == saved
        && (idx < 0 ==> historyIndex == 0 && Text() == old(Text()) && pos == old(pos))
        && (idx >= n ==> historyIndex == n - 1 && Text() == old(Text()) && pos == old(pos))
        && (0 <= idx < n ==> historyIndex == idx && Text() == Truncated(saved[n - 1 - idx], buflen) && pos == len)
    {
      var n := |histories|;
      if n > 1 {
        histories := histories[n - 1 - historyIndex := buf[..len]];
        historyIndex := historyIndex + (if up then 1 else -1);
        if historyIndex < 0 {
          historyIndex := 0;
        } else if historyIndex >= n {
          historyIndex := n - 1;
        } else {
          var line := histories[n - 1 - historyIndex];
          Load(line);
          len := Min(|line|, buflen);
          pos := len;
          assert '\0' !in buf[..len] by {
            assert buf[..len] == line[..len];
          }
        }
      }
    }

    /** One key of linenoisePrompt's loop; done and the result code for Enter, Ctrl-C and Ctrl-Z. */
    method HandleKey(k: Key) returns (done: bool, code: int)
      requires Valid() && !newLine
      modifies this, buf
      ensures Valid() && (done <==> k in {Enter, CtrlC, CtrlZ}) && newLine == done
      ensures done ==> code == if k == CtrlC then CTRL_C_CODE else if k == CtrlZ then CTRL_Z_CODE else len
      ensures !done ==> pos <= len <= buflen
    {
      done := false;
      code := 0;
      match k {
        case Enter =>
          code := Finish(k);
          done := true;
        case CtrlC =>
          code := Finish(k);
          done := true;
        case CtrlZ =>
          code := Finish(k);
          done := true;
        case Backspace => Backspace();
        case CtrlT => Transpose();
        case Left => MoveCursor(k);
        case Right => MoveCursor(k);
        case Home => MoveCursor(k);
        case End => MoveCursor(k);
        case Up => HistoryMove(true);
        case Down => HistoryMove(false);
        case Del => Delete();
        case CtrlU => Kill(k);
        case CtrlK => Kill(k);
        case Byte(c) =>
          if IsPrint(c) {
            Insert(c);
          }
        case _ =>
      }
    }
  }
}
