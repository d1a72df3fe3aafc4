// term.c: the shell's terminal output. Every character goes out through
// term_putch, which also keeps track of the cursor; the cursor movements
// send VT100 control sequences (ESC [ ...) and update the tracked position.

module Term {

  import opened Words
  import opened CText

  const ESC: char := '\U{001B}'
  const MODE_COOKED: bv32 := 1
  /** Room for a control sequence: ESC, '[', the formatted body and a NUL. */
  const MAX_ANSI_SIZE: nat := 14

  /** Unsigned arithmetic on the cursor fields wraps modulo 2^32. */
  function Wrap32(x: int): u32
  {
    x % 0x1_0000_0000
  }

  /** What term_putch sends for ch: in cooked mode a carriage return goes before a newline. */
  function Emitted(cooked: bool, ch: char): seq<char>
  {
    if ch == '\n' && cooked then ['\r', '\n'] else [ch]
  }

  /** What term_putstr sends for s. */
  function EmittedAll(cooked: bool, s: seq<char>): seq<char>
  {
    if s == [] then [] else EmittedAll(cooked, s[..|s| - 1]) + Emitted(cooked, s[|s| - 1])
  }

  /** The tracked line after s: each cooked newline moves down while the cursor is above the last line. */
  function CyAfter(cooked: bool, lines: u32, cy: u32, s: seq<char>): u32
  {
    if s == [] then cy
    else
      var c := CyAfter(cooked, lines, cy, s[..|s| - 1]);
      if s[|s| - 1] == '\n' && cooked && c < lines then c + 1 else c
  }

  /** The tracked column after s: a cooked newline returns it to 0. */
  function CxAfter(cooked: bool, cx: u32, s: seq<char>): u32
  {
    if cooked && '\n' in s then 0 else cx
  }

  /** Raw output, or output without newlines, goes out exactly as given, character by character. */
  lemma {:induction false} EmittedVerbatim(cooked: bool, s: seq<char>)
    requires !cooked || '\n' !in s
    ensures EmittedAll(cooked, s) == s
  {
    if s != [] {
      var init, last := s[..|s| - 1], s[|s| - 1];
      assert s == init + [last];
      assert !cooked || '\n' !in init;
      EmittedVerbatim(cooked, init);
      assert Emitted(cooked, last) == [last];
    }
  }

  /** Cooked output inserts exactly one carriage return per newline. */
  lemma {:induction false} EmittedLength(cooked: bool, s: seq<char>)
    ensures |EmittedAll(cooked, s)| == |s| + (if cooked then multiset(s)['\n'] else 0)
  {
    if s != [] {
      EmittedLength(cooked, s[..|s| - 1]);
      assert s == s[..|s| - 1] + [s[|s| - 1]];
    }
  }

  /** The tracked line never moves below the last line, and stays put without newlines. */
  lemma {:induction false} CyAfterBounds(cooked: bool, lines: u32, cy: u32, s: seq<char>)
    ensures cy <= lines ==> CyAfter(cooked, lines, cy, s) <= lines
    ensures cy <= CyAfter(cooked, lines, cy, s)
    ensures '\n' !in s ==> CyAfter(cooked, lines, cy, s) == cy
  {
    if s != [] {
      assert '\n' !in s ==> '\n' !in s[..|s| - 1] by {
        assert forall i | 0 <= i < |s| - 1 :: s[..|s| - 1][i] == s[i];
      }
      CyAfterBounds(cooked, lines, cy, s[..|s| - 1]);
    }
  }

  /** The control sequence term_ansi sends: vsnprintf keeps at most 11 characters of the body. */
  function AnsiSeq(body: seq<char>): (r: seq<char>)
    ensures |r| <= MAX_ANSI_SIZE - 1
  {
    [ESC, '['] + body[..Min(|body|, MAX_ANSI_SIZE - 3)]
  }

  /** The cursor column after ESC [ delta C, the VT100 cursor-forward sequence term_right sends. */
  function CxAfterForward(cx: u32, delta: u32): u32
  {
    Wrap32(cx + delta)
  }

  /** The cursor column after ESC [ delta D, the cursor-backward sequence term_left sends. */
  function CxAfterBackward(cx: u32, delta: u32): u32
  {
    Wrap32(cx - delta)
  }

  class Terminal {
    var numLines: u32
    var numCols: u32
    var cx: u32
    var cy: u32
    var mode: bv32
    /** Everything passed to term_out so far, in order. */
    var output: seq<char>

    predicate Cooked()
      reads this
    {
      mode & MODE_COOKED != 0
    }

    /** term_init: the given size, the cursor at the origin, cooked mode. */
    constructor (lines: u32, cols: u32)
      ensures numLines == lines && numCols == cols && cx == 0 && cy == 0
      ensures mode == MODE_COOKED && output == []
    {
      numLines := lines;
      numCols := cols;
      cx := 0;
      cy := 0;
      mode := MODE_COOKED;
      output := [];
    }

    method PutCh(ch: char)
      modifies this
      ensures output == old(output) + Emitted(old(Cooked()), ch)
      ensures cy == CyAfter(old(Cooked()), numLines, old(cy), [ch])
      ensures cx == CxAfter(old(Cooked()), old(cx), [ch])
      ensures numLines == old(numLines) && numCols == old(numCols) && mode == old(mode)
    {
      assert [ch][..0] == [];
      if ch == '\n' && Cooked() {
        if cy < numLines {
          cy := cy + 1;
        }
        cx := 0;
        output := output + ['\r'];
      }
      output := output + [ch];
    }

    method PutStr(s: seq<char>)
      modifies this
      ensures output == old(output) + EmittedAll(old(Cooked()), s)
      ensures cy == CyAfter(old(Cooked()), numLines, old(cy), s)
      ensures cx == CxAfter(old(Cooked()), old(cx), s)
      ensures numLines == old(numLines) && numCols == old(numCols) && mode == old(mode)
    {
      var i := 0;
      assert s[..0] == [];
      while i < |s|
        invariant 0 <= i <= |s|
        invariant numLines == old(numLines) && numCols == old(numCols) && mode == old(mode)
        invariant output == old(output) + EmittedAll(Cooked(), s[..i])
        invariant cy == CyAfter(Cooked(), numLines, old(cy), s[..i])
        invariant cx == CxAfter(Cooked(), old(cx), s[..i])
      {
        ghost var before := cy;
        PutCh(s[i]);
        assert s[..i + 1][..i] == s[..i] && s[..i + 1][i] == s[i];
        assert cy == CyAfter(Cooked(), numLines, before, [s[i]]);
        assert ('\n' in s[..i + 1]) == ('\n' in s[..i] || s[i] == '\n') by {
          assert s[..i + 1] == s[..i] + [s[i]];
        }
        i := i + 1;
      }
      assert s[..i] == s;
    }

    /** term_ansi: ESC, '[' and the formatted body, through term_putstr. */
    method Ansi(body: seq<char>)
      requires '\n' !in body
      modifies this
      ensures output == old(output) + AnsiSeq(body)
      ensures cx == old(cx) && cy == old(cy)
      ensures numLines == old(numLines) && numCols == old(numCols) && mode == old(mode)
    {
      var sq := AnsiSeq(body);
      assert '\n' !in sq by {
        assert forall i | 2 <= i < |sq| :: sq[i] == body[i - 2];
      }
      PutStr(sq);
      EmittedVerbatim(old(Cooked()), sq);
      CyAfterBounds(old(Cooked()), numLines, old(cy), sq);
    }

    /** term_clrscr: ESC [ 2 J, and the cursor is at the origin. */
    method ClrScr()
      modifies this
      ensures output == old(output) + [ESC, '[', '2', 'J']
      ensures cx == 0 && cy == 0
      ensures numLines == old(numLines) && numCols == old(numCols) && mode == old(mode)
    {
      Ansi("2J");
      cx := 0;
      cy := 0;
    }

    /** term_clreol: ESC [ K. */
    method ClrEol()
      modifies this
      ensures output == old(output) + [ESC, '[', 'K']
      ensures cx == old(cx) && cy == old(cy)
      ensures numLines == old(numLines) && numCols == old(numCols) && mode == old(mode)
    {
      Ansi("K");
    }

    /** term_gotoxy: ESC [ y ; x H, and the cursor is at (x, y). */
    method GotoXY(x: u32, y: u32)
      modifies this
      ensures output == old(output) + AnsiSeq(Decimal(y) + [';'] + Decimal(x) + ['H'])
      ensures cx == x && cy == y
      ensures numLines == old(numLines) && numCols == old(numCols) && mode == old(mode)
    {
      var body := Decimal(y) + [';'] + Decimal(x) + ['H'];
      assert '\n' !in body by {
        assert forall i | 0 <= i < |body| :: IsDigit(body[i]) || body[i] == ';' || body[i] == 'H';
      }
      Ansi(body);
      cx := x;
      cy := y;
    }

    /** term_up: ESC [ delta A; the tracked line goes up, in unsigned arithmetic. */
    method Up(delta: u32)
      modifies this
      ensures output == old(output) + AnsiSeq(Decimal(delta) + ['A'])
      ensures cy == Wrap32(old(cy) - delta) && cx == old(cx)
      ensures numLines == old(numLines) && numCols == old(numCols) && mode == old(mode)
    {
      var body := Decimal(delta) + ['A'];
      assert '\n' !in body by {
        assert forall i | 0 <= i < |body| :: IsDigit(body[i]) || body[i] == 'A';
      }
      Ansi(body);
      cy := Wrap32(cy - delta);
    }

    /** term_down: ESC [ delta B; the tracked line goes down, in unsigned arithmetic. */
    method Down(delta: u32)
      modifies this
      ensures output == old(output) + AnsiSeq(Decimal(delta) + ['B'])
      ensures cy == Wrap32(old(cy) + delta) && cx == old(cx)
      ensures numLines == old(numLines) && numCols == old(numCols) && mode == old(mode)
    {
      var body := Decimal(delta) + ['B'];
      assert '\n' !in body by {
        assert forall i | 0 <= i < |body| :: IsDigit(body[i]) || body[i] == 'B';
      }
      Ansi(body);
      cy := Wrap32(cy + delta);
    }

    /** term_right as written: it sends cursor-forward but subtracts delta from the tracked column. */
    method RightAsWritten(delta: u32)
      modifies this
      ensures output == old(output) + AnsiSeq(Decimal(delta) + ['C'])
      ensures cx == CxAfterBackward(old(cx), delta) && cy == old(cy)
      ensures numLines == old(numLines) && numCols == old(numCols) && mode == old(mode)
    {
      var body := Decimal(delta) + ['C'];
      assert '\n' !in body by {
        assert forall i | 0 <= i < |body| :: IsDigit(body[i]) || body[i] == 'C';
      }
      Ansi(body);
      cx := Wrap32(cx - delta);
    }

    /** term_left as written: it sends cursor-backward but adds delta to the tracked column. */
    method LeftAsWritten(delta: u32)
      modifies this
      ensures output == old(output) + AnsiSeq(Decimal(delta) + ['D'])
      ensures cx == CxAfterForward(old(cx), delta) && cy == old(cy)
      ensures numLines == old(numLines) && numCols == old(numCols) && mode == old(mode)
    {
      var body := Decimal(delta) + ['D'];
      assert '\n' !in body by {
        assert forall i | 0 <= i < |body| :: IsDigit(body[i]) || body[i] == 'D';
      }
      Ansi(body);
      cx := Wrap32(cx + delta);
    }

    /** term_right corrected: the tracked column follows the cursor forward. */
    method Right(delta: u32)
      modifies this
      ensures output == old(output) + AnsiSeq(Decimal(delta) + ['C'])
      ensures cx == CxAfterForward(old(cx), delta) && cy == old(cy)
      ensures numLines == old(numLines) && numCols == old(numCols) && mode == old(mode)
    {
      var body := Decimal(delta) + ['C'];
      assert '\n' !in body by {
        assert forall i | 0 <= i < |body| :: IsDigit(body[i]) || body[i] == 'C';
      }
      Ansi(body);
      cx := Wrap32(cx + delta);
    }

    /** term_left corrected: the tracked column follows the cursor backward. */
    method Left(delta: u32)
      modifies this
      ensures output == old(output) + AnsiSeq(Decimal(delta) + ['D'])
      ensures cx == CxAfterBackward(old(cx), delta) && cy == old(cy)
      ensures numLines == old(numLines) && numCols == old(numCols) && mode == old(mode)
    {
      var body := Decimal(delta) + ['D'];
      assert '\n' !in body by {
        assert forall i | 0 <= i < |body| :: IsDigit(body[i]) || body[i] == 'D';
      }
      Ansi(body);
      cx := Wrap32(cx - delta);
    }

    /** term_set_size: the new size is recorded and sent as ESC [ 8 ; lines ; cols t. */
    method SetSize(cols: u32, lines: u32)
      modifies this
      ensures output == old(output) + AnsiSeq(['8', ';'] + Decimal(lines) + [';'] + Decimal(cols) + ['t'])
      ensures numLines == lines && numCols == cols
      ensures cx == old(cx) && cy == old(cy) && mode == old(mode)
    {
      numLines := lines;
      numCols := cols;
      var body := ['8', ';'] + Decimal(lines) + [';'] + Decimal(cols) + ['t'];
      assert '\n' !in body by {
        assert forall i | 0 <= i < |body| :: IsDigit(body[i]) || body[i] in ";t";
      }
      Ansi(body);
    }

    /** term_set_mode: the bits of m are set or cleared; the other bits stay. */
    method SetMode(m: bv32, setBits: bool)
      modifies this
      ensures mode == ModeAfter(old(mode), m, setBits)
      ensures output == old(output) && cx == old(cx) && cy == old(cy)
      ensures numLines == old(numLines) && numCols == old(numCols)
    {
      if setBits {
        mode := mode | m;
      } else {
        mode := mode & !m;
      }
    }
  }

  /** The mode word after setting (or clearing) the bits of m. */
  function ModeAfter(mode: bv32, m: bv32, setBits: bool): bv32
  {
    if setBits then mode | m else mode & !m
  }

  /** term_set_mode changes exactly the bits of m: they are all set (or all clear), and the others keep their value. */
  lemma ModeAfterChangesOnly(mode: bv32, m: bv32, setBits: bool)
    ensures ModeAfter(mode, m, setBits) & m == (if setBits then m else 0)
    ensures ModeAfter(mode, m, setBits) & !m == mode & !m
  {
    ModeAfterMask(mode, m, setBits);
    ModeAfterOutside(mode, m, setBits);
  }

  lemma ModeAfterMask(mode: bv32, m: bv32, setBits: bool)
    ensures ModeAfter(mode, m, setBits) & m == (if setBits then m else 0)
  {
    if setBits {
      OrMasked(mode, m);
    } else {
      ClearMasked(mode, m);
    }
  }

  lemma ModeAfterOutside(mode: bv32, m: bv32, setBits: bool)
    ensures ModeAfter(mode, m, setBits) & !m == mode & !m
  {
    if setBits {
      OrOutside(mode, m);
    } else {
      ClearOutside(mode, m);
    }
  }

  lemma OrMasked(mode: bv32, m: bv32)
    ensures (mode | m) & m == m
  {
  }

  lemma OrOutside(mode: bv32, m: bv32)
    ensures (mode | m) & !m == mode & !m
  {
  }

  lemma ClearMasked(mode: bv32, m: bv32)
    ensures (mode & !m) & m == 0
  {
  }

  lemma ClearOutside(mode: bv32, m: bv32)
    ensures (mode & !m) & !m == mode & !m
  {
  }

  /**
   * The tracked column of term_right as written moves against the cursor:
   * from column 0 one step forward leaves the tracked column at 2^32 - 1
   * where the terminal's cursor is at 1.
   */
  lemma RightTracksBackwardAsWritten()
    ensures CxAfterBackward(0, 1) == 0xFFFF_FFFF
    ensures CxAfterForward(0, 1) == 1
  {
  }

  /** Corrected, a move right and then left by the same amount returns the tracked column, and below the wrap it adds delta. */
  lemma RightLeftRoundTrip(cx: u32, delta: u32)
    ensures CxAfterBackward(CxAfterForward(cx, delta), delta) == cx
    ensures cx + delta < 0x1_0000_0000 ==> CxAfterForward(cx, delta) == cx + delta
  {
  }
}
