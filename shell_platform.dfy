// shell_platform.c: term_translate, the state machine that turns the bytes a
// VT100-style terminal sends into the shell's key codes. Escape sequences
// are CSI sequences (ESC [ parameters final-byte) as in section 5.4 of
// ECMA-48; the cursor position report (CPR, section 8.3.14 of ECMA-48)
// ESC [ rows ; cols R updates the terminal's size.

module ShellPlatform {

  import opened Words
  import opened CText
  import opened Term

  const ESC_BYTE: u8 := 0x1B
  const PARAM_SIZE: nat := 16
  const MAX_PARAMS: nat := 4

  /** The key codes of term.h, with Byte for a printable character passed through. */
  datatype Key =
    | Byte(c: char)
    | Up | Down | Left | Right | Home | End | PageUp | PageDown
    | Enter | Tab | Backspace | Esc
    | CtrlZ | CtrlA | CtrlE | CtrlC | CtrlT | CtrlU | CtrlK | Del
    | Unknown

  /** The ASCII control code typed with Ctrl and a capital letter. */
  function CtrlCode(letter: char): int
  {
    letter as int - 0x40
  }

  /** A byte received outside an escape sequence (ESC itself starts one and yields Unknown). */
  function PlainKey(data: u8): Key
  {
    if 0x20 <= data <= 0x7E then Byte(data as char)
    else if data == 0x0D then Enter
    else if data == 0x09 then Tab
    else if data == 0x7F || data == 0x08 then Backspace
    else if data == 26 then CtrlZ
    else if data == 1 then CtrlA
    else if data == 5 then CtrlE
    else if data == 3 then CtrlC
    else if data == 20 then CtrlT
    else if data == 21 then CtrlU
    else if data == 11 then CtrlK
    else Unknown
  }

  /** Exactly the printable bytes come through as themselves. */
  lemma PlainKeyPrintable(data: u8)
    ensures PlainKey(data).Byte? <==> IsPrint(data as char)
    ensures PlainKey(data).Byte? ==> PlainKey(data).c as int == data
  {
  }

  /** The control keys are the ASCII codes of Ctrl with their letter; DEL and BS both erase backwards. */
  lemma PlainKeyControls()
    ensures PlainKey(CtrlCode('Z') as u8) == CtrlZ && PlainKey(CtrlCode('A') as u8) == CtrlA
    ensures PlainKey(CtrlCode('E') as u8) == CtrlE && PlainKey(CtrlCode('C') as u8) == CtrlC
    ensures PlainKey(CtrlCode('T') as u8) == CtrlT && PlainKey(CtrlCode('U') as u8) == CtrlU
    ensures PlainKey(CtrlCode('K') as u8) == CtrlK && PlainKey(CtrlCode('M') as u8) == Enter
    ensures PlainKey(CtrlCode('I') as u8) == Tab && PlainKey(CtrlCode('H') as u8) == Backspace
    ensures PlainKey(0x7F) == Backspace
  {
  }

  /** The final byte of ESC [ A..D: the four cursor keys. */
  function ArrowKey(data: u8): Key
    requires 'A' as int <= data <= 'D' as int
  {
    if data == 'A' as int then Up
    else if data == 'B' as int then Down
    else if data == 'C' as int then Right
    else Left
  }

  predicate IsDigitByte(data: u8)
  {
    '0' as int <= data <= '9' as int
  }

  predicate AllDigits(s: seq<char>)
  {
    forall i | 0 <= i < |s| :: IsDigit(s[i])
  }

  /**
   * The key for ESC [ p1 ; ... ~ as written: the first parameter whose
   * atoi value is one of the characters '1', '4', '5', '6' (49, 52, 53, 54)
   * picks Home, End, PageUp or PageDown.
   */
  function TildeKeyAsWritten(params: seq<seq<char>>, i: nat, last: nat): Key
    requires last < |params| && forall k | 0 <= k < |params| :: AllDigits(params[k])
    decreases last + 1 - i
  {
    if i > last then Unknown
    else
      assert AllDigits(params[i]);
      var v := DecimalValue(params[i]);
      if v == '1' as int then Home
      else if v == '4' as int then End
      else if v == '5' as int then PageUp
      else if v == '6' as int then PageDown
      else TildeKeyAsWritten(params, i + 1, last)
  }

  /** The same with the numbers the VT220 editing keys send: 1 Home, 4 End, 5 PageUp, 6 PageDown. */
  function TildeKey(params: seq<seq<char>>, i: nat, last: nat): Key
    requires last < |params| && forall k | 0 <= k < |params| :: AllDigits(params[k])
    decreases last + 1 - i
  {
    if i > last then Unknown
    else
      assert AllDigits(params[i]);
      var v := DecimalValue(params[i]);
      if v == 1 then Home
      else if v == 4 then End
      else if v == 5 then PageUp
      else if v == 6 then PageDown
      else TildeKey(params, i + 1, last)
  }

  /** The parameter count after ';' as written: it may reach MAX_PARAMS, one past the last row of param. */
  function SemicolonAsWritten(paramNum: nat): nat
  {
    if paramNum < MAX_PARAMS then paramNum + 1 else paramNum
  }

  /** The parameter count after ';', bounded so that it always names a row of param. */
  function Semicolon(paramNum: nat): (r: nat)
    ensures paramNum < MAX_PARAMS ==> r < MAX_PARAMS
  {
    if paramNum < MAX_PARAMS - 1 then paramNum + 1 else paramNum
  }

  /** Home and End as VT220 terminals send them, ESC [ 1 ~ and ESC [ 4 ~, are not recognised as written. */
  lemma HomeEndMissedAsWritten()
    ensures TildeKeyAsWritten(["1", "", "", ""], 0, 0) == Unknown
    ensures TildeKeyAsWritten(["4", "", "", ""], 0, 0) == Unknown
    ensures TildeKeyAsWritten(["49", "", "", ""], 0, 0) == Home
  {
    assert ["1", "", "", ""][0] == "1" && "1"[..0] == [];
    assert ["4", "", "", ""][0] == "4" && "4"[..0] == [];
    assert ["49", "", "", ""][0] == "49" && "49"[..1] == "4" && "4"[..0] == [];
  }

  /** Corrected, they are. */
  lemma HomeEndRecognised()
    ensures TildeKey(["1", "", "", ""], 0, 0) == Home
    ensures TildeKey(["4", "", "", ""], 0, 0) == End
  {
    assert ["1", "", "", ""][0] == "1" && "1"[..0] == [];
    assert ["4", "", "", ""][0] == "4" && "4"[..0] == [];
  }

  /** A fifth parameter as written indexes param[4], outside the four rows. */
  lemma FifthParameterAsWritten()
    ensures SemicolonAsWritten(MAX_PARAMS - 1) == MAX_PARAMS
  {
  }

  /** The static state of term_translate. */
  class Translator {
    /** 0: no sequence; 1: after ESC; 2: after ESC [; 3: reading parameters. */
    var escape: nat
    var params: seq<seq<char>>
    var paramNum: nat
    var paramIdx: nat

    predicate Valid()
      reads this
    {
      && escape <= 3
      && |params| == MAX_PARAMS && paramNum < MAX_PARAMS
      && (forall k | 0 <= k < MAX_PARAMS :: AllDigits(params[k]) && |params[k]| <= PARAM_SIZE - 1)
      && (forall k | paramNum < k < MAX_PARAMS :: params[k] == [])
      && paramIdx == |params[paramNum]|
    }

    /** The zero-initialised statics. */
    constructor ()
      ensures Valid() && escape == 0 && params == ["", "", "", ""] && paramNum == 0
    {
      escape := 0;
      params := ["", "", "", ""];
      paramNum := 0;
      paramIdx := 0;
    }

    /** term_translate for one received byte. */
    method Translate(data: u8, t: Terminal) returns (k: Key)
      requires Valid()
      modifies this, t
      ensures Valid()
      // Outside a sequence: ESC starts one, other bytes map to keys.
      ensures old(escape) == 0 ==>
        && escape == (if data == ESC_BYTE then 1 else 0)
        && k == (if data == ESC_BYTE then Unknown else PlainKey(data))
        && params == old(params) && paramNum == old(paramNum)
      // After ESC: '[' opens a CSI sequence, a second ESC is the Escape key, anything else cancels.
      ensures old(escape) == 1 ==>
        && escape == (if data == '[' as int then 2 else 0)
        && k == (if data == ESC_BYTE then Esc else Unknown)
        && params == old(params) && paramNum == old(paramNum)
      // After ESC [: A..D are the cursor keys; a digit starts the parameters; anything else is ignored.
      ensures old(escape) == 2 && 'A' as int <= data <= 'D' as int ==>
        escape == 0 && k == ArrowKey(data) && params == old(params) && paramNum == old(paramNum)
      ensures old(escape) == 2 && IsDigitByte(data) ==>
        escape == 3 && k == Unknown && params == [[data as char], "", "", ""] && paramNum == 0
      ensures old(escape) == 2 && !('A' as int <= data <= 'D' as int) && !IsDigitByte(data) ==>
        escape == 2 && k == Unknown && params == old(params) && paramNum == old(paramNum)
      // Reading parameters: digits accumulate up to PARAM_SIZE - 1 per parameter, ';' starts the next one.
      ensures old(escape) == 3 && IsDigitByte(data) ==>
        && escape == 3 && k == Unknown && paramNum == old(paramNum)
        && params == old(if paramIdx < PARAM_SIZE - 1 then params[paramNum := params[paramNum] + [data as char]] else params)
      ensures old(escape) == 3 && data == ';' as int ==>
        && escape == 3 && k == Unknown && paramNum == Semicolon(old(paramNum)) && params == old(params)
      ensures old(escape) == 3 && data == '~' as int ==>
        escape == 0 && k == TildeKey(old(params), 0, old(paramNum)) && params == old(params)
      ensures old(escape) == 3 && data == 'R' as int ==>
        escape == 0 && k == Unknown && params == old(params)
      ensures old(escape) == 3 && !IsDigitByte(data) && data !in {';' as int, '~' as int, 'R' as int} ==>
        escape == 3 && k == Unknown && params == old(params) && paramNum == old(paramNum)
      // Only a cursor position report with two parameters changes the terminal, and only its size.
      ensures (old(escape) == 3 && data == 'R' as int && old(paramNum) >= 1) ==>
        (t.numLines == Wrap32(DecimalValue(old(params[0]))) && t.numCols == Wrap32(DecimalValue(old(params[1]))))
      ensures !(old(escape) == 3 && data == 'R' as int && old(paramNum) >= 1) ==>
        (t.numLines == old(t.numLines) && t.numCols == old(t.numCols))
      ensures t.cx == old(t.cx) && t.cy == old(t.cy) && t.mode == old(t.mode) && t.output == old(t.output)
    {
      k := Unknown;
      if escape == 0 {
        if data == ESC_BYTE {
          escape := 1;
        } else {
          k := PlainKey(data);
        }
      } else if escape == 1 {
        if data == '[' as int {
          escape := 2;
        } else if data == ESC_BYTE {
          escape := 0;
          k := Esc;
        } else {
          escape := 0;
        }
      } else if escape == 2 {
        if 'A' as int <= data <= 'D' as int {
          escape := 0;
          k := ArrowKey(data);
        } else if IsDigitByte(data) {
          params := [[data as char], "", "", ""];
          paramNum := 0;
          paramIdx := 1;
          escape := 3;
        }
      } else {
        k := ReadParameter(data, t);
      }
    }

    /** The parameter state (escape == 3) of term_translate. */
    method ReadParameter(data: u8, t: Terminal) returns (k: Key)
      requires Valid() && escape == 3
      modifies this, t
      ensures Valid() && k == (if data == '~' as int then TildeKey(old(params), 0, old(paramNum)) else Unknown)
      ensures escape == (if data == '~' as int || data == 'R' as int then 0 else 3)
      ensures paramNum == (if data == ';' as int then Semicolon(old(paramNum)) else old(paramNum))
      ensures params == old(if IsDigitByte(data) && paramIdx < PARAM_SIZE - 1 then params[paramNum := params[paramNum] + [data as char]] else params)
      ensures (data == 'R' as int && old(paramNum) >= 1) ==>
        (t.numLines == Wrap32(DecimalValue(old(params[0]))) && t.numCols == Wrap32(DecimalValue(old(params[1]))))
      ensures !(data == 'R' as int && old(paramNum) >= 1) ==>
        (t.numLines == old(t.numLines) && t.numCols == old(t.numCols))
      ensures t.cx == old(t.cx) && t.cy == old(t.cy) && t.mode == old(t.mode) && t.output == old(t.output)
    {
      k := Unknown;
      if IsDigitByte(data) {
        if paramIdx < PARAM_SIZE - 1 {
          params := params[paramNum := params[paramNum] + [data as char]];
          paramIdx := paramIdx + 1;
        }
      } else if data == '~' as int {
        escape := 0;
        k := TildeKey(params, 0, paramNum);
      } else if data == ';' as int {
        if paramNum < MAX_PARAMS - 1 {
          paramNum := paramNum + 1;
          paramIdx := 0;
        }
      } else if data == 'R' as int {
        escape := 0;
        if paramNum >= 1 {
          t.numLines := Wrap32(DecimalValue(params[0]));
          t.numCols := Wrap32(DecimalValue(params[1]));
        }
      }
    }
  }
}
