// The CSV line parser used by the waveform assembler: counting the fields
// of a line and splitting it into fields, with double quotes protecting
// commas and a doubled quote standing for one quote character.
// A line is the text before its terminating NUL.

module Csv {

  import opened Words

  // ---------------------------------------------------------------
  // Reference definitions, reading the line left to right
  // ---------------------------------------------------------------

  /**
   * The commas outside quotes in s, read from a state inside (quoted) or
   * outside quotes; None if s ends inside quotes. Inside quotes a doubled
   * quote is skipped and a single one closes the quotes.
   */
  function CommasFrom(s: seq<char>, quoted: bool): Option<nat>
  {
    if s == [] then (if quoted then None else Some(0))
    else if quoted then
      if s[0] == '"' then
        if |s| > 1 && s[1] == '"' then CommasFrom(s[2..], true) else CommasFrom(s[1..], false)
      else CommasFrom(s[1..], true)
    else if s[0] == '"' then CommasFrom(s[1..], true)
    else if s[0] == ',' then
      match CommasFrom(s[1..], false)
      case None => None
      case Some(n) => Some(n + 1)
    else CommasFrom(s[1..], false)
  }

  /** count_fields: one more than the commas outside quotes, or -1 when a quote is left open. */
  function FieldCount(line: seq<char>): (n: int)
    ensures n == -1 || n >= 1
  {
    match CommasFrom(line, false)
    case None => -1
    case Some(c) => c + 1
  }

  /**
   * The fields of s, cur being the text of the field read so far: quotes
   * that open or close a quoted part are dropped, a doubled quote inside
   * quotes gives one quote, and a comma outside quotes ends a field. None
   * if s ends inside quotes.
   */
  function FieldsFrom(s: seq<char>, quoted: bool, cur: seq<char>): Option<seq<seq<char>>>
  {
    if s == [] then (if quoted then None else Some([cur]))
    else if quoted then
      if s[0] == '"' then
        if |s| > 1 && s[1] == '"' then FieldsFrom(s[2..], true, cur + ['"']) else FieldsFrom(s[1..], false, cur)
      else FieldsFrom(s[1..], true, cur + [s[0]])
    else if s[0] == '"' then FieldsFrom(s[1..], true, cur)
    else if s[0] == ',' then
      match FieldsFrom(s[1..], false, [])
      case None => None
      case Some(fs) => Some([cur] + fs)
    else FieldsFrom(s[1..], false, cur + [s[0]])
  }

  /** The fields parse_csv extracts from a line; None when a quote is left open. */
  function Fields(line: seq<char>): Option<seq<seq<char>>>
  {
    FieldsFrom(line, false, [])
  }

  /** Splitting and counting agree: both fail together, and otherwise there is one field per comma and one more. */
  lemma {:induction false} FieldsFromCount(s: seq<char>, quoted: bool, cur: seq<char>)
    ensures FieldsFrom(s, quoted, cur).Some? <==> CommasFrom(s, quoted).Some?
    ensures FieldsFrom(s, quoted, cur).Some? ==> |FieldsFrom(s, quoted, cur).value| == CommasFrom(s, quoted).value + 1
  {
    if s == [] {
    } else if quoted {
      if s[0] == '"' {
        if |s| > 1 && s[1] == '"' {
          FieldsFromCount(s[2..], true, cur + ['"']);
        } else {
          FieldsFromCount(s[1..], false, cur);
        }
      } else {
        FieldsFromCount(s[1..], true, cur + [s[0]]);
      }
    } else if s[0] == '"' {
      FieldsFromCount(s[1..], true, cur);
    } else if s[0] == ',' {
      FieldsFromCount(s[1..], false, []);
    } else {
      FieldsFromCount(s[1..], false, cur + [s[0]]);
    }
  }

  /** parse_csv yields exactly count_fields fields, and fails exactly when count_fields reports -1. */
  lemma FieldsMatchCount(line: seq<char>)
    ensures Fields(line).None? <==> FieldCount(line) == -1
    ensures Fields(line).Some? ==> |Fields(line).value| == FieldCount(line)
  {
    FieldsFromCount(line, false, []);
  }

  // ---------------------------------------------------------------
  // Writing fields, the inverse of parsing
  // ---------------------------------------------------------------

  /** A field's text with every quote doubled. */
  function Escape(f: seq<char>): seq<char>
  {
    if f == [] then [] else (if f[0] == '"' then ['"', '"'] else [f[0]]) + Escape(f[1..])
  }

  /** A field written in quotes. */
  function Quote(f: seq<char>): seq<char>
  {
    ['"'] + Escape(f) + ['"']
  }

  /** A row written as quoted fields separated by commas. */
  function EncodeRow(fields: seq<seq<char>>): seq<char>
    requires |fields| >= 1
  {
    if |fields| == 1 then Quote(fields[0]) else Quote(fields[0]) + [','] + EncodeRow(fields[1..])
  }

  /** Reading an escaped field inside quotes up to its closing quote gives the field back. */
  lemma {:induction false} EscapeRead(f: seq<char>, rest: seq<char>, cur: seq<char>)
    requires rest == [] || rest[0] != '"'
    ensures FieldsFrom(Escape(f) + ['"'] + rest, true, cur) == FieldsFrom(rest, false, cur + f)
  {
    var s := Escape(f) + ['"'] + rest;
    if f == [] {
      assert s == ['"'] + rest;
      assert s[1..] == rest;
      assert cur + f == cur;
    } else {
      var head := if f[0] == '"' then ['"', '"'] else [f[0]];
      assert s == head + (Escape(f[1..]) + ['"'] + rest);
      EscapeRead(f[1..], rest, cur + [f[0]]);
      assert cur + [f[0]] + f[1..] == cur + f;
      if f[0] == '"' {
        assert s[2..] == Escape(f[1..]) + ['"'] + rest;
      } else {
        assert s[1..] == Escape(f[1..]) + ['"'] + rest;
      }
    }
  }

  /** A row written by EncodeRow parses back to the same fields. */
  lemma {:induction false} EncodeRowParses(fields: seq<seq<char>>)
    requires |fields| >= 1
    ensures Fields(EncodeRow(fields)) == Some(fields)
  {
    var f := fields[0];
    if |fields| == 1 {
      var s := Quote(f);
      assert s[1..] == Escape(f) + ['"'] + [];
      EscapeRead(f, [], []);
      assert [] + f == f;
      assert fields == [f];
    } else {
      var rest := [','] + EncodeRow(fields[1..]);
      var s := Quote(f) + [','] + EncodeRow(fields[1..]);
      assert s[1..] == Escape(f) + ['"'] + rest;
      EscapeRead(f, rest, []);
      assert [] + f == f;
      assert rest[1..] == EncodeRow(fields[1..]);
      EncodeRowParses(fields[1..]);
      assert [f] + fields[1..] == fields;
    }
  }

  /** A comma inside quotes stays in its field, and a doubled quote inside quotes gives one quote. */
  lemma QuotedCommaAndQuote()
    ensures Fields("\"a,\"\"b\",\"c\"") == Some(["a,\"b", "c"])
    ensures FieldCount("\"a,\"\"b\",\"c\"") == 2
  {
    EncodeRowParses(["a,\"b", "c"]);
    assert EncodeRow(["a,\"b", "c"]) == "\"a,\"\"b\",\"c\"" by {
      assert Escape("b") == "b";
      assert Escape("\"b") == "\"\"b";
      assert Escape(",\"b") == ",\"\"b";
      assert Escape("a,\"b") == "a,\"\"b";
      assert Escape("c") == "c";
      assert Quote("a,\"b") == "\"a,\"\"b\"";
      assert Quote("c") == "\"c\"";
      assert ["a,\"b", "c"][1..] == ["c"];
      assert EncodeRow(["c"]) == "\"c\"";
    }
    FieldsMatchCount("\"a,\"\"b\",\"c\"");
  }

  /** An unterminated quote fails the line. */
  lemma OpenQuoteFails()
    ensures Fields("a,\"b") == None && FieldCount("a,\"b") == -1
  {
    assert "b"[1..] == [];
    assert FieldsFrom("b", true, []) == None && CommasFrom("b", true) == None;
    assert "\"b"[1..] == "b";
    assert FieldsFrom("\"b", false, []) == None && CommasFrom("\"b", false) == None;
    assert ",\"b"[1..] == "\"b";
    assert FieldsFrom(",\"b", false, "a") == None && CommasFrom(",\"b", false) == None;
    assert "a,\"b"[1..] == ",\"b";
  }

  // ---------------------------------------------------------------
  // count_fields and parse_csv
  // ---------------------------------------------------------------

  /** n more commas than an optional count. */
  function Plus(c: Option<nat>, n: nat): Option<nat>
  {
    match c
    case None => None
    case Some(m) => Some(m + n)
  }

  /** count_fields: the loop over the line with its quote flag. */
  method CountFields(line: seq<char>) returns (cnt: int)
    ensures cnt == FieldCount(line)
  {
    cnt := 1;
    var quoted := false;
    var p := 0;
    while p < |line|
      invariant 0 <= p <= |line| && cnt >= 1
      invariant CommasFrom(line, false) == Plus(CommasFrom(line[p..], quoted), cnt - 1)
    {
      var rest := line[p..];
      if quoted {
        if line[p] == '"' && p + 1 < |line| && line[p + 1] == '"' {
          assert rest[2..] == line[p + 2..];
          p := p + 2;
        } else {
          if line[p] == '"' {
            quoted := false;
          }
          assert rest[1..] == line[p + 1..];
          p := p + 1;
        }
      } else {
        if line[p] == '"' {
          quoted := true;
        } else if line[p] == ',' {
          cnt := cnt + 1;
        }
        assert rest[1..] == line[p + 1..];
        p := p + 1;
      }
    }
    if quoted {
      return -1;
    }
  }

  /** The fields read so far, followed by the fields of the rest of the line. */
  function Then(done: seq<seq<char>>, rest: Option<seq<seq<char>>>): Option<seq<seq<char>>>
  {
    match rest
    case None => None
    case Some(fs) => Some(done + fs)
  }

  /** A NULL-terminated array of strings holding the given fields. */
  function Terminated(fields: seq<seq<char>>): (r: seq<Option<seq<char>>>)
    ensures |r| == |fields| + 1 && r[|fields|] == None
    ensures forall k | 0 <= k < |fields| :: r[k] == Some(fields[k])
  {
    seq(|fields|, k requires 0 <= k < |fields| => Some(fields[k])) + [None]
  }

  /**
   * parse_csv: NULL when a quote is left open; otherwise a fresh array of
   * count_fields strings and a NULL terminator, the fields of the line.
   */
  method ParseCsv(line: seq<char>) returns (buf: array?<Option<seq<char>>>)
    ensures buf == null <==> Fields(line).None?
    ensures buf != null ==> fresh(buf) && buf[..] == Terminated(Fields(line).value)
  {
    var fieldcnt := CountFields(line);
    FieldsMatchCount(line);
    if fieldcnt == -1 {
      return null;
    }
    buf := new Option<seq<char>>[fieldcnt + 1](_ => None);
    var tmp: seq<char> := [];
    var b := 0;
    ghost var done: seq<seq<char>> := [];
    var quoted := false;
    var p := 0;
    assert line[0..] == line && [] + Fields(line).value == Fields(line).value;
    while p < |line|
      invariant 0 <= p <= |line| && b == |done| < buf.Length == fieldcnt + 1
      invariant forall k | 0 <= k < b :: buf[k] == Some(done[k])
      invariant Fields(line) == Then(done, FieldsFrom(line[p..], quoted, tmp))
    {
      p, quoted, tmp, b, done := ParseStep(line, buf, p, quoted, tmp, b, done);
    }
    // A quote left open was already reported by count_fields.
    assert !quoted;
    buf[b] := Some(tmp);
    done := done + [tmp];
    b := b + 1;
    buf[b] := None;
    assert buf[..] == Terminated(done);
  }

  /** One pass of parse_csv's loop over the character at p (and the next one for a doubled quote). */
  method ParseStep(line: seq<char>, buf: array<Option<seq<char>>>, p: nat, quoted: bool, tmp: seq<char>, b: nat,
                   ghost done: seq<seq<char>>)
    returns (p': nat, quoted': bool, tmp': seq<char>, b': nat, ghost done': seq<seq<char>>)
    requires p < |line| && b == |done| < buf.Length && Fields(line).Some? && |Fields(line).value| + 1 == buf.Length
    requires forall k | 0 <= k < b :: buf[k] == Some(done[k])
    requires Fields(line) == Then(done, FieldsFrom(line[p..], quoted, tmp))
    modifies buf
    ensures p < p' <= |line| && b' == |done'| < buf.Length
    ensures forall k | 0 <= k < b' :: buf[k] == Some(done'[k])
    ensures Fields(line) == Then(done', FieldsFrom(line[p'..], quoted', tmp'))
  {
    var rest := line[p..];
    FieldsFromCount(rest, quoted, tmp);
    p', quoted', tmp', b', done' := p + 1, quoted, tmp, b, done;
    if quoted {
      if line[p] == '"' && p + 1 < |line| && line[p + 1] == '"' {
        assert rest[2..] == line[p + 2..];
        tmp' := tmp + ['"'];
        p' := p + 2;
      } else {
        if line[p] == '"' {
          quoted' := false;
        } else {
          tmp' := tmp + [line[p]];
        }
        assert rest[1..] == line[p + 1..];
      }
    } else {
      assert rest[1..] == line[p + 1..];
      if line[p] == '"' {
        quoted' := true;
      } else if line[p] == ',' {
        FieldsFromCount(line[p + 1..], false, []);
        ghost var later := FieldsFrom(line[p + 1..], false, []).value;
        assert done + ([tmp] + later) == (done + [tmp]) + later;
        buf[b] := Some(tmp);
        done' := done + [tmp];
        b' := b + 1;
        tmp' := [];
      } else {
        tmp' := tmp + [line[p]];
      }
    }
  }
}
