// syslog.c: the console log, a ring of SYSLOG_MAX_LINES slots of which one
// stays free. head_idx is the slot last written and tail_idx the slot last
// read, so the log holds the slots after tail up to head. Printing into a
// full ring drops the oldest line. The mutex, the tick clock (a parameter
// here) and the text formatting of the time stamp are not modelled.

module SysLog {

  import opened Words
  import opened CText
  import ShellString

  const MAX_LINES: nat := 100
  const LINE_MAX: nat := 128

  /** One stored line: its time stamp in milliseconds and its text. */
  datatype Entry = Entry(stamp: u64, text: seq<char>)

  /** The slot after i, wrapping at the end of the ring. */
  function Advance(i: nat): (j: nat)
    requires i < MAX_LINES
    ensures j < MAX_LINES && (j == i + 1 || (i == MAX_LINES - 1 && j == 0))
  {
    if i + 1 == MAX_LINES then 0 else i + 1
  }

  /** The slot of the k-th oldest line when the last read slot is tail. */
  function RingIndex(tail: nat, k: nat): (i: nat)
    requires tail < MAX_LINES && k < MAX_LINES
    ensures i < MAX_LINES
  {
    if tail + 1 + k < MAX_LINES then tail + 1 + k else tail + 1 + k - MAX_LINES
  }

  /** The lines after one print: the new line last, the oldest dropped when the ring was full. */
  function Appended(es: seq<Entry>, e: Entry): seq<Entry>
    requires |es| <= MAX_LINES - 1
  {
    if |es| == MAX_LINES - 1 then es[1..] + [e] else es + [e]
  }

  /** The log keeps the newest MAX_LINES - 1 lines ever printed, oldest first. */
  lemma AppendedKeepsNewest(es: seq<Entry>, e: Entry)
    requires |es| <= MAX_LINES - 1
    ensures Appended(es, e) == Newest(es + [e], MAX_LINES - 1)
    ensures |Appended(es, e)| <= MAX_LINES - 1 && Appended(es, e)[|Appended(es, e)| - 1] == e
  {
    if |es| == MAX_LINES - 1 {
      assert (es + [e])[1..] == es[1..] + [e];
    } else {
      assert (es + [e])[0..] == es + [e];
    }
  }

  /** The line with its trailing whitespace removed. */
  function TrimTrailing(s: seq<char>): (t: seq<char>)
    ensures |t| <= |s| && t == s[..|t|]
  {
    if s != [] && IsSpace(s[|s| - 1]) then TrimTrailing(s[..|s| - 1]) else s
  }

  /** What the trim removes is whitespace, and what it keeps ends in a character that is not. */
  lemma {:induction false} TrimTrailingShape(s: seq<char>)
    ensures var t := TrimTrailing(s);
      && (t == [] || !IsSpace(t[|t| - 1]))
      && (forall i | |t| <= i < |s| :: IsSpace(s[i]))
  {
    if s != [] && IsSpace(s[|s| - 1]) {
      TrimTrailingShape(s[..|s| - 1]);
    }
  }

  /**
   * The trim loop as written: end starts at line + strlen(line) - 1 and
   * walks back while it points at whitespace, with no check against the
   * start of the line. None when it reads the character before the line.
   */
  function TrimAsWritten(s: seq<char>, end: int): Option<seq<char>>
    requires end < |s|
    decreases end + 1
  {
    if end < 0 then None
    else if IsSpace(s[end]) then TrimAsWritten(s, end - 1)
    else Some(s[..end + 1])
  }

  /** The written loop agrees with the trim except on lines that are empty or all whitespace, where it runs off the front. */
  lemma {:induction false} TrimAsWrittenReadsBefore(s: seq<char>, end: int)
    requires -1 <= end < |s|
    ensures TrimAsWritten(s, end).None? <==> forall i | 0 <= i <= end :: IsSpace(s[i])
    ensures TrimAsWritten(s, end).Some? ==> TrimAsWritten(s, end).value == TrimTrailing(s[..end + 1])
    decreases end + 1
  {
    if end >= 0 {
      assert s[..end + 1][..end] == s[..end];
      if IsSpace(s[end]) {
        TrimAsWrittenReadsBefore(s, end - 1);
      }
    }
  }

  /** An empty log line sends the written loop off the front of the caller's buffer. */
  lemma EmptyLineRunsOffAsWritten()
    ensures TrimAsWritten([], -1).None?
    ensures TrimAsWritten([' ', ' '], 1).None?
  {
  }

  /** The time stamp split into seconds and milliseconds as syslog_next does, with u64ts - ts_sec * 1000. */
  function SplitStamp(ts: u64): (r: (u64, u64))
    ensures r.0 * 1000 + r.1 == ts && r.1 < 1000
  {
    var seconds := ts / 1000;
    (seconds, ts - seconds * 1000)
  }

  /** strncpy(line, text, line.Length) and line[line.Length - 1] = '\0'. */
  method CopyOut(line: array<char>, text: seq<char>)
    requires line.Length >= 1 && '\0' !in text
    modifies line
    ensures var t := Truncated(text, line.Length - 1);
      line[..|t|] == t && line[|t|] == '\0'
  {
    var k := 0;
    while k < line.Length
      invariant k <= line.Length
      invariant forall j | 0 <= j < k :: line[j] == if j < |text| then text[j] else '\0'
    {
      line[k] := if k < |text| then text[k] else '\0';
      k := k + 1;
    }
    line[line.Length - 1] := '\0';
  }

  /** The trim of syslog_next, stopping at the start of the line: trailing whitespace of the first n characters becomes NUL. */
  method TrimEnd(line: array<char>, n: nat) returns (m: nat)
    requires n < line.Length && line[n] == '\0'
    modifies line
    ensures m <= n && line[..m] == TrimTrailing(old(line[..n])) && line[m] == '\0'
  {
    m := n;
    while m > 0 && IsSpace(line[m - 1])
      invariant m <= n && line[m] == '\0'
      invariant line[..m] == old(line[..m])
      invariant TrimTrailing(old(line[..n])) == TrimTrailing(line[..m])
    {
      assert line[..m][..m - 1] == line[..m - 1];
      line[m - 1] := '\0';
      m := m - 1;
    }
  }

  /** The copy and trim syslog_next makes of a stored line in the caller's buffer. */
  method ShowLine(line: array<char>, text: seq<char>)
    requires line.Length >= 1 && '\0' !in text
    modifies line
    ensures var t := TrimTrailing(Truncated(text, line.Length - 1));
      line[..|t|] == t && line[|t|] == '\0'
  {
    CopyOut(line, text);
    ghost var copied := Truncated(text, line.Length - 1);
    assert line[..] == copied + line[|copied|..];
    var n := ShellString.StrLenOf(line);
    assert line[..][..n] == copied;
    var _ := TrimEnd(line, n);
  }

  class Log {
    /** The text of each slot of log_data, without its NUL. */
    const texts: array<seq<char>>
    /** ts_data. */
    const stamps: array<u64>
    var head: nat
    var tail: nat
    var sequence: u32
    var dropped: nat

    predicate Valid()
      reads this, texts
    {
      && texts.Length == MAX_LINES && stamps.Length == MAX_LINES
      && head < MAX_LINES && tail < MAX_LINES
      && forall i | 0 <= i < MAX_LINES :: '\0' !in texts[i] && |texts[i]| < LINE_MAX
    }

    /** The number of lines waiting to be read. */
    function Count(): (n: nat)
      reads this, texts
      requires Valid()
      ensures n < MAX_LINES && (n == 0 <==> head == tail)
    {
      if head >= tail then head - tail else head + MAX_LINES - tail
    }

    /** The lines waiting to be read, oldest first. */
    function Entries(): (es: seq<Entry>)
      reads this, texts, stamps
      requires Valid()
      ensures |es| == Count()
    {
      seq(Count(), k requires Valid() && 0 <= k < Count() reads this, texts, stamps =>
        Entry(stamps[RingIndex(tail, k)], texts[RingIndex(tail, k)]))
    }

    /** syslog_init, with the allocations assumed to succeed. */
    constructor ()
      ensures Valid() && Entries() == [] && sequence == 0 && dropped == 0
    {
      texts := new seq<char>[MAX_LINES](_ => []);
      stamps := new u64[MAX_LINES](_ => 0);
      head := 0;
      tail := 0;
      sequence := 0;
      dropped := 0;
    }

    /** syslog_print: msg cut to LINE_MAX - 1 characters is added, stamped now. */
    method Print(msg: seq<char>, now: u64)
      requires Valid() && '\0' !in msg
      modifies this, texts, stamps
      ensures Valid()
      ensures Entries() == Appended(old(Entries()), Entry(now, Truncated(msg, LINE_MAX - 1)))
      ensures dropped == old(dropped) + (if old(Count()) == MAX_LINES - 1 then 1 else 0)
      ensures sequence == (old(sequence) + 1) % 0x1_0000_0000
    {
      ghost var before := Entries();
      head := Advance(head);
      if head == tail {
        tail := Advance(tail);
        dropped := dropped + 1;
      }
      texts[head] := Truncated(msg, LINE_MAX - 1);
      stamps[head] := now;
      sequence := (sequence + 1) % 0x1_0000_0000;
      PrintedEntries(before, Entry(now, Truncated(msg, LINE_MAX - 1)));
    }

    /** The ring after a print, slot by slot. */
    lemma PrintedEntries(before: seq<Entry>, e: Entry)
      requires Valid() && |before| <= MAX_LINES - 1
      requires stamps[head] == e.stamp && texts[head] == e.text
      requires |before| < MAX_LINES - 1 ==> Count() == |before| + 1
      requires |before| == MAX_LINES - 1 ==> Count() == |before|
      requires forall k {:trigger RingIndex(tail, k)} | 0 <= k < Count() - 1 ::
        Entry(stamps[RingIndex(tail, k)], texts[RingIndex(tail, k)])
          == (if |before| == MAX_LINES - 1 then before[k + 1] else before[k])
      requires Count() > 0 && RingIndex(tail, Count() - 1) == head
      ensures Entries() == Appended(before, e)
    {
      var after := Appended(before, e);
      forall k | 0 <= k < Count()
        ensures Entries()[k] == after[k]
      {
        assert Entries()[k] == Entry(stamps[RingIndex(tail, k)], texts[RingIndex(tail, k)]);
        if k < Count() - 1 {
          assert after[k] == if |before| == MAX_LINES - 1 then before[k + 1] else before[k];
        } else {
          assert after[k] == e;
        }
      }
    }

    /** The ring after a read, slot by slot. */
    lemma RemovedEntries(before: seq<Entry>, oldTail: nat)
      requires Valid() && oldTail < MAX_LINES && tail == Advance(oldTail) && |before| == Count() + 1
      requires forall k | 0 <= k < |before| ::
        before[k] == Entry(stamps[RingIndex(oldTail, k)], texts[RingIndex(oldTail, k)])
      ensures Entries() == before[1..]
    {
      forall k | 0 <= k < Count()
        ensures Entries()[k] == before[1..][k]
      {
        assert RingIndex(tail, k) == RingIndex(oldTail, k + 1);
      }
    }

    /**
     * syslog_next: when a line is waiting, the oldest is removed, copied
     * into line cut to fit, its trailing whitespace trimmed, and its time
     * stamp split into seconds and milliseconds; otherwise nothing changes.
     */
    method Next(line: array<char>) returns (found: bool, seconds: u64, millis: u64)
      requires Valid() && line.Length >= 1
      modifies this, line
      ensures Valid() && head == old(head) && sequence == old(sequence) && dropped == old(dropped)
      ensures old(Count()) == 0 ==> !found && Entries() == old(Entries()) && line[..] == old(line[..])
      ensures old(Count()) > 0 ==>
        var e := old(Entries())[0];
        var t := TrimTrailing(Truncated(e.text, line.Length - 1));
        && found && Entries() == old(Entries())[1..]
        && (seconds, millis) == SplitStamp(e.stamp)
        && line[..|t|] == t && line[|t|] == '\0'
    {
      found := false;
      seconds := 0;
      millis := 0;
      if tail != head {
        ghost var before := Entries();
        tail := Advance(tail);
        var text := texts[tail];
        assert Entry(stamps[tail], text) == before[0];
        var ts := stamps[tail];
        ShowLine(line, text);
        seconds := ts / 1000;
        millis := ts - seconds * 1000;
        found := true;
        RemovedEntries(before, old(tail));
      }
    }
  }
}
