// Alternate-mode discovery tables of the policy engine acting as a
// Downstream-Facing Port (DFP): the partner's identity, its SVIDs and their
// modes, and the active-mode slots, filled from Structured VDM responses
// (section 6.4.4 of USB Power Delivery 3.0), plus the DisplayPort pin
// assignment the DFP picks (VESA DisplayPort Alt Mode on USB Type-C).

module PdDfp {

  import opened Words

  const SVID_DISCOVERY_MAX := 16
  const PD_AMODE_COUNT := 2
  const PDO_MODES := 6
  const IDENTITY_WORDS := 6
  const PAYLOAD_WORDS := 7

  const USB_SID_PD: u16 := 0xff00
  const USB_SID_DISPLAYPORT: u16 := 0xff01

  const CMD_DISCOVER_IDENT := 1
  const CMD_DISCOVER_SVID := 2
  const CMD_DISCOVER_MODES := 3
  const CMD_ENTER_MODE := 4
  const CMD_EXIT_MODE := 5
  const CMD_ATTENTION := 6
  const CMD_DP_STATUS := 16
  const CMD_DP_CONFIG := 17

  // ---------------------------------------------------------------
  // VDM header fields
  // ---------------------------------------------------------------

  function VdoVid(w: u32): u16 { w / 0x1_0000 }
  function VdoOpos(w: u32): nat { w / 0x100 % 8 }
  function VdoCmd(w: u32): nat { w % 32 }
  function VdoCmdType(w: u32): nat { w / 0x40 % 4 }
  predicate VdoStructured(w: u32) { w / 0x8000 % 2 == 1 }

  /** A structured VDM header: SVID, object position, command type and command. */
  function Header(vid: u16, opos: nat, cmdType: nat, cmd: nat): (w: u32)
    requires opos < 8 && cmdType < 4 && cmd < 32
    ensures VdoVid(w) == vid && VdoStructured(w) && VdoOpos(w) == opos
    ensures VdoCmdType(w) == cmdType && VdoCmd(w) == cmd
  {
    var w := vid * 0x1_0000 + 0x8000 + opos * 0x100 + cmdType * 0x40 + cmd;
    DivModSum(vid, 0x8000 + opos * 0x100 + cmdType * 0x40 + cmd, 0x1_0000);
    DivModSum(vid * 2 + 1, opos * 0x100 + cmdType * 0x40 + cmd, 0x8000);
    DivModSum(vid, 1, 2);
    DivModSum(vid * 0x100 + 0x80 + opos, cmdType * 0x40 + cmd, 0x100);
    DivModSum(vid * 0x20 + 0x10, opos, 8);
    DivModSum(vid * 0x400 + 0x200 + opos * 4 + cmdType, cmd, 0x40);
    DivModSum(vid * 0x100 + 0x80 + opos, cmdType, 4);
    DivModSum(vid * 0x800 + 0x400 + opos * 8 + cmdType * 2, cmd, 32);
    w
  }

  /** The Discover SVIDs request, sent once the identity is known. */
  function DiscoverSvidsRequest(): (w: u32)
    ensures VdoVid(w) == USB_SID_PD && VdoCmd(w) == CMD_DISCOVER_SVID
    ensures VdoCmdType(w) == 0 && VdoOpos(w) == 0 && VdoStructured(w)
  {
    0xFF00_8002
  }

  // ---------------------------------------------------------------
  // SVID unpacking
  // ---------------------------------------------------------------

  /** SVID number k of a Discover SVIDs response body: the high half first. */
  function Half(words: seq<u32>, k: nat): u16
    requires k < 2 * |words|
  {
    if k % 2 == 0 then words[k / 2] / 0x1_0000 else words[k / 2] % 0x1_0000
  }

  /** The SVIDs a response body lists, in order, up to the first zero half. */
  function UnpackSvids(words: seq<u32>): (r: seq<u16>)
    ensures |r| <= 2 * |words|
  {
    if |words| == 0 then []
    else if words[0] / 0x1_0000 == 0 then []
    else if words[0] % 0x1_0000 == 0 then [words[0] / 0x1_0000]
    else [words[0] / 0x1_0000, words[0] % 0x1_0000] + UnpackSvids(words[1..])
  }

  /**
   * The unpacked list is the SVIDs of the body in order, high half first,
   * none of them zero, and it stops only at a zero half or the end.
   */
  lemma {:induction false} UnpackSvidsSpec(words: seq<u32>)
    ensures var r := UnpackSvids(words);
      (forall k | 0 <= k < |r| :: r[k] != 0 && r[k] == Half(words, k))
      && (|r| < 2 * |words| ==> Half(words, |r|) == 0)
  {
    if |words| > 0 && words[0] / 0x1_0000 != 0 && words[0] % 0x1_0000 != 0 {
      UnpackSvidsSpec(words[1..]);
      assert forall k | 2 <= k < 2 * |words| :: Half(words, k) == Half(words[1..], k - 2);
    }
  }

  /** How the code as written ends its SVID scan. */
  datatype SvidScan = Stops(count: nat) | ReadsPastMessage(word: nat) | WritesPastTable(slot: nat)

  /**
   * The scan as written: its loop bound is recomputed from the count it is
   * incrementing, so only the check for slot 16 or a zero SVID ends it.
   * i is the next table slot, k the payload word being read.
   */
  function ConsumeSvidsAsWritten(i: nat, k: nat, payload: seq<u32>): SvidScan
    decreases |payload| - k
  {
    if i == SVID_DISCOVERY_MAX then Stops(i)
    else if k >= |payload| then ReadsPastMessage(k)
    else if payload[k] / 0x1_0000 == 0 then Stops(i)
    else if i >= SVID_DISCOVERY_MAX then WritesPastTable(i)
    else if payload[k] % 0x1_0000 == 0 then Stops(i + 1)
    else if i + 1 >= SVID_DISCOVERY_MAX then WritesPastTable(i + 1)
    else ConsumeSvidsAsWritten(i + 2, k + 1, payload)
  }

  /**
   * A full response (six words, twelve SVIDs) on an empty table: the scan
   * as written reads a seventh data word past the message, while the
   * corrected scan stores exactly the twelve SVIDs.
   */
  lemma SvidScanOverreadsAsWritten()
    ensures var p := [0] + seq(6, _ => 0x1234_5678);
      ConsumeSvidsAsWritten(0, 1, p) == ReadsPastMessage(7)
      && |UnpackSvids(p[1..])| == 12
  {
    var p := [0] + seq(6, _ => 0x1234_5678);
    assert ConsumeSvidsAsWritten(0, 1, p) == ConsumeSvidsAsWritten(2, 2, p);
    assert ConsumeSvidsAsWritten(2, 2, p) == ConsumeSvidsAsWritten(4, 3, p);
    assert ConsumeSvidsAsWritten(4, 3, p) == ConsumeSvidsAsWritten(6, 4, p);
    assert ConsumeSvidsAsWritten(6, 4, p) == ConsumeSvidsAsWritten(8, 5, p);
    assert ConsumeSvidsAsWritten(8, 5, p) == ConsumeSvidsAsWritten(10, 6, p);
    assert ConsumeSvidsAsWritten(10, 6, p) == ConsumeSvidsAsWritten(12, 7, p);
    assert UnpackSvids(p[7..]) == [];
    UnpackAt(p, 6);
    UnpackAt(p, 5);
    UnpackAt(p, 4);
    UnpackAt(p, 3);
    UnpackAt(p, 2);
    UnpackAt(p, 1);
  }

  /** Starting from an odd count of 5, the scan as written stores into slot 16 of a 16-slot table. */
  lemma SvidScanOverflowsAsWritten()
    ensures ConsumeSvidsAsWritten(5, 1, [0] + seq(6, _ => 0x1234_5678)) == WritesPastTable(16)
  {
    var p := [0] + seq(6, _ => 0x1234_5678);
    assert ConsumeSvidsAsWritten(5, 1, p) == ConsumeSvidsAsWritten(7, 2, p);
    assert ConsumeSvidsAsWritten(7, 2, p) == ConsumeSvidsAsWritten(9, 3, p);
    assert ConsumeSvidsAsWritten(9, 3, p) == ConsumeSvidsAsWritten(11, 4, p);
    assert ConsumeSvidsAsWritten(11, 4, p) == ConsumeSvidsAsWritten(13, 5, p);
    assert ConsumeSvidsAsWritten(13, 5, p) == ConsumeSvidsAsWritten(15, 6, p);
  }

  // ---------------------------------------------------------------
  // Pin assignment (DFP side)
  // ---------------------------------------------------------------

  const PIN_A: bv8 := 0x01
  const PIN_B: bv8 := 0x02
  const PIN_C: bv8 := 0x04
  const PIN_D: bv8 := 0x08
  const PIN_E: bv8 := 0x10
  const PIN_F: bv8 := 0x20
  /** Multi-function pin assignments B, D and F. */
  const PIN_MF_MASK: bv8 := 0x2a
  /** USB Gen 2 pass-through assignments A and B, which the DFP never drives. */
  const PIN_BR2_MASK: bv8 := 0x03

  /** The partner's pin capabilities: its receptacle field if it is a receptacle, else its plug field. */
  function PinCaps(modeCaps: u32): bv8
  {
    (if modeCaps / 0x40 % 2 == 1 then modeCaps / 0x1_0000 % 64 else modeCaps / 0x100 % 64) as bv8
  }

  predicate MfPreferred(status: u32) { status / 0x10 % 2 == 1 }

  predicate SinglePin(p: bv8)
  {
    p == PIN_A || p == PIN_B || p == PIN_C || p == PIN_D || p == PIN_E || p == PIN_F
  }

  /** Pin codes left after the precedence masks. */
  function Surviving(caps: bv8, mfPref: bool): bv8
  {
    var p := if mfPref then caps else caps & !PIN_MF_MASK;
    var q := p & !PIN_BR2_MASK;
    if q & (PIN_C | PIN_D) != 0 then q & !(PIN_E | PIN_F) else q
  }

  /** The highest assignment present in p (higher pin codes are preferred). */
  function HighestPin(p: bv8): (r: bv8)
    requires p & 0xC0 == 0
    ensures p == 0 <==> r == 0
    ensures r != 0 ==> SinglePin(r) && p & r == r && p < r << 1
  {
    if p & PIN_F != 0 then PIN_F
    else if p & PIN_E != 0 then PIN_E
    else if p & PIN_D != 0 then PIN_D
    else if p & PIN_C != 0 then PIN_C
    else if p & PIN_B != 0 then PIN_B
    else if p & PIN_A != 0 then PIN_A
    else 0
  }

  /**
   * The pin assignment the DFP configures: none, or one single code the
   * partner supports; never a Gen 2 code, a multi-function code only when
   * the partner prefers multi-function, and C or D whenever one of them
   * survives the masks.
   */
  function PinMode(modeCaps: u32, status: u32): (r: bv8)
    ensures r == 0 || SinglePin(r)
    ensures r & PIN_BR2_MASK == 0
    ensures !MfPreferred(status) ==> r & PIN_MF_MASK == 0
    ensures r & PinCaps(modeCaps) == r
    ensures Surviving(PinCaps(modeCaps), MfPreferred(status)) & (PIN_C | PIN_D) != 0 ==>
              r == PIN_C || r == PIN_D
    ensures r == 0 <==> Surviving(PinCaps(modeCaps), MfPreferred(status)) == 0
  {
    var s := Surviving(PinCaps(modeCaps), MfPreferred(status));
    if s == 0 then 0 else HighestPin(s)
  }

  /** A receptacle offering C, D, E and F to a DFP that is not asked for multi-function gets C. */
  lemma PinModeAllReceptacle()
    ensures PinMode(0x003C_0045, 0) == PIN_C
  {
  }

  /** The same receptacle, with multi-function preferred in the status, gets D. */
  lemma PinModeAllReceptacleMf()
    ensures PinMode(0x003C_0045, 0x10) == PIN_D
  {
  }

  // ---------------------------------------------------------------
  // The per-port discovery state
  // ---------------------------------------------------------------

  datatype SvidData = SvidData(svid: u16, modeCnt: int, modeVdo: seq<u32>)

  /** An active-mode slot: fx is the supported mode it runs (none when free), data the SVID entry. */
  datatype Amode = Amode(fx: Option<nat>, data: nat, opos: int)

  function EmptySvid(): SvidData { SvidData(0, 0, seq(PDO_MODES, _ => 0)) }
  function EmptyAmode(): Amode { Amode(None, 0, 0) }

  /** How the lookup as written ends: it reads the SVID of a free slot's null mode table. */
  datatype Probe = Found(slot: nat) | NotFound | NullDeref(slot: nat)

  /** get_mode_idx as written: it dereferences fx without testing it. */
  function GetModeIdxAsWritten(amodes: seq<Amode>, supported: seq<u16>, svid: u16, i: nat): Probe
    decreases |amodes| - i
  {
    if i >= |amodes| then NotFound
    else if amodes[i].fx.None? then NullDeref(i)
    else if amodes[i].fx.value < |supported| && supported[amodes[i].fx.value] == svid then Found(i)
    else GetModeIdxAsWritten(amodes, supported, svid, i + 1)
  }

  /** On a freshly reset port every lookup as written touches the free slot 0. */
  lemma ModeLookupDerefsNullAsWritten(supported: seq<u16>, svid: u16)
    ensures GetModeIdxAsWritten(seq(PD_AMODE_COUNT, _ => EmptyAmode()), supported, svid, 0) == NullDeref(0)
  {
  }

  /** First supported-mode / discovered-SVID pair allocate_mode would take. */
  predicate PairMatches(supported: seq<u16>, svs: seq<SvidData>, svid: u16, i: nat, j: nat)
    requires i < |supported| && j < |svs|
  {
    svs[j].svid == supported[i] && (svid == 0 || svs[j].svid == svid)
  }

  /** (a, b) comes no earlier than (i, j) in allocate_mode's scan: modes in table order, then SVID entries. */
  predicate NotBefore(i: nat, j: nat, a: nat, b: nat)
  {
    i < a || (i == a && j <= b)
  }

  /** The first pair that PairMatches in allocate_mode's scan, starting at mode i, entry j. */
  function FirstPair(supported: seq<u16>, svs: seq<SvidData>, svid: u16, i: nat, j: nat): (p: Option<(nat, nat)>)
    requires j <= |svs|
    ensures p.Some? ==> p.value.0 < |supported| && p.value.1 < |svs|
    decreases |supported| - i, |svs| - j
  {
    if i >= |supported| then None
    else if j == |svs| then FirstPair(supported, svs, svid, i + 1, 0)
    else if PairMatches(supported, svs, svid, i, j) then Some((i, j))
    else FirstPair(supported, svs, svid, i, j + 1)
  }

  /**
   * The scan finds a matching pair at or after (i, j), and no pair between
   * (i, j) and the one found matches; when it finds none, no pair from
   * (i, j) on matches.
   */
  lemma {:induction false} FirstPairSpec(supported: seq<u16>, svs: seq<SvidData>, svid: u16, i: nat, j: nat)
    requires j <= |svs|
    ensures var p := FirstPair(supported, svs, svid, i, j);
      p.Some? ==> NotBefore(i, j, p.value.0, p.value.1) && PairMatches(supported, svs, svid, p.value.0, p.value.1)
    ensures var p := FirstPair(supported, svs, svid, i, j);
      forall a: nat, b: nat | a < |supported| && b < |svs| && NotBefore(i, j, a, b)
                              && (p.None? || !NotBefore(p.value.0, p.value.1, a, b)) ::
        !PairMatches(supported, svs, svid, a, b)
    decreases |supported| - i, |svs| - j
  {
    if i >= |supported| {
    } else if j == |svs| {
      FirstPairSpec(supported, svs, svid, i + 1, 0);
    } else if PairMatches(supported, svs, svid, i, j) {
    } else {
      FirstPairSpec(supported, svs, svid, i, j + 1);
    }
  }

  /**
   * The active-mode slots are consistent: the first amodeIdx slots are taken,
   * each running a supported mode on an SVID entry, and every opos is a
   * mode position or 0.
   */
  predicate Slots(supported: seq<u16>, amodes: seq<Amode>, amodeIdx: nat)
  {
    |amodes| == PD_AMODE_COUNT && amodeIdx <= PD_AMODE_COUNT
    && (forall i | 0 <= i < PD_AMODE_COUNT :: amodes[i].fx.Some? <==> i < amodeIdx)
    && (forall i | 0 <= i < amodeIdx ::
          amodes[i].fx.value < |supported| && amodes[i].data < SVID_DISCOVERY_MAX)
    && (forall i | 0 <= i < PD_AMODE_COUNT :: 0 <= amodes[i].opos <= PDO_MODES)
  }

  /** The discovery tables and the slots of a port are consistent. */
  predicate Tables(supported: seq<u16>, svids: seq<SvidData>, svidCnt: nat, amodes: seq<Amode>, amodeIdx: nat)
  {
    |svids| == SVID_DISCOVERY_MAX && svidCnt <= SVID_DISCOVERY_MAX
    && (forall i | 0 <= i < |svids| :: |svids[i].modeVdo| == PDO_MODES && svids[i].modeCnt <= PDO_MODES)
    && Slots(supported, amodes, amodeIdx)
  }

  /** The first taken slot whose mode has svid, -1 for none. */
  function ModeIdx(supported: seq<u16>, amodes: seq<Amode>, amodeIdx: nat, svid: u16): int
    requires Slots(supported, amodes, amodeIdx)
  {
    if 0 < amodeIdx && supported[amodes[0].fx.value] == svid then 0
    else if 1 < amodeIdx && supported[amodes[1].fx.value] == svid then 1
    else -1
  }

  /**
   * The slot allocate_mode gives for svid over the discovered entries svs,
   * with the slots and count it leaves: the slot already running svid; -1
   * when every slot is taken or no pair matches; otherwise the next free
   * slot, now running the first matching pair.
   */
  function Allocate(supported: seq<u16>, svs: seq<SvidData>, amodes: seq<Amode>, amodeIdx: nat, svid: u16)
    : (res: (int, seq<Amode>, nat))
    requires Slots(supported, amodes, amodeIdx) && |svs| <= SVID_DISCOVERY_MAX
    ensures Slots(supported, res.1, res.2)
    ensures res.0 == -1 || 0 <= res.0 < res.2
  {
    var m := ModeIdx(supported, amodes, amodeIdx, svid);
    if m != -1 then (m, amodes, amodeIdx)
    else if amodeIdx == PD_AMODE_COUNT then (-1, amodes, amodeIdx)
    else match FirstPair(supported, svs, svid, 0, 0)
      case None => (-1, amodes, amodeIdx)
      case Some(p) => (amodeIdx, amodes[amodeIdx := amodes[amodeIdx].(fx := Some(p.0), data := p.1)], amodeIdx + 1)
  }

  /** The object position pd_dfp_enter_mode enters for opos: 0 stands for the first. */
  function EnteredOpos(opos: nat): nat { if opos == 0 then 1 else opos }

  /**
   * What pd_dfp_enter_mode returns and leaves in the slots: 0 when no slot
   * can be had, when opos exceeds the SVID's mode count, or when the enter
   * hook refuses the mode's capabilities (the slot keeps its allocation and,
   * unless opos was refused, its new opos); otherwise the Enter Mode request
   * for the slot's SVID at that position.
   */
  function EnterRequest(supported: seq<u16>, svids: seq<SvidData>, svidCnt: nat, amodes: seq<Amode>, amodeIdx: nat,
                        svid: u16, opos: nat, enter: u32 -> int): (res: (u32, seq<Amode>))
    requires Tables(supported, svids, svidCnt, amodes, amodeIdx)
  {
    var a := Allocate(supported, svids[..svidCnt], amodes, amodeIdx, svid);
    var r := a.0;
    if r == -1 then (0, a.1)
    else
      var e := a.1[r];
      if opos != 0 && opos > svids[e.data].modeCnt then (0, a.1)
      else
        var o := EnteredOpos(opos);
        var t := a.1[r := e.(opos := o)];
        if enter(svids[e.data].modeVdo[o - 1]) == -1 then (0, t)
        else (Header(supported[e.fx.value], o, 0, CMD_ENTER_MODE), t)
  }

  /**
   * The request, when one is built, is an Enter Mode initiator for svid
   * (for the default mode's SVID when svid is 0) at the entered position;
   * an opos past PDO_MODES never builds one; and the slots stay consistent.
   */
  lemma EnterRequestShape(supported: seq<u16>, svids: seq<SvidData>, svidCnt: nat, amodes: seq<Amode>, amodeIdx: nat,
                          svid: u16, opos: nat, enter: u32 -> int)
    requires Tables(supported, svids, svidCnt, amodes, amodeIdx)
    ensures var res := EnterRequest(supported, svids, svidCnt, amodes, amodeIdx, svid, opos, enter);
      var n := Allocate(supported, svids[..svidCnt], amodes, amodeIdx, svid).2;
      Tables(supported, svids, svidCnt, res.1, n)
      && (res.0 != 0 ==> VdoCmd(res.0) == CMD_ENTER_MODE && VdoCmdType(res.0) == 0 && VdoStructured(res.0)
                         && VdoOpos(res.0) == EnteredOpos(opos) && (svid != 0 ==> VdoVid(res.0) == svid))
      && (opos > PDO_MODES ==> res.0 == 0)
  {
    var a := Allocate(supported, svids[..svidCnt], amodes, amodeIdx, svid);
    if a.0 != -1 && ModeIdx(supported, amodes, amodeIdx, svid) == -1 {
      FirstPairSpec(supported, svids[..svidCnt], svid, 0, 0);
    }
  }

  /** The request and slots EnterRequest gives, case by case on Allocate's slot. */
  lemma EnterRequestCases(supported: seq<u16>, svids: seq<SvidData>, svidCnt: nat, amodes: seq<Amode>, amodeIdx: nat,
                          svid: u16, opos: nat, enter: u32 -> int)
    requires Tables(supported, svids, svidCnt, amodes, amodeIdx)
    ensures var res := EnterRequest(supported, svids, svidCnt, amodes, amodeIdx, svid, opos, enter);
      var a := Allocate(supported, svids[..svidCnt], amodes, amodeIdx, svid);
      var r := a.0; var o := EnteredOpos(opos);
      (r == -1 ==> res == (0, a.1))
      && (r != -1 ==>
            var e := a.1[r]; var fits := opos == 0 || opos <= svids[e.data].modeCnt;
            (res.0 != 0 <==> fits && enter(svids[e.data].modeVdo[o - 1]) != -1)
            && (res.0 != 0 ==> res.0 == Header(supported[e.fx.value], o, 0, CMD_ENTER_MODE))
            && res.1 == (if fits then a.1[r := e.(opos := o)] else a.1))
  {
  }

  /**
   * Once a mode is entered for svid, pd_alt_mode(svid) on the slots left
   * reports the position the request carries.
   */
  lemma EnteredModeReported(supported: seq<u16>, svids: seq<SvidData>, svidCnt: nat, amodes: seq<Amode>, amodeIdx: nat,
                            svid: u16, opos: nat, enter: u32 -> int)
    requires Tables(supported, svids, svidCnt, amodes, amodeIdx) && svid != 0
    requires EnterRequest(supported, svids, svidCnt, amodes, amodeIdx, svid, opos, enter).0 != 0
    ensures var res := EnterRequest(supported, svids, svidCnt, amodes, amodeIdx, svid, opos, enter);
      var n := Allocate(supported, svids[..svidCnt], amodes, amodeIdx, svid).2;
      var k := ModeIdx(supported, res.1, n, svid);
      k != -1 && res.1[k].opos == VdoOpos(res.0)
  {
    EnterRequestShape(supported, svids, svidCnt, amodes, amodeIdx, svid, opos, enter);
    if ModeIdx(supported, amodes, amodeIdx, svid) == -1 {
      FirstPairSpec(supported, svids[..svidCnt], svid, 0, 0);
    }
  }

  /** svs with the svid fields of entries s0 .. s0+n-1 set, in order, to the first n of u. */
  function AppendSvids(svs: seq<SvidData>, s0: nat, u: seq<u16>, n: nat): (r: seq<SvidData>)
    requires s0 + n <= |svs| && n <= |u|
    ensures |r| == |svs|
  {
    if n == 0 then svs
    else
      var prev := AppendSvids(svs, s0, u, n - 1);
      prev[s0 + n - 1 := prev[s0 + n - 1].(svid := u[n - 1])]
  }

  /**
   * Entry by entry: the appended range holds the new SVIDs, everything
   * else is untouched, and no entry's mode table changes.
   */
  lemma {:induction false} AppendSvidsAt(svs: seq<SvidData>, s0: nat, u: seq<u16>, n: nat)
    requires s0 + n <= |svs| && n <= |u|
    ensures forall j | 0 <= j < |svs| ::
      AppendSvids(svs, s0, u, n)[j]
        == if s0 <= j < s0 + n then svs[j].(svid := u[j - s0]) else svs[j]
  {
    if n > 0 {
      AppendSvidsAt(svs, s0, u, n - 1);
    }
  }

  /** Appending SVIDs leaves every entry's mode table as it was. */
  lemma AppendKeepsModes(svs: seq<SvidData>, s0: nat, u: seq<u16>, n: nat)
    requires s0 + n <= |svs| && n <= |u|
    ensures forall j | 0 <= j < |svs| ::
      AppendSvids(svs, s0, u, n)[j].modeVdo == svs[j].modeVdo
      && AppendSvids(svs, s0, u, n)[j].modeCnt == svs[j].modeCnt
  {
    AppendSvidsAt(svs, s0, u, n);
  }

  /** One step of the unpacking at word k. */
  lemma UnpackAt(p: seq<u32>, k: nat)
    requires k < |p|
    ensures UnpackSvids(p[k..]) ==
      if p[k] / 0x1_0000 == 0 then []
      else if p[k] % 0x1_0000 == 0 then [p[k] / 0x1_0000]
      else [p[k] / 0x1_0000, p[k] % 0x1_0000] + UnpackSvids(p[k + 1..])
  {
    assert p[k..][1..] == p[k + 1..];
  }

  /** The two SVIDs word j of a body holds. */
  lemma HalvesOf(words: seq<u32>, j: nat)
    requires j < |words|
    ensures Half(words, 2 * j) == words[j] / 0x1_0000 && Half(words, 2 * j + 1) == words[j] % 0x1_0000
  {
  }

  /**
   * Unpacking that has reached position j ends there exactly when the half
   * at j is zero, and otherwise takes that half.
   */
  lemma UnpackAtHalf(words: seq<u32>, j: nat)
    requires j < 2 * |words| && j <= |UnpackSvids(words)|
    ensures Half(words, j) == 0 <==> |UnpackSvids(words)| == j
    ensures j < |UnpackSvids(words)| ==> UnpackSvids(words)[j] == Half(words, j)
  {
    UnpackSvidsSpec(words);
  }

  /** After the scan has filled slots s0 .. i - 1: they hold the first i - s0 listed SVIDs. */
  predicate Scanned(svs: seq<SvidData>, s0: nat, words: seq<u32>, tbl: seq<SvidData>, i: nat)
  {
    && s0 <= i <= |svs|
    && i - s0 <= |UnpackSvids(words)|
    && tbl == AppendSvids(svs, s0, UnpackSvids(words), i - s0)
  }

  /**
   * Slot i of the scan takes half b of word j (the high half first): a zero
   * half ends the list there, any other is the next SVID appended.
   */
  lemma ScanStep(svs: seq<SvidData>, s0: nat, words: seq<u32>, tbl: seq<SvidData>, i: nat, j: nat, b: nat)
    requires Scanned(svs, s0, words, tbl, i) && i < |svs| && j < |words| && b < 2 && i - s0 == 2 * j + b
    ensures var h: u16 := if b == 0 then words[j] / 0x1_0000 else words[j] % 0x1_0000;
      && (h == 0 <==> |UnpackSvids(words)| == i - s0)
      && (h != 0 ==> Scanned(svs, s0, words, tbl[i := tbl[i].(svid := h)], i + 1))
  {
    HalvesOf(words, j);
    UnpackAtHalf(words, i - s0);
  }

  /** The scan stops with the table full, at the end of the list, or after every half of the body. */
  lemma ScanFinish(svs: seq<SvidData>, s0: nat, words: seq<u32>, tbl: seq<SvidData>, i: nat)
    requires Scanned(svs, s0, words, tbl, i)
    requires i == |svs| || |UnpackSvids(words)| == i - s0 || i - s0 == 2 * |words|
    ensures i - s0 == Min(|UnpackSvids(words)|, |svs| - s0)
    ensures tbl == AppendSvids(svs, s0, UnpackSvids(words), i - s0)
  {
  }

  /**
   * The scan loop of a Discover SVIDs response: starting at slot s0 it
   * stores the listed SVIDs, up to the first zero, while slots remain, and
   * returns the new table and count.
   */
  method ScanSvids(svs: seq<SvidData>, s0: nat, payload: seq<u32>) returns (tbl: seq<SvidData>, cnt: nat)
    requires |svs| == SVID_DISCOVERY_MAX && s0 <= SVID_DISCOVERY_MAX && |payload| == PAYLOAD_WORDS
    ensures cnt - s0 == Min(|UnpackSvids(payload[1..])|, SVID_DISCOVERY_MAX - s0) && s0 <= cnt
    ensures tbl == AppendSvids(svs, s0, UnpackSvids(payload[1..]), cnt - s0)
  {
    ghost var words := payload[1..];
    tbl := svs;
    var i := s0;
    var k := 1;
    while i < s0 + 12
      invariant Scanned(svs, s0, words, tbl, i) && 1 <= k <= PAYLOAD_WORDS && i - s0 == 2 * (k - 1)
      decreases s0 + 12 - i
    {
      if i >= SVID_DISCOVERY_MAX {
        break;
      }
      var w := payload[k];
      assert words[k - 1] == w;
      ScanStep(svs, s0, words, tbl, i, k - 1, 0);
      var svid0 := w / 0x1_0000;
      if svid0 == 0 {
        break;
      }
      tbl := tbl[i := tbl[i].(svid := svid0)];
      i := i + 1;
      if i >= SVID_DISCOVERY_MAX {
        break;
      }
      ScanStep(svs, s0, words, tbl, i, k - 1, 1);
      var svid1 := w % 0x1_0000;
      if svid1 == 0 {
        break;
      }
      tbl := tbl[i := tbl[i].(svid := svid1)];
      i := i + 1;
      k := k + 1;
    }
    ScanFinish(svs, s0, words, tbl, i);
    cnt := i;
  }

  class PolicyEngine {
    /** The SVIDs of the modes this DFP supports, in priority order. */
    const supported: seq<u16>
    var identity: seq<u32>
    var svidCnt: nat
    var svids: seq<SvidData>
    var svidIdx: nat
    var amodeIdx: nat
    var amodes: seq<Amode>

    ghost predicate Valid()
      reads this
    {
      |identity| == IDENTITY_WORDS && Tables(supported, svids, svidCnt, amodes, amodeIdx)
    }

    /** All tables cleared, as after a reset of the port. */
    ghost predicate IsReset()
      reads this
    {
      identity == seq(IDENTITY_WORDS, _ => 0) && svidCnt == 0 && svidIdx == 0 && amodeIdx == 0
      && svids == seq(SVID_DISCOVERY_MAX, _ => EmptySvid())
      && amodes == seq(PD_AMODE_COUNT, _ => EmptyAmode())
    }

    constructor (supported: seq<u16>)
      ensures this.supported == supported && Valid() && IsReset()
    {
      this.supported := supported;
      identity := seq(IDENTITY_WORDS, _ => 0);
      svidCnt := 0;
      svids := seq(SVID_DISCOVERY_MAX, _ => EmptySvid());
      svidIdx := 0;
      amodeIdx := 0;
      amodes := seq(PD_AMODE_COUNT, _ => EmptyAmode());
    }

    /** Clears every table of the port. */
    method Init()
      modifies this
      ensures Valid() && IsReset()
    {
      identity := seq(IDENTITY_WORDS, _ => 0);
      svidCnt := 0;
      svids := seq(SVID_DISCOVERY_MAX, _ => EmptySvid());
      svidIdx := 0;
      amodeIdx := 0;
      amodes := seq(PD_AMODE_COUNT, _ => EmptyAmode());
    }

    /**
     * Records a Discover Identity response of cnt objects: the port is reset
     * and the data objects after the header are kept, at most six; a count
     * of 0 makes the C size computation wrap, so all six words are copied.
     */
    method ConsumeIdentity(cnt: int, payload: seq<u32>)
      requires |payload| == PAYLOAD_WORDS && 0 <= cnt <= PAYLOAD_WORDS
      modifies this
      ensures Valid()
      ensures var n := if cnt == 0 then IDENTITY_WORDS else cnt - 1;
        identity == payload[1..1 + n] + seq(IDENTITY_WORDS - n, _ => 0)
      ensures svidCnt == 0 && svidIdx == 0 && amodeIdx == 0
      ensures svids == seq(SVID_DISCOVERY_MAX, _ => EmptySvid())
      ensures amodes == seq(PD_AMODE_COUNT, _ => EmptyAmode())
    {
      var n := if cnt == 0 then IDENTITY_WORDS else cnt - 1;
      Init();
      identity := payload[1..1 + n] + identity[n..];
    }

    /**
     * Appends the SVIDs of a Discover SVIDs response to the table: the listed
     * SVIDs up to the first zero, as many as fit in SVID_DISCOVERY_MAX. Only
     * the svid fields of the new entries change.
     */
    method ConsumeSvids(payload: seq<u32>)
      requires Valid() && |payload| == PAYLOAD_WORDS
      modifies this
      ensures Valid()
      ensures var u := UnpackSvids(payload[1..]);
        var n := Min(|u|, SVID_DISCOVERY_MAX - old(svidCnt));
        svidCnt == old(svidCnt) + n && svids == AppendSvids(old(svids), old(svidCnt), u, n)
      ensures identity == old(identity) && svidIdx == old(svidIdx)
      ensures amodeIdx == old(amodeIdx) && amodes == old(amodes)
    {
      var s0 := svidCnt;
      var tbl, cnt := ScanSvids(svids, s0, payload);
      AppendKeepsModes(svids, s0, UnpackSvids(payload[1..]), cnt - s0);
      svids := tbl;
      svidCnt := cnt;
    }

    /** The Discover Modes request for the next SVID, none once every SVID was asked. */
    function DiscoverModes(): (r: Option<u32>)
      reads this
      requires Valid()
      ensures r.Some? <==> svidIdx < svidCnt
      ensures r.Some? ==> VdoVid(r.value) == svids[svidIdx].svid
                          && VdoCmd(r.value) == CMD_DISCOVER_MODES && VdoCmdType(r.value) == 0
    {
      if svidIdx >= svidCnt then None
      else Some(Header(svids[svidIdx].svid, 0, 0, CMD_DISCOVER_MODES))
    }

    /**
     * Records a Discover Modes response of cnt objects for the current SVID
     * and moves to the next one. A response without data objects leaves a
     * negative mode count and copies nothing.
     */
    method ConsumeModes(cnt: int, payload: seq<u32>)
      requires Valid() && svidIdx < SVID_DISCOVERY_MAX
      requires |payload| == PAYLOAD_WORDS && 0 <= cnt <= PAYLOAD_WORDS
      modifies this
      ensures Valid()
      ensures svidIdx == old(svidIdx) + 1
      ensures svids[old(svidIdx)].modeCnt == cnt - 1
      ensures svids[old(svidIdx)].svid == old(svids[svidIdx].svid)
      ensures cnt >= 1 ==>
                svids[old(svidIdx)].modeVdo[..cnt - 1] == payload[1..cnt]
                && svids[old(svidIdx)].modeVdo[cnt - 1..] == old(svids[svidIdx].modeVdo[cnt - 1..])
      ensures cnt == 0 ==> svids[old(svidIdx)].modeVdo == old(svids[svidIdx].modeVdo)
      ensures forall j | 0 <= j < SVID_DISCOVERY_MAX && j != old(svidIdx) :: svids[j] == old(svids[j])
      ensures svidCnt == old(svidCnt) && identity == old(identity)
      ensures amodeIdx == old(amodeIdx) && amodes == old(amodes)
    {
      var idx := svidIdx;
      var e := svids[idx];
      var vdo := if cnt >= 1 then payload[1..cnt] + e.modeVdo[cnt - 1..] else e.modeVdo;
      svids := svids[idx := SvidData(e.svid, cnt - 1, vdo)];
      svidIdx := svidIdx + 1;
    }

    /** The active slot running svid: the first slot whose mode has that SVID, or -1. */
    function GetModeIdx(svid: u16): (r: int)
      reads this
      requires Valid()
      ensures -1 <= r < PD_AMODE_COUNT
      ensures r >= 0 ==> r < amodeIdx && supported[amodes[r].fx.value] == svid
      ensures forall i | 0 <= i < amodeIdx && (r == -1 || i < r) :: supported[amodes[i].fx.value] != svid
    {
      ModeIdx(supported, amodes, amodeIdx, svid)
    }

    /** The object position entered for svid, or -1 when no slot runs it. */
    function AltMode(svid: u16): (r: int)
      reads this
      requires Valid()
      ensures r == -1 <==> GetModeIdx(svid) == -1
      ensures r != -1 ==> r == amodes[GetModeIdx(svid)].opos
    {
      var i := GetModeIdx(svid);
      if i == -1 then -1 else amodes[i].opos
    }

    /**
     * Returns the slot for svid, allocating one when none runs it yet: the
     * first supported mode (in table order) that matches a discovered SVID,
     * restricted to svid unless svid is 0. -1 when the slots are full or
     * nothing matches.
     */
    method AllocateMode(svid: u16) returns (r: int)
      requires Valid()
      modifies this
      ensures Valid()
      ensures -1 <= r < PD_AMODE_COUNT
      ensures old(GetModeIdx(svid)) != -1 ==> r == old(GetModeIdx(svid)) && amodes == old(amodes) && amodeIdx == old(amodeIdx)
      ensures old(GetModeIdx(svid)) == -1 && old(amodeIdx) == PD_AMODE_COUNT ==> r == -1 && amodes == old(amodes)
      ensures old(GetModeIdx(svid)) == -1 && r != -1 ==>
                r == old(amodeIdx) && amodeIdx == old(amodeIdx) + 1
                && amodes[r].fx.Some? && amodes[r].opos == old(amodes[amodeIdx].opos)
                && amodes[r].fx.value < |supported| && amodes[r].data < svidCnt
                && PairMatches(supported, svids[..svidCnt], svid, amodes[r].fx.value, amodes[r].data)
                && (forall i, j | 0 <= i < |supported| && 0 <= j < svidCnt
                      && (i < amodes[r].fx.value || (i == amodes[r].fx.value && j < amodes[r].data)) ::
                      !PairMatches(supported, svids[..svidCnt], svid, i, j))
                && amodes == old(amodes)[r := amodes[r]]
      ensures old(GetModeIdx(svid)) == -1 && r == -1 ==>
                amodes == old(amodes) && amodeIdx == old(amodeIdx)
                && (old(amodeIdx) < PD_AMODE_COUNT ==>
                      forall i, j | 0 <= i < |supported| && 0 <= j < svidCnt :: !PairMatches(supported, svids[..svidCnt], svid, i, j))
      ensures svids == old(svids) && svidCnt == old(svidCnt) && svidIdx == old(svidIdx) && identity == old(identity)
      ensures (r, amodes, amodeIdx) == old(Allocate(supported, svids[..svidCnt], amodes, amodeIdx, svid))
    {
      var m := GetModeIdx(svid);
      if m != -1 {
        return m;
      }
      if amodeIdx == PD_AMODE_COUNT {
        return -1;
      }
      ghost var svs := svids[..svidCnt];
      var i := 0;
      while i < |supported|
        invariant 0 <= i <= |supported|
        invariant forall i', j | 0 <= i' < i && 0 <= j < svidCnt :: !PairMatches(supported, svs, svid, i', j)
        invariant FirstPair(supported, svs, svid, 0, 0) == FirstPair(supported, svs, svid, i, 0)
      {
        var j := 0;
        while j < svidCnt
          invariant 0 <= j <= svidCnt
          invariant forall j' | 0 <= j' < j :: !PairMatches(supported, svs, svid, i, j')
          invariant FirstPair(supported, svs, svid, 0, 0) == FirstPair(supported, svs, svid, i, j)
        {
          if svids[j].svid == supported[i] && (svid == 0 || svids[j].svid == svid) {
            assert PairMatches(supported, svs, svid, i, j);
            amodes := amodes[amodeIdx := amodes[amodeIdx].(fx := Some(i), data := j)];
            amodeIdx := amodeIdx + 1;
            return amodeIdx - 1;
          }
          j := j + 1;
        }
        i := i + 1;
      }
      return -1;
    }

    /**
     * Enters a mode for svid (0: the default mode) at object position opos
     * (0: the first). Returns the Enter Mode request to send, or 0 when no
     * slot can be had, opos exceeds the SVID's mode count, or the mode's
     * enter hook refuses with -1. The slot keeps an allocation and opos set
     * before a later refusal.
     */
    method EnterMode(svid: u16, opos: nat, enter: u32 -> int) returns (vdo: u32)
      requires Valid()
      modifies this
      ensures Valid()
      ensures svids == old(svids) && svidCnt == old(svidCnt) && svidIdx == old(svidIdx)
      ensures vdo != 0 ==> VdoCmd(vdo) == CMD_ENTER_MODE && VdoCmdType(vdo) == 0
                           && VdoOpos(vdo) == (if opos == 0 then 1 else opos)
                           && (svid != 0 ==> VdoVid(vdo) == svid)
      ensures vdo != 0 ==> exists r | 0 <= r < amodeIdx ::
                supported[amodes[r].fx.value] == VdoVid(vdo) && amodes[r].opos == VdoOpos(vdo)
                && amodes[r].opos <= Max(1, svids[amodes[r].data].modeCnt)
      ensures opos > PDO_MODES ==> vdo == 0
      ensures identity == old(identity)
      ensures (vdo, amodes) == old(EnterRequest(supported, svids, svidCnt, amodes, amodeIdx, svid, opos, enter))
      ensures var a := old(Allocate(supported, svids[..svidCnt], amodes, amodeIdx, svid));
        var r := a.0; var o := EnteredOpos(opos);
        amodeIdx == a.2
        && (r == -1 ==> vdo == 0 && amodes == a.1)
        && (r != -1 ==>
              var e := a.1[r]; var fits := opos == 0 || opos <= svids[e.data].modeCnt;
              (vdo != 0 <==> fits && enter(svids[e.data].modeVdo[o - 1]) != -1)
              && (vdo != 0 ==> vdo == Header(supported[e.fx.value], o, 0, CMD_ENTER_MODE))
              && amodes == (if fits then a.1[r := e.(opos := o)] else a.1))
    {
      EnterRequestCases(supported, svids, svidCnt, amodes, amodeIdx, svid, opos, enter);
      var r := AllocateMode(svid);
      if r == -1 {
        return 0;
      }
      vdo := EnterSlot(r, opos, enter);
    }

    /**
     * pd_dfp_enter_mode once slot r is allocated: an explicit opos past the
     * SVID's mode count is refused with 0; otherwise the slot takes the
     * position (0: the first) and the enter hook is asked with that mode's
     * capabilities; when it accepts, the Enter Mode request for the slot's
     * SVID at that position is returned, else 0.
     */
    method EnterSlot(r: nat, opos: nat, enter: u32 -> int) returns (vdo: u32)
      requires Valid() && r < amodeIdx
      modifies this
      ensures Valid()
      ensures identity == old(identity) && svids == old(svids) && svidCnt == old(svidCnt)
      ensures svidIdx == old(svidIdx) && amodeIdx == old(amodeIdx)
      ensures var e := old(amodes[r]); var o := EnteredOpos(opos);
        var fits := opos == 0 || opos <= svids[e.data].modeCnt;
        (vdo != 0 <==> fits && enter(svids[e.data].modeVdo[o - 1]) != -1)
        && (vdo != 0 ==> vdo == Header(supported[e.fx.value], o, 0, CMD_ENTER_MODE))
        && amodes == (if fits then old(amodes)[r := e.(opos := o)] else old(amodes))
      ensures vdo != 0 ==> VdoCmd(vdo) == CMD_ENTER_MODE && VdoCmdType(vdo) == 0 && VdoOpos(vdo) == EnteredOpos(opos)
                           && supported[amodes[r].fx.value] == VdoVid(vdo) && amodes[r].opos == VdoOpos(vdo)
                           && amodes[r].opos <= Max(1, svids[amodes[r].data].modeCnt)
    {
      var slot := amodes[r];
      var newOpos: nat;
      if opos == 0 {
        newOpos := 1;
      } else if opos <= svids[slot.data].modeCnt {
        newOpos := opos;
      } else {
        return 0;
      }
      amodes := amodes[r := slot.(opos := newOpos)];
      var caps := svids[slot.data].modeVdo[newOpos - 1];
      if enter(caps) == -1 {
        return 0;
      }
      vdo := Header(supported[slot.fx.value], newOpos, 0, CMD_ENTER_MODE);
    }

    /**
     * Exits a mode. svid 0 exits everything and resets the port (returns 0);
     * otherwise the slot running svid must have opos entered, and is left
     * with opos 0 (returns 1); any mismatch returns 0 and changes nothing.
     */
    method ExitMode(svid: u16, opos: int) returns (r: int)
      requires Valid()
      modifies this
      ensures Valid()
      ensures svid == 0 ==> r == 0 && IsReset()
      ensures svid != 0 ==> (r == 1 <==> old(GetModeIdx(svid)) != -1 && old(amodes[GetModeIdx(svid)].opos) == opos)
      ensures svid != 0 && r == 1 ==>
                amodes == old(amodes)[old(GetModeIdx(svid)) := old(amodes[GetModeIdx(svid)]).(opos := 0)]
      ensures svid != 0 && r == 0 ==> amodes == old(amodes)
      ensures svid != 0 ==> svids == old(svids) && svidCnt == old(svidCnt) && amodeIdx == old(amodeIdx)
      ensures svid != 0 ==> identity == old(identity) && svidIdx == old(svidIdx)
    {
      if svid == 0 {
        Init();
        return 0;
      }
      var i := GetModeIdx(svid);
      if i == -1 || amodes[i].opos != opos {
        return 0;
      }
      amodes := amodes[i := amodes[i].(opos := 0)];
      return 1;
    }

    /**
     * The DisplayPort pin assignment for the partner's status: the pin mode
     * of the entered DisplayPort mode's capabilities, 0 when none is entered.
     * The code as written reads the capabilities also when the slot's mode
     * has been exited (DpCapsIndexAsWritten); this definition returns 0 then.
     */
    function DpPinMode(status: u32): (r: bv8)
      reads this
      requires Valid()
      ensures GetModeIdx(USB_SID_DISPLAYPORT) == -1 ==> r == 0
      ensures var i := GetModeIdx(USB_SID_DISPLAYPORT);
        i != -1 && amodes[i].opos > 0 ==>
          r == PinMode(svids[amodes[i].data].modeVdo[amodes[i].opos - 1], status)
    {
      var i := GetModeIdx(USB_SID_DISPLAYPORT);
      if i == -1 || amodes[i].opos == 0 then 0
      else PinMode(svids[amodes[i].data].modeVdo[amodes[i].opos - 1], status)
    }

    /**
     * The entry of the DisplayPort slot's capability table that
     * pd_dfp_dp_get_pin_mode reads as written: opos - 1 whenever a slot
     * runs DisplayPort, so entry -1, before the table, once the mode has
     * been exited (opos 0, as ExitMode leaves it).
     */
    function DpCapsIndexAsWritten(): (r: Option<int>)
      reads this
      requires Valid()
      ensures r.None? <==> GetModeIdx(USB_SID_DISPLAYPORT) == -1
      ensures r.Some? ==> -1 <= r.value < PDO_MODES
      ensures r.Some? && r.value >= 0 ==> r.value == amodes[GetModeIdx(USB_SID_DISPLAYPORT)].opos - 1
    {
      var i := GetModeIdx(USB_SID_DISPLAYPORT);
      if i == -1 then None else Some(amodes[i].opos - 1)
    }

    /** A DisplayPort slot whose mode was exited: as written the read is entry -1; DpPinMode gives no pin mode. */
    lemma ExitedModeReadsBeforeTableAsWritten(status: u32)
      requires Valid() && GetModeIdx(USB_SID_DISPLAYPORT) != -1
      requires amodes[GetModeIdx(USB_SID_DISPLAYPORT)].opos == 0
      ensures DpCapsIndexAsWritten() == Some(-1)
      ensures DpPinMode(status) == 0
    {
    }
  }
}
