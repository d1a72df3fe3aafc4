// The Structured VDM dispatcher of the policy engine (section 6.4.4 of USB
// Power Delivery 3.0) and the DisplayPort alternate-mode responder this
// board runs as an Upstream-Facing Port (VESA DisplayPort Alt Mode on USB
// Type-C). An incoming VDM arrives in a seven-word payload; the dispatcher
// answers an Initiator request through the responder and shapes the reply
// header as ACK, NAK or BUSY, and, on a DFP build, feeds responses into the
// discovery tables of PdDfp.

module PdSvdm {

  import opened Words
  import opened PdDfp

  const CMDT_INIT := 0
  const CMDT_RSP_ACK := 1
  const CMDT_RSP_NAK := 2
  const CMDT_RSP_BUSY := 3

  /** Bitwise or of two values below 8. */
  function Or3(a: nat, b: nat): (r: nat)
    requires a < 8 && b < 8
    ensures r < 8
    ensures a < 4 && b < 4 ==> r < 4
  {
    ((a as bv3) | (b as bv3)) as nat
  }

  /**
   * A structured VDM header word split into its fields: SVID (bits 31..16),
   * structured flag (15), version (14..13), reserved (12..11), object
   * position (10..8), command type (7..6), reserved (5) and command (4..0).
   */
  datatype VdmHeader = VdmHeader(vid: u16, structured: nat, version: nat, rsvHigh: nat,
                                 opos: nat, cmdType: nat, rsvLow: nat, cmd: nat)

  /** Every field within its width. */
  predicate Fits(h: VdmHeader)
  {
    h.structured < 2 && h.version < 4 && h.rsvHigh < 4 && h.opos < 8
    && h.cmdType < 4 && h.rsvLow < 2 && h.cmd < 32
  }

  /** The fields of a header word; those PdDfp names read the same. */
  function Decode(w: u32): (h: VdmHeader)
    ensures Fits(h)
    ensures h.vid == VdoVid(w) && h.opos == VdoOpos(w) && h.cmdType == VdoCmdType(w) && h.cmd == VdoCmd(w)
    ensures h.structured == 1 <==> VdoStructured(w)
  {
    VdmHeader(w / 0x1_0000, w / 0x8000 % 2, w / 0x2000 % 4, w / 0x800 % 4,
              w / 0x100 % 8, w / 0x40 % 4, w / 0x20 % 2, w % 32)
  }

  /** The header word with the given fields. */
  function Encode(h: VdmHeader): u32
    requires Fits(h)
  {
    h.vid * 0x1_0000 + h.structured * 0x8000 + h.version * 0x2000 + h.rsvHigh * 0x800
    + h.opos * 0x100 + h.cmdType * 0x40 + h.rsvLow * 0x20 + h.cmd
  }

  /** The four high fields of an encoded header read back as encoded. */
  lemma DecodeEncodeHigh(h: VdmHeader)
    requires Fits(h)
    ensures var w := Encode(h);
      w / 0x1_0000 == h.vid && w / 0x8000 % 2 == h.structured
      && w / 0x2000 % 4 == h.version && w / 0x800 % 4 == h.rsvHigh
  {
    var a0 := h.vid;
    var a1 := a0 * 2 + h.structured;
    var a2 := a1 * 4 + h.version;
    var a3 := a2 * 4 + h.rsvHigh;
    var low11 := h.opos * 0x100 + h.cmdType * 0x40 + h.rsvLow * 0x20 + h.cmd;
    var low13 := h.rsvHigh * 0x800 + low11;
    var low15 := h.version * 0x2000 + low13;
    DivModSum(a0, h.structured * 0x8000 + low15, 0x1_0000);
    DivModSum(a1, low15, 0x8000);
    DivModSum(a0, h.structured, 2);
    DivModSum(a2, low13, 0x2000);
    DivModSum(a1, h.version, 4);
    DivModSum(a3, low11, 0x800);
    DivModSum(a2, h.rsvHigh, 4);
  }

  /** The four low fields of an encoded header read back as encoded. */
  lemma DecodeEncodeLow(h: VdmHeader)
    requires Fits(h)
    ensures var w := Encode(h);
      w / 0x100 % 8 == h.opos && w / 0x40 % 4 == h.cmdType
      && w / 0x20 % 2 == h.rsvLow && w % 32 == h.cmd
  {
    var a3 := ((h.vid * 2 + h.structured) * 4 + h.version) * 4 + h.rsvHigh;
    var a4 := a3 * 8 + h.opos;
    var a5 := a4 * 4 + h.cmdType;
    var a6 := a5 * 2 + h.rsvLow;
    var low6 := h.rsvLow * 0x20 + h.cmd;
    var low8 := h.cmdType * 0x40 + low6;
    assert Encode(h) == a4 * 0x100 + low8;
    DivModSum(a4, low8, 0x100);
    DivModSum(a3, h.opos, 8);
    DivModSum(a5, low6, 0x40);
    DivModSum(a4, h.cmdType, 4);
    DivModSum(a6, h.cmd, 0x20);
    DivModSum(a5, h.rsvLow, 2);
  }

  /** Encoding then decoding gives back every field. */
  lemma DecodeEncode(h: VdmHeader)
    requires Fits(h)
    ensures Decode(Encode(h)) == h
  {
    DecodeEncodeHigh(h);
    DecodeEncodeLow(h);
  }

  /** Decoding then encoding gives back the word: no bit is lost. */
  lemma EncodeDecode(w: u32)
    ensures Encode(Decode(w)) == w
  {
    var q1 := w / 0x8000;
    var q2 := w / 0x2000;
    var q3 := w / 0x800;
    var q4 := w / 0x100;
    var q5 := w / 0x40;
    var q6 := w / 0x20;
    assert q1 / 2 == w / 0x1_0000;
    assert q2 / 4 == q1;
    assert q3 / 4 == q2;
    assert q4 / 8 == q3;
    assert q5 / 4 == q4;
    assert q6 / 2 == q5;
  }

  /** The header with command type cleared (the C masks bits 7..6 off). */
  function ClearCmdType(h: VdmHeader): VdmHeader { h.(cmdType := CMDT_INIT) }

  /** The header with the port's version or-ed into its version field. */
  function OrVersion(h: VdmHeader, ver: nat): (r: VdmHeader)
    requires Fits(h) && ver < 4
    ensures Fits(r)
  {
    h.(version := Or3(h.version, ver))
  }

  // ---------------------------------------------------------------
  // Reply shaping
  // ---------------------------------------------------------------

  /**
   * The reply to an Initiator request whose handler returned rsize: ACK
   * carrying the handler's objects when rsize is positive, NAK when it is 0
   * and BUSY when it is negative, both of those with the header alone. The
   * request's header (command type already cleared) is kept, and the
   * version the port speaks is or-ed in.
   */
  function InitReply(h: VdmHeader, rsize: int, ver: nat): (r: (VdmHeader, int))
    requires Fits(h) && h.cmdType == CMDT_INIT && ver < 4
    ensures Fits(r.0)
    ensures r.0.cmdType == CMDT_RSP_ACK <==> rsize >= 1
    ensures r.0.cmdType == CMDT_RSP_NAK <==> rsize == 0
    ensures r.0.cmdType == CMDT_RSP_BUSY <==> rsize < 0
    ensures r.1 >= 1 && (rsize >= 1 ==> r.1 == rsize) && (rsize < 1 ==> r.1 == 1)
    ensures r.0.(cmdType := h.cmdType, version := h.version) == h
    ensures r.0.version == Or3(h.version, ver)
  {
    var t := if rsize >= 1 then CMDT_RSP_ACK else if rsize == 0 then CMDT_RSP_NAK else CMDT_RSP_BUSY;
    assert Or3(0, t) == t;
    (OrVersion(h.(cmdType := Or3(0, t)), ver), Max(rsize, 1))
  }

  /** On a DFP build, a BUSY answer to a discovery request makes the port resend it; anything else ends. */
  function BusyResend(cmd: nat): (rsize: int)
    ensures rsize == 1 <==> cmd in {CMD_DISCOVER_IDENT, CMD_DISCOVER_SVID, CMD_DISCOVER_MODES}
    ensures rsize == 0 || rsize == 1
  {
    if cmd == CMD_DISCOVER_IDENT || cmd == CMD_DISCOVER_SVID || cmd == CMD_DISCOVER_MODES then 1
    else 0
  }

  // ---------------------------------------------------------------
  // The DisplayPort UFP responder
  // ---------------------------------------------------------------

  /** ID header: alternate-mode adapter (product type 5), modal, Google's vendor ID. */
  const VDO_IDH: u32 := 0x2C00_18D1
  /** Product VDO: product ID 0x500C, bcdDevice 0x0001. */
  const VDO_PRODUCT: u32 := 0x500C_0001
  /** AMA VDO: hardware and firmware version 1, VBUS required, billboard-only USB. */
  const VDO_AMA: u32 := 0x1100_000B
  /** The one SVID the responder lists: DisplayPort, followed by a terminating 0. */
  const VDO_SVID_DP: u32 := 0xFF01_0000
  /** The one DisplayPort mode: UFP_D receptacle with pin assignments C and D, DP 1.3 signalling. */
  const VDO_DP_MODE: u32 := 0x000C_0045
  /** The only object position the responder accepts. */
  const OPOS := 1

  /** Product type of an ID header, bits 29..27. */
  function IdhProductType(w: u32): nat { w / 0x800_0000 % 8 }

  /** The identity the responder reports is that of an alternate-mode adapter with modal operation. */
  lemma IdentityIsModalAdapter()
    ensures IdhProductType(VDO_IDH) == 5 && VDO_IDH / 0x400_0000 % 2 == 1 && VDO_IDH % 0x1_0000 == 0x18D1
    ensures VdoVid(VDO_SVID_DP) == USB_SID_DISPLAYPORT && VDO_SVID_DP % 0x1_0000 == 0
  {
  }

  /** The DisplayPort status word: connected as UFP_D, with HPD high and configured exactly when enabled. */
  function DpStatusWord(enabled: bool): (w: u32)
    ensures w % 4 == 2 && w / 4 % 2 == 0 && w / 0x10 % 8 == 0 && w / 0x100 == 0
    ensures w / 8 % 2 == 1 <==> enabled
    ensures w / 0x80 % 2 == 1 <==> enabled
  {
    if enabled then 0x8A else 0x02
  }

  /** A configuration VDO that switches the UFP to DisplayPort (configuration 1 or 2). */
  predicate DpOn(cfg: u32) { cfg % 4 == 1 || cfg % 4 == 2 }

  /** The commands the responder has a handler for. */
  predicate HasUfpHandler(cmd: nat)
  {
    cmd in {CMD_DISCOVER_IDENT, CMD_DISCOVER_SVID, CMD_DISCOVER_MODES, CMD_ENTER_MODE,
            CMD_DP_STATUS, CMD_DP_CONFIG, CMD_EXIT_MODE}
  }

  /**
   * What a responder handler returns for command cmd with header h, and the
   * payload it leaves: identity (five objects), the SVID list (two), the DP
   * mode for the DisplayPort SVID (else NAK), Enter Mode for DisplayPort at
   * position 1 (else NAK), DP status at position 1 (else NAK), DP configure
   * and Exit Mode (always ACK). Other commands have no handler.
   */
  function UfpRespond(cmd: nat, p: seq<u32>, dpEnabled: bool): (r: (seq<u32>, int))
    requires |p| == PAYLOAD_WORDS
    ensures |r.0| == PAYLOAD_WORDS && r.0[0] == p[0]
    ensures cmd == CMD_DISCOVER_IDENT ==> r.1 == 5 && r.0[1..5] == [VDO_IDH, 0, VDO_PRODUCT, VDO_AMA] && r.0[5..] == p[5..]
    ensures cmd == CMD_DISCOVER_SVID ==> r.1 == 2 && r.0 == p[1 := VDO_SVID_DP]
    ensures cmd == CMD_DISCOVER_MODES ==>
              (r.1 == 2 <==> VdoVid(p[0]) == USB_SID_DISPLAYPORT)
              && (r.1 == 2 ==> r.0 == p[1 := VDO_DP_MODE]) && (r.1 != 2 ==> r.1 == 0 && r.0 == p)
    ensures cmd == CMD_ENTER_MODE ==>
              (r.1 == 1 <==> VdoVid(p[0]) == USB_SID_DISPLAYPORT && VdoOpos(p[0]) == OPOS)
              && (r.1 != 1 ==> r.1 == 0) && r.0 == p
    ensures cmd == CMD_DP_STATUS ==>
              (r.1 == 2 <==> VdoOpos(p[0]) == OPOS)
              && (r.1 == 2 ==> r.0 == p[1 := DpStatusWord(dpEnabled)]) && (r.1 != 2 ==> r.1 == 0 && r.0 == p)
    ensures cmd in {CMD_DP_CONFIG, CMD_EXIT_MODE} ==> r.1 == 1 && r.0 == p
    ensures !HasUfpHandler(cmd) ==> r.1 == 0 && r.0 == p
  {
    if cmd == CMD_DISCOVER_IDENT then
      (p[1 := VDO_IDH][2 := 0][3 := VDO_PRODUCT][4 := VDO_AMA], 5)
    else if cmd == CMD_DISCOVER_SVID then (p[1 := VDO_SVID_DP], 2)
    else if cmd == CMD_DISCOVER_MODES then
      if VdoVid(p[0]) != USB_SID_DISPLAYPORT then (p, 0) else (p[1 := VDO_DP_MODE], 2)
    else if cmd == CMD_ENTER_MODE then
      (p, if VdoVid(p[0]) != USB_SID_DISPLAYPORT || VdoOpos(p[0]) != OPOS then 0 else 1)
    else if cmd == CMD_DP_STATUS then
      if VdoOpos(p[0]) != OPOS then (p, 0) else (p[1 := DpStatusWord(dpEnabled)], 2)
    else if cmd == CMD_DP_CONFIG || cmd == CMD_EXIT_MODE then (p, 1)
    else (p, 0)
  }

  /**
   * A DFP running this code, facing this responder's mode and its status
   * word, picks pin assignment C: the mode offers C and D, and the status
   * never asks for multi-function.
   */
  lemma ResponderGetsPinC(enabled: bool)
    ensures PinMode(VDO_DP_MODE, DpStatusWord(enabled)) == PIN_C
  {
  }

  /**
   * The port's vendor-defined-message state: the mode the UFP responder has
   * entered (0: none, else OPOS) and whether the DFP has configured
   * DisplayPort.
   */
  class VdmPort {
    var altMode: int
    var dpEnabled: bool

    constructor ()
      ensures altMode == 0 && !dpEnabled
    {
      altMode := 0;
      dpEnabled := false;
    }

    /** The object position entered for any SVID, 0 when none. */
    function AltMode(svid: u16): (r: int)
      reads this
      ensures r == altMode
    {
      altMode
    }

    /** Enter Mode: accepted only for DisplayPort at position OPOS, which it records. */
    method EnterModeResponse(h: u32) returns (rsize: int)
      modifies this
      ensures rsize == 1 <==> VdoVid(h) == USB_SID_DISPLAYPORT && VdoOpos(h) == OPOS
      ensures rsize == 0 || rsize == 1
      ensures altMode == (if rsize == 1 then OPOS else old(altMode))
      ensures dpEnabled == old(dpEnabled)
    {
      if VdoVid(h) != USB_SID_DISPLAYPORT || VdoOpos(h) != OPOS {
        return 0;
      }
      altMode := OPOS;
      return 1;
    }

    /** Exit Mode: always acknowledged; leaves the mode and disables DisplayPort. */
    method ExitModeResponse() returns (rsize: int)
      modifies this
      ensures rsize == 1 && altMode == 0 && !dpEnabled
    {
      altMode := 0;
      dpEnabled := false;
      return 1;
    }

    /** DP Configure: enables DisplayPort when the configuration selects it; never disables it. */
    method DpConfigResponse(cfg: u32) returns (rsize: int)
      modifies this
      ensures rsize == 1 && altMode == old(altMode)
      ensures dpEnabled == (old(dpEnabled) || DpOn(cfg))
    {
      if DpOn(cfg) {
        dpEnabled := true;
      }
      return 1;
    }

    /**
     * Runs the responder's handler for an Initiator request of command cmd
     * whose header is in payload[0]: writes its objects into payload and
     * returns their count (0: NAK), updating the mode state.
     */
    method InitRespond(cmd: nat, payload: array<u32>) returns (n: int)
      requires payload.Length == PAYLOAD_WORDS
      modifies this, payload
      ensures (payload[..], n) == UfpRespond(cmd, old(payload[..]), old(dpEnabled))
      ensures cmd == CMD_ENTER_MODE ==> altMode == (if n == 1 then OPOS else old(altMode)) && dpEnabled == old(dpEnabled)
      ensures cmd == CMD_EXIT_MODE ==> altMode == 0 && !dpEnabled
      ensures cmd == CMD_DP_CONFIG ==> altMode == old(altMode) && dpEnabled == (old(dpEnabled) || DpOn(old(payload[1])))
      ensures cmd !in {CMD_ENTER_MODE, CMD_EXIT_MODE, CMD_DP_CONFIG} ==>
                altMode == old(altMode) && dpEnabled == old(dpEnabled)
    {
      if cmd == CMD_DISCOVER_IDENT {
        payload[1], payload[2], payload[3], payload[4] := VDO_IDH, 0, VDO_PRODUCT, VDO_AMA;
        n := 5;
      } else if cmd == CMD_DISCOVER_SVID {
        payload[1] := VDO_SVID_DP;
        n := 2;
      } else if cmd == CMD_DISCOVER_MODES {
        if VdoVid(payload[0]) != USB_SID_DISPLAYPORT {
          n := 0;
        } else {
          payload[1] := VDO_DP_MODE;
          n := 2;
        }
      } else if cmd == CMD_ENTER_MODE {
        n := EnterModeResponse(payload[0]);
      } else if cmd == CMD_DP_STATUS {
        if VdoOpos(payload[0]) != OPOS {
          n := 0;
        } else {
          payload[1] := DpStatusWord(dpEnabled);
          n := 2;
        }
      } else if cmd == CMD_DP_CONFIG {
        n := DpConfigResponse(payload[1]);
      } else if cmd == CMD_EXIT_MODE {
        n := ExitModeResponse();
      } else {
        n := 0;
      }
    }

    /**
     * Handles one incoming structured VDM of cnt objects in payload and
     * returns the number of objects of the reply written back into payload
     * (0: no reply). ver is the VDM version the port speaks; on a DFP build
     * (dfp) responses feed the discovery tables pe, and fx holds the
     * active mode's hooks.
     */
    method Svdm(cnt: int, payload: array<u32>, ver: nat, dfp: bool, pe: PolicyEngine, fx: ModeFx)
      returns (rsize: int)
      requires payload.Length == PAYLOAD_WORDS && 0 <= cnt <= PAYLOAD_WORDS && ver < 4
      requires pe.Valid() && KeepsLength(fx)
      requires dfp && Decode(payload[0]).cmdType == CMDT_RSP_ACK && Decode(payload[0]).cmd == CMD_DISCOVER_MODES ==>
                 pe.svidIdx < SVID_DISCOVERY_MAX
      modifies this, payload, pe
      ensures pe.Valid()
      ensures var h := Decode(old(payload[0])); var req := Encode(ClearCmdType(h));
        h.cmdType == CMDT_INIT && !(dfp && h.cmd == CMD_ATTENTION) ==>
          var rsp := UfpRespond(h.cmd, old(payload[..])[0 := req], old(dpEnabled));
          var reply := InitReply(ClearCmdType(h), rsp.1, ver);
          payload[1..] == rsp.0[1..] && payload[0] == Encode(reply.0) && rsize == reply.1
      ensures var h := Decode(old(payload[0]));
        h.cmdType == CMDT_INIT && h.cmd == CMD_ENTER_MODE ==>
          altMode == (if h.vid == USB_SID_DISPLAYPORT && h.opos == OPOS then OPOS else old(altMode))
      ensures var h := Decode(old(payload[0]));
        h.cmdType == CMDT_INIT && h.cmd == CMD_EXIT_MODE ==> altMode == 0 && !dpEnabled
      ensures var h := Decode(old(payload[0]));
        h.cmdType == CMDT_INIT && h.cmd == CMD_DP_CONFIG ==> dpEnabled == (old(dpEnabled) || DpOn(old(payload[1])))
      ensures var h := Decode(old(payload[0]));
        h.cmdType == CMDT_INIT && h.cmd !in {CMD_ENTER_MODE, CMD_EXIT_MODE, CMD_DP_CONFIG} ==>
          altMode == old(altMode) && dpEnabled == old(dpEnabled)
      ensures var h := Decode(old(payload[0]));
        h.cmdType == CMDT_INIT && dfp && h.cmd == CMD_ATTENTION ==>
          rsize == 0 && payload[..] == old(Attended(pe, fx, payload[..][0 := Encode(ClearCmdType(h))]))
      ensures var h := Decode(old(payload[0]));
        h.cmdType == CMDT_RSP_ACK && !dfp ==>
          rsize == 0 && payload[..] == old(payload[..])[0 := WithVersion(Encode(ClearCmdType(h)), ver)]
      ensures var h := Decode(old(payload[0]));
        h.cmdType == CMDT_RSP_ACK && dfp && h.cmd == CMD_DISCOVER_IDENT ==>
          rsize == 1 && payload[0] == WithVersion(DiscoverSvidsRequest(), ver)
      ensures var h := Decode(old(payload[0]));
        h.cmdType == CMDT_RSP_ACK && dfp && h.cmd == CMD_DISCOVER_SVID ==>
          (rsize == 1 <==> pe.svidIdx < pe.svidCnt)
          && (rsize == 1 ==> payload[0] == WithVersion(pe.DiscoverModes().value, ver))
      ensures var h := Decode(old(payload[0]));
        (h.cmdType == CMDT_RSP_ACK && dfp && h.cmd in {CMD_DP_CONFIG, CMD_EXIT_MODE, CMD_ATTENTION})
        ==> rsize == 0
      ensures var h := Decode(old(payload[0]));
        h.cmdType == CMDT_RSP_BUSY && dfp ==>
          rsize == BusyResend(h.cmd) && payload[..] == old(payload[..])[0 := Encode(ClearCmdType(h))]
      ensures var h := Decode(old(payload[0]));
        h.cmdType == CMDT_RSP_NAK || (!dfp && h.cmdType == CMDT_RSP_BUSY) ==>
          rsize == 0 && payload[..] == old(payload[..])[0 := Encode(ClearCmdType(h))]
      ensures Decode(old(payload[0])).cmdType != CMDT_INIT ==> altMode == old(altMode) && dpEnabled == old(dpEnabled)
      ensures !dfp ==> unchanged(pe)
    {
      var h := Decode(payload[0]);
      var cmd := h.cmd;
      var hdr := ClearCmdType(h);
      payload[0] := Encode(hdr);
      DecodeEncode(hdr);
      if h.cmdType == CMDT_INIT {
        if dfp && cmd == CMD_ATTENTION {
          ConsumeAttention(payload, pe, fx);
          return 0;
        }
        var n := InitRespond(cmd, payload);
        var reply := InitReply(hdr, n, ver);
        payload[0] := Encode(reply.0);
        rsize := reply.1;
      } else if h.cmdType == CMDT_RSP_ACK {
        rsize := AckRespond(cmd, cnt, payload, ver, dfp, pe, fx);
      } else if h.cmdType == CMDT_RSP_BUSY && dfp {
        rsize := BusyResend(cmd);
      } else {
        rsize := 0;
      }
    }
  }

  /**
   * The hooks of the active mode's driver (struct amode_fx): enter sees the
   * capabilities of the mode entered; status and config answer an ACK,
   * returning the size of the next request and the payload as they leave
   * it; attention, when the driver has one, may rewrite the payload too.
   */
  datatype ModeFx = ModeFx(enter: u32 -> int,
                           status: seq<u32> -> (int, seq<u32>),
                           config: seq<u32> -> (int, seq<u32>),
                           attention: Option<seq<u32> -> seq<u32>>)

  /** The hooks write through the payload pointer: the message keeps its seven words. */
  ghost predicate KeepsLength(fx: ModeFx)
  {
    (forall p: seq<u32> :: |fx.status(p).1| == |p|)
    && (forall p: seq<u32> :: |fx.config(p).1| == |p|)
    && (fx.attention.Some? ==> forall p: seq<u32> :: |fx.attention.value(p)| == |p|)
  }

  /**
   * dfp_consume_attention: the payload after the attention hook of the slot
   * running the header's SVID, called only when that slot has the header's
   * object position entered and the driver has the hook.
   */
  function Attended(pe: PolicyEngine, fx: ModeFx, p: seq<u32>): seq<u32>
    reads pe
    requires pe.Valid() && |p| == PAYLOAD_WORDS
  {
    var m := pe.GetModeIdx(VdoVid(p[0]));
    if m != -1 && pe.amodes[m].opos == VdoOpos(p[0]) && fx.attention.Some? then fx.attention.value(p) else p
  }

  /** PD_VDO_OPOS extracts bits 10..8: applied to an object position below 8 it gives 0, so or-ing it keeps the word. */
  lemma OposOfPositionIsZero(opos: nat)
    requires opos < 8
    ensures VdoOpos(opos) == 0
  {
  }

  /** Copies what a hook left into the payload array. */
  method WriteBack(payload: array<u32>, p: seq<u32>)
    requires |p| == payload.Length
    modifies payload
    ensures payload[..] == p
  {
    forall i | 0 <= i < payload.Length {
      payload[i] := p[i];
    }
  }

  /** dfp_consume_attention on the payload array. */
  method ConsumeAttention(payload: array<u32>, pe: PolicyEngine, fx: ModeFx)
    requires payload.Length == PAYLOAD_WORDS && pe.Valid() && KeepsLength(fx)
    modifies payload
    ensures payload[..] == Attended(pe, fx, old(payload[..]))
  {
    var m := pe.GetModeIdx(VdoVid(payload[0]));
    if m != -1 && pe.amodes[m].opos == VdoOpos(payload[0]) && fx.attention.Some? {
      WriteBack(payload, fx.attention.value(payload[..]));
    }
  }

  /** A header word with the port's version or-ed into its version field; every other bit kept. */
  function WithVersion(w: u32, ver: nat): (r: u32)
    requires ver < 4
    ensures Decode(r) == OrVersion(Decode(w), ver)
  {
    DecodeEncode(OrVersion(Decode(w), ver));
    Encode(OrVersion(Decode(w), ver))
  }

  /** Or-s the port's version into the header in payload[0]; the other words stay. */
  method StampVersion(payload: array<u32>, ver: nat)
    requires payload.Length == PAYLOAD_WORDS && ver < 4
    modifies payload
    ensures payload[0] == WithVersion(old(payload[0]), ver) && payload[1..] == old(payload[1..])
  {
    payload[0] := WithVersion(payload[0], ver);
  }

  /**
   * The answer to an ACK: a DFP build handles it (DfpAck), any other build
   * sends nothing; the header left in payload goes out as an Initiator
   * request (or-ing command type 0 changes no bit) with the port's version
   * or-ed in.
   */
  method AckRespond(cmd: nat, cnt: int, payload: array<u32>, ver: nat, dfp: bool, pe: PolicyEngine, fx: ModeFx)
    returns (rsize: int)
    requires payload.Length == PAYLOAD_WORDS && 0 <= cnt <= PAYLOAD_WORDS && ver < 4
    requires pe.Valid() && KeepsLength(fx)
    requires dfp && cmd == CMD_DISCOVER_MODES ==> pe.svidIdx < SVID_DISCOVERY_MAX
    requires cmd == VdoCmd(payload[0])
    modifies payload, pe
    ensures pe.Valid()
    ensures !(dfp && cmd in {CMD_ENTER_MODE, CMD_DP_STATUS}) ==> payload[1..] == old(payload[1..])
    ensures !dfp ==> rsize == 0 && payload[0] == WithVersion(old(payload[0]), ver) && unchanged(pe)
    ensures dfp && cmd == CMD_DISCOVER_IDENT ==> rsize == 1 && payload[0] == WithVersion(DiscoverSvidsRequest(), ver)
    ensures dfp && cmd == CMD_DISCOVER_SVID ==>
              (rsize == 1 <==> pe.svidIdx < pe.svidCnt)
              && (rsize == 1 ==> payload[0] == WithVersion(pe.DiscoverModes().value, ver))
    ensures dfp && cmd in {CMD_DP_CONFIG, CMD_EXIT_MODE, CMD_ATTENTION} ==> rsize == 0
  {
    if dfp {
      rsize := DfpAck(cmd, cnt, payload, pe, fx);
    } else {
      rsize := 0;
    }
    StampVersion(payload, ver);
  }

  /**
   * A DFP's handling of an ACK of cnt objects: identity, SVID and mode
   * responses are recorded and the next discovery request is built in
   * place, entering the default mode once every SVID's modes are known;
   * an Enter Mode ACK asks the mode's status, a DP status ACK is first
   * passed to the attention hook, then asks the mode's configuration. Returns the size of the next request, 0 for none.
   */
  method DfpAck(cmd: nat, cnt: int, payload: array<u32>, pe: PolicyEngine, fx: ModeFx)
    returns (rsize: int)
    requires payload.Length == PAYLOAD_WORDS && 0 <= cnt <= PAYLOAD_WORDS
    requires pe.Valid() && KeepsLength(fx)
    requires cmd == CMD_DISCOVER_MODES ==> pe.svidIdx < SVID_DISCOVERY_MAX
    requires cmd == VdoCmd(payload[0])
    modifies payload, pe
    ensures pe.Valid()
    ensures cmd !in {CMD_ENTER_MODE, CMD_DP_STATUS} ==> payload[1..] == old(payload[1..])
    ensures var m := old(pe.GetModeIdx(VdoVid(payload[0])));
      cmd == CMD_ENTER_MODE ==>
        (m == -1 ==> rsize == 0 && payload[..] == old(payload[..]))
        && (m != -1 && old(pe.amodes[m].opos) != 0 ==> (rsize, payload[..]) == fx.status(old(payload[..])))
        && (m != -1 && pe.amodes[m].opos == 0 ==> rsize == 1 && payload[..] == old(payload[..]))
        && (m != -1 && pe.amodes[m].opos != 0 ==> (rsize, payload[..]) == fx.status(old(payload[..])))
    ensures var m := old(pe.GetModeIdx(VdoVid(payload[0]))); var a := old(Attended(pe, fx, payload[..]));
      cmd == CMD_DP_STATUS ==>
        (m != -1 && old(pe.amodes[m].opos) != 0 ==> (rsize, payload[..]) == fx.config(a))
        && (m == -1 || old(pe.amodes[m].opos) == 0 ==> rsize == 0 && payload[..] == a)
        && unchanged(pe)
    ensures cmd == CMD_DISCOVER_IDENT ==>
              rsize == 1 && payload[0] == DiscoverSvidsRequest() && pe.svidCnt == 0 && pe.amodeIdx == 0
    ensures cmd == CMD_DISCOVER_SVID ==>
              (rsize == 1 <==> pe.svidIdx < pe.svidCnt)
              && (rsize == 1 ==> payload[0] == pe.DiscoverModes().value)
              && (rsize == 0 ==> payload[0] == old(payload[0]))
    ensures cmd == CMD_DISCOVER_MODES ==>
              pe.svidIdx == old(pe.svidIdx) + 1
              && (pe.svidIdx < pe.svidCnt ==> rsize == 1 && payload[0] == pe.DiscoverModes().value)
              && (pe.svidIdx >= pe.svidCnt ==> (rsize == 1 <==> payload[0] != 0))
              && (pe.svidIdx >= pe.svidCnt ==>
                    (payload[0], pe.amodes)
                      == EnterRequest(pe.supported, pe.svids, pe.svidCnt, old(pe.amodes), old(pe.amodeIdx), 0, 0, fx.enter))
    ensures cmd in {CMD_DP_CONFIG, CMD_EXIT_MODE, CMD_ATTENTION} ==> rsize == 0 && payload[0] == old(payload[0])
    ensures cmd !in {CMD_DISCOVER_IDENT, CMD_DISCOVER_SVID, CMD_DISCOVER_MODES, CMD_ENTER_MODE, CMD_DP_STATUS} ==>
              rsize == 0 && payload[0] == old(payload[0])
  {
    var modep := pe.GetModeIdx(VdoVid(payload[0]));
    rsize := 1;
    if cmd == CMD_DISCOVER_IDENT {
      pe.ConsumeIdentity(cnt, payload[..]);
      payload[0] := DiscoverSvidsRequest();
    } else if cmd == CMD_DISCOVER_SVID {
      pe.ConsumeSvids(payload[..]);
      var req := pe.DiscoverModes();
      if req.Some? {
        payload[0] := req.value;
      } else {
        rsize := 0;
      }
    } else if cmd == CMD_DISCOVER_MODES {
      pe.ConsumeModes(cnt, payload[..]);
      var req := pe.DiscoverModes();
      if req.Some? {
        payload[0] := req.value;
      } else {
        var vdo := pe.EnterMode(0, 0, fx.enter);
        payload[0] := vdo;
        rsize := if vdo != 0 then 1 else 0;
      }
    } else if cmd == CMD_ENTER_MODE {
      if modep == -1 {
        rsize := 0;
      } else {
        if pe.amodes[modep].opos == 0 {
          var _ := pe.EnterMode(0, 0, fx.enter);
        }
        if pe.amodes[modep].opos != 0 {
          var r := fx.status(payload[..]);
          rsize := r.0;
          WriteBack(payload, r.1);
          // payload[0] |= PD_VDO_OPOS(opos): the extractor of an object position below 8 is 0.
          OposOfPositionIsZero(pe.amodes[modep].opos);
        }
      }
    } else if cmd == CMD_DP_STATUS {
      ConsumeAttention(payload, pe, fx);
      if modep != -1 && pe.amodes[modep].opos != 0 {
        var r := fx.config(payload[..]);
        rsize := r.0;
        WriteBack(payload, r.1);
      } else {
        rsize := 0;
      }
    } else {
      rsize := 0;
    }
  }
}
