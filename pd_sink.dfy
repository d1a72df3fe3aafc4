// Sink power-contract selection of the USB Power Delivery policy engine:
// choosing a Power Data Object (PDO) from a source's capabilities, turning
// it into a current/voltage pair, building the Request Data Object (RDO)
// and checking a partner's request when acting as a source
// (sections 6.4.1 and 6.4.2 of USB Power Delivery 3.0).

module PdSink {

  import opened Words

  // Board limits of the sink.
  const PD_OPERATING_POWER_MW := 2250
  const PD_MAX_POWER_MW := 15000
  const PD_MAX_CURRENT_MA := 3000
  const PD_MAX_VOLTAGE_MV := 5000
  // A capabilities message carries at most seven data objects.
  const PDO_MAX_OBJECTS := 7

  // PDO type, bits 31..30.
  const PDO_TYPE_FIXED := 0
  const PDO_TYPE_BATTERY := 1
  const PDO_TYPE_VARIABLE := 2
  const PDO_TYPE_AUGMENTED := 3

  // The board's own source capabilities: one Fixed 5 V / 1.5 A object with
  // the USB-communications-capable flag (bit 26).
  const BOARD_SRC_PDO: u32 := 0x0400_0000 + 100 * 1024 + 150

  function PdoType(pdo: u32): nat { pdo / 0x4000_0000 }

  /** The voltage field, bits 19..10, in millivolts. */
  function PdoMv(pdo: u32): nat { (pdo / 1024) % 1024 * 50 }

  /** Bits 9..0: current in 10 mA units, or power in 250 mW units for a Battery PDO. */
  function PdoLow(pdo: u32): nat { pdo % 1024 }

  // ---------------------------------------------------------------
  // PDO selection
  // ---------------------------------------------------------------

  /** A PDO the selector may take under the voltage cap maxMv. */
  predicate Eligible(pdo: u32, maxMv: int, validInput: int -> bool)
  {
    PdoType(pdo) != PDO_TYPE_AUGMENTED && PdoMv(pdo) != 0 && validInput(PdoMv(pdo))
    && PdoMv(pdo) <= Min(maxMv, PD_MAX_VOLTAGE_MV)
  }

  /** Power of a PDO in microwatts as the selector rates it, capped at the board maximum. */
  function RatedPower(pdo: u32): nat
  {
    var uw := if PdoType(pdo) == PDO_TYPE_BATTERY then 250000 * PdoLow(pdo)
              else Min(PdoLow(pdo) * 10, PD_MAX_CURRENT_MA) * PdoMv(pdo);
    Min(uw, PD_MAX_POWER_MW * 1000)
  }

  predicate Usable(pdo: u32, maxMv: int, validInput: int -> bool)
  {
    Eligible(pdo, maxMv, validInput) && RatedPower(pdo) > 0
  }

  /**
   * i is the selector's answer for caps: the first eligible PDO of strictly
   * greatest rated power, or 0 when no eligible PDO offers any power.
   */
  ghost predicate IsSelection(caps: seq<u32>, maxMv: int, validInput: int -> bool, i: int)
  {
    if exists j | 0 <= j < |caps| :: Usable(caps[j], maxMv, validInput) then
      0 <= i < |caps| && Usable(caps[i], maxMv, validInput)
      && (forall j | 0 <= j < |caps| && Eligible(caps[j], maxMv, validInput) ::
            RatedPower(caps[j]) <= RatedPower(caps[i]))
      && (forall j | 0 <= j < i && Eligible(caps[j], maxMv, validInput) ::
            RatedPower(caps[j]) < RatedPower(caps[i]))
    else
      i == 0
  }

  /** The selection is determined by the capabilities: at most one index satisfies it. */
  lemma SelectionUnique(caps: seq<u32>, maxMv: int, validInput: int -> bool, i: int, k: int)
    requires IsSelection(caps, maxMv, validInput, i) && IsSelection(caps, maxMv, validInput, k)
    ensures i == k
  {
  }

  // ---------------------------------------------------------------
  // Current and voltage from a PDO
  // ---------------------------------------------------------------

  /**
   * Current (mA) and voltage (mV) the sink asks for from pdo. For a Battery
   * PDO the current is what the offered power, capped at the board maximum,
   * allows at that voltage (the code as written caps with a value in the
   * wrong unit, see ExtractPdoPowerAsWritten).
   */
  function ExtractPdoPower(pdo: u32): (r: (nat, nat))
    ensures r.1 == PdoMv(pdo)
    ensures r.1 == 0 ==> r.0 == 0
    ensures r.0 <= PD_MAX_CURRENT_MA
    ensures r.0 * r.1 <= PD_MAX_POWER_MW * 1000
    ensures PdoType(pdo) == PDO_TYPE_BATTERY ==> r.0 * r.1 <= 250000 * PdoLow(pdo)
    ensures PdoType(pdo) != PDO_TYPE_BATTERY ==> r.0 <= 10 * PdoLow(pdo)
  {
    var mv := PdoMv(pdo);
    if mv == 0 then (0, 0)
    else if PdoType(pdo) == PDO_TYPE_BATTERY then (BatteryCurrent(PdoLow(pdo), mv), mv)
    else (FixedCurrent(PdoLow(pdo), mv), mv)
  }

  /** Current for a Battery PDO of low * 250 mW at mv, within that power and the board's. */
  function BatteryCurrent(low: nat, mv: nat): (ma: nat)
    requires mv > 0
    ensures ma <= PD_MAX_CURRENT_MA
    ensures ma * mv <= PD_MAX_POWER_MW * 1000 && ma * mv <= 250000 * low
  {
    var cap := 1000 * Min(250000 * low / 1000, PD_MAX_POWER_MW);
    var ma := Min(cap / mv, PD_MAX_CURRENT_MA);
    CurrentWithinPower(cap, mv, ma);
    ma
  }

  /** Current for a Fixed or Variable PDO of low * 10 mA at mv, within the board's power. */
  function FixedCurrent(low: nat, mv: nat): (ma: nat)
    requires mv > 0
    ensures ma <= PD_MAX_CURRENT_MA && ma <= 10 * low
    ensures ma * mv <= PD_MAX_POWER_MW * 1000
  {
    var cap := PD_MAX_POWER_MW * 1000;
    var ma := Min(Min(10 * low, cap / mv), PD_MAX_CURRENT_MA);
    CurrentWithinPower(cap, mv, ma);
    ma
  }

  /** A current no larger than cap / mv draws at most cap at mv. */
  lemma CurrentWithinPower(cap: nat, mv: nat, ma: nat)
    requires mv > 0 && ma <= cap / mv
    ensures ma * mv <= cap
  {
    assert ma * mv <= (cap / mv) * mv;
  }

  // The C conversions of the code as written: an int product wraps at 32
  // bits, MIN against an unsigned long long constant compares and yields
  // unsigned long long, and the result is stored back into int or uint32_t.
  function WrapI32(x: int): int { (x + 0x8000_0000) % 0x1_0000_0000 - 0x8000_0000 }
  function AsU64(x: int): nat { x % 0x1_0000_0000_0000_0000 }

  /**
   * The Battery branch as written: the power in microwatts, times 1000, is
   * capped by the board maximum in milliwatts. The current stays within the
   * board's limit, as the final MIN promises.
   */
  function ExtractPdoPowerAsWritten(pdo: u32): (r: (nat, nat))
    ensures r.1 == PdoMv(pdo)
    ensures r.0 <= PD_MAX_CURRENT_MA
    ensures PdoType(pdo) != PDO_TYPE_BATTERY ==> r == ExtractPdoPower(pdo)
  {
    var mv := PdoMv(pdo);
    if mv == 0 then (0, 0)
    else if PdoType(pdo) == PDO_TYPE_BATTERY then (BatteryCurrentAsWritten(PdoLow(pdo), mv), mv)
    else (ExtractPdoPower(pdo).0, mv)
  }

  /** The Battery current as written, from the power field and the voltage. */
  function BatteryCurrentAsWritten(low: nat, mv: nat): (ma: nat)
    requires low < 1024 && mv > 0
    ensures ma <= PD_MAX_CURRENT_MA
  {
    var capped := CappedPowerAsWritten(low);
    var maxMa := WrapI32(1000 * capped / mv);
    Min(AsU64(maxMa), PD_MAX_CURRENT_MA) % 0x1_0000_0000
  }

  /**
   * MIN(1000 * uw, PD_MAX_POWER_MW) as written, with uw = 250000 * low: the
   * int product wraps, the comparison is made in unsigned long long, and
   * every non-zero power field yields the board maximum itself.
   */
  function CappedPowerAsWritten(low: nat): (capped: nat)
    requires low < 1024
    ensures capped == if low == 0 then 0 else PD_MAX_POWER_MW
  {
    var uw := 250000 * low;
    var x := 1000 * uw;
    assert x == 250000000 * low;
    if low > 0 then
      WrapNeverSmall(low);
      WrappedAtLeast(x);
      Min(AsU64(WrapI32(x)), PD_MAX_POWER_MW)
    else
      assert WrapI32(x) == 0;
      Min(AsU64(WrapI32(x)), PD_MAX_POWER_MW)
  }

  /** For every power field from 1 to 1023, 250000000 times it, reduced mod 2^32, is at least 15000. */
  lemma WrapNeverSmall(low: nat)
    requires 1 <= low < 1024
    ensures (250000000 * low) % 0x1_0000_0000 >= 15000
  {
  }

  /** A product whose low 32 bits are at least 15000 is, as int and then unsigned long long, still at least 15000. */
  lemma WrappedAtLeast(x: int)
    requires x % 0x1_0000_0000 >= 15000
    ensures AsU64(WrapI32(x)) >= 15000
  {
  }

  /** Values below 2^31 pass through int and unsigned long long unchanged. */
  lemma SmallUnchanged(y: int)
    requires 0 <= y < 0x8000_0000
    ensures WrapI32(y) == y && AsU64(y) == y
  {
  }

  /** A quotient by a positive divisor is no larger than the dividend. */
  lemma QuotientBelow(n: nat, d: nat)
    requires d > 0
    ensures n / d <= n
  {
    var q := n / d;
    MulMono(1, d, q);
    assert d * q <= n;
  }

  /**
   * As written, a Battery PDO with any non-zero power gets the current of
   * the board's whole 15 W at its voltage (at most 3 A), whatever power it
   * offers; a zero power field gets 0 mA.
   */
  lemma BatteryCapIgnoresPower(low: nat, mv: nat)
    requires low < 1024 && mv > 0
    ensures BatteryCurrentAsWritten(low, mv) ==
      if low == 0 then 0 else Min(PD_MAX_POWER_MW * 1000 / mv, PD_MAX_CURRENT_MA)
  {
    var capped := CappedPowerAsWritten(low);
    var q := 1000 * capped / mv;
    QuotientBelow(1000 * capped, mv);
    SmallUnchanged(q);
  }

  /** A 1 W Battery PDO at 5 V: as written the sink asks for 3 A, i.e. 15 W; the intended current is 200 mA. */
  lemma BatteryPowerIgnoredAsWritten(pdo: u32)
    requires pdo == 0x4001_9004
    ensures PdoType(pdo) == PDO_TYPE_BATTERY && PdoMv(pdo) == 5000 && PdoLow(pdo) == 4
    ensures ExtractPdoPowerAsWritten(pdo).0 == 3000
    ensures ExtractPdoPower(pdo).0 == 200
  {
    assert pdo / 1024 == 0x10_0064 && pdo % 1024 == 4;
    BatteryCapIgnoresPower(4, 5000);
  }

  // ---------------------------------------------------------------
  // Request Data Object
  // ---------------------------------------------------------------

  function RdoPos(rdo: u32): nat { rdo / 0x1000_0000 % 8 }
  function RdoOp(rdo: u32): nat { rdo / 1024 % 1024 }
  function RdoMax(rdo: u32): nat { rdo % 1024 }
  predicate CapMismatch(rdo: u32) { rdo / 0x0400_0000 % 2 == 1 }
  predicate GiveBack(rdo: u32) { rdo / 0x0800_0000 % 2 == 1 }

  /**
   * Packs an RDO from its object position, the operating and maximum fields
   * and the capability-mismatch flag; every other bit is clear.
   */
  function PackRdo(pos: nat, op: nat, max: nat, mismatch: bool): (rdo: u32)
    requires pos < 8 && op < 1024 && max < 1024
    ensures RdoPos(rdo) == pos && RdoOp(rdo) == op && RdoMax(rdo) == max
    ensures CapMismatch(rdo) <==> mismatch
    ensures !GiveBack(rdo)
    ensures rdo == pos * 0x1000_0000 + (if mismatch then 0x0400_0000 else 0) + op * 1024 + max
  {
    var f := if mismatch then 1 else 0;
    var rdo := pos * 0x1000_0000 + f * 0x0400_0000 + op * 1024 + max;
    DivModSum(pos, f * 0x0400_0000 + op * 1024 + max, 0x1000_0000);
    DivModSum(pos * 0x4_0000 + f * 0x1_0000 + op, max, 1024);
    DivModSum(pos * 0x100 + f * 0x40, op, 1024);
    DivModSum(pos * 4 + f, op * 1024 + max, 0x0400_0000);
    DivModSum(pos * 2, f * 0x0400_0000 + op * 1024 + max, 0x0800_0000);
    DivModSum(pos, f, 2);
    DivModSum(pos * 2 + f, 0, 2);
    rdo
  }

  datatype RequestType = RequestVSafe5V | RequestMax

  /** Result of checking a request: EC_SUCCESS or EC_ERROR_INVAL. */
  datatype Status = Success | ErrorInval

  /**
   * The source side's check of a partner's RDO against the capabilities
   * srcPdos it advertised.
   */
  function CheckRequestedVoltage(rdo: u32, srcPdos: seq<u32>): (r: Status)
    ensures r == Success <==>
      1 <= RdoPos(rdo) <= |srcPdos|
      && RdoOp(rdo) <= PdoLow(srcPdos[RdoPos(rdo) - 1])
      && (RdoMax(rdo) <= PdoLow(srcPdos[RdoPos(rdo) - 1]) || CapMismatch(rdo))
  {
    var idx := RdoPos(rdo);
    if idx == 0 || idx > |srcPdos| then ErrorInval
    else
      var pdoMa := PdoLow(srcPdos[idx - 1]);
      if RdoOp(rdo) > pdoMa then ErrorInval
      else if RdoMax(rdo) > pdoMa && !CapMismatch(rdo) then ErrorInval
      else Success
  }

  /** The board advertises only object 1: any other position is refused. */
  lemma BoardRejectsOtherPositions(rdo: u32)
    requires RdoPos(rdo) != 1
    ensures CheckRequestedVoltage(rdo, [BOARD_SRC_PDO]) == ErrorInval
  {
  }

  /** The sink's policy state for one port: the last source capabilities and the voltage cap. */
  class SinkPort {
    const srcCaps: array<u32>
    var srcCapCnt: nat
    var maxRequestMv: int

    ghost predicate Valid()
      reads this
    {
      srcCaps.Length == PDO_MAX_OBJECTS && srcCapCnt <= PDO_MAX_OBJECTS
    }

    constructor ()
      ensures Valid() && fresh(srcCaps)
      ensures srcCapCnt == 0 && maxRequestMv == PD_MAX_VOLTAGE_MV
      ensures srcCaps[..] == seq(PDO_MAX_OBJECTS, _ => 0)
    {
      srcCaps := new u32[PDO_MAX_OBJECTS](_ => 0);
      srcCapCnt := 0;
      maxRequestMv := PD_MAX_VOLTAGE_MV;
    }

    function Caps(): seq<u32>
      reads this, srcCaps
      requires Valid()
    {
      srcCaps[..srcCapCnt]
    }

    /** Stores a received capabilities message; later objects keep their old values. */
    method ProcessSourceCap(caps: seq<u32>)
      requires Valid() && |caps| <= PDO_MAX_OBJECTS
      modifies this, srcCaps
      ensures Valid() && Caps() == caps
      ensures srcCaps[|caps|..] == old(srcCaps[|caps|..])
      ensures maxRequestMv == old(maxRequestMv)
    {
      srcCapCnt := |caps|;
      var i := 0;
      while i < |caps|
        modifies srcCaps
        invariant 0 <= i <= |caps|
        invariant srcCaps[..i] == caps[..i]
        invariant srcCaps[|caps|..] == old(srcCaps[|caps|..])
      {
        srcCaps[i] := caps[i];
        i := i + 1;
      }
    }

    method SetMaxVoltage(mv: int)
      modifies this
      ensures maxRequestMv == mv && srcCapCnt == old(srcCapCnt)
    {
      maxRequestMv := mv;
    }

    /**
     * Scans the stored capabilities and returns the selected index and PDO:
     * the first eligible PDO of greatest rated power, index 0 if none.
     */
    method FindPdoIndex(maxMv: int, validInput: int -> bool) returns (ret: nat, pdo: u32)
      requires Valid()
      ensures ret < PDO_MAX_OBJECTS && pdo == srcCaps[ret]
      ensures srcCapCnt > 0 ==> ret < srcCapCnt
      ensures IsSelection(Caps(), maxMv, validInput, ret)
    {
      var caps := Caps();
      ret := 0;
      var curUw := 0;
      var i := 0;
      while i < srcCapCnt
        invariant 0 <= i <= srcCapCnt
        invariant curUw == 0 ==> ret == 0
        invariant curUw == 0 ==> forall j | 0 <= j < i :: !Usable(caps[j], maxMv, validInput)
        invariant curUw > 0 ==> ret < i && Usable(caps[ret], maxMv, validInput)
                                && RatedPower(caps[ret]) == curUw
        invariant forall j | 0 <= j < i && Eligible(caps[j], maxMv, validInput) ::
                    RatedPower(caps[j]) <= curUw
        invariant forall j | 0 <= j < ret && Eligible(caps[j], maxMv, validInput) ::
                    RatedPower(caps[j]) < curUw
      {
        var p := srcCaps[i];
        assert p == caps[i];
        if PdoType(p) != PDO_TYPE_AUGMENTED {
          var mv := PdoMv(p);
          if mv != 0 && validInput(mv) {
            var uw := if PdoType(p) == PDO_TYPE_BATTERY then 250000 * PdoLow(p)
                      else Min(PdoLow(p) * 10, PD_MAX_CURRENT_MA) * mv;
            if mv <= Min(maxMv, PD_MAX_VOLTAGE_MV) {
              uw := Min(uw, PD_MAX_POWER_MW * 1000);
              if uw > curUw {
                ret := i;
                curUw := uw;
              }
            }
          }
        }
        i := i + 1;
      }
      pdo := srcCaps[ret];
    }

    /**
     * Builds the RDO the sink sends: object 1 for a vSafe5V request,
     * otherwise the selected object under maxRequestMv.
     */
    method BuildRequest(reqType: RequestType, validInput: int -> bool)
      returns (rdo: u32, ma: nat, mv: nat)
      requires Valid()
      ensures 1 <= RdoPos(rdo) <= PDO_MAX_OBJECTS
      ensures srcCapCnt > 0 ==> RdoPos(rdo) <= srcCapCnt
      ensures reqType == RequestVSafe5V ==> RdoPos(rdo) == 1
      ensures reqType == RequestMax ==>
                IsSelection(Caps(), maxRequestMv, validInput, RdoPos(rdo) - 1)
      ensures (rdo, ma, mv) == RequestFor(RdoPos(rdo) - 1, srcCaps[RdoPos(rdo) - 1])
    {
      var idx: nat;
      var pdo: u32;
      if reqType == RequestVSafe5V {
        idx := 0;
        pdo := srcCaps[0];
      } else {
        idx, pdo := FindPdoIndex(maxRequestMv, validInput);
      }
      var r := RequestFor(idx, pdo);
      rdo, ma, mv := r.0, r.1, r.2;
    }
  }

  /**
   * The request for object idx (0-based) of value pdo: the current and
   * voltage ExtractPdoPower gives, the mismatch flag set exactly when that
   * is less than the operating power, and operating and maximum fields both
   * set to the current (Fixed/Variable, 10 mA units) or the power
   * (Battery, 250 mW units), since the sink cannot give back.
   */
  function RequestFor(idx: nat, pdo: u32): (r: (u32, nat, nat))
    requires idx < PDO_MAX_OBJECTS
    ensures RdoPos(r.0) == idx + 1
    ensures (r.1, r.2) == ExtractPdoPower(pdo)
    ensures CapMismatch(r.0) <==> r.1 * r.2 < 1000 * PD_OPERATING_POWER_MW
    ensures PdoType(pdo) != PDO_TYPE_BATTERY ==> RdoOp(r.0) == r.1 / 10 && RdoMax(r.0) == r.1 / 10
    ensures PdoType(pdo) == PDO_TYPE_BATTERY ==>
              RdoOp(r.0) == r.1 * r.2 / 1000 / 250 && RdoMax(r.0) == RdoOp(r.0)
    ensures !GiveBack(r.0)
  {
    var (ma, mv) := ExtractPdoPower(pdo);
    var uw := ma * mv;
    var mismatch := uw < 1000 * PD_OPERATING_POWER_MW;
    if PdoType(pdo) == PDO_TYPE_BATTERY then
      var mw := uw / 1000;
      (PackRdo(idx + 1, mw / 250, mw / 250, mismatch), ma, mv)
    else
      (PackRdo(idx + 1, ma / 10, ma / 10, mismatch), ma, mv)
  }

  /**
   * A Fixed or Variable request the sink builds from a source's capabilities
   * passes that source's check: the requested current never exceeds the
   * object's current and the object position is in range.
   */
  lemma {:induction false} BuiltRequestAccepted(caps: seq<u32>, idx: nat, rdo: u32, ma: nat, mv: nat)
    requires idx < |caps| && RdoPos(rdo) == idx + 1
    requires PdoType(caps[idx]) != PDO_TYPE_BATTERY
    requires (ma, mv) == ExtractPdoPower(caps[idx])
    requires RdoOp(rdo) == ma / 10 && RdoMax(rdo) == ma / 10
    ensures CheckRequestedVoltage(rdo, caps) == Success
  {
    assert ma <= 10 * PdoLow(caps[idx]);
    assert ma / 10 <= PdoLow(caps[idx]);
  }
}
