/** btconfig.c, masterblaster.h: the settings of Master Blaster mode and the functions that
    change them. A setting is an unsigned char unless it says otherwise. */
module MasterBlaster {
  import opened Basics

  // ---------- the menu ----------

  const CR := 'n'    // continuous rx
  const CT := 'c'    // continuous tx
  const LR := 'q'    // LE rx
  const LT := 'w'    // LE tx
  const LTM := 'y'   // LE tx payload
  const CX := 'u'    // continuous tx type
  const TM := 'm'    // test mode
  const HM := 'h'    // hop mode
  const TF := 't'    // tx frequency
  const RF := 'r'    // rx frequency
  const PT := 'p'    // packet type
  const DL := 'l'    // data length
  const PO := 'o'    // power
  const BA := 'a'    // device address
  const SB := 'k'    // bit error rate type
  const GB := 'g'    // get bit error rate
  const RX := 'd'    // rx test
  const TX := 'e'    // tx test
  const EN := 'j'    // start
  const ST := 's'    // stop
  const EX := 'x'    // exit
  const EXX := 'b'   // exit without reset

  const ALIASES: seq<char> :=
    [CR, CT, LR, LT, LTM, CX, TM, HM, TF, RF, PT, DL, PO, BA, SB, GB, RX, TX, EN, ST, EX, EXX]

  datatype Choice = Choice(name: string, value: nat)

  const DISABLE := 0
  const ENABLE := 1

  const SWITCH: seq<Choice> := [Choice("Disable", DISABLE), Choice("Enable", ENABLE)]

  const TEST_MODES: seq<Choice> :=
    [Choice("TX_0", 1), Choice("TX_1", 2), Choice("TX_1010", 3), Choice("TX_PRBS", 4),
     Choice("TX_11110000", 9), Choice("RX", 10)]

  const PACKET_TYPES: seq<Choice> :=
    [Choice("DM1", 0x03), Choice("DM3", 0x0A), Choice("DM5", 0x0E),
     Choice("DH1", 0x04), Choice("DH3", 0x0B), Choice("DH5", 0x0F),
     Choice("2-DH1", 0x24), Choice("2-DH3", 0x2A), Choice("2-DH5", 0x2E),
     Choice("3-DH1", 0x28), Choice("3-DH3", 0x2B), Choice("3-DH5", 0x2F)]

  /** The largest payload of each packet type. */
  const MAX_DATA_LEN: seq<nat> := [17, 121, 224, 27, 183, 339, 54, 367, 679, 83, 552, 1021]

  const CONT_TX_TYPES: seq<Choice> :=
    [Choice("Raw_1MHz", 0), Choice("Raw_2MHz", 1), Choice("Raw_3MHz", 2),
     Choice("Regular_BT_Packet_Format", 3), Choice("CW_Single_Tone", 4)]

  const BER_TYPES: seq<Choice> :=
    [Choice("ALL", 0), Choice("ALL_DATA", 1), Choice("DM1", 2), Choice("DM3", 3), Choice("DM5", 4),
     Choice("DH1", 5), Choice("DH3", 6), Choice("DH5", 7), Choice("2DH1", 8), Choice("2DH3", 9),
     Choice("2DH5", 10), Choice("3DH1", 11), Choice("3DH3", 12), Choice("3DH5", 13)]

  const PAYLOADS: seq<Choice> :=
    [Choice("Random_9", 0), Choice("11110000", 1), Choice("10101010", 2), Choice("Random_15", 3),
     Choice("11111111", 4), Choice("00000000", 5), Choice("00001111", 6), Choice("01010101", 7)]

  const MAX_FREQUENCY := 79
  const MAX_FREQUENCY_LE := 39
  const MAX_LENGTH := 1021
  const MAX_LENGTH_LE := 37

  // ---------- the settings as a value ----------

  /** tBRM_Control_packet, and the static LEMode beside it. */
  datatype Control = Control(
    mode: nat, hopMode: nat, txFreq: nat, rxFreq: nat, packet: nat, dataLen: int,
    contTxMode: nat, contTxType: nat, contRxMode: nat, berType: nat,
    leRxMode: nat, leTxMode: nat, pktPayload: nat, leMode: bool)

  predicate OneOf(v: nat, table: seq<Choice>) {
    exists i :: 0 <= i < |table| && table[i].value == v
  }

  predicate OnOff(v: nat) {
    v == DISABLE || v == ENABLE
  }

  /** At most one of the four special modes is on, and LEMode tells whether it is an LE mode. */
  predicate Exclusive(c: Control) {
    && OnOff(c.contTxMode) && OnOff(c.contRxMode) && OnOff(c.leRxMode) && OnOff(c.leTxMode)
    && c.contTxMode + c.contRxMode + c.leRxMode + c.leTxMode <= 1
    && (c.leMode <==> c.leRxMode == ENABLE || c.leTxMode == ENABLE)
  }

  predicate InTables(c: Control) {
    && OneOf(c.mode, TEST_MODES) && OneOf(c.packet, PACKET_TYPES)
    && OnOff(c.hopMode) && c.contTxType < |CONT_TX_TYPES| && c.berType < |BER_TYPES| && c.pktPayload < |PAYLOADS|
  }

  predicate InRange(c: Control) {
    && c.txFreq <= MAX_FREQUENCY && c.rxFreq <= MAX_FREQUENCY && 0 <= c.dataLen <= MAX_LENGTH
    && (c.leRxMode == ENABLE ==> c.rxFreq <= MAX_FREQUENCY_LE)
    && (c.leTxMode == ENABLE ==> c.txFreq <= MAX_FREQUENCY_LE)
  }

  /** What every setting is at the prompt. */
  predicate Sound(c: Control) {
    && Exclusive(c) && InTables(c) && InRange(c)
    && (c.leTxMode == ENABLE ==> c.dataLen <= MAX_LENGTH_LE)
  }

  // ---------- option tables ----------

  function IndexOf(v: nat, table: seq<Choice>): (i: nat)
    ensures i <= |table| && (i < |table| ==> table[i].value == v)
    ensures forall k :: 0 <= k < i ==> table[k].value != v
    ensures i < |table| <==> OneOf(v, table)
  {
    if table == [] then 0
    else if table[0].value == v then assert OneOf(v, table); 0
    else
      var k := IndexOf(v, table[1..]);
      assert OneOf(v, table[1..]) ==> OneOf(v, table) by {
        if OneOf(v, table[1..]) { assert table[k + 1].value == v; }
      }
      assert OneOf(v, table) ==> OneOf(v, table[1..]) by {
        if i :| 0 <= i < |table| && table[i].value == v { assert table[1..][i - 1].value == v; }
      }
      k + 1
  }

  lemma ToggledPlace(v: nat, table: seq<Choice>)
    ensures var i, n := IndexOf(v, table), |table|;
      OneOf(v, table) ==> Toggled(v, table) == Some(table[if i + 1 < n then i + 1 else 0].value)
  {
    hide OneOf, IndexOf;
    if IndexOf(v, table) < |table| { RoundTheEnd(IndexOf(v, table) + 1, |table|); }
  }

  lemma RoundTheEnd(x: nat, n: nat)
    requires n > 0 && x < 2 * n
    ensures x % n == if x < n then x else x - n
  {}

  /** One place on in the table, round the end. */
  function Toggled(v: nat, table: seq<Choice>): (r: Option<nat>)
    ensures r.Some? <==> OneOf(v, table)
    ensures r.Some? ==> OneOf(r.value, table)
  {
    var i := IndexOf(v, table);
    if i == |table| then None else
      assert OneOf(table[(i + 1) % |table|].value, table);
      Some(table[(i + 1) % |table|].value)
  }

  lemma {:induction false} IndexIsFirst(v: nat, table: seq<Choice>, i: nat)
    requires i < |table| && table[i].value == v && (forall k :: 0 <= k < i ==> table[k].value != v)
    ensures IndexOf(v, table) == i
  {
    if i > 0 { IndexIsFirst(v, table[1..], i - 1); }
  }

  lemma {:induction false} IndexIsEnd(v: nat, table: seq<Choice>)
    requires forall k :: 0 <= k < |table| ==> table[k].value != v
    ensures IndexOf(v, table) == |table|
  {
    if table != [] { IndexIsEnd(v, table[1..]); }
  }

  /** `(Option->Name[0] - 'A' + 'a') == Alias[0]` */
  predicate Backward(option: seq<Choice>, alias: char)
    requires option != [] && option[0].name != []
  {
    option[0].name[0] as int - 'A' as int + 'a' as int == alias as int
  }

  /** The menu passes the table itself as the option, so that no toggle runs backward. */
  lemma MenuGoesForward()
    ensures !Backward(SWITCH, CR) && !Backward(SWITCH, CT) && !Backward(SWITCH, LR) && !Backward(SWITCH, LT)
    ensures !Backward(SWITCH, HM) && !Backward(TEST_MODES, TM) && !Backward(PACKET_TYPES, PT)
    ensures !Backward(CONT_TX_TYPES, CX) && !Backward(BER_TYPES, SB) && !Backward(PAYLOADS, LTM)
  {}

  /** ToggleOption: `option` only gives the direction. */
  method ToggleOption(v: nat, option: seq<Choice>, table: seq<Choice>, alias: char, step: nat) returns (ok: bool, r: nat)
    requires option != [] && option[0].name != [] && step <= |table|
    ensures ok <==> OneOf(v, table)
    ensures !ok ==> r == v
    // from the first place of `v`, `step` places on, or back, round the end
    ensures ok ==>
      var i, n := IndexOf(v, table), |table|;
      if option[0].name[0] as int - 65 + 97 == alias as int then r == table[if i < step then i - step + n else i - step].value
      else r == table[if i + step < n then i + step else i + step - n].value
    ensures ok && !Backward(option, alias) && step == 1 ==> Toggled(v, table) == Some(r)
  {
    hide OneOf, IndexOf, Toggled;
    ToggledPlace(v, table);
    var opt := option[0].name[0];
    var backward := opt as int - 'A' as int + 'a' as int == alias as int;
    var i: int := 0;
    while i < |table|
      invariant 0 <= i <= |table|
      invariant forall k :: 0 <= k < i ==> table[k].value != v
    {
      if v == table[i].value {
        IndexIsFirst(v, table, i);
        if backward {
          i := if i - step < 0 then |table| - step + i else i - step;
        } else {
          RoundTheEnd(i + step, |table|);
          i := (i + step) % |table|;
        }
        return true, table[i].value;
      }
      i := i + 1;
    }
    IndexIsEnd(v, table);
    return false, v;
  }

  /** GetTestModeOptionIndex, GetPacketTypeOptionIndex. */
  method GetOptionIndex(v: nat, table: seq<Choice>) returns (r: int)
    ensures r == if OneOf(v, table) then IndexOf(v, table) else -1
  {
    var i := 0;
    while i < |table|
      invariant 0 <= i <= |table|
      invariant forall k :: 0 <= k < i ==> table[k].value != v
    {
      if v == table[i].value {
        IndexIsFirst(v, table, i);
        return i;
      }
      i := i + 1;
    }
    IndexIsEnd(v, table);
    return -1;
  }

  // ---------- typed numbers ----------

  /** What the three attempts at a number read; anything, also after a failed scanf. */
  type Typed = s: seq<int> | |s| == 3 witness [0, 0, 0]

  function FirstWithin(typed: seq<int>, min: int, max: int): (r: Option<int>)
    ensures r.Some? ==> min <= r.value <= max && r.value in typed
  {
    if typed == [] then None
    else if min <= typed[0] <= max then Some(typed[0])
    else FirstWithin(typed[1..], min, max)
  }

  /** None means that nothing typed was in range. */
  lemma {:induction false} RefusedAll(typed: seq<int>, min: int, max: int)
    ensures FirstWithin(typed, min, max) == None <==> forall i :: 0 <= i < |typed| ==> !(min <= typed[i] <= max)
  {
    if typed != [] {
      RefusedAll(typed[1..], min, max);
      assert forall i :: 0 < i < |typed| ==> typed[i] == typed[1..][i - 1];
      assert forall i :: 0 <= i < |typed| - 1 ==> typed[1..][i] == typed[i + 1];
    }
  }

  lemma FirstOfThree(typed: Typed, min: int, max: int)
    ensures FirstWithin(typed, min, max) ==
      if min <= typed[0] <= max then Some(typed[0])
      else if min <= typed[1] <= max then Some(typed[1])
      else if min <= typed[2] <= max then Some(typed[2])
      else None
  {
    assert typed[0..] == typed;
    FirstOf(typed, 0, min, max);
    FirstOf(typed, 1, min, max);
    FirstOf(typed, 2, min, max);
    FirstOf(typed, 3, min, max);
    hide FirstWithin;
  }

  lemma FirstOf(typed: seq<int>, k: nat, min: int, max: int)
    requires k <= |typed|
    ensures FirstWithin(typed[k..], min, max)
         == if k == |typed| then None else if min <= typed[k] <= max then Some(typed[k]) else FirstWithin(typed[k + 1..], min, max)
  {
    if k < |typed| { assert typed[k..][1..] == typed[k + 1..]; }
  }

  method MinMaxOption(v: int, newValue: int, min: int, max: int) returns (ok: bool, r: int)
    ensures ok <==> min <= newValue <= max
    ensures r == if ok then newValue else v
  {
    if newValue < min || newValue > max { return false, v; }
    return true, newValue;
  }

  /** The loop that the three number setters share: four down to one, so three attempts. */
  method Ask(v: int, typed: Typed, min: int, max: int) returns (ok: bool, r: int)
    ensures FirstWithin(typed, min, max) == if ok then Some(r) else None
    ensures !ok ==> r == v
    // the first of the three that is in range
    ensures if min <= typed[0] <= max then ok && r == typed[0]
      else if min <= typed[1] <= max then ok && r == typed[1]
      else if min <= typed[2] <= max then ok && r == typed[2]
      else !ok
  {
    FirstOfThree(typed, min, max);
    hide FirstWithin;
    r := v;
    var loopCount := 4;
    loopCount := loopCount - 1;
    assert typed[0..] == typed;
    while loopCount > 0
      invariant 0 <= loopCount <= 3 && r == v
      invariant FirstWithin(typed, min, max) == FirstWithin(typed[3 - loopCount..], min, max)
    {
      FirstOf(typed, 3 - loopCount, min, max);
      ok, r := MinMaxOption(r, typed[3 - loopCount], min, max);
      if ok { return; }
      loopCount := loopCount - 1;
    }
    FirstOf(typed, 3, min, max);
    ok := false;
  }

  // ---------- the setters, as functions ----------

  function UChar(x: int): nat {
    x % 256
  }

  /** Putting one mode in force. LE modes cap the channel they use. */
  function WithContRx(c: Control, v: nat): Control {
    if v == ENABLE then c.(contRxMode := v, contTxMode := DISABLE, leRxMode := DISABLE, leTxMode := DISABLE, leMode := false)
    else c.(contRxMode := v)
  }

  function WithContTx(c: Control, v: nat): Control {
    if v == ENABLE then c.(contTxMode := v, contRxMode := DISABLE, leRxMode := DISABLE, leTxMode := DISABLE, leMode := false)
    else c.(contTxMode := v)
  }

  function WithLeRx(c: Control, v: nat): Control {
    if v == ENABLE then
      c.(leRxMode := v, leTxMode := DISABLE, contTxMode := DISABLE, contRxMode := DISABLE,
         rxFreq := Min(c.rxFreq, MAX_FREQUENCY_LE), leMode := true)
    else c.(leRxMode := v, leMode := false)
  }

  function WithLeTx(c: Control, v: nat): Control {
    if v == ENABLE then
      c.(leTxMode := v, leRxMode := DISABLE, contTxMode := DISABLE, contRxMode := DISABLE,
         txFreq := Min(c.txFreq, MAX_FREQUENCY_LE), leMode := true)
    else c.(leTxMode := v, leMode := false)
  }

  function FrequencyLimit(c: Control): nat {
    if c.leMode then MAX_FREQUENCY_LE else MAX_FREQUENCY
  }

  function LengthLimit(c: Control): nat {
    if c.leMode then MAX_LENGTH_LE else MAX_LENGTH
  }

  function LargestPayload(packet: nat): nat
    requires OneOf(packet, PACKET_TYPES)
  {
    MAX_DATA_LEN[IndexOf(packet, PACKET_TYPES)]
  }

  // One function per field; None when the field function fails.

  function ContRxToggled(c: Control): Option<Control> {
    match Toggled(c.contRxMode, SWITCH)
    case None => None
    case Some(v) => Some(WithContRx(c, v))
  }

  function ContTxToggled(c: Control): Option<Control> {
    match Toggled(c.contTxMode, SWITCH)
    case None => None
    case Some(v) => Some(WithContTx(c, v))
  }

  function LeRxToggled(c: Control): Option<Control> {
    match Toggled(c.leRxMode, SWITCH)
    case None => None
    case Some(v) => Some(WithLeRx(c, v))
  }

  function LeTxToggled(c: Control): Option<Control> {
    match Toggled(c.leTxMode, SWITCH)
    case None => None
    case Some(v) => Some(WithLeTx(c, v))
  }

  function PayloadToggled(c: Control): Option<Control> {
    match Toggled(c.pktPayload, PAYLOADS)
    case None => None
    case Some(v) => Some(c.(pktPayload := v))
  }

  function ContTxTypeToggled(c: Control): Option<Control> {
    match Toggled(c.contTxType, CONT_TX_TYPES)
    case None => None
    case Some(v) => Some(c.(contTxType := v))
  }

  function TestModeToggled(c: Control): Option<Control> {
    match Toggled(c.mode, TEST_MODES)
    case None => None
    case Some(v) => Some(c.(mode := v, contRxMode := DISABLE, contTxMode := DISABLE))
  }

  function HopModeToggled(c: Control): Option<Control> {
    match Toggled(c.hopMode, SWITCH)
    case None => None
    case Some(v) => Some(c.(hopMode := v))
  }

  function PacketTypeToggled(c: Control): Option<Control> {
    match Toggled(c.packet, PACKET_TYPES)
    case None => None
    case Some(v) => Some(c.(packet := v, dataLen := LargestPayload(v)))
  }

  function BerTypeToggled(c: Control): Option<Control> {
    match Toggled(c.berType, BER_TYPES)
    case None => None
    case Some(v) => Some(c.(berType := v))
  }

  function TxFreqTyped(c: Control, typed: Typed): Option<Control> {
    match FirstWithin(typed, 0, FrequencyLimit(c))
    case None => None
    case Some(v) => Some(c.(txFreq := v))
  }

  function RxFreqTyped(c: Control, typed: Typed): Option<Control> {
    match FirstWithin(typed, 0, FrequencyLimit(c))
    case None => None
    case Some(v) => Some(c.(rxFreq := v))
  }

  function DataLenTyped(c: Control, typed: Typed): Option<Control> {
    match FirstWithin(typed, 0, LengthLimit(c))
    case None => None
    case Some(v) => Some(c.(dataLen := v))
  }

  /** The setting after the command of field `key`; None when the field function fails. */
  function Applied(c: Control, key: char, typed: Typed): Option<Control> {
    if key == CR then ContRxToggled(c)
    else if key == CT then ContTxToggled(c)
    else if key == LR then LeRxToggled(c)
    else if key == LT then LeTxToggled(c)
    else if key == LTM then PayloadToggled(c)
    else if key == CX then ContTxTypeToggled(c)
    else if key == TM then TestModeToggled(c)
    else if key == HM then HopModeToggled(c)
    else if key == TF then TxFreqTyped(c, typed)
    else if key == RF then RxFreqTyped(c, typed)
    else if key == PT then PacketTypeToggled(c)
    else if key == DL then DataLenTyped(c, typed)
    else if key == SB then BerTypeToggled(c)
    else Some(c)
  }

  /** Printing the menu caps what the LE modes cannot use. */
  function Printed(c: Control): Control {
    c.(rxFreq := if c.leRxMode == ENABLE then Min(c.rxFreq, MAX_FREQUENCY_LE) else c.rxFreq,
       dataLen := if c.leTxMode == ENABLE && c.dataLen > MAX_LENGTH_LE then MAX_LENGTH_LE else c.dataLen)
  }

  /** The fields CheckField refuses, and characters that are no field at all. */
  predicate Offered(c: Control, key: char) {
    && key in ALIASES
    && !(key == HM && c.contTxMode != DISABLE)
    && !((key == TF || key == RF) && c.hopMode == ENABLE)
    && !(key == CX && c.contTxMode == DISABLE)
  }

  const INITIAL := Control(3, 0, 39, 39, 0x04, 15, 0, 0, 0, 1, 0, 0, 0, false)

  // ---------- the settings as they are changed in place ----------

  class Settings {
    var mode: nat
    var hopMode: nat
    var txFreq: nat
    var rxFreq: nat
    var packet: nat
    var dataLen: int
    var contTxMode: nat
    var contTxType: nat
    var contRxMode: nat
    var berType: nat
    var leRxMode: nat
    var leTxMode: nat
    var pktPayload: nat
    var leMode: bool

    ghost function View(): Control
      reads this
    {
      Control(mode, hopMode, txFreq, rxFreq, packet, dataLen, contTxMode, contTxType, contRxMode, berType,
              leRxMode, leTxMode, pktPayload, leMode)
    }

    /** InitMasterBlaster, in a process whose LEMode is still zero. */
    constructor ()
      ensures View() == INITIAL
    {
      mode, hopMode, packet := 3, 0, 0x04;
      txFreq, rxFreq, dataLen := 39, 39, 15;
      contTxMode, contTxType, contRxMode, berType := 0, 0, 0, 1;
      leRxMode, leTxMode, pktPayload := 0, 0, 0;
      leMode := false;
    }

    method SetTestMode() returns (ok: bool)
      modifies this
      ensures TestModeToggled(old(View())) == if ok then Some(View()) else None
      ensures !ok ==> View() == old(View())
    {
      hide OneOf, IndexOf, Toggled, Backward, UChar;
      MenuGoesForward();
      var v;
      ok, v := ToggleOption(mode, TEST_MODES, TEST_MODES, TM, 1);
      if ok {
        SmallValues(v);
        mode := UChar(v);
        contRxMode := DISABLE;
        contTxMode := DISABLE;
      }
    }

    method SetHopMode() returns (ok: bool)
      modifies this
      ensures HopModeToggled(old(View())) == if ok then Some(View()) else None
      ensures !ok ==> View() == old(View())
    {
      hide OneOf, IndexOf, Toggled, Backward, UChar;
      MenuGoesForward();
      var v;
      ok, v := ToggleOption(hopMode, SWITCH, SWITCH, HM, 1);
      if ok {
        SmallValues(v);
        hopMode := UChar(v);
      }
    }

    method SetTxFreq(typed: Typed) returns (ok: bool)
      modifies this
      ensures TxFreqTyped(old(View()), typed) == if ok then Some(View()) else None
      ensures !ok ==> View() == old(View())
    {
      var max := if leMode then MAX_FREQUENCY_LE else MAX_FREQUENCY;
      var v;
      ok, v := Ask(txFreq, typed, 0, max);
      if ok { txFreq := UChar(v); }
    }

    method SetRxFreq(typed: Typed) returns (ok: bool)
      modifies this
      ensures RxFreqTyped(old(View()), typed) == if ok then Some(View()) else None
      ensures !ok ==> View() == old(View())
    {
      var max := if leMode then MAX_FREQUENCY_LE else MAX_FREQUENCY;
      var v;
      ok, v := Ask(rxFreq, typed, 0, max);
      if ok { rxFreq := UChar(v); }
    }

    method SetPacketType() returns (ok: bool)
      modifies this
      ensures PacketTypeToggled(old(View())) == if ok then Some(View()) else None
      ensures !ok ==> View() == old(View())
    {
      hide OneOf, IndexOf, Toggled, Backward, UChar;
      MenuGoesForward();
      var v;
      ok, v := ToggleOption(packet, PACKET_TYPES, PACKET_TYPES, PT, 1);
      if ok {
        SmallValues(v);
        packet := UChar(v);
        var i := GetOptionIndex(v, PACKET_TYPES);
        dataLen := MAX_DATA_LEN[i];
      }
    }

    method SetDataLen(typed: Typed) returns (ok: bool)
      modifies this
      ensures DataLenTyped(old(View()), typed) == if ok then Some(View()) else None
      ensures !ok ==> View() == old(View())
    {
      var max := if leMode then MAX_LENGTH_LE else MAX_LENGTH;
      ok, dataLen := Ask(dataLen, typed, 0, max);
    }

    method SetContTxMode() returns (ok: bool)
      modifies this
      ensures ContTxToggled(old(View())) == if ok then Some(View()) else None
      ensures !ok ==> View() == old(View())
    {
      hide OneOf, IndexOf, Toggled, Backward, UChar;
      MenuGoesForward();
      var v;
      ok, v := ToggleOption(contTxMode, SWITCH, SWITCH, CT, 1);
      if ok {
        SmallValues(v);
        contTxMode := UChar(v);
        if contTxMode == ENABLE {
          contRxMode := DISABLE;
          leRxMode := DISABLE;
          leTxMode := DISABLE;
          leMode := false;
        }
      }
    }

    method SetContTxType() returns (ok: bool)
      modifies this
      ensures ContTxTypeToggled(old(View())) == if ok then Some(View()) else None
      ensures !ok ==> View() == old(View())
    {
      hide OneOf, IndexOf, Toggled, Backward, UChar;
      MenuGoesForward();
      var v;
      ok, v := ToggleOption(contTxType, CONT_TX_TYPES, CONT_TX_TYPES, CX, 1);
      if ok {
        SmallValues(v);
        contTxType := UChar(v);
      }
    }

    method SetLERxMode() returns (ok: bool)
      modifies this
      ensures LeRxToggled(old(View())) == if ok then Some(View()) else None
      ensures !ok ==> View() == old(View())
    {
      hide OneOf, IndexOf, Toggled, Backward, UChar;
      MenuGoesForward();
      var v;
      ok, v := ToggleOption(leRxMode, SWITCH, SWITCH, LR, 1);
      if ok {
        SmallValues(v);
        leRxMode := UChar(v);
        if leRxMode == ENABLE {
          leTxMode := DISABLE;
          contTxMode := DISABLE;
          contRxMode := DISABLE;
          if rxFreq > 39 { rxFreq := 39; }
          leMode := true;
        } else {
          leMode := false;
        }
      }
    }

    method SetLETxMode() returns (ok: bool)
      modifies this
      ensures LeTxToggled(old(View())) == if ok then Some(View()) else None
      ensures !ok ==> View() == old(View())
    {
      hide OneOf, IndexOf, Toggled, Backward, UChar;
      MenuGoesForward();
      var v;
      ok, v := ToggleOption(leTxMode, SWITCH, SWITCH, LT, 1);
      if ok {
        SmallValues(v);
        leTxMode := UChar(v);
        if leTxMode == ENABLE {
          leRxMode := DISABLE;
          contTxMode := DISABLE;
          contRxMode := DISABLE;
          if txFreq > MAX_FREQUENCY_LE { txFreq := 39; }
          leMode := true;
        } else {
          leMode := false;
        }
      }
    }

    method SetLETxPktPayload() returns (ok: bool)
      modifies this
      ensures PayloadToggled(old(View())) == if ok then Some(View()) else None
      ensures !ok ==> View() == old(View())
    {
      hide OneOf, IndexOf, Toggled, Backward, UChar;
      MenuGoesForward();
      var v;
      ok, v := ToggleOption(pktPayload, PAYLOADS, PAYLOADS, LTM, 1);
      if ok {
        SmallValues(v);
        pktPayload := UChar(v);
      }
    }

    method SetContRxMode() returns (ok: bool)
      modifies this
      ensures ContRxToggled(old(View())) == if ok then Some(View()) else None
      ensures !ok ==> View() == old(View())
    {
      hide OneOf, IndexOf, Toggled, Backward, UChar;
      MenuGoesForward();
      var v;
      ok, v := ToggleOption(contRxMode, SWITCH, SWITCH, CR, 1);
      if ok {
        SmallValues(v);
        contRxMode := UChar(v);
        if contRxMode == ENABLE {
          contTxMode := DISABLE;
          leRxMode := DISABLE;
          leTxMode := DISABLE;
          leMode := false;
        }
      }
    }

    method SetBERType() returns (ok: bool)
      modifies this
      ensures BerTypeToggled(old(View())) == if ok then Some(View()) else None
      ensures !ok ==> View() == old(View())
    {
      hide OneOf, IndexOf, Toggled, Backward, UChar;
      MenuGoesForward();
      var v;
      ok, v := ToggleOption(berType, BER_TYPES, BER_TYPES, SB, 1);
      if ok {
        SmallValues(v);
        berType := UChar(v);
      }
    }

    /** PrintMasterBlasterMenu, without what it prints. */
    method PrintMenu()
      modifies this
      ensures View() == Printed(old(View()))
      ensures rxFreq == (if leRxMode == 1 && old(rxFreq) > 39 then 39 else old(rxFreq))
      ensures dataLen == (if leTxMode == 1 && old(dataLen) > 37 then 37 else old(dataLen))
    {
      if leRxMode == ENABLE {
        if rxFreq > MAX_FREQUENCY_LE { rxFreq := MAX_FREQUENCY_LE; }
      }
      if leTxMode == ENABLE {
        if dataLen > MAX_LENGTH_LE { dataLen := MAX_LENGTH_LE; }
      }
    }

    /** CheckField: the place of `key` in the menu, or -1. */
    method CheckField(key: char) returns (r: int)
      ensures r == -1 || (0 <= r < |ALIASES| && ALIASES[r] == key)
      ensures r != -1 <==> Offered(View(), key)
    {
      if (key == HM && contTxMode != 0) || ((key == TF || key == RF) && hopMode == 1) || (key == CX && contTxMode == 0) {
        return -1;
      }
      var i := 0;
      while i < |ALIASES|
        invariant 0 <= i <= |ALIASES| && forall k :: 0 <= k < i ==> ALIASES[k] != key
      {
        if key == ALIASES[i] { return i; }
        i := i + 1;
      }
      return -1;
    }

    /** The call through the menu table. SetMasterBlasterPower changes nothing, since the menu
        gives it no options; the address and the remaining fields hold no setting. */
    method CallField(key: char, typed: Typed) returns (ok: bool)
      modifies this
      ensures Applied(old(View()), key, typed) == if ok then Some(View()) else None
      ensures !ok ==> View() == old(View())
    {
      if key == CR { ok := SetContRxMode(); }
      else if key == CT { ok := SetContTxMode(); }
      else if key == LR { ok := SetLERxMode(); }
      else if key == LT { ok := SetLETxMode(); }
      else if key == LTM { ok := SetLETxPktPayload(); }
      else if key == CX { ok := SetContTxType(); }
      else if key == TM { ok := SetTestMode(); }
      else if key == HM { ok := SetHopMode(); }
      else if key == TF { ok := SetTxFreq(typed); }
      else if key == RF { ok := SetRxFreq(typed); }
      else if key == PT { ok := SetPacketType(); }
      else if key == DL { ok := SetDataLen(typed); }
      else if key == SB { ok := SetBERType(); }
      else { ok := true; }
    }
  }

  /** Every option value fits an unsigned char. */
  lemma SmallValues(v: nat)
    requires OneOf(v, SWITCH) || OneOf(v, TEST_MODES) || OneOf(v, PACKET_TYPES)
          || OneOf(v, CONT_TX_TYPES) || OneOf(v, BER_TYPES) || OneOf(v, PAYLOADS)
    ensures UChar(v) == v
  {}
}
