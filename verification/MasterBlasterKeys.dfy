/** What each key of Master Blaster mode does, in characters and numbers. */
module MasterBlasterKeys {
  import opened Basics

  import opened MasterBlaster
  import opened MasterBlasterLoop

  // ---------- one place on in each table ----------

  lemma NextAt(v: nat, table: seq<Choice>, i: nat)
    requires i < |table| && table[i].value == v && forall k :: 0 <= k < i ==> table[k].value != v
    ensures Toggled(v, table) == Some(table[if i + 1 < |table| then i + 1 else 0].value)
  {
    IndexIsFirst(v, table, i);
    ToggledPlace(v, table);
  }

  lemma NextTestMode(v: nat)
    requires OneOf(v, TEST_MODES)
    ensures Toggled(v, TEST_MODES) == Some(
      if v == 1 then 2 else if v == 2 then 3 else if v == 3 then 4 else if v == 4 then 9 else if v == 9 then 10 else 1)
  {
    hide Toggled, IndexOf;
    var i := if v <= 4 then v - 1 else if v == 9 then 4 else 5;
    NextAt(v, TEST_MODES, i);
  }

  lemma NextTxType(v: nat)
    requires v < 5
    ensures Toggled(v, CONT_TX_TYPES) == Some(if v == 4 then 0 else v + 1)
  {
    hide Toggled, IndexOf;
    NextAt(v, CONT_TX_TYPES, v);
  }

  lemma NextBerType(v: nat)
    requires v < 14
    ensures Toggled(v, BER_TYPES) == Some(if v == 13 then 0 else v + 1)
  {
    hide Toggled, IndexOf;
    NextAt(v, BER_TYPES, v);
  }

  lemma NextPayload(v: nat)
    requires v < 8
    ensures Toggled(v, PAYLOADS) == Some(if v == 7 then 0 else v + 1)
  {
    hide Toggled, IndexOf;
    NextAt(v, PAYLOADS, v);
  }

  /** The packet types go round in this order, and each has its own largest payload. */
  lemma NextPacketType(v: nat)
    requires OneOf(v, PACKET_TYPES)
    ensures Toggled(v, PACKET_TYPES).Some?
    ensures OneOf(Toggled(v, PACKET_TYPES).value, PACKET_TYPES)
    ensures (Toggled(v, PACKET_TYPES).value, LargestPayload(Toggled(v, PACKET_TYPES).value)) ==
      if v == 0x03 then (0x0a, 121)
      else if v == 0x0a then (0x0e, 224)
      else if v == 0x0e then (0x04, 27)
      else if v == 0x04 then (0x0b, 183)
      else if v == 0x0b then (0x0f, 339)
      else if v == 0x0f then (0x24, 54)
      else if v == 0x24 then (0x2a, 367)
      else if v == 0x2a then (0x2e, 679)
      else if v == 0x2e then (0x28, 83)
      else if v == 0x28 then (0x2b, 552)
      else if v == 0x2b then (0x2f, 1021)
      else (0x03, 17)
  {
    hide Toggled, IndexOf, LargestPayload, OneOf;
    var i := IndexOf(v, PACKET_TYPES);
    NextAt(v, PACKET_TYPES, i);
    LargestAt(if i == 11 then 0 else i + 1);
  }

  lemma LargestAt(j: nat)
    requires j < |PACKET_TYPES|
    ensures OneOf(PACKET_TYPES[j].value, PACKET_TYPES)
    ensures LargestPayload(PACKET_TYPES[j].value) == MAX_DATA_LEN[j]
  {
    hide IndexOf;
    IndexIsFirst(PACKET_TYPES[j].value, PACKET_TYPES, j);
  }

  // ---------- the settings after each key ----------

  lemma ModeKeys(c: Control, typed: Typed)
    requires Exclusive(c)
    ensures Applied(c, 'n', typed) == Some(
      if c.contRxMode == 1 then c.(contRxMode := 0)
      else c.(contRxMode := 1, contTxMode := 0, leRxMode := 0, leTxMode := 0, leMode := false))
    ensures Applied(c, 'c', typed) == Some(
      if c.contTxMode == 1 then c.(contTxMode := 0)
      else c.(contTxMode := 1, contRxMode := 0, leRxMode := 0, leTxMode := 0, leMode := false))
  {
    hide Toggled, IndexOf;
    ToggledSwitch(c.contRxMode);
    ToggledSwitch(c.contTxMode);
  }

  lemma LeKeys(c: Control, typed: Typed)
    requires Exclusive(c)
    ensures Applied(c, 'q', typed) == Some(
      if c.leRxMode == 1 then c.(leRxMode := 0, leMode := false)
      else c.(leRxMode := 1, leTxMode := 0, contTxMode := 0, contRxMode := 0, leMode := true,
              rxFreq := if c.rxFreq > 39 then 39 else c.rxFreq))
    ensures Applied(c, 'w', typed) == Some(
      if c.leTxMode == 1 then c.(leTxMode := 0, leMode := false)
      else c.(leTxMode := 1, leRxMode := 0, contTxMode := 0, contRxMode := 0, leMode := true,
              txFreq := if c.txFreq > 39 then 39 else c.txFreq))
  {
    hide Toggled, IndexOf;
    ToggledSwitch(c.leRxMode);
    ToggledSwitch(c.leTxMode);
  }

  lemma TableKeys(c: Control, typed: Typed)
    requires InTables(c)
    ensures Applied(c, 'm', typed) == Some(c.(contRxMode := 0, contTxMode := 0, mode :=
      if c.mode == 1 then 2 else if c.mode == 2 then 3 else if c.mode == 3 then 4
      else if c.mode == 4 then 9 else if c.mode == 9 then 10 else 1))
    ensures Applied(c, 'u', typed) == Some(c.(contTxType := if c.contTxType == 4 then 0 else c.contTxType + 1))
    ensures Applied(c, 'k', typed) == Some(c.(berType := if c.berType == 13 then 0 else c.berType + 1))
    ensures Applied(c, 'y', typed) == Some(c.(pktPayload := if c.pktPayload == 7 then 0 else c.pktPayload + 1))
    ensures Applied(c, 'h', typed) == Some(c.(hopMode := 1 - c.hopMode))
  {
    hide Toggled, IndexOf, OneOf;
    NextTestMode(c.mode);
    NextTxType(c.contTxType);
    NextBerType(c.berType);
    NextPayload(c.pktPayload);
    ToggledSwitch(c.hopMode);
  }

  lemma PacketKey(c: Control, typed: Typed)
    requires InTables(c)
    ensures var p := c.packet;
      Applied(c, 'p', typed) == Some(
        if p == 0x03 then c.(packet := 0x0a, dataLen := 121)
        else if p == 0x0a then c.(packet := 0x0e, dataLen := 224)
        else if p == 0x0e then c.(packet := 0x04, dataLen := 27)
        else if p == 0x04 then c.(packet := 0x0b, dataLen := 183)
        else if p == 0x0b then c.(packet := 0x0f, dataLen := 339)
        else if p == 0x0f then c.(packet := 0x24, dataLen := 54)
        else if p == 0x24 then c.(packet := 0x2a, dataLen := 367)
        else if p == 0x2a then c.(packet := 0x2e, dataLen := 679)
        else if p == 0x2e then c.(packet := 0x28, dataLen := 83)
        else if p == 0x28 then c.(packet := 0x2b, dataLen := 552)
        else if p == 0x2b then c.(packet := 0x2f, dataLen := 1021)
        else c.(packet := 0x03, dataLen := 17))
  {
    hide Toggled, IndexOf, OneOf, LargestPayload;
    NextPacketType(c.packet);
  }

  /** A number key takes the first of the three typed numbers that is in range. */
  lemma NumberKeys(c: Control, typed: Typed)
    ensures var top := if c.leMode then 39 else 79;
      if 0 <= typed[0] <= top then Applied(c, 't', typed) == Some(c.(txFreq := typed[0])) && Applied(c, 'r', typed) == Some(c.(rxFreq := typed[0]))
      else if 0 <= typed[1] <= top then Applied(c, 't', typed) == Some(c.(txFreq := typed[1])) && Applied(c, 'r', typed) == Some(c.(rxFreq := typed[1]))
      else if 0 <= typed[2] <= top then Applied(c, 't', typed) == Some(c.(txFreq := typed[2])) && Applied(c, 'r', typed) == Some(c.(rxFreq := typed[2]))
      else Applied(c, 't', typed) == None && Applied(c, 'r', typed) == None
    ensures var top := if c.leMode then 37 else 1021;
      if 0 <= typed[0] <= top then Applied(c, 'l', typed) == Some(c.(dataLen := typed[0]))
      else if 0 <= typed[1] <= top then Applied(c, 'l', typed) == Some(c.(dataLen := typed[1]))
      else if 0 <= typed[2] <= top then Applied(c, 'l', typed) == Some(c.(dataLen := typed[2]))
      else Applied(c, 'l', typed) == None
  {
    FirstOfThree(typed, 0, if c.leMode then 39 else 79);
    FirstOfThree(typed, 0, if c.leMode then 37 else 1021);
    hide FirstWithin;
  }

  /** No other key changes a setting. */
  lemma OtherKeys(c: Control, key: char, typed: Typed)
    requires key !in "ncqwhmukyptrl"
    ensures Applied(c, key, typed) == Some(c)
  {
    assert forall x :: x in ['n', 'c', 'q', 'w', 'h', 'm', 'u', 'k', 'y', 'p', 't', 'r', 'l'] <==> x in "ncqwhmukyptrl";
  }

  // ---------- a command of the loop ----------

  /** The keys of the menu, and when three of them are not offered. */
  lemma KeysOffered(c: Control, key: char)
    ensures Offered(c, key) <==>
      (&& key in "ncqwyumhtrploakgdejsxb"
       && !(key == 'h' && c.contTxMode != 0)
       && !((key == 't' || key == 'r') && c.hopMode == 1)
       && !(key == 'u' && c.contTxMode == 0))
  {
    assert ALIASES == "ncqwyumhtrploakgdejsxb";
  }

  /** The keys that end a running test, if the controller accepts the reset. */
  lemma KeysThatStop(t: Test, key: char, reset: bool)
    ensures AfterReset(t, key, reset) ==
      if reset && ((t == TxTest && key in "dncqwj") || (t == RxTest && key in "encqwj")
                || ((t == ContRxTest || t == ContTxTest || t == LeRxTest || t == LeTxTest) && key in "dencqw"))
      then NoTest else t
  {}

  lemma SoundIsPrinted(c: Control)
    requires Sound(c)
    ensures Printed(c) == c
  {
    hide InTables;
  }

  /** A key that is not offered changes nothing; stop and the two exits change no setting. */
  lemma LeavingKeys(m: Machine, cmd: Command)
    requires Sound(m.control)
    ensures !Offered(m.control, cmd.key) ==> Step(m, cmd) == Outcome(m, false, Nothing)
    ensures cmd.key == 's' ==> Step(m, cmd) == Outcome(Machine(m.control, NoTest), false, Nothing)
    ensures cmd.key == 'x' ==> Step(m, cmd) == Outcome(Machine(m.control, NoTest), true, Nothing)
    ensures cmd.key == 'b' ==> Step(m, cmd) == Outcome(m, true, Nothing)
    ensures Step(m, cmd).done <==> cmd.key == 'x' || cmd.key == 'b'
  {
    SoundIsPrinted(m.control);
    KeysOffered(m.control, cmd.key);
    hide Applied, Printed, Sound, AfterReset, Started, Offered;
  }

  /** Any other key: its field function, and then the menu, which caps the length in LE tx. */
  lemma SettingsAfter(m: Machine, cmd: Command)
    requires Sound(m.control) && Offered(m.control, cmd.key) && cmd.key !in "sxb"
    ensures match Applied(m.control, cmd.key, cmd.typed)
      case None => Step(m, cmd) == Outcome(Machine(m.control, AfterReset(m.test, cmd.key, cmd.hci.reset)), false, Nothing)
      case Some(c) =>
        && !Step(m, cmd).done
        && Step(m, cmd).machine.control == c.(dataLen := if c.leTxMode == 1 && c.dataLen > 37 then 37 else c.dataLen)
  {
    assert "sxb" == ['s', 'x', 'b'];
    if Applied(m.control, cmd.key, cmd.typed).Some? {
      AppliedInRange(m.control, cmd.key, cmd.typed);
    }
    hide Applied, AfterReset, Started, Offered, InTables;
  }

  /** The test command that goes out, with the settings `c` that the key leaves behind; `t` is
      the test that is remembered after the reset. */
  lemma LaunchAfter(m: Machine, cmd: Command, t: Test, c: Control)
    requires Sound(m.control) && Offered(m.control, cmd.key) && cmd.key !in "sxb"
    requires Applied(m.control, cmd.key, cmd.typed).Some?
    requires t == AfterReset(m.test, cmd.key, cmd.hci.reset) && c == Step(m, cmd).machine.control
    ensures Sound(c)
    ensures Step(m, cmd).launch ==
        if (cmd.key == 'e' && t == NoTest) || (cmd.key != 'e' && t == TxTest) then
          (if cmd.hci.sleep && cmd.hci.dut then TxTester(c.mode, c.packet, c.dataLen, c.hopMode, c.txFreq, c.rxFreq) else Nothing)
        else if (cmd.key == 'j' && t == NoTest) || (cmd.key != 'j' && t != NoTest && t != TxTest && t != RxTest) then
          (if !cmd.hci.sleep then Nothing
           else if c.leRxMode == 1 then LeReceiver(c.rxFreq)
           else if c.leTxMode == 1 then LeTransmitter(c.txFreq, c.dataLen, c.pktPayload)
           else if c.contRxMode == 1 then ContReceiver
           else if !cmd.hci.dut then Nothing
           else ContTransmitter(c.mode, c.packet, c.dataLen, c.contTxType, c.txFreq, c.rxFreq))
        else Nothing
  {
    AppliedSound(m.control, cmd.key, cmd.typed);
    NotIdle(m.control, cmd);
    StepTest(m, cmd);
    hide *;
    assert c == Printed(Applied(m.control, cmd.key, cmd.typed).value);
    StartedWith(c, t, cmd);
  }

  lemma NotIdle(c: Control, cmd: Command)
    requires Offered(c, cmd.key) && cmd.key !in "sxb" && Applied(c, cmd.key, cmd.typed).Some?
    ensures !Idle(c, cmd)
  {
    assert "sxb" == ['s', 'x', 'b'];
    hide Applied, Offered;
  }

  lemma StartedWith(c: Control, t: Test, cmd: Command)
    requires Sound(c)
    ensures Started(c, t, cmd).1 ==
        if (cmd.key == 'e' && t == NoTest) || (cmd.key != 'e' && t == TxTest) then
          (if cmd.hci.sleep && cmd.hci.dut then TxTester(c.mode, c.packet, c.dataLen, c.hopMode, c.txFreq, c.rxFreq) else Nothing)
        else if (cmd.key == 'j' && t == NoTest) || (cmd.key != 'j' && t != NoTest && t != TxTest && t != RxTest) then
          (if !cmd.hci.sleep then Nothing
           else if c.leRxMode == 1 then LeReceiver(c.rxFreq)
           else if c.leTxMode == 1 then LeTransmitter(c.txFreq, c.dataLen, c.pktPayload)
           else if c.contRxMode == 1 then ContReceiver
           else if !cmd.hci.dut then Nothing
           else ContTransmitter(c.mode, c.packet, c.dataLen, c.contTxType, c.txFreq, c.rxFreq))
        else Nothing
  {
    hide OneOf;
  }

  /** And the test that is remembered: the one the controller accepted, none when it did not;
      for continuous tx the memory write behind it decides. Without a test command it is `t`. */
  lemma TestAfter(m: Machine, cmd: Command)
    requires Sound(m.control) && Offered(m.control, cmd.key) && cmd.key !in "sxb"
    requires Applied(m.control, cmd.key, cmd.typed).Some?
    ensures var o := Step(m, cmd);
      o.machine.test ==
        match o.launch
        case Nothing => AfterReset(m.test, cmd.key, cmd.hci.reset)
        case TxTester(_, _, _, _, _, _) => if cmd.hci.launch then TxTest else NoTest
        case LeReceiver(_) => if cmd.hci.launch then LeRxTest else NoTest
        case LeTransmitter(_, _, _) => if cmd.hci.launch then LeTxTest else NoTest
        case ContReceiver => if cmd.hci.launch then ContRxTest else NoTest
        case ContTransmitter(_, _, _, _, _, _) => if cmd.hci.memory then ContTxTest else NoTest
        case LeRefused => NoTest
  {
    NotIdle(m.control, cmd);
    StepTest(m, cmd);
    hide Applied, Offered, AfterReset, Sound, Printed, Step;
  }

  /** While no test is on, the test mode key only goes one place on. */
  lemma TestModeKey(m: Machine)
    requires Sound(m.control) && m.test == NoTest && m.control.contRxMode == 0 && m.control.contTxMode == 0
    ensures Step(m, Press('m', true)) == Outcome(Machine(m.control.(mode :=
      if m.control.mode == 1 then 2 else if m.control.mode == 2 then 3 else if m.control.mode == 3 then 4
      else if m.control.mode == 4 then 9 else if m.control.mode == 9 then 10 else 1), NoTest), false, Nothing)
  {
    hide *;
    var cmd := Press('m', true);
    PressIs('m', true);
    KeysOffered(m.control, 'm');
    KeysThatStop(NoTest, 'm', true);
    SoundParts(m.control);
    TableKeys(m.control, cmd.typed);
    SettingsAfter(m, cmd);
    LaunchAfter(m, cmd, NoTest, Step(m, cmd).machine.control);
    TestAfter(m, cmd);
  }

  lemma SoundParts(c: Control)
    requires Sound(c)
    ensures InTables(c) && (c.leTxMode == 1 ==> c.dataLen <= 37)
  {}

  /** The start of the program with another test mode. */
  function InMode(mode: nat): Machine {
    Machine(Control(mode, 0, 39, 39, 4, 15, 0, 0, 0, 1, 0, 0, 0, false), NoTest)
  }

  lemma InModeSound(i: nat)
    requires i < 6
    ensures Sound(InMode([1, 2, 3, 4, 9, 10][i]).control) && START == InMode(3)
  {
    assert TEST_MODES[i].value == [1, 2, 3, 4, 9, 10][i] && PACKET_TYPES[3].value == 4;
  }

  lemma PressOnce(i: nat, rest: seq<Command>)
    requires i < 6
    ensures var next := InMode([2, 3, 4, 9, 10, 1][i]);
      Played(InMode([1, 2, 3, 4, 9, 10][i]), [Press('m', true)] + rest) == (Played(next, rest).0, [Nothing] + Played(next, rest).1)
  {
    hide *;
    InModeSound(i);
    InModeIs(i);
    TestModeKey(InMode([1, 2, 3, 4, 9, 10][i]));
    PlayedOnce(InMode([1, 2, 3, 4, 9, 10][i]), Press('m', true), rest);
  }

  lemma InModeIs(i: nat)
    requires i < 6
    ensures var m, next := InMode([1, 2, 3, 4, 9, 10][i]), [2, 3, 4, 9, 10, 1][i];
      m.control.mode == [1, 2, 3, 4, 9, 10][i] && m.control.contRxMode == 0 && m.control.contTxMode == 0 && m.test == NoTest
      && Machine(m.control.(mode := next), NoTest) == InMode(next)
  {}

  /** A session takes its commands in order until one leaves. */
  lemma PlayedOnce(m: Machine, cmd: Command, rest: seq<Command>)
    ensures var o := Step(m, cmd);
      Played(m, [cmd] + rest) ==
        if o.done then (o.machine, [o.launch]) else (Played(o.machine, rest).0, [o.launch] + Played(o.machine, rest).1)
  {
    hide Step;
    assert ([cmd] + rest)[1..] == rest;
  }

  /** The first press at the defaults goes from 1010 to the pseudo-random sequence; six go
      round all test modes. */
  lemma TestModesGoRound()
    ensures var m := Press('m', true);
      && Played(START, [m]).0.control.mode == 4
      && Played(START, [m, m, m, m, m, m]).0 == START
  {
    hide Step, Sound, Press;
    var m := Press('m', true);
    InModeSound(2);
    assert [m] == [m] + [] && [m, m, m, m, m, m] == [m] + ([m] + ([m] + ([m] + ([m] + ([m] + [])))));
    PressOnce(1, []);
    PressOnce(0, [m] + []);
    PressOnce(5, [m] + ([m] + []));
    PressOnce(4, [m] + ([m] + ([m] + [])));
    PressOnce(3, [m] + ([m] + ([m] + ([m] + []))));
    PressOnce(2, [m] + ([m] + ([m] + ([m] + ([m] + [])))));
    PressOnce(2, []);
  }
}
