/** btconfig.c: the command loop of Master Blaster mode (cmd_mb), and whole sessions. */
module MasterBlasterLoop {
  import opened Basics

  import opened MasterBlaster

  /** TestEnabled. No command sets RxTest. */
  datatype Test = NoTest | RxTest | TxTest | ContRxTest | ContTxTest | LeRxTest | LeTxTest

  /** Which HCI commands the controller accepts during one command. `launch` is the one that
      starts the test, `memory` the memory write after a continuous tx start. */
  datatype Hci = Hci(reset: bool, sleep: bool, dut: bool, launch: bool, memory: bool)

  datatype Command = Command(key: char, typed: Typed, hci: Hci)

  /** The test commands sent to the controller, with what the source puts into them. The start
      of a continuous rx test carries no channel: the source programs the low bits of the
      address of its channel variable instead of its value. */
  datatype Launch =
    | Nothing
    | TxTester(mode: nat, packet: nat, dataLen: int, hopMode: nat, txFreq: nat, rxFreq: nat)
    | LeReceiver(channel: nat)
    | LeTransmitter(channel: nat, length: nat, payload: nat)
    | LeRefused
    | ContReceiver
    | ContTransmitter(mode: nat, packet: nat, dataLen: int, contTxType: nat, txFreq: nat, rxFreq: nat)

  /** A session at the prompt. */
  datatype Machine = Machine(control: Control, test: Test)

  const START := Machine(Printed(INITIAL), NoTest)

  /** The tests that field `j` starts. */
  predicate Special(t: Test) {
    t == ContRxTest || t == ContTxTest || t == LeRxTest || t == LeTxTest
  }

  // ---------- one command as a function ----------

  /** A running test is stopped by every key but the one that started it. */
  predicate Interrupts(t: Test, key: char) {
    (t == RxTest && key != RX) || (t == TxTest && key != TX) || (Special(t) && key != EN)
  }

  /** The keys after which a stopped test is not taken up again. */
  predicate Forgets(t: Test, key: char) {
    key == RX || key == TX || (t != NoTest && (key == CR || key == CT || key == LR || key == LT)) || key == EN
  }

  function AfterReset(t: Test, key: char, reset: bool): Test {
    if Interrupts(t, key) && reset && Forgets(t, key) then NoTest else t
  }

  predicate StartsTx(t: Test, key: char) {
    (key == TX && t == NoTest) || (key != TX && t == TxTest)
  }

  predicate StartsSpecial(t: Test, key: char) {
    (key == EN && t == NoTest) || (key != EN && Special(t))
  }

  /** The ranges that SU_LERxTest and SU_LETxTest check. */
  predicate LeRxAccepts(channel: nat) {
    channel <= MAX_FREQUENCY_LE
  }

  predicate LeTxAccepts(channel: nat, length: nat, payload: nat) {
    channel <= MAX_FREQUENCY_LE && length <= MAX_LENGTH_LE && payload <= 7
  }

  function TxStarted(c: Control, t: Test, hci: Hci): (Test, Launch) {
    if !hci.sleep || !hci.dut then (t, Nothing)
    else (if hci.launch then TxTest else NoTest, TxTester(c.mode, c.packet, c.dataLen, c.hopMode, c.txFreq, c.rxFreq))
  }

  /** The start of a special test: the first mode that is on, continuous tx when none is. */
  function SpecialStarted(c: Control, t: Test, hci: Hci): (Test, Launch) {
    if !hci.sleep then (t, Nothing)
    else if c.leRxMode == ENABLE then
      if LeRxAccepts(c.rxFreq) then (if hci.launch then LeRxTest else NoTest, LeReceiver(c.rxFreq)) else (NoTest, LeRefused)
    else if c.leTxMode == ENABLE then
      if LeTxAccepts(c.txFreq, UChar(c.dataLen), c.pktPayload)
      then (if hci.launch then LeTxTest else NoTest, LeTransmitter(c.txFreq, UChar(c.dataLen), c.pktPayload))
      else (NoTest, LeRefused)
    else if c.contRxMode == ENABLE then (if hci.launch then ContRxTest else NoTest, ContReceiver)
    else if !hci.dut then (t, Nothing)
    // The memory write decides: it overwrites the outcome of the test command.
    else (if hci.memory then ContTxTest else NoTest,
          ContTransmitter(c.mode, c.packet, c.dataLen, c.contTxType, c.txFreq, c.rxFreq))
  }

  function Started(c: Control, t: Test, cmd: Command): (Test, Launch) {
    if StartsTx(t, cmd.key) then TxStarted(c, t, cmd.hci)
    else if cmd.key == TX && t == TxTest then (t, Nothing)
    else if StartsSpecial(t, cmd.key) then SpecialStarted(c, t, cmd.hci)
    else (t, Nothing)
  }

  datatype Outcome = Outcome(machine: Machine, done: bool, launch: Launch)

  function Step(m: Machine, cmd: Command): Outcome {
    var key := cmd.key;
    var t := AfterReset(m.test, key, cmd.hci.reset);
    if !Offered(m.control, key) then Outcome(m, false, Nothing)
    else if key == EXX then Outcome(m, true, Nothing)
    else if key == EX then Outcome(Machine(m.control, NoTest), true, Nothing)
    else if key == ST then Outcome(Machine(Printed(m.control), NoTest), false, Nothing)
    else match Applied(m.control, key, cmd.typed)
      case None => Outcome(Machine(m.control, t), false, Nothing)
      case Some(c) =>
        var (test, launch) := Started(Printed(c), t, cmd);
        Outcome(Machine(Printed(c), test), false, launch)
  }

  // ---------- the loop as it is written ----------

  class Session {
    const settings: Settings
    var testEnabled: Test

    ghost function View(): Machine
      reads this, settings
    {
      Machine(settings.View(), testEnabled)
    }

    constructor ()
      ensures fresh(settings) && View() == START
    {
      settings := new Settings();
      testEnabled := NoTest;
      new;
      settings.PrintMenu();
    }

    /** SU_LERxTest. */
    method LERxTest(channel: nat, hci: Hci) returns (ok: bool, launch: Launch)
      ensures launch == if channel <= 39 then LeReceiver(channel) else LeRefused
      ensures ok <==> channel <= 39 && hci.launch
    {
      if channel < 0 || channel > MAX_FREQUENCY_LE { return false, LeRefused; }
      return hci.launch, LeReceiver(channel);
    }

    /** SU_LETxTest. */
    method LETxTest(channel: nat, length: nat, payload: nat, hci: Hci) returns (ok: bool, launch: Launch)
      ensures launch == if channel <= 39 && length <= 37 && payload <= 7 then LeTransmitter(channel, length, payload) else LeRefused
      ensures ok <==> channel <= 39 && length <= 37 && payload <= 7 && hci.launch
    {
      if channel < 0 || channel > MAX_FREQUENCY_LE { return false, LeRefused; }
      if length < 0 || length > MAX_LENGTH_LE { return false, LeRefused; }
      if payload > 7 { return false, LeRefused; }
      return hci.launch, LeTransmitter(channel, length, payload);
    }

    /** The reset that stops a running test. */
    method StopRunningTest(key: char, hci: Hci)
      modifies this
      ensures testEnabled == AfterReset(old(testEnabled), key, hci.reset)
    {
      if (testEnabled == RxTest && key != RX) || (testEnabled == TxTest && key != TX)
        || ((testEnabled == ContRxTest || testEnabled == ContTxTest || testEnabled == LeRxTest || testEnabled == LeTxTest) && key != EN)
      {
        var ok := hci.reset;
        if !ok {
        } else if key == RX || key == TX
          || (testEnabled != NoTest && (key == CR || key == CT || key == LR || key == LT)) || key == EN
        {
          testEnabled := NoTest;
        }
      }
    }

    method EnableTx(hci: Hci) returns (launch: Launch)
      modifies this
      ensures (testEnabled, launch) == TxStarted(settings.View(), old(testEnabled), hci)
    {
      if !hci.sleep { return Nothing; }
      if !hci.dut { return Nothing; }
      launch := TxTester(settings.mode, settings.packet, settings.dataLen, settings.hopMode, settings.txFreq, settings.rxFreq);
      if !hci.launch { testEnabled := NoTest; } else { testEnabled := TxTest; }
    }

    method EnableSpecial(hci: Hci) returns (launch: Launch)
      modifies this
      ensures (testEnabled, launch) == SpecialStarted(settings.View(), old(testEnabled), hci)
    {
      if !hci.sleep { return Nothing; }
      var ok;
      if settings.leRxMode == ENABLE {
        ok, launch := LERxTest(settings.rxFreq, hci);
        testEnabled := LeRxTest;
      } else if settings.leTxMode == ENABLE {
        ok, launch := LETxTest(settings.txFreq, UChar(settings.dataLen), settings.pktPayload, hci);
        testEnabled := LeTxTest;
      } else if settings.contRxMode == ENABLE {
        ok, launch := hci.launch, ContReceiver;
        testEnabled := ContRxTest;
      } else {
        if !hci.dut { return Nothing; }
        launch := ContTransmitter(settings.mode, settings.packet, settings.dataLen, settings.contTxType,
                                  settings.txFreq, settings.rxFreq);
        ok := hci.launch;
        ok := hci.memory;
        testEnabled := ContTxTest;
      }
      if !ok { testEnabled := NoTest; }
    }

    /** One turn of the loop of cmd_mb. */
    method Turn(cmd: Command) returns (done: bool, launch: Launch)
      modifies this, settings
      ensures Outcome(View(), done, launch) == Step(old(View()), cmd)
    {
      hide Applied, Offered, Printed, AfterReset, TxStarted, SpecialStarted, Forgets, Interrupts;
      var key := cmd.key;
      var field := settings.CheckField(key);
      if field == -1 { return false, Nothing; }
      if key == EXX { return true, Nothing; }
      StopRunningTest(key, cmd.hci);
      if key == EX {
        testEnabled := NoTest;
        return true, Nothing;
      } else if key == ST {
        testEnabled := NoTest;
        settings.PrintMenu();
        return false, Nothing;
      } else if key == GB {
        GetBerKeeps(settings.View(), cmd.typed);
      } else {
        var ok := settings.CallField(key, cmd.typed);
        if !ok { return false, Nothing; }
      }
      settings.PrintMenu();
      if (key == TX && testEnabled == NoTest) || (key != TX && testEnabled == TxTest) {
        launch := EnableTx(cmd.hci);
        return false, launch;
      } else if key == TX && testEnabled == TxTest {
        return false, Nothing;
      }
      if (key == EN && testEnabled == NoTest)
        || (key != EN && (testEnabled == ContRxTest || testEnabled == ContTxTest || testEnabled == LeRxTest || testEnabled == LeTxTest))
      {
        launch := EnableSpecial(cmd.hci);
        return false, launch;
      }
      return false, Nothing;
    }

    /** A whole session: commands until one leaves, or the input ends. */
    method Play(cmds: seq<Command>) returns (launches: seq<Launch>)
      modifies this, settings
      ensures View() == Played(old(View()), cmds).0
      ensures launches == Played(old(View()), cmds).1
    {
      hide Step, Played;
      ghost var m := View();
      launches := [];
      var i := 0;
      assert cmds[0..] == cmds;
      while i < |cmds|
        invariant 0 <= i <= |cmds|
        invariant Played(m, cmds).0 == Played(View(), cmds[i..]).0
        invariant Played(m, cmds).1 == launches + Played(View(), cmds[i..]).1
      {
        PlayedNext(View(), cmds, i);
        var done, launch := Turn(cmds[i]);
        launches := launches + [launch];
        i := i + 1;
        if done { return; }
      }
      PlayedNothing(View(), cmds);
    }
  }

  lemma PlayedNothing(m: Machine, cmds: seq<Command>)
    ensures Played(m, cmds[|cmds|..]) == (m, [])
  {}

  lemma PlayedNext(m: Machine, cmds: seq<Command>, i: nat)
    requires i < |cmds|
    ensures var o := Step(m, cmds[i]);
            Played(m, cmds[i..]) ==
              if o.done then (o.machine, [o.launch])
              else (Played(o.machine, cmds[i + 1..]).0, [o.launch] + Played(o.machine, cmds[i + 1..]).1)
  {
    hide Step;
    assert cmds[i..][1..] == cmds[i + 1..] && cmds[i..][0] == cmds[i];
  }

  lemma GetBerKeeps(c: Control, typed: Typed)
    ensures Applied(c, GB, typed) == Some(c)
  {}

  /** The machine and the test commands sent after a sequence of commands. */
  function Played(m: Machine, cmds: seq<Command>): (Machine, seq<Launch>)
    decreases |cmds|
  {
    if cmds == [] then (m, [])
    else
      var o := Step(m, cmds[0]);
      if o.done then (o.machine, [o.launch])
      else (Played(o.machine, cmds[1..]).0, [o.launch] + Played(o.machine, cmds[1..]).1)
  }

  // ---------- what every command keeps ----------

  lemma ToggledSwitch(v: nat)
    requires OnOff(v)
    ensures Toggled(v, SWITCH) == Some(1 - v)
  {
    IndexIsFirst(v, SWITCH, v);
  }

  lemma ValuesAreIndices(v: nat)
    ensures OneOf(v, CONT_TX_TYPES) ==> v < |CONT_TX_TYPES|
    ensures OneOf(v, BER_TYPES) ==> v < |BER_TYPES|
    ensures OneOf(v, PAYLOADS) ==> v < |PAYLOADS|
  {}

  lemma IndicesAreValues(v: nat)
    ensures v < |CONT_TX_TYPES| ==> OneOf(v, CONT_TX_TYPES)
    ensures v < |BER_TYPES| ==> OneOf(v, BER_TYPES)
    ensures v < |PAYLOADS| ==> OneOf(v, PAYLOADS)
  {
    if v < |CONT_TX_TYPES| { assert CONT_TX_TYPES[v].value == v; }
    if v < |BER_TYPES| { assert BER_TYPES[v].value == v; }
    if v < |PAYLOADS| { assert PAYLOADS[v].value == v; }
  }

  predicate Refused(typed: Typed, limit: nat) {
    forall i :: 0 <= i < 3 ==> !(0 <= typed[i] <= limit)
  }

  lemma SwitchesApply(c: Control, key: char, typed: Typed)
    requires Exclusive(c) && InTables(c) && (key == CR || key == CT || key == LR || key == LT || key == HM)
    ensures Applied(c, key, typed).Some?
  {
    hide Toggled, IndexOf, OneOf, WithContRx, WithContTx, WithLeRx, WithLeTx;
    ToggledSwitch(c.contRxMode); ToggledSwitch(c.contTxMode); ToggledSwitch(c.leRxMode); ToggledSwitch(c.leTxMode);
    ToggledSwitch(c.hopMode);
  }

  lemma TablesApply(c: Control, key: char, typed: Typed)
    requires InTables(c) && (key == LTM || key == CX || key == TM || key == PT || key == SB)
    ensures Applied(c, key, typed).Some?
  {
    hide Toggled, IndexOf, OneOf, LargestPayload;
    IndicesAreValues(c.contTxType); IndicesAreValues(c.berType); IndicesAreValues(c.pktPayload);
  }

  lemma NumbersApply(c: Control, key: char, typed: Typed)
    requires key == TF || key == RF || key == DL
    ensures Applied(c, key, typed) == None <==> Refused(typed, if key == DL then LengthLimit(c) else FrequencyLimit(c))
  {
    hide FirstWithin;
    RefusedAll(typed, 0, FrequencyLimit(c));
    RefusedAll(typed, 0, LengthLimit(c));
  }

  /** On sound settings every toggle finds its value. A number field fails exactly when none
      of three attempts is in range. */
  lemma AppliedExactly(c: Control, key: char, typed: Typed)
    requires Sound(c)
    ensures Applied(c, key, typed) == None
       <==> ((key == TF || key == RF) && Refused(typed, FrequencyLimit(c))) || (key == DL && Refused(typed, LengthLimit(c)))
  {
    if key == CR || key == CT || key == LR || key == LT || key == HM {
      hide Applied, Exclusive, InTables, InRange;
      SwitchesApply(c, key, typed);
    } else if key == LTM || key == CX || key == TM || key == PT || key == SB {
      hide Applied, Exclusive, InTables, InRange;
      TablesApply(c, key, typed);
    } else if key == TF || key == RF || key == DL {
      hide Applied, Exclusive, InTables, InRange;
      NumbersApply(c, key, typed);
    }
  }

  lemma ExclusiveAfterContRx(c: Control, typed: Typed)
    requires Exclusive(c)
    ensures Applied(c, CR, typed).Some? && Exclusive(Applied(c, CR, typed).value)
  {
    hide Toggled, IndexOf, Min;
    ToggledSwitch(c.contRxMode);
  }

  lemma ExclusiveAfterContTx(c: Control, typed: Typed)
    requires Exclusive(c)
    ensures Applied(c, CT, typed).Some? && Exclusive(Applied(c, CT, typed).value)
  {
    hide Toggled, IndexOf, Min;
    ToggledSwitch(c.contTxMode);
  }

  lemma ExclusiveAfterLeRx(c: Control, typed: Typed)
    requires Exclusive(c)
    ensures Applied(c, LR, typed).Some? && Exclusive(Applied(c, LR, typed).value)
  {
    hide Toggled, IndexOf, Min;
    ToggledSwitch(c.leRxMode);
  }

  lemma ExclusiveAfterLeTx(c: Control, typed: Typed)
    requires Exclusive(c)
    ensures Applied(c, LT, typed).Some? && Exclusive(Applied(c, LT, typed).value)
  {
    hide Toggled, IndexOf, Min;
    ToggledSwitch(c.leTxMode);
  }

  lemma ExclusiveAfterOthers(c: Control, key: char, typed: Typed)
    requires Exclusive(c) && key != CR && key != CT && key != LR && key != LT && Applied(c, key, typed).Some?
    ensures Exclusive(Applied(c, key, typed).value)
  {
    hide Toggled, IndexOf, OneOf, FirstWithin, LargestPayload;
  }

  lemma AppliedExclusive(c: Control, key: char, typed: Typed)
    requires Exclusive(c) && Applied(c, key, typed).Some?
    ensures Exclusive(Applied(c, key, typed).value)
  {
    hide *;
    if key == CR {
      ExclusiveAfterContRx(c, typed);
    } else if key == CT {
      ExclusiveAfterContTx(c, typed);
    } else if key == LR {
      ExclusiveAfterLeRx(c, typed);
    } else if key == LT {
      ExclusiveAfterLeTx(c, typed);
    } else {
      ExclusiveAfterOthers(c, key, typed);
    }
  }

  /** Fields whose value is a place in a table. */
  lemma AppliedIndices(c: Control, key: char, typed: Typed)
    requires InTables(c) && (key == LTM || key == CX || key == SB || key == HM) && Applied(c, key, typed).Some?
    ensures InTables(Applied(c, key, typed).value)
  {
    hide Toggled, IndexOf, OneOf;
    ToggledSwitch(c.hopMode);
    if Toggled(c.contTxType, CONT_TX_TYPES).Some? { ValuesAreIndices(Toggled(c.contTxType, CONT_TX_TYPES).value); }
    if Toggled(c.berType, BER_TYPES).Some? { ValuesAreIndices(Toggled(c.berType, BER_TYPES).value); }
    if Toggled(c.pktPayload, PAYLOADS).Some? { ValuesAreIndices(Toggled(c.pktPayload, PAYLOADS).value); }
  }

  lemma AppliedOtherTables(c: Control, key: char, typed: Typed)
    requires InTables(c) && key != LTM && key != CX && key != SB && key != HM && Applied(c, key, typed).Some?
    ensures InTables(Applied(c, key, typed).value)
  {
    hide Toggled, IndexOf, OneOf, FirstWithin, Min, LargestPayload;
  }

  lemma AppliedInTables(c: Control, key: char, typed: Typed)
    requires InTables(c) && Applied(c, key, typed).Some?
    ensures InTables(Applied(c, key, typed).value)
  {
    hide *;
    if key == LTM || key == CX || key == SB || key == HM {
      AppliedIndices(c, key, typed);
    } else {
      AppliedOtherTables(c, key, typed);
    }
  }

  lemma PayloadsInRange(packet: nat)
    requires OneOf(packet, PACKET_TYPES)
    ensures LargestPayload(packet) <= MAX_LENGTH
  {
    hide IndexOf, OneOf;
  }

  lemma AppliedLength(c: Control, key: char, typed: Typed)
    requires 0 <= c.dataLen <= MAX_LENGTH && Applied(c, key, typed).Some?
    ensures 0 <= Applied(c, key, typed).value.dataLen <= MAX_LENGTH
  {
    hide Toggled, IndexOf, OneOf, FirstWithin, LargestPayload, Min;
    if Toggled(c.packet, PACKET_TYPES).Some? { PayloadsInRange(Toggled(c.packet, PACKET_TYPES).value); }
  }

  lemma AppliedInRange(c: Control, key: char, typed: Typed)
    requires Exclusive(c) && InRange(c) && Applied(c, key, typed).Some?
    ensures InRange(Applied(c, key, typed).value)
  {
    AppliedLength(c, key, typed);
    AppliedFrequencies(c, key, typed);
    hide Applied;
  }

  predicate FrequenciesInRange(c: Control) {
    && c.txFreq <= MAX_FREQUENCY && c.rxFreq <= MAX_FREQUENCY
    && (c.leRxMode == ENABLE ==> c.rxFreq <= MAX_FREQUENCY_LE)
    && (c.leTxMode == ENABLE ==> c.txFreq <= MAX_FREQUENCY_LE)
  }

  /** The LE modes cap the channel that they use. */
  lemma FrequenciesAfterLe(c: Control, key: char, typed: Typed)
    requires Exclusive(c) && FrequenciesInRange(c) && (key == LR || key == LT)
    ensures Applied(c, key, typed).Some? && FrequenciesInRange(Applied(c, key, typed).value)
  {
    hide Toggled, IndexOf;
    ToggledSwitch(c.leRxMode); ToggledSwitch(c.leTxMode);
  }

  /** Typed channels obey the limit of LE mode. */
  lemma FrequenciesAfterTyping(c: Control, key: char, typed: Typed)
    requires Exclusive(c) && FrequenciesInRange(c) && (key == TF || key == RF) && Applied(c, key, typed).Some?
    ensures FrequenciesInRange(Applied(c, key, typed).value)
  {
    hide FirstWithin;
  }

  lemma FrequenciesAfterOthers(c: Control, key: char, typed: Typed)
    requires FrequenciesInRange(c) && key != LR && key != LT && key != TF && key != RF && Applied(c, key, typed).Some?
    ensures FrequenciesInRange(Applied(c, key, typed).value)
  {
    hide Toggled, IndexOf, OneOf, FirstWithin, LargestPayload;
  }

  lemma AppliedFrequencies(c: Control, key: char, typed: Typed)
    requires Exclusive(c) && FrequenciesInRange(c) && Applied(c, key, typed).Some?
    ensures FrequenciesInRange(Applied(c, key, typed).value)
  {
    hide *;
    if key == LR || key == LT {
      FrequenciesAfterLe(c, key, typed);
    } else if key == TF || key == RF {
      FrequenciesAfterTyping(c, key, typed);
    } else {
      FrequenciesAfterOthers(c, key, typed);
    }
  }

  lemma PrintedSound(c: Control)
    requires Exclusive(c) && InTables(c) && InRange(c)
    ensures Sound(Printed(c))
  {
    hide OneOf;
  }

  /** Each field function, followed by the menu, keeps the settings sound. */
  lemma AppliedSound(c: Control, key: char, typed: Typed)
    requires Sound(c) && Applied(c, key, typed).Some?
    ensures Sound(Printed(Applied(c, key, typed).value))
  {
    hide Applied, Exclusive, InTables, InRange, Printed;
    AppliedExclusive(c, key, typed);
    AppliedInTables(c, key, typed);
    AppliedInRange(c, key, typed);
    PrintedSound(Applied(c, key, typed).value);
  }

  lemma StartSound()
    ensures Sound(START.control)
  {
    assert TEST_MODES[2].value == 3 && PACKET_TYPES[3].value == 4;
  }

  /** A test command that the LE checks would refuse, or that names a payload out of the table. */
  predicate Proper(launch: Launch) {
    match launch
    case LeReceiver(channel) => LeRxAccepts(channel)
    case LeTransmitter(channel, length, payload) => LeTxAccepts(channel, length, payload)
    case LeRefused => false
    case _ => true
  }

  /** One command: settings stay sound, and no LE start is refused by its range checks. */
  lemma StepSafe(m: Machine, cmd: Command)
    requires Sound(m.control)
    ensures Sound(Step(m, cmd).machine.control) && Proper(Step(m, cmd).launch)
  {
    hide Applied, OneOf;
    if Applied(m.control, cmd.key, cmd.typed).Some? { AppliedSound(m.control, cmd.key, cmd.typed); }
  }

  /** Every session of commands, with any input and any answers of the controller. */
  lemma {:induction false} SessionSafe(m: Machine, cmds: seq<Command>)
    requires Sound(m.control)
    ensures Sound(Played(m, cmds).0.control)
    ensures forall i :: 0 <= i < |Played(m, cmds).1| ==> Proper(Played(m, cmds).1[i])
    decreases |cmds|
  {
    hide Step, Sound, Proper;
    if cmds != [] {
      StepSafe(m, cmds[0]);
      SessionSafe(Step(m, cmds[0]).machine, cmds[1..]);
    }
  }

  /** So from the start of the program on. */
  lemma EverySession(cmds: seq<Command>)
    ensures Sound(Played(START, cmds).0.control)
    ensures forall i :: 0 <= i < |Played(START, cmds).1| ==> Proper(Played(START, cmds).1[i])
  {
    hide *;
    StartSound();
    SessionSafe(START, cmds);
  }

  // ---------- whether TestEnabled matches the modes ----------

  datatype Modes = Modes(contRx: bool, contTx: bool, leRx: bool, leTx: bool)

  function ModesOf(c: Control): Modes {
    Modes(c.contRxMode == ENABLE, c.contTxMode == ENABLE, c.leRxMode == ENABLE, c.leTxMode == ENABLE)
  }

  const ALL_OFF := Modes(false, false, false, false)

  /** The four mode keys toggle their own mode against all others; the test mode key ends the
      continuous ones; no other key touches a mode. */
  function ModesAfter(s: Modes, key: char): Modes {
    if key == CR then if s.contRx then s.(contRx := false) else ALL_OFF.(contRx := true)
    else if key == CT then if s.contTx then s.(contTx := false) else ALL_OFF.(contTx := true)
    else if key == LR then if s.leRx then s.(leRx := false) else ALL_OFF.(leRx := true)
    else if key == LT then if s.leTx then s.(leTx := false) else ALL_OFF.(leTx := true)
    else if key == TM then s.(contRx := false, contTx := false)
    else s
  }

  lemma PrintedModes(c: Control)
    ensures ModesOf(Printed(c)) == ModesOf(c)
  {}

  lemma ModesOfContRx(c: Control, typed: Typed)
    requires Exclusive(c)
    ensures Applied(c, CR, typed).Some? && ModesOf(Applied(c, CR, typed).value) == ModesAfter(ModesOf(c), CR)
  {
    hide Toggled, IndexOf;
    ToggledSwitch(c.contRxMode);
  }

  lemma ModesOfContTx(c: Control, typed: Typed)
    requires Exclusive(c)
    ensures Applied(c, CT, typed).Some? && ModesOf(Applied(c, CT, typed).value) == ModesAfter(ModesOf(c), CT)
  {
    hide Toggled, IndexOf;
    ToggledSwitch(c.contTxMode);
  }

  lemma ModesOfLeRx(c: Control, typed: Typed)
    requires Exclusive(c)
    ensures Applied(c, LR, typed).Some? && ModesOf(Applied(c, LR, typed).value) == ModesAfter(ModesOf(c), LR)
  {
    hide Toggled, IndexOf, Min;
    ToggledSwitch(c.leRxMode);
  }

  lemma ModesOfLeTx(c: Control, typed: Typed)
    requires Exclusive(c)
    ensures Applied(c, LT, typed).Some? && ModesOf(Applied(c, LT, typed).value) == ModesAfter(ModesOf(c), LT)
  {
    hide Toggled, IndexOf, Min;
    ToggledSwitch(c.leTxMode);
  }

  lemma ModesOfOthers(c: Control, key: char, typed: Typed)
    requires key != CR && key != CT && key != LR && key != LT && Applied(c, key, typed).Some?
    ensures ModesOf(Applied(c, key, typed).value) == ModesAfter(ModesOf(c), key)
  {
    hide Toggled, IndexOf, OneOf, FirstWithin, LargestPayload;
  }

  lemma AppliedModes(c: Control, key: char, typed: Typed)
    requires Exclusive(c) && Applied(c, key, typed).Some?
    ensures ModesOf(Printed(Applied(c, key, typed).value)) == ModesAfter(ModesOf(c), key)
  {
    hide *;
    PrintedModes(Applied(c, key, typed).value);
    if key == CR {
      ModesOfContRx(c, typed);
    } else if key == CT {
      ModesOfContTx(c, typed);
    } else if key == LR {
      ModesOfLeRx(c, typed);
    } else if key == LT {
      ModesOfLeTx(c, typed);
    } else {
      ModesOfOthers(c, key, typed);
    }
  }

  /** The test is the one that the modes select; a continuous tx test is what is left when no
      other mode is on. */
  predicate Selects(s: Modes, t: Test) {
    match t
    case LeRxTest => s.leRx
    case LeTxTest => s.leTx
    case ContRxTest => s.contRx
    case ContTxTest => !s.leRx && !s.leTx && !s.contRx
    case RxTest => false
    case _ => true
  }

  predicate Matches(m: Machine) {
    Selects(ModesOf(m.control), m.test)
  }

  predicate ModeKey(key: char) {
    key == CR || key == CT || key == LR || key == LT
  }

  /** A key that ends the mode under test while the test is remembered: a mode key whose reset
      failed, or the test mode key, which turns continuous rx off. (Toggling continuous tx does
      not undercut a continuous tx test.) */
  predicate Undercuts(t: Test, key: char, hci: Hci) {
    || (Special(t) && ModeKey(key) && !hci.reset && !(t == ContTxTest && key == CT))
    || (t == ContRxTest && key == TM)
  }

  /** Then the restart is for continuous tx unless the key put another mode in force, and
      continuous tx needs the DUT command as well. */
  predicate FallsToTx(t: Test, key: char) {
    key == CT || key == TM || (key == LR && t == LeRxTest) || (key == LT && t == LeTxTest) || (key == CR && t == ContRxTest)
  }

  predicate BreaksOff(s: Modes, hci: Hci) {
    !hci.sleep || (Selects(s, ContTxTest) && !hci.dut)
  }

  lemma StartedMatches(c: Control, t: Test, cmd: Command)
    requires Sound(c) && t != RxTest
    ensures Selects(ModesOf(c), Started(c, t, cmd).0)
       <==> Selects(ModesOf(c), t) || (StartsSpecial(t, cmd.key) && !BreaksOff(ModesOf(c), cmd.hci))
  {
    hide InTables, OneOf;
  }

  predicate OneMode(s: Modes) {
    s in {ALL_OFF, ALL_OFF.(contRx := true), ALL_OFF.(contTx := true), ALL_OFF.(leRx := true), ALL_OFF.(leTx := true)}
  }

  lemma AtMostOne(c: Control)
    requires Exclusive(c)
    ensures OneMode(ModesOf(c))
  {}

  /** The same question for the four modes alone. */
  lemma StaleModes(s: Modes, t: Test, key: char, hci: Hci, u: Test, after: Modes)
    requires OneMode(s) && Selects(s, t)
    requires u == AfterReset(t, key, hci.reset) && after == ModesAfter(s, key)
    ensures Selects(after, u) || (StartsSpecial(u, key) && !BreaksOff(after, hci))
       <==> !(Undercuts(t, key, hci) && (!hci.sleep || (FallsToTx(t, key) && !hci.dut)))
  {}

  /** The command changes no setting and starts nothing: it is refused, leaves, stops, or fails. */
  predicate Idle(c: Control, cmd: Command) {
    !Offered(c, cmd.key) || cmd.key == EXX || cmd.key == EX || cmd.key == ST || Applied(c, cmd.key, cmd.typed).None?
  }

  lemma StepTest(m: Machine, cmd: Command)
    requires Sound(m.control) && !Idle(m.control, cmd)
    ensures var c := Printed(Applied(m.control, cmd.key, cmd.typed).value);
            var r := Started(c, AfterReset(m.test, cmd.key, cmd.hci.reset), cmd);
            Step(m, cmd).machine == Machine(c, r.0) && Step(m, cmd).launch == r.1
  {
    hide Sound, Applied, Offered, Printed, Started;
  }

  lemma StepIdle(m: Machine, cmd: Command)
    requires Idle(m.control, cmd)
    requires Matches(m)
    ensures Matches(Step(m, cmd).machine)
  {
    hide Applied, Offered, Interrupts;
  }

  lemma IdleKeys(m: Machine, cmd: Command)
    requires Sound(m.control)
    requires Idle(m.control, cmd)
    ensures !Undercuts(m.test, cmd.key, cmd.hci)
  {
    AppliedExactly(m.control, cmd.key, cmd.typed);
    hide Applied, Sound;
  }

  /** TestEnabled goes stale exactly when the mode under test is undercut and the restart
      breaks off before it sends a test command. */
  lemma StaleExactly(m: Machine, cmd: Command)
    requires Sound(m.control) && Matches(m)
    ensures !Matches(Step(m, cmd).machine)
       <==> Undercuts(m.test, cmd.key, cmd.hci) && (!cmd.hci.sleep || (FallsToTx(m.test, cmd.key) && !cmd.hci.dut))
  {
    if Idle(m.control, cmd) {
      hide *;
      StepIdle(m, cmd);
      IdleKeys(m, cmd);
    } else {
      StaleWhenApplied(m, cmd);
    }
  }

  lemma StaleWhenApplied(m: Machine, cmd: Command)
    requires Sound(m.control) && Matches(m) && !Idle(m.control, cmd)
    ensures !Matches(Step(m, cmd).machine)
       <==> Undercuts(m.test, cmd.key, cmd.hci) && (!cmd.hci.sleep || (FallsToTx(m.test, cmd.key) && !cmd.hci.dut))
  {
    hide Step, Applied, Offered, Printed, Started, ModesOf, OneMode, ModesAfter, Exclusive, InTables, InRange;
    hide Undercuts, FallsToTx, BreaksOff, StartsSpecial, Interrupts, Forgets;
    var c := Printed(Applied(m.control, cmd.key, cmd.typed).value);
    var u := AfterReset(m.test, cmd.key, cmd.hci.reset);
    AppliedSound(m.control, cmd.key, cmd.typed);
    AppliedModes(m.control, cmd.key, cmd.typed);
    AtMostOne(m.control);
    StepTest(m, cmd);
    StartedMatches(c, u, cmd);
    StaleModes(ModesOf(m.control), m.test, cmd.key, cmd.hci, u, ModesOf(c));
  }

  // ---------- continuous tx while it is switched off ----------

  /** A continuous tx command goes out although continuous tx is off. */
  predicate StrayTx(o: Outcome) {
    o.launch.ContTransmitter? && o.machine.control.contTxMode == DISABLE
  }

  /** That happens exactly when a special test is started, by its key or again after another,
      with all four modes off, and the sleep and DUT commands are accepted. */
  lemma StrayTxExactly(m: Machine, cmd: Command)
    requires Sound(m.control)
    ensures StrayTx(Step(m, cmd))
       <==> (!Idle(m.control, cmd) && StartsSpecial(AfterReset(m.test, cmd.key, cmd.hci.reset), cmd.key)
             && cmd.hci.sleep && cmd.hci.dut && ModesAfter(ModesOf(m.control), cmd.key) == ALL_OFF)
  {
    if Idle(m.control, cmd) {
      hide Applied, Offered, Sound;
    } else {
      StrayWhenApplied(m, cmd);
    }
  }

  lemma StrayWhenApplied(m: Machine, cmd: Command)
    requires Sound(m.control) && !Idle(m.control, cmd)
    ensures StrayTx(Step(m, cmd))
       <==> (StartsSpecial(AfterReset(m.test, cmd.key, cmd.hci.reset), cmd.key)
             && cmd.hci.sleep && cmd.hci.dut && ModesAfter(ModesOf(m.control), cmd.key) == ALL_OFF)
  {
    hide Step, Applied, Offered, Printed, Started, ModesOf, ModesAfter, Exclusive, InTables, InRange;
    hide StartsSpecial, AfterReset;
    var c := Printed(Applied(m.control, cmd.key, cmd.typed).value);
    AppliedSound(m.control, cmd.key, cmd.typed);
    AppliedModes(m.control, cmd.key, cmd.typed);
    StepTest(m, cmd);
    StartedStray(c, AfterReset(m.test, cmd.key, cmd.hci.reset), cmd);
  }

  lemma StartedStray(c: Control, t: Test, cmd: Command)
    requires Sound(c)
    ensures Started(c, t, cmd).1.ContTransmitter? && c.contTxMode == DISABLE
       <==> StartsSpecial(t, cmd.key) && cmd.hci.sleep && cmd.hci.dut && ModesOf(c) == ALL_OFF
  {
    hide InTables, InRange;
  }

  /** The test mode key during a continuous rx test is one way: it ends continuous rx and
      starts what is left, continuous tx. */
  lemma TestModeKeyTransmits(m: Machine, cmd: Command)
    requires Sound(m.control) && m.control.contRxMode == ENABLE && m.test == ContRxTest && cmd.key == TM
    ensures Step(m, cmd).machine.control.contTxMode == DISABLE
    ensures Step(m, cmd).launch.ContTransmitter? <==> cmd.hci.sleep && cmd.hci.dut
    ensures Step(m, cmd).machine.test == ContTxTest <==> cmd.hci.sleep && cmd.hci.dut && cmd.hci.memory
  {
    hide Toggled, IndexOf, OneOf;
  }

  /** The start key at the defaults is another. */
  lemma FirstStartTransmits()
    ensures StrayTx(Step(START, Press(EN, true)))
  {
    hide Step, Sound;
    StartSound();
    StrayTxExactly(START, Press(EN, true));
  }

  // ---------- whether TestEnabled is what the controller answered ----------

  /** After a test command, TestEnabled says that a test runs just when the controller has
      accepted it; except that a continuous tx start goes by the memory write behind it, so
      that its answer has to be the same. */
  lemma FlagTellsAnswerExactly(m: Machine, cmd: Command)
    requires Sound(m.control) && Step(m, cmd).launch != Nothing
    ensures (Step(m, cmd).machine.test != NoTest <==> cmd.hci.launch)
       <==> (Step(m, cmd).launch.ContTransmitter? ==> cmd.hci.launch == cmd.hci.memory)
  {
    hide Sound, Applied, Offered, Started;
    StepSafe(m, cmd);
    StepIdleLaunch(m, cmd);
    var c := Printed(Applied(m.control, cmd.key, cmd.typed).value);
    StepTest(m, cmd);
    StartedAnswer(c, AfterReset(m.test, cmd.key, cmd.hci.reset), cmd);
  }

  lemma StepIdleLaunch(m: Machine, cmd: Command)
    requires Step(m, cmd).launch != Nothing
    ensures !Idle(m.control, cmd)
  {
    hide Applied, Offered;
  }

  lemma StartedAnswer(c: Control, t: Test, cmd: Command)
    requires Started(c, t, cmd).1 != Nothing && Proper(Started(c, t, cmd).1)
    ensures Started(c, t, cmd).0 != NoTest
       <==> if Started(c, t, cmd).1.ContTransmitter? then cmd.hci.memory else cmd.hci.launch
  {}

  /** The start key at the defaults, the test command refused, the memory write accepted. */
  lemma RefusedButEnabled()
    ensures Step(START, Command(EN, [0, 0, 0], Hci(true, true, true, false, true))).machine.test == ContTxTest
  {
    hide Toggled, IndexOf;
  }

  /** A key whose commands the controller accepts, all but perhaps the sleep command. */
  function Press(key: char, sleep: bool): Command {
    Command(key, [0, 0, 0], Hci(true, sleep, true, true, true))
  }

  const RX_ON := INITIAL.(contRxMode := ENABLE)

  lemma FirstKey()
    ensures Step(START, Press(CR, true)) == Outcome(Machine(RX_ON, NoTest), false, Nothing)
  {
    hide Toggled, IndexOf;
    ToggledSwitch(0);
  }

  lemma SecondKey()
    ensures Step(Machine(RX_ON, NoTest), Press(EN, true)) == Outcome(Machine(RX_ON, ContRxTest), false, ContReceiver)
  {
    hide Toggled, IndexOf;
  }

  lemma RxOnSound()
    ensures Sound(RX_ON) && Matches(Machine(RX_ON, ContRxTest)) && RX_ON.contRxMode == ENABLE
  {
    assert TEST_MODES[2].value == 3 && PACKET_TYPES[3].value == 4;
  }

  lemma ThreeKeys(c: Command)
    ensures Played(START, [Press(CR, true), Press(EN, true), c]).0 == Step(Machine(RX_ON, ContRxTest), c).machine
    ensures Played(START, [Press(CR, true), Press(EN, true), c]).1 == [Nothing, ContReceiver, Step(Machine(RX_ON, ContRxTest), c).launch]
  {
    hide Step, Press;
    FirstKey();
    SecondKey();
    var a, b := Press(CR, true), Press(EN, true);
    assert [a, b, c][1..] == [b, c] && [b, c][1..] == [c] && [c][1..] == [];
    assert Played(Machine(RX_ON, ContRxTest), [c]).0 == Step(Machine(RX_ON, ContRxTest), c).machine;
    assert Played(Machine(RX_ON, NoTest), [b, c]).0 == Step(Machine(RX_ON, ContRxTest), c).machine;
  }

  /** So the keys n, j, m send a continuous tx command, and leave continuous tx off. */
  lemma TransmitsInSession()
    ensures var (m, launches) := Played(START, [Press(CR, true), Press(EN, true), Press(TM, true)]);
      |launches| == 3 && launches[2].ContTransmitter? && m.control.contTxMode == DISABLE
  {
    hide *;
    RxOnSound();
    ThreeKeys(Press(TM, true));
    PressIs(TM, true);
    TestModeKeyTransmits(Machine(RX_ON, ContRxTest), Press(TM, true));
  }

  /** And with the sleep command refused at the last key, TestEnabled is stale. */
  lemma StaleInSession()
    ensures !Matches(Played(START, [Press(CR, true), Press(EN, true), Press(TM, false)]).0)
  {
    hide *;
    RxOnSound();
    ThreeKeys(Press(TM, false));
    PressIs(TM, false);
    UndercutByTestMode(Press(TM, false).hci);
    StaleExactly(Machine(RX_ON, ContRxTest), Press(TM, false));
  }

  lemma PressIs(key: char, sleep: bool)
    ensures Press(key, sleep).key == key && Press(key, sleep).hci == Hci(true, sleep, true, true, true)
  {}

  lemma UndercutByTestMode(hci: Hci)
    ensures Undercuts(ContRxTest, TM, hci)
  {}

  /** While the controller accepts the sleep and DUT commands, TestEnabled matches the modes. */
  lemma {:induction false} SessionMatches(m: Machine, cmds: seq<Command>)
    requires Sound(m.control) && Matches(m)
    requires forall i :: 0 <= i < |cmds| ==> cmds[i].hci.sleep && cmds[i].hci.dut
    ensures Matches(Played(m, cmds).0)
    decreases |cmds|
  {
    hide Step, Sound, Matches, Proper;
    if cmds != [] {
      StaleExactly(m, cmds[0]);
      StepSafe(m, cmds[0]);
      SessionMatches(Step(m, cmds[0]).machine, cmds[1..]);
    }
  }
}
