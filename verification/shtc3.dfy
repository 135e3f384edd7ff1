/** What the payload of one SHTC3 transaction means: a read is a combined
    humidity and temperature measurement (two CRC-guarded words) or the ID
    register; a write is one of twelve 16-bit commands. The text an
    annotation shows is kept as a structured Text value; Render turns it into
    the exact string.
 */
module Shtc3 {
  import Crc
  import Numerals
  import opened Options

  function HighByte(w: bv16): bv8 {
    (w >> 8) as bv8
  }

  function LowByte(w: bv16): bv8 {
    (w & 0xFF) as bv8
  }

  /** The big-endian 16-bit word `hi << 8 | lo`: its high byte is hi and its
      low byte is lo. Being a bv16, it lies in 0..65535. */
  function Word(hi: bv8, lo: bv8): (w: bv16)
    ensures HighByte(w) == hi && LowByte(w) == lo
  {
    ((hi as bv16) << 8) | (lo as bv16)
  }

  /** Every word is the join of its own two bytes, so Word is a bijection
      between byte pairs and 16-bit words. */
  lemma WordOfBytes(w: bv16)
    ensures Word(HighByte(w), LowByte(w)) == w
  {
  }

  /** The number shown for an ID-register read:
      `((id >> 5) & 1) | (id & 0x3F)`. Bits 1 to 5 of the ID are kept, bit 0
      of the result is set when bit 0 or bit 5 of the ID is set, and everything
      above bit 5 is dropped. */
  function IdentifierValue(id: bv16): (r: bv16)
    ensures r as int < 64
    ensures r & 0x3E == id & 0x3E
    ensures (r & 1 == 1) <==> (id & 0x21 != 0)
  {
    ((id >> 5) & 1) | (id & 0x3F)
  }

  /** The structured content of an annotation's text. */
  datatype Text =
    | NoText                                            // "" of a frame not yet finished
    | Reading(rawHumidity: bv16, rawTemperature: bv16)  // "RH: <h> Temp: <t> °C"
    | CrcError                                          // "CRC error"
    | SensorId(value: bv16)                             // "SHT identifier: <value>"
    | CommandName(command: CommandId)                   // "Command: <name>"
    | UnknownCommand(code: bv16)                        // "Invalid command: 0x<hex>"
    | WrongCommandLength(count: nat)                    // "... expected 2 got <count>"

  /** The outcome of interpreting a read. A read of any length other than 2 or
      6 makes the source concatenate a string with a list, which raises a
      TypeError in Python. */
  datatype ReadOutcome = ReadText(text: Text) | ConcatTypeError

  /** The commands of the sensor: four plain ones and eight measurement
      commands, which differ in power mode, in which quantity is measured
      first and in whether clock stretching is enabled. */
  datatype CommandId =
    | Wakeup
    | Sleep
    | SoftwareReset
    | ReadIdRegister
    | Measure(lowPower: bool, humidityFirst: bool, clockStretching: bool)

  /** The name the source shows for each command, e.g. "Read low power mode,
      measure RH first with clock stretching disabled". */
  function Name(c: CommandId): string {
    match c
    case Wakeup => "Wakeup"
    case Sleep => "Sleep"
    case SoftwareReset => "Software reset"
    case ReadIdRegister => "Read ID register"
    case Measure(false, false, true) => "Read normal mode, measure temperature first with clock stretching enabled"
    case Measure(false, true, true) => "Read normal mode, measure RH first with clock stretching enabled"
    case Measure(false, false, false) => "Read normal mode, measure temperature first with clock stretching disabled"
    case Measure(false, true, false) => "Read normal mode, measure RH first with clock stretching disabled"
    case Measure(true, false, true) => "Read low power mode, measure temperature first with clock stretching enabled"
    case Measure(true, true, true) => "Read low power mode, measure RH first with clock stretching enabled"
    case Measure(true, false, false) => "Read low power mode, measure temperature first with clock stretching disabled"
    case Measure(true, true, false) => "Read low power mode, measure RH first with clock stretching disabled"
  }

  /** No command has the empty name, so the source's use of "" for "no
      command matched" cannot be confused with a match. The proof goes
      through the names one power mode at a time, which keeps each step
      small. */
  lemma NamesNonEmpty(c: CommandId)
    ensures |Name(c)| > 0
  {
    match c
    case Measure(false, _, _) => NormalModeNamesNonEmpty();
    case Measure(true, _, _) => LowPowerModeNamesNonEmpty();
    case _ => PlainNamesNonEmpty();
  }

  lemma PlainNamesNonEmpty()
    ensures |Name(Wakeup)| > 0 && |Name(Sleep)| > 0
    ensures |Name(SoftwareReset)| > 0 && |Name(ReadIdRegister)| > 0
  {
  }

  lemma NormalModeNamesNonEmpty()
    ensures |Name(Measure(false, false, false))| > 0 && |Name(Measure(false, false, true))| > 0
    ensures |Name(Measure(false, true, false))| > 0 && |Name(Measure(false, true, true))| > 0
  {
  }

  lemma LowPowerModeNamesNonEmpty()
    ensures |Name(Measure(true, false, false))| > 0 && |Name(Measure(true, false, true))| > 0
    ensures |Name(Measure(true, true, false))| > 0 && |Name(Measure(true, true, true))| > 0
  {
  }

  /** One entry of the command table. */
  datatype Command = Command(code: bv16, id: CommandId)

  /** The twelve command codes the decoder knows, in the order the source
      tests them. */
  const Commands: seq<Command> := [
    Command(0x3517, Wakeup),
    Command(0xB098, Sleep),
    Command(0x805D, SoftwareReset),
    Command(0xEFC8, ReadIdRegister),
    Command(0x7CA2, Measure(false, false, true)),
    Command(0x5C24, Measure(false, true, true)),
    Command(0x7866, Measure(false, false, false)),
    Command(0x58E0, Measure(false, true, false)),
    Command(0x6458, Measure(true, false, true)),
    Command(0x44DE, Measure(true, true, true)),
    Command(0x609C, Measure(true, false, false)),
    Command(0x401A, Measure(true, true, false))
  ]

  predicate DistinctCodes(table: seq<Command>) {
    forall i, j :: 0 <= i < j < |table| ==> table[i].code != table[j].code
  }

  predicate IsCommandCode(code: bv16) {
    exists i :: 0 <= i < |Commands| && Commands[i].code == code
  }

  /** The table has twelve entries with pairwise distinct codes, so at most
      one of the source's twelve tests can fire. */
  lemma CommandTableWellFormed()
    ensures |Commands| == 12
    ensures DistinctCodes(Commands)
  {
  }

  /** The source's chain of independent `if` tests: each matching entry
      overwrites the command found so far, so the last match wins. */
  function LastMatch(table: seq<Command>, code: bv16, current: Option<CommandId>): Option<CommandId>
    decreases |table|
  {
    if |table| == 0 then current
    else LastMatch(table[1..], code, if table[0].code == code then Some(table[0].id) else current)
  }

  lemma {:induction false} LastMatchFinds(table: seq<Command>, code: bv16, current: Option<CommandId>, i: nat)
    requires DistinctCodes(table)
    requires i < |table| && table[i].code == code
    ensures LastMatch(table, code, current) == Some(table[i].id)
    decreases |table|
  {
    var next := if table[0].code == code then Some(table[0].id) else current;
    if i == 0 {
      LastMatchMisses(table[1..], code, next);
    } else {
      LastMatchFinds(table[1..], code, next, i - 1);
    }
  }

  lemma {:induction false} LastMatchMisses(table: seq<Command>, code: bv16, current: Option<CommandId>)
    requires forall i :: 0 <= i < |table| ==> table[i].code != code
    ensures LastMatch(table, code, current) == current
    decreases |table|
  {
    if |table| > 0 {
      LastMatchMisses(table[1..], code, current);
    }
  }

  /** The command for a code, None when the code is not in the table: the
      entry whose code it is, whichever entry that is. The source marks "no
      match" with the empty name; no name is empty (NamesNonEmpty), so None
      stands for it here. */
  function LookupCommand(code: bv16): (found: Option<CommandId>)
    ensures found == None <==> !IsCommandCode(code)
    ensures forall i :: 0 <= i < |Commands| && Commands[i].code == code ==> found == Some(Commands[i].id)
  {
    LastMatchOfTable(code);
    LastMatch(Commands, code, None)
  }

  /** The twelve tests started from "no command": the one matching entry, or
      nothing when no entry matches. */
  lemma LastMatchOfTable(code: bv16)
    ensures LastMatch(Commands, code, None) == None <==> !IsCommandCode(code)
    ensures forall i :: 0 <= i < |Commands| && Commands[i].code == code ==>
      LastMatch(Commands, code, None) == Some(Commands[i].id)
  {
    CommandTableWellFormed();
    if IsCommandCode(code) {
      forall j | 0 <= j < |Commands| && Commands[j].code == code
        ensures LastMatch(Commands, code, None) == Some(Commands[j].id)
      {
        LastMatchFinds(Commands, code, None, j);
      }
    } else {
      LastMatchMisses(Commands, code, None);
    }
  }

  /** A write transaction: exactly two bytes form a command code, looked up
      in the table; anything else reports the length. */
  function InterpretWrite(bytes: seq<bv8>): (t: Text)
    ensures |bytes| != 2 ==> t == WrongCommandLength(|bytes|)
    ensures |bytes| == 2 ==> (t.CommandName? <==> IsCommandCode(Word(bytes[0], bytes[1])))
    ensures |bytes| == 2 ==>
      forall i :: 0 <= i < |Commands| && Commands[i].code == Word(bytes[0], bytes[1]) ==>
        t == CommandName(Commands[i].id)
    ensures |bytes| == 2 && !IsCommandCode(Word(bytes[0], bytes[1])) ==>
      t == UnknownCommand(Word(bytes[0], bytes[1]))
  {
    var command := if |bytes| == 2 then LookupCommand(Word(bytes[0], bytes[1])) else None;
    if command == None then
      if |bytes| != 2 then WrongCommandLength(|bytes|) else UnknownCommand(Word(bytes[0], bytes[1]))
    else
      CommandName(command.value)
  }

  /** A read transaction. Six bytes are two CRC-guarded words, humidity then
      temperature; if either check fails the whole reading is a CRC error.
      Two bytes are the ID register. */
  function InterpretRead(bytes: seq<bv8>): (o: ReadOutcome)
    ensures o.ConcatTypeError? <==> |bytes| != 2 && |bytes| != 6
    ensures |bytes| == 6 ==>
      (o == ReadText(CrcError) <==> !Crc.CheckCrc(bytes[0..3]) || !Crc.CheckCrc(bytes[3..6]))
    ensures |bytes| == 6 && o != ReadText(CrcError) ==>
      o == ReadText(Reading(Word(bytes[0], bytes[1]), Word(bytes[3], bytes[4])))
    ensures |bytes| == 2 ==> o == ReadText(SensorId(IdentifierValue(Word(bytes[0], bytes[1]))))
  {
    if |bytes| == 6 then
      var humidity := if Crc.CheckCrc(bytes[0..3]) then Some(Word(bytes[0], bytes[1])) else None;
      var temperature := if Crc.CheckCrc(bytes[3..6]) then Some(Word(bytes[3], bytes[4])) else None;
      if temperature == None || humidity == None then ReadText(CrcError)
      else ReadText(Reading(humidity.value, temperature.value))
    else if |bytes| == 2 then
      ReadText(SensorId(IdentifierValue(Word(bytes[0], bytes[1]))))
    else
      ConcatTypeError
  }

  /** The three bytes the sensor sends for one raw word: the word
      big-endian, followed by its checksum. */
  function EncodeWord(w: bv16): (group: seq<bv8>)
    ensures |group| == 3 && Crc.CheckCrc(group)
    ensures Word(group[0], group[1]) == w
  {
    var pair := [HighByte(w), LowByte(w)];
    WordOfBytes(w);
    assert (pair + [Crc.Crc8(pair)])[0..2] == pair;
    pair + [Crc.Crc8(pair)]
  }

  /** The six bytes of a measurement: humidity first, then temperature. */
  function EncodeMeasurement(humidity: bv16, temperature: bv16): (bytes: seq<bv8>)
    ensures |bytes| == 6
  {
    EncodeWord(humidity) + EncodeWord(temperature)
  }

  /** A correctly checksummed measurement decodes to the raw values it was
      built from. */
  lemma MeasurementRoundTrip(humidity: bv16, temperature: bv16)
    ensures InterpretRead(EncodeMeasurement(humidity, temperature)) == ReadText(Reading(humidity, temperature))
  {
    var h, t := EncodeWord(humidity), EncodeWord(temperature);
    var bytes := h + t;
    assert bytes[0..3] == h && bytes[3..6] == t;
    assert bytes[0] == h[0] && bytes[1] == h[1] && bytes[3] == t[0] && bytes[4] == t[1];
  }

  /** Corrupting any single byte of an intact six-byte measurement turns it
      into a CRC error. */
  lemma CorruptedMeasurementRejected(bytes: seq<bv8>, corrupted: seq<bv8>, k: nat)
    requires |bytes| == 6 && |corrupted| == 6
    requires InterpretRead(bytes).ReadText? && InterpretRead(bytes).text.Reading?
    requires k < 6 && bytes[k] != corrupted[k]
    requires forall j :: 0 <= j < 6 && j != k ==> bytes[j] == corrupted[j]
    ensures InterpretRead(corrupted) == ReadText(CrcError)
  {
    assert Crc.CheckCrc(bytes[0..3]) && Crc.CheckCrc(bytes[3..6]);
    var lo := if k < 3 then 0 else 3;
    GroupDetectsCorruption(bytes, corrupted, lo, k);
  }

  /** The three-byte group starting at lo holds the corrupted position k. */
  lemma GroupDetectsCorruption(bytes: seq<bv8>, corrupted: seq<bv8>, lo: nat, k: nat)
    requires |bytes| == 6 && |corrupted| == 6 && (lo == 0 || lo == 3)
    requires lo <= k < lo + 3 && bytes[k] != corrupted[k]
    requires forall j :: 0 <= j < 6 && j != k ==> bytes[j] == corrupted[j]
    requires Crc.CheckCrc(bytes[lo..lo + 3])
    ensures !Crc.CheckCrc(corrupted[lo..lo + 3])
  {
    GroupDiffersInOne(bytes, corrupted, lo, k);
    Crc.SingleByteErrorDetected(bytes[lo..lo + 3], corrupted[lo..lo + 3]);
  }

  lemma GroupDiffersInOne(bytes: seq<bv8>, corrupted: seq<bv8>, lo: nat, k: nat)
    requires |bytes| == 6 && |corrupted| == 6 && (lo == 0 || lo == 3)
    requires lo <= k < lo + 3 && bytes[k] != corrupted[k]
    requires forall j :: 0 <= j < 6 && j != k ==> bytes[j] == corrupted[j]
    ensures Crc.DifferInOnePosition(bytes[lo..lo + 3], corrupted[lo..lo + 3])
  {
    var w, w' := bytes[lo..lo + 3], corrupted[lo..lo + 3];
    assert w[k - lo] == bytes[k] && w'[k - lo] == corrupted[k];
    forall j | 0 <= j < 3 && j != k - lo
      ensures w[j] == w'[j]
    {
      assert w[j] == bytes[lo + j] && w'[j] == corrupted[lo + j];
    }
  }

  /** How the two scaled measurement values are printed: Python's float
      arithmetic, `round(_, 2)` and `str`, which this model leaves
      uninterpreted. */
  datatype Formatter = Formatter(humidity: bv16 -> string, temperature: bv16 -> string)

  const WrongLengthPrefix: string := "Invalid command: unexpected number of bytes read, expected 2 got "
  const UnknownCommandPrefix: string := "Invalid command: "
  const SensorIdPrefix: string := "SHT identifier: "
  const CommandPrefix: string := "Command: "

  /** The exact string the source stores in the annotation's data field. */
  function Render(t: Text, fmt: Formatter): string {
    match t
    case NoText => ""
    case Reading(h, temp) => "RH: " + fmt.humidity(h) + " Temp: " + fmt.temperature(temp) + " \U{B0}C"
    case CrcError => "CRC error"
    case SensorId(v) => SensorIdPrefix + Numerals.Decimal(v as int)
    case CommandName(c) => CommandPrefix + Name(c)
    case UnknownCommand(code) => UnknownCommandPrefix + Numerals.Hex(code as int)
    case WrongCommandLength(count) => WrongLengthPrefix + Numerals.Decimal(count)
  }

  /** A six-byte read whose two groups both pass the check shows the two raw
      words, humidity from bytes 0 and 1, temperature from bytes 3 and 4,
      formatted and framed as "RH: <h> Temp: <t> °C". */
  lemma ReadingText(bytes: seq<bv8>, fmt: Formatter)
    requires |bytes| == 6 && Crc.CheckCrc(bytes[0..3]) && Crc.CheckCrc(bytes[3..6])
    ensures Render(InterpretRead(bytes).text, fmt) ==
      "RH: " + fmt.humidity(Word(bytes[0], bytes[1])) + " Temp: " + fmt.temperature(Word(bytes[3], bytes[4])) + " \U{B0}C"
  {
    assert InterpretRead(bytes).text == Reading(Word(bytes[0], bytes[1]), Word(bytes[3], bytes[4]));
    RenderReading(Word(bytes[0], bytes[1]), Word(bytes[3], bytes[4]), fmt);
  }

  /** One case of Render unfolded; kept apart so that proofs using it stay small. */
  lemma RenderReading(h: bv16, t: bv16, fmt: Formatter)
    ensures Render(Reading(h, t), fmt) == "RH: " + fmt.humidity(h) + " Temp: " + fmt.temperature(t) + " \U{B0}C"
  {
  }

  /** A six-byte read in which either group fails the check shows "CRC error". */
  lemma CrcErrorText(bytes: seq<bv8>, fmt: Formatter)
    requires |bytes| == 6 && (!Crc.CheckCrc(bytes[0..3]) || !Crc.CheckCrc(bytes[3..6]))
    ensures Render(InterpretRead(bytes).text, fmt) == "CRC error"
  {
    assert InterpretRead(bytes).text == CrcError;
    RenderCrcError(fmt);
  }

  /** One case of Render unfolded; kept apart so that proofs using it stay small. */
  lemma RenderCrcError(fmt: Formatter)
    ensures Render(CrcError, fmt) == "CRC error"
  {
  }

  /** The bytes 0xEF 0xC8 are the command "Read ID register". */
  lemma ReadIdRegisterWrite()
    ensures InterpretWrite([0xEF, 0xC8]) == CommandName(ReadIdRegister)
    ensures Name(ReadIdRegister) == "Read ID register"
  {
    var bytes: seq<bv8> := [0xEF, 0xC8];
    assert Word(bytes[0], bytes[1]) == Commands[3].code;
  }

  /** A two-byte write of a table code shows "Command: " and that code's name. */
  lemma KnownCommandText(bytes: seq<bv8>, i: nat, fmt: Formatter)
    requires |bytes| == 2
    requires i < |Commands| && Commands[i].code == Word(bytes[0], bytes[1])
    ensures Render(InterpretWrite(bytes), fmt) == CommandPrefix + Name(Commands[i].id)
  {
    var t := InterpretWrite(bytes);
    assert t == CommandName(Commands[i].id);
    RenderCommandName(Commands[i].id, fmt);
  }

  /** One case of Render unfolded; kept apart so that proofs using it stay small. */
  lemma RenderCommandName(c: CommandId, fmt: Formatter)
    ensures Render(CommandName(c), fmt) == CommandPrefix + Name(c)
  {
  }

  /** Any other two-byte write shows "Invalid command: " followed by Python's
      hex of its code: "0x" and the shortest lower-case hexadecimal digits,
      which read back as the code (Numerals.HexFormat). */
  lemma UnknownCommandText(bytes: seq<bv8>, fmt: Formatter)
    requires |bytes| == 2 && !IsCommandCode(Word(bytes[0], bytes[1]))
    ensures Render(InterpretWrite(bytes), fmt) ==
      UnknownCommandPrefix + Numerals.Hex(Word(bytes[0], bytes[1]) as int)
  {
    var t := InterpretWrite(bytes);
    assert t == UnknownCommand(Word(bytes[0], bytes[1]));
    RenderUnknownCommand(t.code, fmt);
  }

  /** One case of Render unfolded; kept apart so that proofs using it stay small. */
  lemma RenderUnknownCommand(code: bv16, fmt: Formatter)
    ensures Render(UnknownCommand(code), fmt) == UnknownCommandPrefix + Numerals.Hex(code as int)
  {
  }

  /** A write of any other length shows the fixed message followed by
      Python's str of the length: decimal digits without a leading zero, which
      read back as the length. */
  lemma WrongLengthText(bytes: seq<bv8>, fmt: Formatter)
    requires |bytes| != 2
    ensures Render(InterpretWrite(bytes), fmt) == WrongLengthPrefix + Numerals.Decimal(|bytes|)
    ensures Numerals.IsDecimalOf(Numerals.Decimal(|bytes|), |bytes|)
  {
    Numerals.DecimalFormat(|bytes|);
    assert InterpretWrite(bytes) == WrongCommandLength(|bytes|);
    RenderWrongLength(|bytes|, fmt);
  }

  /** One case of Render unfolded; kept apart so that proofs using it stay small. */
  lemma RenderWrongLength(count: nat, fmt: Formatter)
    ensures Render(WrongCommandLength(count), fmt) == WrongLengthPrefix + Numerals.Decimal(count)
  {
  }

  /** A two-byte read shows "SHT identifier: " followed by Python's str of
      the identifier value of the word read, a number below 64. */
  lemma SensorIdText(bytes: seq<bv8>, fmt: Formatter)
    requires |bytes| == 2
    ensures InterpretRead(bytes).ReadText?
    ensures var id := IdentifierValue(Word(bytes[0], bytes[1])) as int;
      && Render(InterpretRead(bytes).text, fmt) == SensorIdPrefix + Numerals.Decimal(id)
      && Numerals.IsDecimalOf(Numerals.Decimal(id), id)
      && id < 64
  {
    var id := IdentifierValue(Word(bytes[0], bytes[1]));
    Numerals.DecimalFormat(id as int);
    assert InterpretRead(bytes).text == SensorId(id);
    RenderSensorId(id, fmt);
  }

  /** One case of Render unfolded; kept apart so that proofs using it stay small. */
  lemma RenderSensorId(v: bv16, fmt: Formatter)
    ensures Render(SensorId(v), fmt) == SensorIdPrefix + Numerals.Decimal(v as int)
  {
  }
}
