# SHTC3 transaction decoder

A Dafny model of the high-level analyzer that turns I2C bus events into
annotations for the Sensirion SHTC3 humidity and temperature sensor
(`HighLevelAnalyzer.py`). The host feeds the decoder one bus event at a time:
start condition, address byte, data byte, stop condition. The decoder
collects the data bytes of a transaction. At the stop condition of a
transaction addressed to the sensor (7-bit address 0x70, decimal 112) it
returns one annotation frame whose text says what the bytes mean:

- a six-byte read is a measurement, two big-endian 16-bit words (humidity,
  then temperature). Each word is followed by its CRC-8 checksum
  (polynomial 0x31, initial value 0xFF);
- a two-byte read is the ID register;
- a two-byte write is one of twelve command codes.

Modules:

- `Options` (`options.dfy`): the optional value that stands in for Python's None.
- `Crc` (`crc.dfy`): the checksum. There is a functional definition and the
  source's two nested loops, proved equal. It also holds the three-byte group
  check and its error-detection properties.
- `Numerals` (`numerals.dfy`): Python's `str` and `hex` on non-negative
  integers, with their read-back partner `Value`.
- `Shtc3` (`shtc3.dfy`): interpretation of a transaction's bytes.
  - A read interpreter and a write (command) interpreter produce a structured
    `Text`.
  - The command table is kept as data.
  - `Render` gives the exact annotation string.
  - The encoder of a measurement is the partner of the read interpreter.
- `Decoder` (`decoder.dfy`): the event-driven state machine.
  - `Step` is one call of `decode`.
  - `Run` feeds it a sequence of events.
  - `ExpectedReply` is an independent statement of what a well-formed
    transaction returns, and `Transaction` proves the two agree.

The decoder keeps its state as the source does. There is an open accumulator
(the frame under construction and its bytes, which the source holds in two
fields that are always set and cleared together). There are two flags:
whether the last address was the sensor's, and whether it was a read. Three
consequences of the code are modelled as written:

- A stop condition after another device's address returns nothing and does
  not close the open accumulator. Only the next start condition replaces it.
- Any event that finds no accumulator open first opens an "error" placeholder
  frame carrying the entry `"address": "error"`. This includes a stop
  condition arriving as the very first event, which therefore leaves the
  placeholder open.
- The two flags are written only by address bytes and survive the end of a
  transaction. So a stray stop condition right after a write to the sensor
  returns the placeholder as an "error" frame with the text "Invalid command:
  unexpected number of bytes read, expected 2 got 0" (`StrayStopAfterTransaction`).
  After a two- or six-byte read of the sensor, the same stray stop condition
  reads the empty placeholder as a read of length zero and raises the
  TypeError described below (`StrayStopAfterRead`).

A read of any length other than 2 or 6 makes the source concatenate a string
with a list. That is a TypeError in Python, and it is modelled as the outcome
`Raise` (`Shtc3.ReadOutcome.ConcatTypeError` at the interpreter level).
Before the exception, the source has already set the frame's end time and its
`"address": "error"` entry. The model keeps the accumulator open with those two
changes. The next event meets that state.

## Model

| member | source | states |
|---|---|---|
| Crc.Crc8 | HighLevelAnalyzer.py:25-34 | Reference definition of the checksum: the register after every byte has been fed in order from 0xFF, each byte XORed in and followed by eight bit steps; its properties are stated by the rows below |
| Crc.ComputeCrc8 | HighLevelAnalyzer.py:25-34 | The byte loop with its inner eight-step bit loop computes the checksum `Crc8` of the data: register starts at 0xFF, each byte is XORed in, then each bit shifts left and XORs 0x31 when the top bit was set, masked to 8 bits; empty data gives 0xFF |
| Crc.CheckCrc | HighLevelAnalyzer.py:36-37 | The group check: the checksum of the first two bytes equals the third; its meaning is stated by the rows below |
| Crc.CheckCrcExactlyOne | HighLevelAnalyzer.py:36-37 | A group passes the check exactly when its third byte is the checksum of its first two, so every pair of data bytes has exactly one valid checksum byte |
| Crc.BitStepsInjective | HighLevelAnalyzer.py:29-33 | Any number of bit-loop iterations maps distinct registers to distinct registers |
| Crc.ByteStepInjective | HighLevelAnalyzer.py:27-33 | With the result of one byte iteration fixed, the register before it is determined by the byte and vice versa |
| Crc.Crc8PairSeparates | HighLevelAnalyzer.py:25-34 | Changing exactly one byte of a two-byte word changes its checksum |
| Crc.SingleByteErrorDetected | HighLevelAnalyzer.py:36-37 | An intact three-byte group with any one byte changed fails the check |
| Crc.DatasheetExample | HighLevelAnalyzer.py:25-34 | The checksum of the bytes 0xBE 0xEF is 0x92, the sensor data sheet's worked example |
| Numerals.Digits | HighLevelAnalyzer.py:138 | The digit string of n is non-empty, uses only digits of the base and has no leading zero unless n is zero |
| Numerals.ValueOfDigits | HighLevelAnalyzer.py:138 | Reading the digit string of n back in the same base gives n |
| Numerals.DecimalFormat | HighLevelAnalyzer.py:104 | `str` of a non-negative integer is its shortest decimal digit string and reads back as the number |
| Numerals.HexFormat | HighLevelAnalyzer.py:140 | `hex` of a non-negative integer is "0x" followed by its shortest lower-case hexadecimal digit string, which reads back as the number |
| Shtc3.Word | HighLevelAnalyzer.py:86 | The big-endian word of two bytes (hi shifted left by 8, ORed with lo) has high byte hi and low byte lo; as a 16-bit value it lies in 0..65535 |
| Shtc3.WordOfBytes | HighLevelAnalyzer.py:103 | Every 16-bit word is the word of its own two bytes, so byte pairs and words correspond one to one |
| Shtc3.IdentifierValue | HighLevelAnalyzer.py:104 | The identifier shown is below 64, keeps bits 1 to 5 of the ID word, and has bit 0 set exactly when bit 0 or bit 5 of the ID word is set |
| Shtc3.NamesNonEmpty | HighLevelAnalyzer.py:110-136 | No command name is empty, so the empty name the source starts from and tests for means "no code matched" and nothing else |
| Shtc3.CommandTableWellFormed | HighLevelAnalyzer.py:110-135 | The table holds the twelve codes and they are pairwise distinct, so at most one of the twelve tests can fire |
| Shtc3.LastMatch | HighLevelAnalyzer.py:111-135 | The chain of twelve independent tests, each overwriting the command found so far; its meaning is stated by the two rows below |
| Shtc3.LastMatchFinds | HighLevelAnalyzer.py:111-135 | In a table with distinct codes, the chain of tests finds the entry whose code matches, whatever was found before |
| Shtc3.LastMatchMisses | HighLevelAnalyzer.py:111-135 | When no entry matches, the chain of tests leaves the current command unchanged |
| Shtc3.LookupCommand | HighLevelAnalyzer.py:110-135 | A code gets no command exactly when it is not in the table, and otherwise gets the command of its table entry |
| Shtc3.InterpretWrite | HighLevelAnalyzer.py:109-142 | A write of length other than 2 reports its length; a two-byte write gets a command name exactly when its big-endian code is in the table, that entry's name, and otherwise the unknown-code message with the code |
| Shtc3.InterpretRead | HighLevelAnalyzer.py:83-107 | Reads of length other than 2 and 6 raise the TypeError. A six-byte read is a CRC error exactly when either group fails the check, and otherwise the two big-endian words of bytes 0-1 and 3-4. A two-byte read is the identifier value of the big-endian word of its two bytes |
| Shtc3.MeasurementRoundTrip | HighLevelAnalyzer.py:84-100 | Six bytes built from two raw words, each followed by its checksum, decode to exactly those two words |
| Shtc3.CorruptedMeasurementRejected | HighLevelAnalyzer.py:84-98 | Changing any single byte of a six-byte read that decodes to a measurement turns it into a CRC error |
| Shtc3.Render | HighLevelAnalyzer.py:98-142 | The exact annotation string for each outcome; the text rows below state it outcome by outcome |
| Shtc3.ReadingText | HighLevelAnalyzer.py:97-100 | A six-byte read with both groups intact shows "RH: ", the formatted humidity word, " Temp: ", the formatted temperature word and " °C" |
| Shtc3.CrcErrorText | HighLevelAnalyzer.py:97-98 | A six-byte read with either group failing the check shows "CRC error" |
| Shtc3.SensorIdText | HighLevelAnalyzer.py:102-104 | A two-byte read shows "SHT identifier: " followed by Python's str of the identifier value of the word read (decimal digits, no leading zero, reading back as the value), which is below 64 |
| Shtc3.ReadIdRegisterWrite | HighLevelAnalyzer.py:118-119 | The write 0xEF 0xC8 is the command named "Read ID register" |
| Shtc3.KnownCommandText | HighLevelAnalyzer.py:141-142 | A two-byte write of a table code shows "Command: " followed by that entry's name |
| Shtc3.UnknownCommandText | HighLevelAnalyzer.py:139-140 | A two-byte write of any other code shows "Invalid command: " followed by Python's hex of the code |
| Shtc3.WrongLengthText | HighLevelAnalyzer.py:136-138 | A write of any other length shows "Invalid command: unexpected number of bytes read, expected 2 got " followed by Python's str of the length (decimal digits, no leading zero, reading back as the length) |
| Decoder.Step | HighLevelAnalyzer.py:47-146 | A call returns something only at a stop condition after the sensor's address, and always does there; a returned frame ends at the stop's end time and clears the accumulator; a raise happens only on a read; the flags change only on an address byte, which sets them from the address and direction |
| Decoder.StartOpensTransaction | HighLevelAnalyzer.py:62-67 | A start condition replaces whatever is open by an empty "hi2c" frame spanning it and changes nothing else |
| Decoder.DataAppendsByte | HighLevelAnalyzer.py:77-78 | A data byte inside an open transaction is appended to its bytes and nothing else changes |
| Decoder.DataWithoutTransaction | HighLevelAnalyzer.py:54-78 | A data byte with nothing open opens the "error" placeholder holding just that byte |
| Decoder.AddressRecordsTarget | HighLevelAnalyzer.py:62-74 | An address byte records the direction and whether the address is 112; it opens a fresh "hi2c" frame exactly when nothing or an "error" frame is open, and otherwise keeps the open frame |
| Decoder.StopOnSensor | HighLevelAnalyzer.py:80-146 | A stop after the sensor's address returns the open frame ended at the stop, with the write or read interpretation of its bytes, and clears the accumulator; a read of bad length raises and leaves the accumulator open, its frame ended at the stop and carrying the "address": "error" entry; the flags stay |
| Decoder.StopElsewhere | HighLevelAnalyzer.py:80-81 | A stop after any other address returns nothing and leaves an open accumulator and the flags unchanged |
| Decoder.StopFirst | HighLevelAnalyzer.py:54-60 | A stop condition as the very first event returns nothing and leaves the "error" placeholder open |
| Decoder.RunAppend | HighLevelAnalyzer.py:47-146 | Feeding two event sequences one after the other gives the same state and replies as feeding their concatenation |
| Decoder.DataRun | HighLevelAnalyzer.py:77-78 | Data bytes inside an open transaction are appended in order, return nothing, and leave the frame and flags alone |
| Decoder.Transaction | HighLevelAnalyzer.py:47-146 | From any state, start, address, data bytes and stop are silent until the stop, whose reply is the independently stated expected one: nothing for another device, or a "hi2c" frame from the start's start time to the stop's end time carrying the interpretation of the data bytes, or the raise of a bad-length read |
| Decoder.TransactionsIsolated | HighLevelAnalyzer.py:62-67 | Whatever events came before, a well-formed transaction's stop gets the same expected reply |
| Decoder.StrayStopAfterTransaction | HighLevelAnalyzer.py:69-74 | Because the flags survive, a stray stop right after any write to the sensor, with any number of data bytes, returns an "error" frame spanning the stray stop with the zero-length command message |
| Decoder.StrayStopAfterRead | HighLevelAnalyzer.py:102-107 | Because the flags survive, a stray stop right after a two- or six-byte read of the sensor reads the empty placeholder as a zero-length read and raises, leaving the placeholder open and ended at the stray stop |
| Decoder.EmptyWrite | HighLevelAnalyzer.py:136-138 | A write to the sensor with no data bytes returns a "hi2c" frame reporting that two bytes were expected and none arrived |
| Decoder.ReadIdCommand | HighLevelAnalyzer.py:112-119 | Start, write address 0x70, 0xEF, 0xC8, stop returns one "hi2c" frame spanning the transaction with the command "Read ID register", and nothing before |

## Left out

- The host framework (`saleae.analyzers`, the `result_types` display formats, lines 4-17, and the empty settings constructor, lines 39-45) is not modelled. Frames are plain values, and the decoder's state is an explicit value passed from call to call.
- The float arithmetic that scales the raw words (lines 87 and 93: `100 * h / 65536` and `-45 + 175 * t / 65536`), and Python's `round(_, 2)` and `str` on floats, are left uninterpreted. `Shtc3.Formatter` holds the two formatting functions as a parameter. The model keeps the raw 16-bit words and proves which words are shown.
- Shtc3.ReadingText: states the text in terms of the formatter's output for the raw words, not the rounded percentage and degrees, because floating point is not modelled.
- Timestamps are opaque integers. The decoder only copies them from events into frames.
- Only the four I2C event kinds the upstream analyzer produces are modelled. An address event's 7-bit address is a byte, and a data event's byte is a `bv8`.
- What the host does with the TypeError is outside the decoder. The model returns `Raise` and keeps the state the source leaves behind.
- A frame's data dictionary is modelled as its text plus a flag for the `"address": "error"` entry. Those are the only entries the source writes.
