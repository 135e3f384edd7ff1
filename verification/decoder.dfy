/** The SHTC3 transaction decoder: the host hands it the I2C bus events one at
    a time (start condition, address byte, data byte, stop condition); it
    gathers the data bytes of a transaction and, at the stop condition of a
    transaction addressed to the sensor, returns one annotation frame.

    The decoder keeps the source's state exactly: the open accumulator (the
    frame under construction together with its bytes) and two flags, "was
    the last address the sensor's" and "was it a read". The flags are only
    written by address events and survive the end of a transaction.
 */
module Decoder {
  import opened Options
  import opened Shtc3

  /** Timestamps are opaque to the decoder: they are only copied from events
      into frames, never compared. */
  type Time = int

  /** The sensor's 7-bit I2C address, decimal 112. */
  const SensorAddress: bv8 := 0x70

  datatype EventKind =
    | StartCondition
    | AddressByte(address: bv8, read: bool)
    | DataByte(value: bv8)
    | StopCondition

  /** One event of the upstream I2C analyzer. */
  datatype Event = Event(startTime: Time, endTime: Time, kind: EventKind)

  /** The two frame types the decoder creates, "error" and "hi2c". */
  datatype FrameType = ErrorFrame | Hi2cFrame

  /** An annotation frame. `addressError` tells whether the frame's data
      holds the entry "address": "error" besides the text. */
  datatype Frame = Frame(frameType: FrameType, startTime: Time, endTime: Time, addressError: bool, text: Text)

  /** The transaction being assembled: the frame and the data bytes seen so
      far. The source keeps these in two fields that are always set and
      cleared together, so one optional value models both. */
  datatype Accumulator = Accumulator(frame: Frame, bytes: seq<bv8>)

  datatype State = State(open: Option<Accumulator>, isShtFrame: bool, isShtRead: bool)

  /** The state before the first event. */
  const Initial: State := State(None, false, false)

  /** What one call of the decoder gives back to the host: nothing, one frame,
      or the TypeError a read of a length other than 2 or 6 raises. */
  datatype Reply = NoFrame | Emit(frame: Frame) | Raise

  datatype StepResult = StepResult(state: State, reply: Reply)

  /** The accumulator opened when an event finds none open: an "error" frame
      carrying the entry "address": "error", spanning the event. */
  function Placeholder(e: Event): Accumulator {
    Accumulator(Frame(ErrorFrame, e.startTime, e.endTime, true, NoText), [])
  }

  /** The accumulator a start condition (or a resynchronising address) opens:
      an empty "hi2c" frame spanning the event. */
  function FreshTransaction(e: Event): Accumulator {
    Accumulator(Frame(Hi2cFrame, e.startTime, e.endTime, false, NoText), [])
  }

  /** One call of the decoder. */
  function Step(s: State, e: Event): (r: StepResult)
    ensures r.reply != NoFrame ==> e.kind.StopCondition? && s.isShtFrame
    ensures e.kind.StopCondition? && s.isShtFrame ==> r.reply != NoFrame
    ensures r.reply.Emit? ==> r.reply.frame.endTime == e.endTime && r.state.open == None
    ensures !r.reply.Emit? ==> r.state.open.Some?
    ensures r.reply == Raise ==> s.isShtRead
    ensures !e.kind.AddressByte? ==> r.state.isShtFrame == s.isShtFrame && r.state.isShtRead == s.isShtRead
    ensures e.kind.AddressByte? ==>
      r.state.isShtRead == e.kind.read && (r.state.isShtFrame <==> e.kind.address == SensorAddress)
  {
    var acc0 := if s.open.None? then Placeholder(e) else s.open.value;
    var acc1 :=
      if e.kind.StartCondition? || (e.kind.AddressByte? && acc0.frame.frameType == ErrorFrame)
      then FreshTransaction(e) else acc0;
    var isSht := if e.kind.AddressByte? then e.kind.address == SensorAddress else s.isShtFrame;
    var isRead := if e.kind.AddressByte? then e.kind.read else s.isShtRead;
    var acc := if e.kind.DataByte? then acc1.(bytes := acc1.bytes + [e.kind.value]) else acc1;
    if e.kind.StopCondition? && isSht then
      var frame := acc.frame.(endTime := e.endTime);
      if isRead then
        match InterpretRead(acc.bytes)
        case ReadText(t) =>
          StepResult(State(None, isSht, isRead), Emit(frame.(text := t)))
        case ConcatTypeError =>
          // The end time and the "address" entry are written before the
          // exception, so the open frame keeps them.
          StepResult(State(Some(Accumulator(frame.(addressError := true), acc.bytes)), isSht, isRead), Raise)
      else
        StepResult(State(None, isSht, isRead), Emit(frame.(text := InterpretWrite(acc.bytes))))
    else
      StepResult(State(Some(acc), isSht, isRead), NoFrame)
  }

  /** A start condition always opens a fresh "hi2c" frame spanning it, with no
      bytes, and changes nothing else. */
  lemma StartOpensTransaction(s: State, e: Event)
    requires e.kind.StartCondition?
    ensures Step(s, e) == StepResult(s.(open := Some(FreshTransaction(e))), NoFrame)
  {
  }

  /** A data byte inside an open transaction is appended, and nothing else
      changes. */
  lemma DataAppendsByte(s: State, e: Event)
    requires e.kind.DataByte? && s.open.Some?
    ensures Step(s, e) ==
      StepResult(s.(open := Some(s.open.value.(bytes := s.open.value.bytes + [e.kind.value]))), NoFrame)
  {
  }

  /** A data byte with no transaction open opens an "error" frame holding just
      that byte. */
  lemma DataWithoutTransaction(s: State, e: Event)
    requires e.kind.DataByte? && s.open.None?
    ensures Step(s, e) ==
      StepResult(s.(open := Some(Placeholder(e).(bytes := [e.kind.value]))), NoFrame)
  {
    assert Placeholder(e).bytes + [e.kind.value] == [e.kind.value];
  }

  /** An address byte records the direction and whether it is the sensor's
      address. It opens a fresh "hi2c" frame when none is open or the open one
      is an "error" frame, and otherwise leaves the open frame alone. */
  lemma AddressRecordsTarget(s: State, e: Event)
    requires e.kind.AddressByte?
    ensures Step(s, e).reply == NoFrame
    ensures Step(s, e).state.isShtRead == e.kind.read
    ensures Step(s, e).state.isShtFrame <==> e.kind.address == 112
    ensures s.open.None? || s.open.value.frame.frameType == ErrorFrame ==>
      Step(s, e).state.open == Some(FreshTransaction(e))
    ensures s.open.Some? && s.open.value.frame.frameType == Hi2cFrame ==>
      Step(s, e).state.open == s.open
  {
  }

  /** A stop condition after the sensor's address returns exactly one frame
      (or raises, for a read of bad length). The frame is the open one, ended
      at the stop's end time and carrying the interpretation of the bytes; the
      accumulator is cleared and the flags stay as they are. A raise leaves
      the accumulator open, with the stop's end time and the "address":
      "error" entry already written into its frame. */
  lemma StopOnSensor(s: State, e: Event)
    requires e.kind.StopCondition? && s.isShtFrame
    ensures var acc := if s.open.Some? then s.open.value else Placeholder(e);
      var frame := acc.frame.(endTime := e.endTime);
      var r := Step(s, e);
      && r.state.isShtFrame == s.isShtFrame && r.state.isShtRead == s.isShtRead
      && (!s.isShtRead ==>
            r == StepResult(s.(open := None), Emit(frame.(text := InterpretWrite(acc.bytes)))))
      && (s.isShtRead && InterpretRead(acc.bytes).ReadText? ==>
            r == StepResult(s.(open := None), Emit(frame.(text := InterpretRead(acc.bytes).text))))
      && (s.isShtRead && InterpretRead(acc.bytes) == ConcatTypeError ==>
            r == StepResult(s.(open := Some(Accumulator(frame.(addressError := true), acc.bytes))), Raise))
  {
    var acc := if s.open.Some? then s.open.value else Placeholder(e);
    if s.isShtRead {
      match InterpretRead(acc.bytes)
      case ReadText(t) =>
      case ConcatTypeError =>
    }
  }

  /** A stop condition after any other address returns nothing and changes
      nothing; only when no transaction is open does it open the "error"
      placeholder, like every other event. */
  lemma StopElsewhere(s: State, e: Event)
    requires e.kind.StopCondition? && !s.isShtFrame
    ensures s.open.Some? ==> Step(s, e) == StepResult(s, NoFrame)
    ensures s.open.None? ==> Step(s, e) == StepResult(s.(open := Some(Placeholder(e))), NoFrame)
  {
  }

  datatype RunResult = RunResult(state: State, replies: seq<Reply>)

  /** The decoder fed a sequence of events, one reply per event. After a
      Raise the next event meets the state the exception left behind. */
  function Run(s: State, events: seq<Event>): (r: RunResult)
    ensures |r.replies| == |events|
    decreases |events|
  {
    if |events| == 0 then RunResult(s, [])
    else
      var first := Step(s, events[0]);
      var rest := Run(first.state, events[1..]);
      RunResult(rest.state, [first.reply] + rest.replies)
  }

  lemma RunCons(s: State, events: seq<Event>)
    requires |events| > 0
    ensures Run(s, events) == RunResult(Run(Step(s, events[0]).state, events[1..]).state,
                                        [Step(s, events[0]).reply] + Run(Step(s, events[0]).state, events[1..]).replies)
  {
  }

  /** Feeding two event sequences one after the other is feeding their
      concatenation. */
  lemma {:induction false} RunAppend(s: State, a: seq<Event>, b: seq<Event>)
    ensures Run(s, a + b) ==
      RunResult(Run(Run(s, a).state, b).state, Run(s, a).replies + Run(Run(s, a).state, b).replies)
    decreases |a|
  {
    if |a| > 0 {
      assert (a + b)[1..] == a[1..] + b;
      RunAppend(Step(s, a[0]).state, a[1..], b);
    } else {
      assert a + b == b;
    }
  }

  predicate AllData(events: seq<Event>) {
    forall i :: 0 <= i < |events| ==> events[i].kind.DataByte?
  }

  /** The byte values of a sequence of data events. */
  function Values(events: seq<Event>): (bytes: seq<bv8>)
    requires AllData(events)
    ensures |bytes| == |events|
    ensures forall i :: 0 <= i < |events| ==> bytes[i] == events[i].kind.value
    decreases |events|
  {
    if |events| == 0 then [] else [events[0].kind.value] + Values(events[1..])
  }

  predicate Silent(replies: seq<Reply>) {
    forall i :: 0 <= i < |replies| ==> replies[i] == NoFrame
  }

  /** The transaction after one more data byte. */
  function Appended(s: State, b: bv8): State
    requires s.open.Some?
  {
    s.(open := Some(s.open.value.(bytes := s.open.value.bytes + [b])))
  }

  /** The first of several data events, peeled off a run. */
  lemma DataRunCons(s: State, events: seq<Event>)
    requires s.open.Some? && |events| > 0 && events[0].kind.DataByte?
    ensures var rest := Run(Appended(s, events[0].kind.value), events[1..]);
      Run(s, events) == RunResult(rest.state, [NoFrame] + rest.replies)
  {
    DataAppendsByte(s, events[0]);
    RunCons(s, events);
  }

  /** Data events inside an open transaction append their bytes in order,
      return nothing and leave the frame and the flags alone. */
  lemma {:induction false} DataRun(s: State, events: seq<Event>)
    requires s.open.Some? && AllData(events)
    ensures Run(s, events).state ==
      s.(open := Some(s.open.value.(bytes := s.open.value.bytes + Values(events))))
    ensures Silent(Run(s, events).replies)
    decreases |events|
  {
    if |events| > 0 {
      DataRunCons(s, events);
      DataRun(Appended(s, events[0].kind.value), events[1..]);
      ValuesCons(s.open.value.bytes, events);
    } else {
      assert s.open.value.bytes + Values(events) == s.open.value.bytes;
    }
  }

  lemma ValuesCons(prefix: seq<bv8>, events: seq<Event>)
    requires AllData(events) && |events| > 0
    ensures prefix + [events[0].kind.value] + Values(events[1..]) == prefix + Values(events)
  {
  }

  /** The events of one well-formed transaction: start, address, data, stop. */
  predicate WellFormed(start: Event, address: Event, data: seq<Event>, stop: Event) {
    start.kind.StartCondition? && address.kind.AddressByte? && AllData(data) && stop.kind.StopCondition?
  }

  /** What a well-formed transaction returns at its stop condition, stated
      directly: nothing for another device; for the sensor one "hi2c" frame
      from the start condition's start to the stop condition's end carrying
      the interpretation of the bytes, or the TypeError of a bad-length read. */
  function ExpectedReply(start: Event, address: Event, bytes: seq<bv8>, stop: Event): Reply
    requires address.kind.AddressByte?
  {
    if address.kind.address != SensorAddress then NoFrame
    else if !address.kind.read then
      Emit(Frame(Hi2cFrame, start.startTime, stop.endTime, false, InterpretWrite(bytes)))
    else match InterpretRead(bytes)
      case ReadText(t) => Emit(Frame(Hi2cFrame, start.startTime, stop.endTime, false, t))
      case ConcatTypeError => Raise
  }

  /** The reply of the stop condition that closes a well-formed transaction,
      given the state after its data bytes. */
  lemma ClosingStop(s: State, start: Event, address: Event, bytes: seq<bv8>, stop: Event)
    requires address.kind.AddressByte? && stop.kind.StopCondition?
    requires s == State(Some(FreshTransaction(start).(bytes := bytes)),
                        address.kind.address == SensorAddress, address.kind.read)
    ensures Step(s, stop).reply == ExpectedReply(start, address, bytes, stop)
    ensures Step(s, stop).state.isShtFrame == s.isShtFrame
    ensures Step(s, stop).state.isShtRead == s.isShtRead
    ensures Step(s, stop).reply.Emit? ==> Step(s, stop).state.open == None
  {
    if s.isShtFrame {
      StopOnSensor(s, stop);
    } else {
      StopElsewhere(s, stop);
    }
  }

  lemma RunOne(s: State, e: Event)
    ensures Run(s, [e]) == RunResult(Step(s, e).state, [Step(s, e).reply])
  {
    assert [e][1..] == [];
  }

  /** From any state, a well-formed transaction is silent until its stop
      condition, whose reply is the expected one; whatever came before has no
      influence. */
  lemma Transaction(s: State, start: Event, address: Event, data: seq<Event>, stop: Event)
    requires WellFormed(start, address, data, stop)
    ensures var r := Run(s, [start, address] + data + [stop]);
      && Silent(r.replies[..|data| + 2])
      && r.replies[|data| + 2] == ExpectedReply(start, address, Values(data), stop)
      && r.state.isShtFrame == (address.kind.address == SensorAddress)
      && r.state.isShtRead == address.kind.read
      && (r.replies[|data| + 2].Emit? ==> r.state.open == None)
  {
    var s1 := Step(s, start).state;
    var s2 := Step(s1, address).state;
    StartOpensTransaction(s, start);
    AddressRecordsTarget(s1, address);
    assert s2 == State(Some(FreshTransaction(start)), address.kind.address == SensorAddress, address.kind.read);
    RunOne(s, start);
    RunOne(s1, address);
    RunAppend(s, [start], [address]);
    assert [start] + [address] == [start, address];
    var head := Run(s, [start, address]);
    assert head == RunResult(s2, [NoFrame, NoFrame]);

    DataRun(s2, data);
    var middle := Run(s2, data);
    var s3 := middle.state;
    assert FreshTransaction(start).bytes + Values(data) == Values(data);
    ClosingStop(s3, start, address, Values(data), stop);
    RunOne(s3, stop);

    RunAppend(s, [start, address], data);
    RunAppend(s, [start, address] + data, [stop]);
    var r := Run(s, [start, address] + data + [stop]);
    assert r.replies == [NoFrame, NoFrame] + middle.replies + [Step(s3, stop).reply];
    assert r.replies[..|data| + 2] == [NoFrame, NoFrame] + middle.replies;
  }

  /** Two transactions after each other: the second one's reply does not
      depend on the first, so a transaction for another device neither hides
      nor disturbs the next one for the sensor. */
  lemma TransactionsIsolated(s: State, first: seq<Event>,
                             start: Event, address: Event, data: seq<Event>, stop: Event)
    requires WellFormed(start, address, data, stop)
    ensures var r := Run(s, first + ([start, address] + data + [stop]));
      r.replies[|first| + |data| + 2] == ExpectedReply(start, address, Values(data), stop)
  {
    RunAppend(s, first, [start, address] + data + [stop]);
    Transaction(Run(s, first).state, start, address, data, stop);
  }

  /** The flags survive a transaction: after any write to the sensor, a
      stray stop condition opens the "error" placeholder and returns it as an
      "error" frame reporting zero bytes. */
  lemma StrayStopAfterTransaction(start: Event, address: Event, data: seq<Event>, stop: Event, stray: Event)
    requires WellFormed(start, address, data, stop) && stray.kind.StopCondition?
    requires address.kind == AddressByte(SensorAddress, false)
    ensures Run(Initial, [start, address] + data + [stop, stray]).replies[|data| + 3] ==
      Emit(Frame(ErrorFrame, stray.startTime, stray.endTime, true, WrongCommandLength(0)))
  {
    var events := [start, address] + data + [stop];
    Transaction(Initial, start, address, data, stop);
    var after := Run(Initial, events).state;
    assert after == State(None, true, false);
    RunAppend(Initial, events, [stray]);
    StrayStopEmits(stray);
    assert events + [stray] == [start, address] + data + [stop, stray];
  }

  lemma StrayStopEmits(stray: Event)
    requires stray.kind.StopCondition?
    ensures Run(State(None, true, false), [stray]).replies ==
      [Emit(Frame(ErrorFrame, stray.startTime, stray.endTime, true, WrongCommandLength(0)))]
  {
    RunOne(State(None, true, false), stray);
    assert InterpretWrite([]) == WrongCommandLength(0);
  }

  /** The same after a read of the sensor that returned a frame: the stray
      stop condition finds the "error" placeholder with no bytes, reads it
      as a read of length zero, and raises. The placeholder stays open, ended
      at the stray stop. */
  lemma StrayStopAfterRead(start: Event, address: Event, data: seq<Event>, stop: Event, stray: Event)
    requires WellFormed(start, address, data, stop) && stray.kind.StopCondition?
    requires address.kind == AddressByte(SensorAddress, true)
    requires |data| == 2 || |data| == 6
    ensures var r := Run(Initial, [start, address] + data + [stop, stray]);
      && r.replies[|data| + 3] == Raise
      && r.state == State(Some(Accumulator(Frame(ErrorFrame, stray.startTime, stray.endTime, true, NoText), [])), true, true)
  {
    var events := [start, address] + data + [stop];
    Transaction(Initial, start, address, data, stop);
    assert InterpretRead(Values(data)).ReadText?;
    var after := Run(Initial, events).state;
    assert after == State(None, true, true);
    RunAppend(Initial, events, [stray]);
    StrayStopRaises(stray);
    assert events + [stray] == [start, address] + data + [stop, stray];
  }

  lemma StrayStopRaises(stray: Event)
    requires stray.kind.StopCondition?
    ensures Run(State(None, true, true), [stray]) ==
      RunResult(State(Some(Accumulator(Frame(ErrorFrame, stray.startTime, stray.endTime, true, NoText), [])), true, true), [Raise])
  {
    RunOne(State(None, true, true), stray);
    assert InterpretRead([]) == ConcatTypeError;
  }

  /** A stop condition as the very first event returns nothing; it leaves the
      "error" placeholder open. */
  lemma StopFirst(e: Event)
    requires e.kind.StopCondition?
    ensures Step(Initial, e) == StepResult(State(Some(Placeholder(e)), false, false), NoFrame)
  {
  }

  /** A write transaction to the sensor without data bytes reports that two
      bytes were expected and none arrived. */
  lemma EmptyWrite(start: Event, address: Event, stop: Event)
    requires WellFormed(start, address, [], stop)
    requires address.kind == AddressByte(SensorAddress, false)
    ensures var replies := Run(Initial, [start, address, stop]).replies;
      && Silent(replies[..2])
      && replies[2] == Emit(Frame(Hi2cFrame, start.startTime, stop.endTime, false, WrongCommandLength(0)))
  {
    Transaction(Initial, start, address, [], stop);
    assert [start, address] + [] + [stop] == [start, address, stop];
  }

  /** Writing 0xEF 0xC8 to the sensor is shown as "Command: Read ID register",
      and the four events before the stop condition return nothing. */
  lemma ReadIdCommand(start: Event, address: Event, hi: Event, lo: Event, stop: Event)
    requires WellFormed(start, address, [hi, lo], stop)
    requires address.kind == AddressByte(SensorAddress, false)
    requires hi.kind == DataByte(0xEF) && lo.kind == DataByte(0xC8)
    ensures var replies := Run(Initial, [start, address, hi, lo, stop]).replies;
      && Silent(replies[..4])
      && replies[4] == Emit(Frame(Hi2cFrame, start.startTime, stop.endTime, false, CommandName(ReadIdRegister)))
      && Name(ReadIdRegister) == "Read ID register"
  {
    assert [start, address] + [hi, lo] + [stop] == [start, address, hi, lo, stop];
    assert Values([hi, lo]) == [0xEF, 0xC8];
    ReadIdRegisterWrite();
    Transaction(Initial, start, address, [hi, lo], stop);
  }
}
