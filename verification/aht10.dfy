/**
  The AHT10 driver: initialisation and one measurement, run against a
  scripted bus.

  Each function returns what the driver returns together with the trace of
  the transfers and sleeps it issued. A transfer that fails ends the driver
  at once with the bus's own return code; nothing is retried and no timeout
  exists.
 */
module Aht10 {
  import opened Bus
  import Frame
  import Units

  /** The sensor's fixed bus address. */
  const Address: nat := 0x38

  const CmdInit: Byte := 0xE1
  const CmdTrigger: Byte := 0xAC
  const CmdSoftReset: Byte := 0xBA
  const StatusBusy: Byte := 0x80
  const StatusCalibrated: Byte := 0x08

  const ResetCommand: seq<Byte> := [CmdSoftReset]
  const InitCommand: seq<Byte> := [CmdInit, 0x08, 0x00]
  const TriggerCommand: seq<Byte> := [CmdTrigger, 0x33, 0x00]

  /** Nominal pauses, in milliseconds. */
  const ResetDelay: nat := 20
  const InitDelay: nat := 10
  const ConversionDelay: nat := 80
  const RetryDelay: nat := 10

  /** What initialisation returns when the calibrated bit is clear. */
  const NotCalibrated: int := -1

  /** Everything initialisation can do, in order. */
  const InitSequence: seq<Event> := [
    Write(Address, ResetCommand), Sleep(ResetDelay),
    Write(Address, InitCommand), Sleep(InitDelay),
    Read(Address, 1)
  ]

  predicate Calibrated(status: Byte) {
    status & StatusCalibrated != 0
  }

  predicate Busy(status: Byte) {
    status & StatusBusy != 0
  }

  // ---------------------------------------------------------------------
  // Initialisation

  /** Soft reset, configure, then read the status byte and check the
      calibrated bit. */
  function Init(script: seq<Reply>): (r: Run<int>)
    ensures r.trace <= InitSequence
    ensures |r.trace| > 0 && !r.trace[|r.trace| - 1].Sleep?
    ensures ReplyPerTransfer(script, r)
    ensures r.Returned? && (Transfers(r.trace) < 3 || !Ok(script[2])) ==> r.value == script[Transfers(r.trace) - 1].ret != 0
  {
    var reset := [Write(Address, ResetCommand)];
    var configure := reset + [Sleep(ResetDelay), Write(Address, InitCommand)];
    var check := configure + [Sleep(InitDelay), Read(Address, 1)];
    InitTraceCounts();
    assert reset == InitSequence[..1] && configure == InitSequence[..3] && check == InitSequence;
    if |script| < 1 then OutOfScript(reset)
    else if !Ok(script[0]) then Returned(script[0].ret, reset)
    else if |script| < 2 then OutOfScript(configure)
    else if !Ok(script[1]) then Returned(script[1].ret, configure)
    else if |script| < 3 then OutOfScript(check)
    else if !Ok(script[2]) then Returned(script[2].ret, check)
    else if !Calibrated(FirstByte(script[2])) then Returned(NotCalibrated, check)
    else Returned(0, check)
  }

  lemma InitTraceCounts()
    ensures Transfers(InitSequence[..1]) == 1
    ensures Transfers(InitSequence[..3]) == 2
    ensures Transfers(InitSequence) == 3
  {
    var t := InitSequence;
    forall j | 0 <= j < 5 {
      CountsOne(t[j], 0);
    }
    assert t[..3] == t[..1] + [t[1]] + [t[2]];
    assert t == t[..3] + [t[3]] + [t[4]];
    CountsAppend(t[..1], [t[1]], 0);
    CountsAppend(t[..1] + [t[1]], [t[2]], 0);
    CountsAppend(t[..3], [t[3]], 0);
    CountsAppend(t[..3] + [t[3]], [t[4]], 0);
  }

  /** Initialisation succeeds exactly when all three transfers succeed and
      the status byte has the calibrated bit set. */
  lemma {:induction false} InitSucceedsIff(script: seq<Reply>)
    ensures Init(script).Returned? && Init(script).value == 0
        <==> |script| >= 3 && Ok(script[0]) && Ok(script[1]) && Ok(script[2])
              && Calibrated(FirstByte(script[2]))
  {
  }

  /** Once every transfer has succeeded, the calibrated bit alone decides
      the result: 0 when set, -1 when clear, and the complete sequence was
      issued either way. */
  lemma {:induction false} InitAfterTransfers(script: seq<Reply>)
    requires |script| >= 3 && Ok(script[0]) && Ok(script[1]) && Ok(script[2])
    ensures Init(script).trace == InitSequence
    ensures Init(script) == Returned(if Calibrated(FirstByte(script[2])) then 0 else NotCalibrated, InitSequence)
  {
  }

  /** No status bit other than the calibrated bit (busy included) changes
      what initialisation does. */
  lemma {:induction false} InitReadsOnlyCalibratedBit(script: seq<Reply>, status: Byte)
    requires |script| >= 3
    requires status & StatusCalibrated == FirstByte(script[2]) & StatusCalibrated
    ensures Init(script[2 := Reply(script[2].ret, [status])]) == Init(script)
  {
  }

  /** A sensor that answers every transfer but reports status 0x00 is
      rejected with -1. */
  lemma InitRejectsUncalibrated()
    ensures Init([Reply(0, []), Reply(0, []), Reply(0, [0x00])]) == Returned(NotCalibrated, InitSequence)
    ensures Init([Reply(0, []), Reply(0, []), Reply(0, [0x80])]) == Returned(NotCalibrated, InitSequence)
    ensures Init([Reply(0, []), Reply(0, []), Reply(0, [0x18])]) == Returned(0, InitSequence)
  {
  }

  // ---------------------------------------------------------------------
  // Measurement

  /** What a measurement returns: the reading (return code 0, outputs
      assigned) or the failing transfer's code (outputs untouched). */
  datatype Measurement = Measured(reading: Units.Reading) | Failed(code: int)

  function ReturnCode(m: Measurement): int {
    match m
    case Measured(_) => 0
    case Failed(c) => c
  }

  /** The physical reading a six-byte frame holds. */
  function Convert(frame: seq<Byte>): Units.Reading
    requires |frame| == 6
  {
    Units.ToReading(Frame.Decode(frame))
  }

  /** Trigger a measurement, wait, busy-poll the status byte, then read
      and decode the frame. */
  function ReadData(script: seq<Reply>): (r: Run<Measurement>)
    ensures |r.trace| >= 1 && r.trace[0] == Write(Address, TriggerCommand)
    ensures r.Returned? ==> (r.value.Measured? <==> ReturnCode(r.value) == 0)
    ensures |script| >= 1 && !Ok(script[0]) ==> r == Returned(Failed(script[0].ret), [Write(Address, TriggerCommand)])
  {
    var trigger := [Write(Address, TriggerCommand)];
    if |script| == 0 then OutOfScript(trigger)
    else if !Ok(script[0]) then Returned(Failed(script[0].ret), trigger)
    else After(trigger + [Sleep(ConversionDelay)], Poll(script, 1))
  }

  /** The busy-poll, answered from script[i..]: read the status byte; while
      it is busy, pause and read it again; once it is clear, read the frame. */
  function Poll(script: seq<Reply>, i: nat): (r: Run<Measurement>)
    ensures r.Returned? && r.value.Failed? ==> r.value.code != 0
    decreases |script| - i
  {
    var status := [Read(Address, 1)];
    if i >= |script| then OutOfScript(status)
    else if !Ok(script[i]) then Returned(Failed(script[i].ret), status)
    else if Busy(FirstByte(script[i])) then After(status + [Sleep(RetryDelay)], Poll(script, i + 1))
    else After(status, Fetch(script, i + 1))
  }

  /** The frame read, answered by script[i]. */
  function Fetch(script: seq<Reply>, i: nat): (r: Run<Measurement>)
    ensures r.trace == [Read(Address, 6)]
    ensures r.Returned? <==> i < |script|
    ensures r.Returned? ==> (r.value.Measured? <==> Ok(script[i]))
    ensures r.Returned? && r.value.Measured? ==> r.value.reading == Convert(Fill(script[i].data, 6))
    ensures r.Returned? && r.value.Failed? ==> r.value.code == script[i].ret
  {
    var frame := [Read(Address, 6)];
    if i >= |script| then OutOfScript(frame)
    else if !Ok(script[i]) then Returned(Failed(script[i].ret), frame)
    else Returned(Measured(Convert(Fill(script[i].data, 6))), frame)
  }

  // ---------------------------------------------------------------------
  // The busy-poll in closed form

  /** The number of consecutive successful busy status replies from
      script[i] on. */
  function BusyRun(script: seq<Reply>, i: nat): (k: nat)
    ensures k == 0 || i + k <= |script|
    ensures forall j :: i <= j < i + k ==> Ok(script[j]) && Busy(FirstByte(script[j]))
    ensures i + k < |script| ==> !(Ok(script[i + k]) && Busy(FirstByte(script[i + k])))
    decreases |script| - i
  {
    if i < |script| && Ok(script[i]) && Busy(FirstByte(script[i])) then 1 + BusyRun(script, i + 1)
    else 0
  }

  /** `k` rounds of a busy status read followed by a retry pause. */
  function Retries(k: nat): (t: seq<Event>)
    ensures |t| == 2 * k
    ensures forall j :: 0 <= j < k ==> t[2 * j] == Read(Address, 1) && t[2 * j + 1] == Sleep(RetryDelay)
  {
    if k == 0 then [] else Retries(k - 1) + [Read(Address, 1), Sleep(RetryDelay)]
  }

  lemma {:induction false} RetriesCounts(k: nat)
    ensures CountSleeps(Retries(k), RetryDelay) == k
    ensures Transfers(Retries(k)) == k
  {
    if k > 0 {
      RetriesCounts(k - 1);
      CountsOne(Read(Address, 1), RetryDelay);
      CountsOne(Sleep(RetryDelay), RetryDelay);
      CountsAppend([Read(Address, 1)], [Sleep(RetryDelay)], RetryDelay);
      CountsAppend(Retries(k - 1), [Read(Address, 1), Sleep(RetryDelay)], RetryDelay);
    }
  }

  /** The busy-poll, said without a loop: `k` busy rounds, then one more
      status read, and the frame read only if that read succeeded. */
  function PollOutcome(script: seq<Reply>, i: nat): Run<Measurement> {
    var k := BusyRun(script, i);
    var polled := Retries(k) + [Read(Address, 1)];
    if i + k >= |script| then OutOfScript(polled)
    else if !Ok(script[i + k]) then Returned(Failed(script[i + k].ret), polled)
    else After(polled, Fetch(script, i + k + 1))
  }

  /** The loop and the closed form agree on every script. */
  lemma {:induction false} PollClosedForm(script: seq<Reply>, i: nat)
    ensures Poll(script, i) == PollOutcome(script, i)
    decreases |script| - i
  {
    var status := [Read(Address, 1)];
    if i < |script| && Ok(script[i]) && Busy(FirstByte(script[i])) {
      PollClosedForm(script, i + 1);
      var k := BusyRun(script, i + 1);
      assert BusyRun(script, i) == k + 1;
      assert Retries(k + 1) + [Read(Address, 1)] == status + [Sleep(RetryDelay)] + (Retries(k) + [Read(Address, 1)]) by {
        RetriesFront(k);
      }
    } else {
      assert BusyRun(script, i) == 0;
      assert Retries(0) + [Read(Address, 1)] == status;
    }
  }

  /** A busy round can be peeled off the front as well as the back. */
  lemma {:induction false} RetriesFront(k: nat)
    ensures Retries(k + 1) == [Read(Address, 1), Sleep(RetryDelay)] + Retries(k)
  {
    if k > 0 {
      RetriesFront(k - 1);
    }
  }

  /** The full measurement in closed form, with k busy status replies. */
  lemma {:induction false} ReadClosedForm(script: seq<Reply>)
    requires |script| >= 1 && Ok(script[0])
    ensures ReadData(script) == After(Triggered, PollOutcome(script, 1))
  {
    PollClosedForm(script, 1);
  }

  // ---------------------------------------------------------------------
  // Properties of a measurement

  /** The events before the busy-poll: the trigger and the conversion pause. */
  const Triggered: seq<Event> := [Write(Address, TriggerCommand), Sleep(ConversionDelay)]

  /** How many pauses and transfers the trace of a poll with `k` busy
      rounds holds, up to and including the status read that ends it and
      the frame read after it. */
  lemma {:induction false} PolledCounts(k: nat)
    ensures var t := Triggered + Retries(k) + [Read(Address, 1)];
      CountSleeps(t, RetryDelay) == k && Transfers(t) == k + 2
    ensures var t := Triggered + Retries(k) + [Read(Address, 1)] + [Read(Address, 6)];
      CountSleeps(t, RetryDelay) == k && Transfers(t) == k + 3
  {
    RetriesCounts(k);
    CountsOne(Write(Address, TriggerCommand), RetryDelay);
    CountsOne(Sleep(ConversionDelay), RetryDelay);
    CountsOne(Read(Address, 1), RetryDelay);
    CountsOne(Read(Address, 6), RetryDelay);
    CountsAppend([Write(Address, TriggerCommand)], [Sleep(ConversionDelay)], RetryDelay);
    CountsAppend(Triggered, Retries(k), RetryDelay);
    CountsAppend(Triggered + Retries(k), [Read(Address, 1)], RetryDelay);
    CountsAppend(Triggered + Retries(k) + [Read(Address, 1)], [Read(Address, 6)], RetryDelay);
  }

  /** A reading is produced exactly when the trigger, the status read that
      ends the busy-poll, and the frame read all succeed. */
  lemma {:induction false} MeasuredIff(script: seq<Reply>)
    ensures var r, k := ReadData(script), BusyRun(script, 1);
      r.Returned? && r.value.Measured?
      <==> |script| >= k + 3 && Ok(script[0]) && Ok(script[k + 1]) && Ok(script[k + 2])
  {
    var r, k := ReadData(script), BusyRun(script, 1);
    if |script| >= 1 && Ok(script[0]) {
      ReadClosedForm(script);
      var o := PollOutcome(script, 1);
      assert r == After(Triggered, o);
      if k + 1 >= |script| {
        assert o.OutOfScript?;
      } else if !Ok(script[k + 1]) {
        assert o.value.Failed?;
      } else {
        var f := Fetch(script, k + 2);
        assert o == After(Retries(k) + [Read(Address, 1)], f);
        assert r.Returned? <==> f.Returned?;
      }
    }
  }

  /** A reading is the decode of a frame read right after a status byte
      with the busy bit clear, with one retry pause per busy status before
      it and nothing else in between. */
  lemma {:induction false} MeasuredShape(script: seq<Reply>)
    requires ReadData(script).Returned? && ReadData(script).value.Measured?
    ensures var k := BusyRun(script, 1);
      && |script| >= k + 3
      && !Busy(FirstByte(script[k + 1]))
      && ReadData(script).value.reading == Convert(Fill(script[k + 2].data, 6))
      && ReadData(script).trace == Triggered + Retries(k) + [Read(Address, 1), Read(Address, 6)]
      && CountSleeps(ReadData(script).trace, RetryDelay) == k
  {
    var k := BusyRun(script, 1);
    MeasuredIff(script);
    FrameOutcome(script, k);
    PolledCounts(k);
    assert [Read(Address, 1)] + [Read(Address, 6)] == [Read(Address, 1), Read(Address, 6)];
    assert ReadData(script).value == Fetch(script, k + 2).value by {
      ReadClosedForm(script);
    }
  }

  /** A failed measurement returns the code of the transfer that failed,
      which is the last transfer issued; every transfer before it succeeded. */
  lemma {:induction false} FailurePropagates(script: seq<Reply>)
    ensures ReplyPerTransfer(script, ReadData(script))
    ensures var r := ReadData(script);
      r.Returned? && r.value.Failed? ==>
        r.value.code == script[Transfers(r.trace) - 1].ret && r.value.code != 0
  {
    if |script| >= 1 && Ok(script[0]) {
      ReadClosedForm(script);
      var k := BusyRun(script, 1);
      PolledCounts(k);
      TriggerAndBusyOk(script);
      if k + 1 < |script| && Ok(script[k + 1]) {
        FrameOutcome(script, k);
      } else {
        StatusOutcome(script, k);
      }
    } else {
      CountsOne(Write(Address, TriggerCommand), RetryDelay);
    }
  }

  /** The trigger and every busy status read before the last status read
      succeeded. */
  lemma TriggerAndBusyOk(script: seq<Reply>)
    requires |script| >= 1 && Ok(script[0])
    ensures forall j :: 0 <= j < BusyRun(script, 1) + 1 ==> Ok(script[j])
  {
  }

  /** When the status read that ends the busy-poll fails or is missing,
      the run ends right after it. */
  lemma StatusOutcome(script: seq<Reply>, k: nat)
    requires |script| >= 1 && Ok(script[0]) && k == BusyRun(script, 1)
    requires !(k + 1 < |script| && Ok(script[k + 1]))
    ensures var r := ReadData(script);
      && r.trace == Triggered + Retries(k) + [Read(Address, 1)]
      && (r.Returned? <==> k + 1 < |script|)
      && (r.Returned? ==> r.value == Failed(script[k + 1].ret))
  {
    ReadClosedForm(script);
  }

  /** When the status read that ends the busy-poll succeeds, the frame
      read follows and its reply decides the run. */
  lemma FrameOutcome(script: seq<Reply>, k: nat)
    requires |script| >= 1 && Ok(script[0]) && k == BusyRun(script, 1)
    requires k + 1 < |script| && Ok(script[k + 1])
    ensures var r := ReadData(script);
      && r.trace == Triggered + Retries(k) + [Read(Address, 1)] + [Read(Address, 6)]
      && (r.Returned? <==> k + 2 < |script|)
      && (r.Returned? && r.value.Failed? ==> r.value.code == script[k + 2].ret)
  {
    ReadClosedForm(script);
    assert Triggered + (Retries(k) + [Read(Address, 1)] + [Read(Address, 6)])
        == Triggered + Retries(k) + [Read(Address, 1)] + [Read(Address, 6)];
  }

  /** Statuses 0x80, 0x80, 0x00: exactly two retry pauses, then the frame. */
  lemma {:induction false} TwoBusyStatuses(frame: seq<Byte>)
    requires |frame| == 6
    ensures var script := [Reply(0, []), Reply(0, [0x80]), Reply(0, [0x80]), Reply(0, [0x00]), Reply(0, frame)];
      && ReadData(script) == Returned(Measured(Convert(frame)), [
           Write(Address, TriggerCommand), Sleep(ConversionDelay),
           Read(Address, 1), Sleep(RetryDelay),
           Read(Address, 1), Sleep(RetryDelay),
           Read(Address, 1), Read(Address, 6)])
      && CountSleeps(ReadData(script).trace, RetryDelay) == 2
  {
    var script := [Reply(0, []), Reply(0, [0x80]), Reply(0, [0x80]), Reply(0, [0x00]), Reply(0, frame)];
    assert BusyRun(script, 3) == 0;
    assert BusyRun(script, 1) == 2;
    assert Fill(frame, 6) == frame;
    MeasuredIff(script);
    MeasuredShape(script);
    assert Retries(2) == [Read(Address, 1), Sleep(RetryDelay), Read(Address, 1), Sleep(RetryDelay)];
  }

  /** A sensor that stays busy keeps the driver polling for as long as the
      script lasts: the driver never gives up on its own. */
  lemma {:induction false} NeverTimesOut(k: nat)
    ensures var script := [Reply(0, [])] + seq(k, _ => Reply(0, [StatusBusy]));
      ReadData(script) == OutOfScript(Triggered + Retries(k) + [Read(Address, 1)])
  {
    var script := [Reply(0, [])] + seq(k, _ => Reply(0, [StatusBusy]));
    BusyToEnd(script, 1);
    ReadClosedForm(script);
  }

  lemma {:induction false} BusyToEnd(script: seq<Reply>, i: nat)
    requires 1 <= i <= |script|
    requires forall j :: 1 <= j < |script| ==> script[j] == Reply(0, [StatusBusy])
    ensures BusyRun(script, i) == |script| - i
    decreases |script| - i
  {
    if i < |script| {
      BusyToEnd(script, i + 1);
    }
  }
}
