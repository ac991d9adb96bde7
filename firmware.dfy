/**
 * The state of the polling loop in `main`: the 14-byte output frame and the
 * 6-byte burst buffer, updated in place on each pass; the timer flag that the
 * timer interrupt sets and the loop clears; and the frames put on the UART.
 */
module Firmware {
  import opened Types
  import Sample
  import Frame

  /** Length of the burst read of OUT_X_L .. OUT_Z_H. */
  const BurstLength: nat := 6

  /**
   * The frame a successful pass builds from the burst `data`. `convert` is
   * the scaling to mm/s^2 and rounding done in `float32`, which this model
   * does not compute: any function from the decoded sample to an `int32`.
   */
  function FrameFor(data: seq<Byte>, convert: int -> Int32): (f: seq<Byte>)
    requires |data| == BurstLength
    ensures Frame.Decode(f).Some?
  {
    Frame.DecodeEncode(AxesFor(data, convert));
    Frame.Encode(AxesFor(data, convert))
  }

  /** The three values a pass packs: each axis scaled from its own sample. */
  function AxesFor(data: seq<Byte>, convert: int -> Int32): Frame.Axes
    requires |data| == BurstLength
  {
    Frame.Axes(convert(Sample.AxisOf(data, 0)), convert(Sample.AxisOf(data, 1)), convert(Sample.AxisOf(data, 2)))
  }

  /** What the host reads from a frame: X from bytes 0-1, Y from 2-3, Z from 4-5 of the burst. */
  lemma FrameForDecodes(data: seq<Byte>, convert: int -> Int32)
    requires |data| == BurstLength
    ensures Frame.Decode(FrameFor(data, convert)) ==
      Some(Frame.Axes(convert(Sample.DecodeAxis(data[0], data[1])),
                      convert(Sample.DecodeAxis(data[2], data[3])),
                      convert(Sample.DecodeAxis(data[4], data[5]))))
  {
    Frame.DecodeEncode(AxesFor(data, convert));
  }

  /** One step of the environment, as seen by the main loop. */
  datatype Event =
    | TimerInterrupt
      /** One pass of the `for(;;)` body; if the flag is set, the burst read reports `readError` and leaves `burst` in the buffer. */
    | LoopPass(readError: ErrorCode, burst: seq<Byte>)

  /** Number of timer interrupts in a trace. */
  function Interrupts(trace: seq<Event>): nat
  {
    if trace == [] then 0
    else (if trace[0].TimerInterrupt? then 1 else 0) + Interrupts(trace[1..])
  }

  /** One more event adds one interrupt exactly when it is one. */
  lemma {:induction false} InterruptsAppend(trace: seq<Event>, e: Event)
    ensures Interrupts(trace + [e]) == Interrupts(trace) + (if e.TimerInterrupt? then 1 else 0)
  {
    if trace != [] {
      assert (trace + [e])[1..] == trace[1..] + [e];
      InterruptsAppend(trace[1..], e);
    }
  }

  ghost predicate WellFormedTrace(trace: seq<Event>)
  {
    forall i | 0 <= i < |trace| :: trace[i].LoopPass? ==> |trace[i].burst| == BurstLength
  }

  class MainLoop {
    /** `OutArray`: the frame, sent as a whole after each successful read. */
    const outArray: array<Byte>
    /** `AccelerationData`: the destination of the burst read. */
    const accelerationData: array<Byte>
    /** `timer_flag` */
    var timerFlag: Byte
    /** Every frame put on the UART so far, oldest first. */
    var uart: seq<seq<Byte>>

    ghost predicate Valid()
      reads this, outArray
    {
      outArray.Length == Frame.FrameLength && accelerationData.Length == BurstLength &&
      outArray[0] == Frame.Header && outArray[Frame.FrameLength - 1] == Frame.Footer &&
      forall f | f in uart :: Frame.Decode(f).Some?
    }

    /**
     * The set-up before the loop: header and footer are written once, the
     * other frame bytes are left as they are, and the flag is cleared.
     */
    constructor ()
      ensures Valid() && fresh(outArray) && fresh(accelerationData)
      ensures timerFlag == 0 && uart == []
    {
      outArray := new Byte[Frame.FrameLength];
      accelerationData := new Byte[BurstLength];
      timerFlag := 0;
      uart := [];
      new;
      outArray[0] := Frame.Header;
      outArray[Frame.FrameLength - 1] := Frame.Footer;
    }

    /** What the timer interrupt does to the shared flag. */
    method OnTimer()
      modifies this`timerFlag
      ensures timerFlag == 1
    {
      timerFlag := 1;
    }

    /** The four byte assignments of one axis, at `offset`. */
    method PutInt32(offset: nat, v: Int32)
      requires Valid() && 1 <= offset && offset + 4 <= Frame.FrameLength - 1
      modifies outArray
      ensures Valid()
      ensures outArray[..] == old(outArray[..])[..offset] + Frame.Pack32(v) + old(outArray[..])[offset + 4..]
    {
      outArray[offset] := Frame.ByteOf(v, 0);
      outArray[offset + 1] := Frame.ByteOf(v, 1);
      outArray[offset + 2] := Frame.ByteOf(v, 2);
      outArray[offset + 3] := Frame.ByteOf(v, 3);
    }

    /**
     * One pass of the `for(;;)` body. Only a set flag starts a read, and the
     * flag is cleared first; only a read reporting no error changes the frame
     * and sends it. Header and footer are never written.
     */
    method Poll(readError: ErrorCode, burst: seq<Byte>, convert: int -> Int32)
      requires Valid() && |burst| == BurstLength
      modifies this, outArray, accelerationData
      ensures Valid()
      ensures timerFlag == if old(timerFlag) == 1 then 0 else old(timerFlag)
      ensures accelerationData[..] == if old(timerFlag) == 1 then burst else old(accelerationData[..])
      ensures if old(timerFlag) == 1 && readError == NoError
              then outArray[..] == FrameFor(burst, convert) && uart == old(uart) + [outArray[..]]
              else outArray[..] == old(outArray[..]) && uart == old(uart)
    {
      if timerFlag == 1 {
        timerFlag := 0;
        forall i | 0 <= i < BurstLength {
          accelerationData[i] := burst[i];
        }
        var error := readError;
        if error == NoError {
          ghost var before := outArray[..];
          var outX := Sample.DecodeAxis(accelerationData[0], accelerationData[1]);
          PutInt32(Frame.Offset(0), convert(outX));
          var outY := Sample.DecodeAxis(accelerationData[2], accelerationData[3]);
          PutInt32(Frame.Offset(1), convert(outY));
          var outZ := Sample.DecodeAxis(accelerationData[4], accelerationData[5]);
          PutInt32(Frame.Offset(2), convert(outZ));
          assert accelerationData[..] == burst;
          assert outArray[..] == [before[0]] + Frame.Pack32(convert(outX)) + Frame.Pack32(convert(outY))
                                 + Frame.Pack32(convert(outZ)) + [before[13]];
          assert outArray[..] == FrameFor(burst, convert);
          uart := uart + [outArray[..]];
        }
      }
    }

    /**
     * A finite stretch of the program's run: timer interrupts and loop passes
     * in the order they happen. Frames are only appended, each of them is
     * well framed, and no interrupt produces more than one frame.
     */
    method Run(trace: seq<Event>, convert: int -> Int32)
      requires Valid() && WellFormedTrace(trace)
      modifies this, outArray, accelerationData
      ensures Valid()
      ensures old(uart) <= uart
      ensures |uart| + (if timerFlag == 1 then 1 else 0)
              <= |old(uart)| + Interrupts(trace) + (if old(timerFlag) == 1 then 1 else 0)
    {
      var i := 0;
      while i < |trace|
        invariant 0 <= i <= |trace|
        invariant Valid()
        invariant old(uart) <= uart
        invariant |uart| + (if timerFlag == 1 then 1 else 0)
                  <= |old(uart)| + Interrupts(trace[..i]) + (if old(timerFlag) == 1 then 1 else 0)
      {
        assert trace[..i + 1] == trace[..i] + [trace[i]];
        InterruptsAppend(trace[..i], trace[i]);
        match trace[i] {
          case TimerInterrupt =>
            OnTimer();
          case LoopPass(readError, burst) =>
            Poll(readError, burst, convert);
        }
        i := i + 1;
      }
      assert trace[..i] == trace;
    }
  }
}
