/** The controller object: `command` frames a request into 64-byte packets,
    writes them to the device and reads one reply into `ans`; the catalog
    methods compute a payload and issue one command. */
module Controller {
  import opened Options
  import opened BitCodec
  import opened Wire
  import opened Usb
  import opened Catalog
  import opened BitText

  /** A snapshot of everything the framer affects: the commands issued, the
      packets written, the replies still unread, and the held answer. */
  datatype Link = Link(history: seq<Frame>, log: seq<seq<int>>, replies: seq<Option<seq<int>>>, ans: Option<seq<int>>)

  /** s1 is s0 after issuing the commands fs in order: each is recorded, its
      packets are written, and one reply is read for it, the answer being the
      last reply that arrived. */
  predicate Issued(fs: seq<Frame>, s0: Link, s1: Link)
  {
    s1.history == s0.history + fs &&
    s1.log == s0.log + Transmit(fs) &&
    s1.replies == Consumed(s0.replies, |fs|) &&
    s1.ans == LastAnswer(s0.replies, |fs|, s0.ans)
  }

  lemma IssuedNothing(s: Link)
    ensures Issued([], s, s)
  {
    assert s.history + [] == s.history;
    assert s.log + [] == s.log;
  }

  /** Issuing a and then b is issuing a + b. */
  lemma {:induction false} IssuedCompose(a: seq<Frame>, b: seq<Frame>, s0: Link, s1: Link, s2: Link)
    requires Issued(a, s0, s1) && Issued(b, s1, s2)
    ensures Issued(a + b, s0, s2)
  {
    WritesCompose(a, b, s0.history, s1.history, s2.history, s0.log, s1.log, s2.log);
    ReadsCompose(s0.replies, |a|, |b|, |a + b|, s0.ans, s1.replies, s1.ans, s2.replies, s2.ans);
  }

  /** The commands of a and then those of b leave the history and the packet
      log that a + b leave. */
  lemma {:induction false} WritesCompose(a: seq<Frame>, b: seq<Frame>, h0: seq<Frame>, h1: seq<Frame>, h2: seq<Frame>,
                      l0: seq<seq<int>>, l1: seq<seq<int>>, l2: seq<seq<int>>)
    requires h1 == h0 + a && l1 == l0 + Transmit(a)
    requires h2 == h1 + b && l2 == l1 + Transmit(b)
    ensures h2 == h0 + (a + b) && l2 == l0 + Transmit(a + b)
  {
    TransmitAppend(a, b);
    Associative(h0, a, b);
    Associative(l0, Transmit(a), Transmit(b));
  }

  lemma Associative<T>(x: seq<T>, y: seq<T>, z: seq<T>)
    ensures (x + y) + z == x + (y + z)
  {
  }

  /** m reads followed by n reads leave the queue and the answer that m + n
      reads leave. */
  lemma {:induction false} ReadsCompose(q: seq<Option<seq<int>>>, m: nat, n: nat, k: nat, a: Option<seq<int>>,
                     q1: seq<Option<seq<int>>>, a1: Option<seq<int>>,
                     q2: seq<Option<seq<int>>>, a2: Option<seq<int>>)
    requires q1 == Consumed(q, m) && a1 == LastAnswer(q, m, a)
    requires q2 == Consumed(q1, n) && a2 == LastAnswer(q1, n, a1)
    requires k == m + n
    ensures q2 == Consumed(q, k) && a2 == LastAnswer(q, k, a)
  {
    ConsumedAdd(q, m, n);
    LastAnswerAdd(q, m, n, a);
  }

  /** Inside a 64-byte slice starting at a multiple of 64, the offset is the
      remainder. */
  lemma SliceOffset(base: int, j: int)
    requires base % 64 == 0 && base <= j < base + 64
    ensures j % 64 == j - base
  {
    DivUnique(j, 64, base / 64, j - base);
  }

  /** One command: its packets written, one reply read, the answer replaced if
      a reply arrived. */
  lemma IssuedOne(f: Frame, s0: Link, s1: Link)
    requires s1.history == s0.history + [f]
    requires s1.log == s0.log + Packets(f)
    requires s1.replies == Consumed(s0.replies, 1)
    requires s1.ans == if NextReply(s0.replies).Some? then NextReply(s0.replies) else s0.ans
    ensures Issued([f], s0, s1)
  {
    assert Transmit([f]) == Packets(f) + Transmit([]);
  }

  lemma NextSlice(base: int)
    requires base % 64 == 0
    ensures (base + 64) % 64 == 0
  {
  }

  class Dlpc350 {
    /** The USB device the commands go to. */
    const dev: Device
    /** The last reply read; None while no read has succeeded. */
    var ans: Option<seq<int>>
    /** The commands issued through this object, oldest first. */
    ghost var history: seq<Frame>

    ghost predicate Valid()
      reads this, dev
    {
      dev.Valid() && (ans.Some? ==> IsReply(ans.value))
    }

    ghost function State(): Link
      reads this, dev
    {
      Link(history, dev.log, dev.replies, ans)
    }

    constructor (device: Device)
      requires device.Valid()
      ensures Valid()
      ensures dev == device && ans == None && history == []
    {
      dev := device;
      ans := None;
      history := [];
    }

    /** `command`: writes the packets of one command and reads one reply. The
        answer is replaced only when a reply arrives. */
    method Command(direction: Direction, sequenceByte: int, com1: int, com2: int, data: seq<int>)
      requires Valid()
      requires |data| + 2 < 0x1_0000
      modifies this, dev
      ensures Valid()
      ensures Issued([Frame(direction, sequenceByte, com1, com2, data)], old(State()), State())
    {
      ghost var frame := Frame(direction, sequenceByte, com1, com2, data);
      ghost var s0 := State();
      ghost var log0 := dev.log;
      var buffer := FrameHeader(direction, sequenceByte, com1, com2, data);

      if |buffer| + |data| < 65 {
        WriteSingle(buffer, data);
        assert dev.log == log0 + Packets(frame) by {
          assert Packets(frame) == [buffer + data + ZeroBytes(64 - |buffer| - |data|)];
        }
      } else {
        WriteFirst(buffer, data);
        WriteContinuations(data);
        assert dev.log == log0 + Packets(frame) by {
          assert Packets(frame) == [buffer + data[..FirstPayload]] + Continuations(data[FirstPayload..]);
        }
      }

      var reply := dev.Read();
      if reply.Some? {
        ans := reply;
      }
      history := history + [frame];
      IssuedOne(frame, s0, State());
    }

    /** The header of `command`: the direction flag, the sequence byte, the
        length field `len(data) + 2` rendered by `bits_to_bytes` as two bytes
        low byte first, then `com2` and `com1`. */
    static method FrameHeader(direction: Direction, sequenceByte: int, com1: int, com2: int, data: seq<int>)
      returns (buffer: seq<int>)
      requires |data| + 2 < 0x1_0000
      ensures buffer == Header(Frame(direction, sequenceByte, com1, com2, data))
    {
      var flagstring := if direction == Read then 0xC0 else 0x40;
      var n := |data| + 2;
      DigitsToBytes(ConvLen(n, 16), true);
      var converted := BitsToBytes(Render(ConvLen(n, 16)), true);
      var dataLen := converted.value;
      assert dataLen == [n % 256, (n / 256) % 256] by {
        LengthFieldBytes(n);
        assert n / 256 < 256;
      }
      buffer := [flagstring, sequenceByte] + dataLen + [com2, com1];
    }

    /** The single-packet case of `command`: header and payload, padded with
        zeros to 64 bytes. */
    method WriteSingle(header: seq<int>, data: seq<int>)
      requires dev.Valid() && |header| + |data| < 65
      modifies dev
      ensures dev.Valid() && dev.replies == old(dev.replies)
      ensures dev.log == old(dev.log) + [header + data + ZeroBytes(PacketSize - |header| - |data|)]
    {
      var buffer := header;
      for i := 0 to |data|
        invariant buffer == header + data[..i]
      {
        buffer := buffer + [data[i]];
        assert data[..i + 1] == data[..i] + [data[i]];
      }
      assert data[..|data|] == data;
      var fill := 64 - |buffer|;
      for i := 0 to fill
        invariant buffer == header + data + ZeroBytes(i)
      {
        assert ZeroBytes(i + 1) == ZeroBytes(i) + [0];
        buffer := buffer + [0];
      }
      dev.Write(buffer);
    }

    /** The first packet of a longer command: header and the payload bytes that
        fill the packet to 64. */
    method WriteFirst(header: seq<int>, data: seq<int>)
      requires dev.Valid() && |header| == HeaderSize && |data| >= FirstPayload
      modifies dev
      ensures dev.Valid() && dev.replies == old(dev.replies)
      ensures dev.log == old(dev.log) + [header + data[..FirstPayload]]
    {
      var buffer := header;
      var fill := 64 - |buffer|;
      for i := 0 to fill
        invariant buffer == header + data[..i]
      {
        buffer := buffer + [data[i]];
        assert data[..i + 1] == data[..i] + [data[i]];
      }
      dev.Write(buffer);
    }

    /** The second half of `command` for a payload longer than 58 bytes: the
        bytes from offset 58 on go out in 64-byte packets, the last one
        zero-padded to 64 bytes. */
    method WriteContinuations(data: seq<int>)
      requires dev.Valid() && |data| > FirstPayload
      modifies dev
      ensures dev.Valid() && dev.replies == old(dev.replies)
      ensures dev.log == old(dev.log) + Continuations(data[FirstPayload..])
    {
      ghost var log1 := dev.log;
      ghost var rest := data[FirstPayload..];
      var j, buffer := WriteSlices(data);
      ghost var base := j - |buffer|;
      ghost var tail := rest[base..];
      if j % 64 != 0 {
        while j % 64 != 0
          invariant base < j <= base + 64
          invariant buffer == tail + ZeroBytes(j - |rest|)
          invariant dev.Valid() && dev.replies == old(dev.replies)
          invariant dev.log == log1 + Continuations(rest[..base])
          decreases base + 64 - j
        {
          assert ZeroBytes(j + 1 - |rest|) == ZeroBytes(j - |rest|) + [0];
          buffer := buffer + [0];
          j := j + 1;
          assert j < base + 64 ==> j % 64 != 0 by {
            if j < base + 64 { SliceOffset(base, j); }
          }
        }
        assert j == base + 64 by { NextSlice(base); }
        dev.Write(buffer);
        ContinuationsAppend(rest[..base], tail);
        ContinuationsLast(tail);
        assert rest[..base] + tail == rest;
      } else {
        assert rest[..base] == rest;
      }
    }

    /** The `while j < len(data) - 58` loop of `command`: payload bytes from
        offset 58 on are collected, and each time j reaches a multiple of 64
        the 64 collected bytes are written. What is left in the buffer at the
        end is the partial last slice, j mod 64 bytes long. */
    method WriteSlices(data: seq<int>) returns (j: int, buffer: seq<int>)
      requires dev.Valid() && |data| > FirstPayload
      modifies dev
      ensures dev.Valid() && dev.replies == old(dev.replies)
      ensures j == |data| - FirstPayload && |buffer| == j % 64 && (j - |buffer|) % 64 == 0
      ensures buffer == data[FirstPayload..][j - |buffer|..]
      ensures dev.log == old(dev.log) + Continuations(data[FirstPayload..][..j - |buffer|])
    {
      ghost var log1 := dev.log;
      ghost var rest := data[FirstPayload..];
      buffer := [];
      j := 0;
      ghost var base := 0;
      while j < |data| - 58
        invariant 0 <= base <= j <= |rest| && base % 64 == 0 && j < base + 64
        invariant buffer == rest[base..j]
        invariant dev.log == log1 + Continuations(rest[..base])
        invariant dev.Valid() && dev.replies == old(dev.replies)
      {
        buffer := buffer + [data[j + 58]];
        assert rest[base..j + 1] == rest[base..j] + [rest[j]];
        j := j + 1;
        if j % 64 == 0 {
          assert j == base + 64 by { SliceOffset(base, j - 1); if j < base + 64 { SliceOffset(base, j); } }
          dev.Write(buffer);
          ContinuationsAppend(rest[..base], rest[base..j]);
          ContinuationsBlock(rest[base..j]);
          assert rest[..base] + rest[base..j] == rest[..j];
          buffer := [];
          base := j;
        } else {
          assert j < base + 64 by { NextSlice(base); }
        }
      }
      SliceOffset(base, j);
    }

    // -------------------------------------------------------------------------
    // The catalog: one command per call

    /** `get_main_status`: the flags are bits 0 to 3 of byte 4 of the answer
        the read leaves behind (which is an older answer when no reply came). */
    method GetMainStatus() returns (status: Option<MainStatus>)
      requires Valid()
      modifies this, dev
      ensures Valid()
      ensures Issued(Emitted([Call.GetMainStatus]), old(State()), State())
      ensures status == if ans.Some? then Some(DecodeMainStatus(ans.value[4])) else None
    {
      EmittedOne(Call.GetMainStatus);
      Command(Read, 0x00, 0x1A, 0x0C, []);
      if ans.Some? {
        status := Some(DecodeMainStatus(ans.value[4]));
      } else {
        status := None;
      }
    }

    method SetPowerMode(doStandby: bool)
      requires Valid()
      modifies this, dev
      ensures Valid()
      ensures Issued(Emitted([Call.SetPowerMode(doStandby)]), old(State()), State())
    {
      EmittedOne(Call.SetPowerMode(doStandby));
      Command(Write, 0x00, 0x02, 0x00, [Bit(doStandby)]);
    }

    method StartPatternLutValidate()
      requires Valid()
      modifies this, dev
      ensures Valid()
      ensures Issued(Emitted([Call.StartPatternLutValidate]), old(State()), State())
    {
      EmittedOne(Call.StartPatternLutValidate);
      DigitsToBytes(ConvLen(0x00, 8), true);
      var converted := BitsToBytes(Render(ConvLen(0x00, 8)), true);
      var payload := converted.value;
      assert payload == ByteFieldPayload(0);
      Command(Write, 0x00, 0x1A, 0x1A, payload);
    }

    method SetDmdPark(park: bool)
      requires Valid()
      modifies this, dev
      ensures Valid()
      ensures Issued(Emitted([Call.SetDmdPark(park)]), old(State()), State())
    {
      EmittedOne(Call.SetDmdPark(park));
      Command(Write, 0x00, 0x06, 0x09, [Bit(park)]);
    }

    method SetBufferFreeze(freeze: bool)
      requires Valid()
      modifies this, dev
      ensures Valid()
      ensures Issued(Emitted([Call.SetBufferFreeze(freeze)]), old(State()), State())
    {
      EmittedOne(Call.SetBufferFreeze(freeze));
      Command(Write, 0x00, 0x10, 0x0A, [Bit(freeze)]);
    }

    /** Writes the byte a mode name or number selects; reports false, having
        sent nothing, when the write could not be made. */
    method SendSelected(names: seq<string>, mode: Arg, com2: int) returns (sent: bool)
      requires Valid()
      modifies this, dev
      ensures Valid()
      ensures sent == Selected(ModeIndex(names, mode), com2).Some?
      ensures sent ==> Issued([Selected(ModeIndex(names, mode), com2).value], old(State()), State())
      ensures !sent ==> State() == old(State())
    {
      var index := ModeIndex(names, mode);
      if index.None? || !(0 <= index.value < 256) {
        return false;
      }
      Command(Write, 0x00, 0x1A, com2, [index.value]);
      return true;
    }

    method SetDisplayMode(mode: Arg) returns (sent: bool)
      requires Valid()
      modifies this, dev
      ensures Valid()
      ensures sent == Encode(Call.SetDisplayMode(mode)).Some?
      ensures Issued(Emitted([Call.SetDisplayMode(mode)]), old(State()), State())
    {
      EmittedOne(Call.SetDisplayMode(mode));
      sent := SendSelected(DisplayModes, mode, 0x1B);
      if !sent { IssuedNothing(State()); }
    }

    method SetPatternInputSource(source: Arg) returns (sent: bool)
      requires Valid()
      modifies this, dev
      ensures Valid()
      ensures sent == Encode(Call.SetPatternInputSource(source)).Some?
      ensures Issued(Emitted([Call.SetPatternInputSource(source)]), old(State()), State())
    {
      EmittedOne(Call.SetPatternInputSource(source));
      sent := SendSelected(InputSources, source, 0x22);
      if !sent { IssuedNothing(State()); }
    }

    method SetPatternTriggerMode(trigger: Arg) returns (sent: bool)
      requires Valid()
      modifies this, dev
      ensures Valid()
      ensures sent == Encode(Call.SetPatternTriggerMode(trigger)).Some?
      ensures Issued(Emitted([Call.SetPatternTriggerMode(trigger)]), old(State()), State())
    {
      EmittedOne(Call.SetPatternTriggerMode(trigger));
      sent := SendSelected(TriggerModes, trigger, 0x23);
      if !sent { IssuedNothing(State()); }
    }

    method SetGammaCorrection(applyGamma: bool)
      requires Valid()
      modifies this, dev
      ensures Valid()
      ensures Issued(Emitted([Call.SetGammaCorrection(applyGamma)]), old(State()), State())
    {
      EmittedOne(Call.SetGammaCorrection(applyGamma));
      var bits := if applyGamma then [true] + Zeros(7) else Zeros(8);
      DigitsToBytes(bits, true);
      var converted := BitsToBytes(Render(bits), true);
      var payload := converted.value;
      Command(Write, 0x00, 0x1A, 0x0E, payload);
    }

    method PatternDisplay(action: Arg) returns (sent: bool)
      requires Valid()
      modifies this, dev
      ensures Valid()
      ensures sent == Encode(Call.PatternDisplay(action)).Some?
      ensures Issued(Emitted([Call.PatternDisplay(action)]), old(State()), State())
    {
      EmittedOne(Call.PatternDisplay(action));
      sent := SendSelected(DisplayActions, action, 0x24);
      if !sent { IssuedNothing(State()); }
    }

    method SetExposureFramePeriod(exposurePeriod: nat, framePeriod: nat)
      requires Valid() && Sendable(Call.SetExposureFramePeriod(exposurePeriod, framePeriod))
      modifies this, dev
      ensures Valid()
      ensures Issued(Emitted([Call.SetExposureFramePeriod(exposurePeriod, framePeriod)]), old(State()), State())
    {
      EmittedOne(Call.SetExposureFramePeriod(exposurePeriod, framePeriod));
      var exposure := ConvLen(exposurePeriod, 32);
      var frame := ConvLen(framePeriod, 32);
      DigitsToBytes(frame + exposure, true);
      var converted := BitsToBytes(Render(frame + exposure), true);
      var payload := converted.value;
      Command(Write, 0x00, 0x1A, 0x29, payload);
    }

    method SetPatternConfig(numLutEntries: int, doRepeat: bool, numPatsForTrigOut2: int, numImages: int) returns (sent: bool)
      requires Valid() && Sendable(Call.SetPatternConfig(numLutEntries, doRepeat, numPatsForTrigOut2, numImages))
      modifies this, dev
      ensures Valid()
      ensures sent == Encode(Call.SetPatternConfig(numLutEntries, doRepeat, numPatsForTrigOut2, numImages)).Some?
      ensures Issued(Emitted([Call.SetPatternConfig(numLutEntries, doRepeat, numPatsForTrigOut2, numImages)]),
                     old(State()), State())
    {
      EmittedOne(Call.SetPatternConfig(numLutEntries, doRepeat, numPatsForTrigOut2, numImages));
      var entries := "0" + ConvLenText(numLutEntries - 1, 7);
      var repeat := "0000000" + (if doRepeat then "1" else "0");
      var pats := ConvLenText(numPatsForTrigOut2 - 1, 8);
      var images := "00" + ConvLenText(numImages, 6);
      var payload := BitsToBytes(images + pats + repeat + entries, true);
      if payload.None? {
        IssuedNothing(State());
        return false;
      }
      Command(Write, 0x00, 0x1A, 0x31, payload.value);
      return true;
    }

    method MailboxSetAddress(address: nat)
      requires Valid() && Sendable(Call.MailboxSetAddress(address))
      modifies this, dev
      ensures Valid()
      ensures Issued(Emitted([Call.MailboxSetAddress(address)]), old(State()), State())
    {
      EmittedOne(Call.MailboxSetAddress(address));
      DigitsToBytes(ConvLen(address, 8), true);
      var converted := BitsToBytes(Render(ConvLen(address, 8)), true);
      var payload := converted.value;
      Command(Write, 0x00, 0x1A, 0x32, payload);
    }

    method OpenMailbox(mboxNum: nat)
      requires Valid() && Sendable(Call.OpenMailbox(mboxNum))
      modifies this, dev
      ensures Valid()
      ensures Issued(Emitted([Call.OpenMailbox(mboxNum)]), old(State()), State())
    {
      EmittedOne(Call.OpenMailbox(mboxNum));
      DigitsToBytes(ConvLen(mboxNum, 8), true);
      var converted := BitsToBytes(Render(ConvLen(mboxNum, 8)), true);
      var payload := converted.value;
      Command(Write, 0x00, 0x1A, 0x33, payload);
    }

    method SendPatternLut(trigType: nat, patNum: nat, bitDepth: nat, ledSelect: nat,
                          doInvertPat: bool, doInsertBlack: bool, doBufSwap: bool, doTrigOutPrev: bool)
      requires Valid()
      requires Sendable(Call.SendPatternLut(trigType, patNum, bitDepth, ledSelect,
                                            doInvertPat, doInsertBlack, doBufSwap, doTrigOutPrev))
      modifies this, dev
      ensures Valid()
      ensures Issued(Emitted([Call.SendPatternLut(trigType, patNum, bitDepth, ledSelect,
                                                  doInvertPat, doInsertBlack, doBufSwap, doTrigOutPrev)]),
                     old(State()), State())
    {
      EmittedOne(Call.SendPatternLut(trigType, patNum, bitDepth, ledSelect,
                                     doInvertPat, doInsertBlack, doBufSwap, doTrigOutPrev));
      var bits := PatternLutBits(trigType, patNum, bitDepth, ledSelect,
                                 doInvertPat, doInsertBlack, doBufSwap, doTrigOutPrev);
      DigitsToBytes(bits, true);
      var converted := BitsToBytes(Render(bits), true);
      var payload := converted.value;
      Command(Write, 0x00, 0x1A, 0x34, payload);
    }
  }
}
