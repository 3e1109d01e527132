/** The module-level helpers that drive a whole projector setup: each is a
    fixed sequence of catalog calls on one controller connection, stopped at
    the first call that raises. */
module Orchestration {
  import opened Options
  import opened BitCodec
  import opened Wire
  import opened Catalog
  import opened Controller

  // ---------------------------------------------------------------------------
  // Frame rate

  /** `fps_to_period`: the frame period in microseconds, rounded down. */
  function FpsToPeriod(fps: nat): (period: nat)
    requires fps > 0
    ensures period * fps <= 1_000_000 < (period + 1) * fps
  {
    1_000_000 / fps
  }

  /** The default period of `pattern_mode`, computed for 222 frames per second. */
  lemma DefaultPeriod()
    ensures FpsToPeriod(222) == 4504
  {
  }

  /** An `fps` argument overrides the period argument. */
  function EffectivePeriod(period: nat, fps: Option<nat>): nat
    requires fps != Some(0)
  {
    if fps.Some? then FpsToPeriod(fps.value) else period
  }

  // ---------------------------------------------------------------------------
  // The call sequences

  /** The bit depths `pattern_mode` accepts. */
  predicate ValidBitDepth(d: int)
  {
    d == 1 || d == 2 || d == 4 || d == 7 || d == 8
  }

  /** `bit_map`: the pattern numbers of the three LUT slots for a bit depth. */
  function BitMap(d: int): (r: seq<nat>)
    requires ValidBitDepth(d)
    ensures |r| == 3
  {
    if d == 1 then [7, 15, 23]
    else if d == 2 then [3, 7, 11]
    else if d == 4 then [1, 3, 5]
    else [0, 1, 2]
  }

  /** LUT slot i: its mailbox address, then its entry. Slot 0 takes trigger
      type 1 and the others trigger type 3; the four flags keep their default
      false. */
  function LutEntry(i: nat, bitDepth: int, ledColor: nat): seq<Call>
    requires i < 3 && ValidBitDepth(bitDepth)
  {
    [Call.MailboxSetAddress(i)] +
    [Call.SendPatternLut(if i == 0 then 1 else 3, BitMap(bitDepth)[i], bitDepth, ledColor,
                         false, false, false, false)]
  }

  /** The calls of the first n rounds of the `for i in range(3)` loop. */
  function LutCalls(bitDepth: int, ledColor: nat, n: nat): seq<Call>
    requires n <= 3 && ValidBitDepth(bitDepth)
    decreases n
  {
    if n == 0 then [] else LutCalls(bitDepth, ledColor, n - 1) + LutEntry(n - 1, bitDepth, ledColor)
  }

  /** Steps 0 to 7 of `pattern_mode`, up to opening mailbox 2. The pattern
      configuration takes `num_pats` both as the LUT entry count and as the
      TRIG_OUT_2 count, with the defaults repeat on and no image entries. */
  function SetupCalls(inputMode: Arg, inputType: Arg, numPats: int, triggerType: Arg, period: nat): seq<Call>
  {
    [Call.PatternDisplay(Name("stop"))] +
    [Call.SetDisplayMode(inputMode)] +
    [Call.SetPatternInputSource(inputType)] +
    [Call.SetPatternConfig(numPats, true, numPats, 0)] +
    [Call.SetPatternTriggerMode(triggerType)] +
    [Call.SetExposureFramePeriod(period, period)] +
    [Call.OpenMailbox(2)]
  }

  /** The last steps: close the mailbox, validate, and start twice. */
  const FinishCalls: seq<Call> :=
    [Call.OpenMailbox(0)] + [Call.StartPatternLutValidate] +
    [Call.PatternDisplay(Name("start"))] + [Call.PatternDisplay(Name("start"))]

  /** Every call `pattern_mode` makes, in order. */
  function PatternModeCalls(inputMode: Arg, inputType: Arg, numPats: int, triggerType: Arg,
                            period: nat, bitDepth: int, ledColor: nat): seq<Call>
    requires ValidBitDepth(bitDepth)
  {
    SetupCalls(inputMode, inputType, numPats, triggerType, period) + LutCalls(bitDepth, ledColor, 3) + FinishCalls
  }

  /** `pattern_mode` reaches its first call: `fps_to_period` does not divide
      by zero and the bit depth passes the assertion. */
  predicate Proceeds(bitDepth: int, fps: Option<nat>)
  {
    fps != Some(0) && ValidBitDepth(bitDepth)
  }

  /** The commands `pattern_mode` sends. */
  function PatternModeTrace(inputMode: Arg, inputType: Arg, numPats: int, triggerType: Arg,
                            period: nat, fps: Option<nat>, bitDepth: int, ledColor: nat): seq<Frame>
  {
    if Proceeds(bitDepth, fps) then
      Emitted(PatternModeCalls(inputMode, inputType, numPats, triggerType,
                               EffectivePeriod(period, fps), bitDepth, ledColor))
    else []
  }

  const VideoModeCalls: seq<Call> := [Call.PatternDisplay(Name("stop"))] + [Call.SetDisplayMode(Name("video"))]
  const PowerDownCalls: seq<Call> := [Call.PatternDisplay(Name("stop"))] + [Call.SetPowerMode(true)]
  const PowerUpCalls: seq<Call> := [Call.SetPowerMode(false)]

  function SetGammaCalls(value: bool): seq<Call>
  {
    [Call.SetGammaCorrection(value)] + [Call.GetMainStatus]
  }

  // ---------------------------------------------------------------------------
  // Sequencing

  /** One more call after a run of calls: it is made only if every call of
      the run went through, and otherwise the connection is left as it was. */
  lemma Seq(done: seq<Call>, c: Call, s0: Link, s1: Link, s2: Link)
    requires Issued(Emitted(done), s0, s1)
    requires AllEncode(done) ==> Issued(Emitted([c]), s1, s2)
    requires !AllEncode(done) ==> s2 == s1
    ensures Issued(Emitted(done + [c]), s0, s2)
    ensures AllEncode(done + [c]) <==> AllEncode(done) && Encode(c).Some?
  {
    EmittedAppend(done, [c]);
    EmittedOne(c);
    if AllEncode(done) {
      IssuedCompose(Emitted(done), Emitted([c]), s0, s1, s2);
    }
  }

  /** Once a call raises, the calls after it send nothing. */
  lemma Stop(done: seq<Call>, rest: seq<Call>, s0: Link, s1: Link)
    requires !AllEncode(done) && Issued(Emitted(done), s0, s1)
    ensures Issued(Emitted(done + rest), s0, s1) && !AllEncode(done + rest)
  {
    EmittedAppend(done, rest);
  }

  /** Two runs one after the other, the first of which went through. */
  lemma Then(a: seq<Call>, b: seq<Call>, s0: Link, s1: Link, s2: Link)
    requires AllEncode(a) && Issued(Emitted(a), s0, s1) && Issued(Emitted(b), s1, s2)
    ensures Issued(Emitted(a + b), s0, s2)
    ensures AllEncode(a + b) <==> AllEncode(b)
  {
    EmittedAppend(a, b);
    IssuedCompose(Emitted(a), Emitted(b), s0, s1, s2);
  }

  // ---------------------------------------------------------------------------
  // The helpers as methods on a connection

  /** Steps 0 to 7 of `pattern_mode`. A call that raises ends the helper: the
      calls after it are not made. */
  method PatternSetup(lcr: Dlpc350, inputMode: Arg, inputType: Arg, numPats: int, triggerType: Arg, period: nat)
    returns (ok: bool)
    requires lcr.Valid() && AllSendable(SetupCalls(inputMode, inputType, numPats, triggerType, period))
    modifies lcr, lcr.dev
    ensures lcr.Valid()
    ensures Issued(Emitted(SetupCalls(inputMode, inputType, numPats, triggerType, period)), old(lcr.State()), lcr.State())
    ensures ok <==> AllEncode(SetupCalls(inputMode, inputType, numPats, triggerType, period))
  {
    SetupSendable(inputMode, inputType, numPats, triggerType, period);
    ghost var c0 := Call.PatternDisplay(Name("stop"));
    ghost var c1 := Call.SetDisplayMode(inputMode);
    ghost var c2 := Call.SetPatternInputSource(inputType);
    ghost var c3 := Call.SetPatternConfig(numPats, true, numPats, 0);
    ghost var c4 := Call.SetPatternTriggerMode(triggerType);
    ghost var c5 := Call.SetExposureFramePeriod(period, period);
    ghost var c6 := Call.OpenMailbox(2);
    EncodesAlways(c5);
    EncodesAlways(c6);
    ghost var s0 := lcr.State();

    ok := lcr.PatternDisplay(Name("stop"));
    EmittedOne(c0);

    ghost var s1 := lcr.State();
    if ok { ok := lcr.SetDisplayMode(inputMode); }
    Seq([c0], c1, s0, s1, lcr.State());

    s1 := lcr.State();
    if ok { ok := lcr.SetPatternInputSource(inputType); }
    Seq([c0] + [c1], c2, s0, s1, lcr.State());

    s1 := lcr.State();
    if ok { ok := lcr.SetPatternConfig(numPats, true, numPats, 0); }
    Seq([c0] + [c1] + [c2], c3, s0, s1, lcr.State());

    s1 := lcr.State();
    if ok { ok := lcr.SetPatternTriggerMode(triggerType); }
    Seq([c0] + [c1] + [c2] + [c3], c4, s0, s1, lcr.State());

    s1 := lcr.State();
    if ok { lcr.SetExposureFramePeriod(period, period); }
    Seq([c0] + [c1] + [c2] + [c3] + [c4], c5, s0, s1, lcr.State());

    s1 := lcr.State();
    if ok { lcr.OpenMailbox(2); }
    Seq([c0] + [c1] + [c2] + [c3] + [c4] + [c5], c6, s0, s1, lcr.State());
  }

  /** Step 7 of `pattern_mode`: the loop over the three LUT slots. */
  method WriteLut(lcr: Dlpc350, bitDepth: int, ledColor: nat)
    requires lcr.Valid() && ValidBitDepth(bitDepth) && AllSendable(LutCalls(bitDepth, ledColor, 3))
    modifies lcr, lcr.dev
    ensures lcr.Valid()
    ensures Issued(Emitted(LutCalls(bitDepth, ledColor, 3)), old(lcr.State()), lcr.State())
  {
    ghost var s0 := lcr.State();
    IssuedNothing(s0);
    for i := 0 to 3
      invariant lcr.Valid()
      invariant Issued(Emitted(LutCalls(bitDepth, ledColor, i)), s0, lcr.State())
    {
      var trigType := if i == 0 then 1 else 3;
      ghost var done := LutCalls(bitDepth, ledColor, i);
      ghost var a := Call.MailboxSetAddress(i);
      ghost var b := Call.SendPatternLut(trigType, BitMap(bitDepth)[i], bitDepth, ledColor, false, false, false, false);
      LutSendable(bitDepth, ledColor, i);
      LutEncodes(bitDepth, ledColor, i);
      EncodesAlways(a);
      EncodesAlways(b);
      ghost var s1 := lcr.State();

      lcr.MailboxSetAddress(i);
      Then(done, [a], s0, s1, lcr.State());
      EmittedOne(a);

      ghost var s2 := lcr.State();
      lcr.SendPatternLut(trigType, BitMap(bitDepth)[i], bitDepth, ledColor, false, false, false, false);
      Then(done + [a], [b], s0, s2, lcr.State());
      Associative(done, [a], [b]);
    }
  }

  /** The steps after the LUT loop of `pattern_mode`. */
  method PatternFinish(lcr: Dlpc350)
    requires lcr.Valid()
    modifies lcr, lcr.dev
    ensures lcr.Valid()
    ensures Issued(Emitted(FinishCalls), old(lcr.State()), lcr.State())
    ensures AllEncode(FinishCalls)
  {
    ghost var c0 := Call.OpenMailbox(0);
    ghost var c1 := Call.StartPatternLutValidate;
    ghost var c2 := Call.PatternDisplay(Name("start"));
    FinishEncodes();
    EncodesAlways(c0);
    EncodesAlways(c1);
    MailboxSendable(0);
    ghost var s0 := lcr.State();

    lcr.OpenMailbox(0);
    EmittedOne(c0);

    ghost var s1 := lcr.State();
    lcr.StartPatternLutValidate();
    Seq([c0], c1, s0, s1, lcr.State());

    s1 := lcr.State();
    var sent := lcr.PatternDisplay(Name("start"));
    Seq([c0] + [c1], c2, s0, s1, lcr.State());

    s1 := lcr.State();
    sent := lcr.PatternDisplay(Name("start"));
    Seq([c0] + [c1] + [c2], c2, s0, s1, lcr.State());
  }

  /** `pattern_mode`: reports whether every call went through. A rejected
      frame rate or bit depth sends nothing; a call that raises ends the
      sequence after the commands before it. */
  method PatternMode(lcr: Dlpc350, inputMode: Arg, inputType: Arg, numPats: int, triggerType: Arg,
                     period: nat, fps: Option<nat>, bitDepth: int, ledColor: nat)
    returns (completed: bool)
    requires lcr.Valid()
    requires Proceeds(bitDepth, fps) ==>
               AllSendable(PatternModeCalls(inputMode, inputType, numPats, triggerType,
                                            EffectivePeriod(period, fps), bitDepth, ledColor))
    modifies lcr, lcr.dev
    ensures lcr.Valid()
    ensures Issued(PatternModeTrace(inputMode, inputType, numPats, triggerType, period, fps, bitDepth, ledColor),
                   old(lcr.State()), lcr.State())
    ensures completed <==> Proceeds(bitDepth, fps) &&
                           AllEncode(PatternModeCalls(inputMode, inputType, numPats, triggerType,
                                                      EffectivePeriod(period, fps), bitDepth, ledColor))
  {
    var p := period;
    if fps.Some? {
      if fps.value == 0 {
        IssuedNothing(lcr.State());
        return false;
      }
      p := FpsToPeriod(fps.value);
    }
    if !ValidBitDepth(bitDepth) {
      IssuedNothing(lcr.State());
      return false;
    }
    ghost var setup := SetupCalls(inputMode, inputType, numPats, triggerType, p);
    ghost var lut := LutCalls(bitDepth, ledColor, 3);
    SendableParts(setup, lut, FinishCalls);
    ghost var s0 := lcr.State();

    var ok := PatternSetup(lcr, inputMode, inputType, numPats, triggerType, p);
    if !ok {
      Stop(setup, lut, s0, lcr.State());
      Stop(setup + lut, FinishCalls, s0, lcr.State());
      return false;
    }
    ghost var s1 := lcr.State();
    WriteLut(lcr, bitDepth, ledColor);
    Then(setup, lut, s0, s1, lcr.State());
    LutEncodes(bitDepth, ledColor, 3);
    ghost var s2 := lcr.State();
    PatternFinish(lcr);
    Then(setup + lut, FinishCalls, s0, s2, lcr.State());
    return true;
  }

  /** `video_mode`. */
  method VideoMode(lcr: Dlpc350)
    requires lcr.Valid()
    modifies lcr, lcr.dev
    ensures lcr.Valid()
    ensures Issued(Emitted(VideoModeCalls), old(lcr.State()), lcr.State())
  {
    ghost var s0 := lcr.State();
    NamedCallsEncode();
    var sent := lcr.PatternDisplay(Name("stop"));
    EmittedOne(Call.PatternDisplay(Name("stop")));
    ghost var s1 := lcr.State();
    sent := lcr.SetDisplayMode(Name("video"));
    Then([Call.PatternDisplay(Name("stop"))], [Call.SetDisplayMode(Name("video"))], s0, s1, lcr.State());
  }

  /** `power_down`. */
  method PowerDown(lcr: Dlpc350)
    requires lcr.Valid()
    modifies lcr, lcr.dev
    ensures lcr.Valid()
    ensures Issued(Emitted(PowerDownCalls), old(lcr.State()), lcr.State())
  {
    ghost var s0 := lcr.State();
    NamedCallsEncode();
    var sent := lcr.PatternDisplay(Name("stop"));
    EmittedOne(Call.PatternDisplay(Name("stop")));
    ghost var s1 := lcr.State();
    lcr.SetPowerMode(true);
    Then([Call.PatternDisplay(Name("stop"))], [Call.SetPowerMode(true)], s0, s1, lcr.State());
  }

  /** `power_up`. */
  method PowerUp(lcr: Dlpc350)
    requires lcr.Valid()
    modifies lcr, lcr.dev
    ensures lcr.Valid()
    ensures Issued(Emitted(PowerUpCalls), old(lcr.State()), lcr.State())
  {
    lcr.SetPowerMode(false);
  }

  /** `set_gamma`: the gamma command, then the status read whose flags
      `get_main_status(True)` reports. */
  method SetGamma(lcr: Dlpc350, value: bool) returns (status: Option<MainStatus>)
    requires lcr.Valid()
    modifies lcr, lcr.dev
    ensures lcr.Valid()
    ensures Issued(Emitted(SetGammaCalls(value)), old(lcr.State()), lcr.State())
    ensures status == if lcr.ans.Some? then Some(DecodeMainStatus(lcr.ans.value[4])) else None
  {
    ghost var s0 := lcr.State();
    lcr.SetGammaCorrection(value);
    ghost var s1 := lcr.State();
    status := lcr.GetMainStatus();
    EmittedOne(Call.SetGammaCorrection(value));
    Then([Call.SetGammaCorrection(value)], [Call.GetMainStatus], s0, s1, lcr.State());
  }

  // ---------------------------------------------------------------------------
  // Properties of the call sequences

  lemma {:induction false} LutCallsAt(bitDepth: int, ledColor: nat, n: nat, i: nat)
    requires n <= 3 && i < n && ValidBitDepth(bitDepth)
    ensures |LutCalls(bitDepth, ledColor, n)| == 2 * n
    ensures LutCalls(bitDepth, ledColor, n)[2 * i] == Call.MailboxSetAddress(i)
    ensures LutCalls(bitDepth, ledColor, n)[2 * i + 1] ==
            Call.SendPatternLut(if i == 0 then 1 else 3, BitMap(bitDepth)[i], bitDepth, ledColor,
                                false, false, false, false)
    decreases n
  {
    if i < n - 1 {
      LutCallsAt(bitDepth, ledColor, n - 1, i);
    } else {
      LutLength(bitDepth, ledColor, n - 1);
    }
  }

  lemma {:induction false} LutLength(bitDepth: int, ledColor: nat, n: nat)
    requires n <= 3 && ValidBitDepth(bitDepth)
    ensures |LutCalls(bitDepth, ledColor, n)| == 2 * n
    decreases n
  {
    if n > 0 {
      LutLength(bitDepth, ledColor, n - 1);
    }
  }

  /** The LUT calls never raise. */
  lemma {:induction false} LutEncodes(bitDepth: int, ledColor: nat, n: nat)
    requires n <= 3 && ValidBitDepth(bitDepth)
    ensures AllEncode(LutCalls(bitDepth, ledColor, n))
    decreases n
  {
    if n > 0 {
      LutEncodes(bitDepth, ledColor, n - 1);
      var e := LutEntry(n - 1, bitDepth, ledColor);
      assert AllEncode(e) by {
        forall k | 0 <= k < |e| ensures Encode(e[k]).Some? {
        }
      }
      EmittedAppend(LutCalls(bitDepth, ledColor, n - 1), e);
    }
  }

  lemma FinishEncodes()
    ensures Encode(Call.PatternDisplay(Name("start"))).Some?
    ensures AllEncode(FinishCalls)
  {
    var c0, c1, c2 := Call.OpenMailbox(0), Call.StartPatternLutValidate, Call.PatternDisplay(Name("start"));
    EncodesAlways(c0);
    EncodesAlways(c1);
    NamedCallsEncode();
    AllEncodeSnoc([], c0);
    assert [] + [c0] == [c0];
    AllEncodeSnoc([c0], c1);
    AllEncodeSnoc([c0] + [c1], c2);
    AllEncodeSnoc([c0] + [c1] + [c2], c2);
  }

  /** The fixed names the helpers pass are all listed. */
  lemma NamedCallsEncode()
    ensures Encode(Call.PatternDisplay(Name("stop"))).Some?
    ensures Encode(Call.PatternDisplay(Name("start"))).Some?
    ensures Encode(Call.SetDisplayMode(Name("video"))).Some?
  {
    ModeNames();
  }

  /** A mailbox number or address below 256 takes a one-byte payload. */
  lemma MailboxSendable(v: nat)
    requires v < 256
    ensures Sendable(Call.MailboxSetAddress(v)) && Sendable(Call.OpenMailbox(v))
  {
  }

  /** The calls that never raise. */
  lemma EncodesAlways(c: Call)
    requires c.GetMainStatus? || c.SetPowerMode? || c.StartPatternLutValidate? || c.SetDmdPark? ||
             c.SetBufferFreeze? || c.SetGammaCorrection? || c.SetExposureFramePeriod? ||
             c.MailboxSetAddress? || c.OpenMailbox? || c.SendPatternLut?
    ensures Encode(c).Some?
  {
  }

  lemma AllEncodeSnoc(done: seq<Call>, c: Call)
    ensures AllEncode(done + [c]) <==> AllEncode(done) && Encode(c).Some?
  {
    var s := done + [c];
    assert s[|done|] == c;
    forall i | 0 <= i < |done| ensures s[i] == done[i] {}
  }

  lemma SetupSendable(inputMode: Arg, inputType: Arg, numPats: int, triggerType: Arg, period: nat)
    requires AllSendable(SetupCalls(inputMode, inputType, numPats, triggerType, period))
    ensures Sendable(Call.SetPatternConfig(numPats, true, numPats, 0))
    ensures Sendable(Call.SetExposureFramePeriod(period, period))
    ensures Sendable(Call.OpenMailbox(2))
  {
    var s := SetupCalls(inputMode, inputType, numPats, triggerType, period);
    assert s[3] == Call.SetPatternConfig(numPats, true, numPats, 0);
    assert s[5] == Call.SetExposureFramePeriod(period, period);
    assert s[6] == Call.OpenMailbox(2);
  }

  lemma LutSendable(bitDepth: int, ledColor: nat, i: nat)
    requires i < 3 && ValidBitDepth(bitDepth) && AllSendable(LutCalls(bitDepth, ledColor, 3))
    ensures Sendable(Call.MailboxSetAddress(i))
    ensures Sendable(Call.SendPatternLut(if i == 0 then 1 else 3, BitMap(bitDepth)[i], bitDepth, ledColor,
                                         false, false, false, false))
  {
    LutCallsAt(bitDepth, ledColor, 3, i);
    var s := LutCalls(bitDepth, ledColor, 3);
    assert Sendable(s[2 * i]) && Sendable(s[2 * i + 1]);
  }

  lemma SendableParts(a: seq<Call>, b: seq<Call>, c: seq<Call>)
    requires AllSendable((a + b) + c)
    ensures AllSendable(a) && AllSendable(b) && AllSendable(c)
  {
    var s := (a + b) + c;
    forall k | 0 <= k < |a| ensures Sendable(a[k]) { assert a[k] == s[k]; }
    forall k | 0 <= k < |b| ensures Sendable(b[k]) { assert b[k] == s[|a| + k]; }
    forall k | 0 <= k < |c| ensures Sendable(c[k]) { assert c[k] == s[|a| + |b| + k]; }
  }

  // ---------------------------------------------------------------------------
  // The order of the calls

  lemma SetupAt(inputMode: Arg, inputType: Arg, numPats: int, triggerType: Arg, period: nat)
    ensures var s := SetupCalls(inputMode, inputType, numPats, triggerType, period);
            |s| == 7 &&
            s[0] == Call.PatternDisplay(Name("stop")) &&
            s[1] == Call.SetDisplayMode(inputMode) &&
            s[2] == Call.SetPatternInputSource(inputType) &&
            s[3] == Call.SetPatternConfig(numPats, true, numPats, 0) &&
            s[4] == Call.SetPatternTriggerMode(triggerType) &&
            s[5] == Call.SetExposureFramePeriod(period, period) &&
            s[6] == Call.OpenMailbox(2)
  {
  }

  lemma FinishAt()
    ensures |FinishCalls| == 4
    ensures FinishCalls[0] == Call.OpenMailbox(0) && FinishCalls[1] == Call.StartPatternLutValidate
    ensures FinishCalls[2] == Call.PatternDisplay(Name("start")) && FinishCalls[3] == Call.PatternDisplay(Name("start"))
  {
  }

  lemma ConcatAt<T>(a: seq<T>, b: seq<T>, c: seq<T>, i: nat)
    requires i < |a| + |b| + |c|
    ensures i < |a| ==> ((a + b) + c)[i] == a[i]
    ensures |a| <= i < |a| + |b| ==> ((a + b) + c)[i] == b[i - |a|]
    ensures |a| + |b| <= i ==> ((a + b) + c)[i] == c[i - |a| - |b|]
  {
  }

  /** The 17 calls of `pattern_mode` in order: stop the sequence, select the
      display mode, the input source, the pattern configuration, the trigger
      mode and the exposure, open mailbox 2, three LUT slots each an address
      and an entry, close the mailbox, validate, and start twice. */
  lemma {:induction false} PatternModeOrder(inputMode: Arg, inputType: Arg, numPats: int, triggerType: Arg,
                                            period: nat, bitDepth: int, ledColor: nat)
    requires ValidBitDepth(bitDepth)
    ensures var calls := PatternModeCalls(inputMode, inputType, numPats, triggerType, period, bitDepth, ledColor);
            |calls| == 17 &&
            calls[0] == Call.PatternDisplay(Name("stop")) &&
            calls[1] == Call.SetDisplayMode(inputMode) &&
            calls[2] == Call.SetPatternInputSource(inputType) &&
            calls[3] == Call.SetPatternConfig(numPats, true, numPats, 0) &&
            calls[4] == Call.SetPatternTriggerMode(triggerType) &&
            calls[5] == Call.SetExposureFramePeriod(period, period) &&
            calls[6] == Call.OpenMailbox(2) &&
            (forall i :: 0 <= i < 3 ==>
               calls[7 + 2 * i] == Call.MailboxSetAddress(i) &&
               calls[8 + 2 * i] == Call.SendPatternLut(if i == 0 then 1 else 3, BitMap(bitDepth)[i], bitDepth,
                                                       ledColor, false, false, false, false)) &&
            calls[13] == Call.OpenMailbox(0) &&
            calls[14] == Call.StartPatternLutValidate &&
            calls[15] == Call.PatternDisplay(Name("start")) &&
            calls[16] == Call.PatternDisplay(Name("start"))
  {
    var setup := SetupCalls(inputMode, inputType, numPats, triggerType, period);
    var lut := LutCalls(bitDepth, ledColor, 3);
    var calls := PatternModeCalls(inputMode, inputType, numPats, triggerType, period, bitDepth, ledColor);
    assert calls == (setup + lut) + FinishCalls;
    SetupAt(inputMode, inputType, numPats, triggerType, period);
    FinishAt();
    LutLength(bitDepth, ledColor, 3);
    forall i | 0 <= i < 7 ensures calls[i] == setup[i] {
      ConcatAt(setup, lut, FinishCalls, i);
    }
    forall i | 13 <= i < 17 ensures calls[i] == FinishCalls[i - 13] {
      ConcatAt(setup, lut, FinishCalls, i);
    }
    forall i | 0 <= i < 3
      ensures calls[7 + 2 * i] == Call.MailboxSetAddress(i)
      ensures calls[8 + 2 * i] == Call.SendPatternLut(if i == 0 then 1 else 3, BitMap(bitDepth)[i], bitDepth,
                                                      ledColor, false, false, false, false)
    {
      LutCallsAt(bitDepth, ledColor, 3, i);
      ConcatAt(setup, lut, FinishCalls, 7 + 2 * i);
      ConcatAt(setup, lut, FinishCalls, 8 + 2 * i);
    }
  }

  /** `pattern_mode` writes exactly three LUT entries, at call positions 8, 10
      and 12, whatever LUT entry count it passes to the configuration. */
  lemma {:induction false} ThreeLutEntries(inputMode: Arg, inputType: Arg, numPats: int, triggerType: Arg,
                                           period: nat, bitDepth: int, ledColor: nat)
    requires ValidBitDepth(bitDepth)
    ensures var calls := PatternModeCalls(inputMode, inputType, numPats, triggerType, period, bitDepth, ledColor);
            forall i :: 0 <= i < |calls| ==> (calls[i].SendPatternLut? <==> i == 8 || i == 10 || i == 12)
  {
    var setup := SetupCalls(inputMode, inputType, numPats, triggerType, period);
    var lut := LutCalls(bitDepth, ledColor, 3);
    var calls := PatternModeCalls(inputMode, inputType, numPats, triggerType, period, bitDepth, ledColor);
    assert calls == (setup + lut) + FinishCalls;
    SetupAt(inputMode, inputType, numPats, triggerType, period);
    FinishAt();
    LutLength(bitDepth, ledColor, 3);
    forall i | 0 <= i < |calls| ensures calls[i].SendPatternLut? <==> i == 8 || i == 10 || i == 12 {
      ConcatAt(setup, lut, FinishCalls, i);
      if 7 <= i < 13 {
        var k := (i - 7) / 2;
        LutCallsAt(bitDepth, ledColor, 3, k);
        assert i == 7 + 2 * k || i == 8 + 2 * k;
      }
    }
  }

  // ---------------------------------------------------------------------------
  // Payload sizes

  /** The numeric arguments fit the bit fields the library packs them into. */
  predicate InRange(c: Call)
  {
    match c
    case SetExposureFramePeriod(e, f) => e < 0x1_0000_0000 && f < 0x1_0000_0000
    case SetPatternConfig(n, _, p, k) => -62 <= n <= 128 && -62 <= p <= 256 && 0 <= k < 64
    case MailboxSetAddress(a) => a < 256
    case OpenMailbox(m) => m < 256
    case SendPatternLut(t, p, d, l, _, _, _, _) => t < 4 && p < 64 && d < 16 && l < 16
    case _ => true
  }

  /** A call whose arguments fit sends at most 8 payload bytes, so its command
      fits in one packet. */
  lemma InRangeShort(c: Call)
    requires InRange(c)
    ensures Encode(c).Some? ==> |Encode(c).value.data| <= 8
    ensures Sendable(c)
  {
    match c
    case SetExposureFramePeriod(e, f) =>
      Pow2ThirtyTwo();
      LittleEndianForm(e, 4);
      LittleEndianForm(f, 4);
    case SetPatternConfig(n, r, p, k) =>
      PatternConfigCounts(n, r, p, k);
    case _ =>
  }

  predicate AllInRange(calls: seq<Call>)
  {
    forall i :: 0 <= i < |calls| ==> InRange(calls[i])
  }

  lemma InRangeParts(a: seq<Call>, b: seq<Call>, c: seq<Call>)
    requires AllInRange(a) && AllInRange(b) && AllInRange(c)
    ensures AllInRange((a + b) + c)
  {
    forall i | 0 <= i < |(a + b) + c| ensures InRange(((a + b) + c)[i]) {
      ConcatAt(a, b, c, i);
    }
  }

  lemma {:induction false} LutInRange(bitDepth: int, ledColor: nat)
    requires ValidBitDepth(bitDepth) && ledColor < 16
    ensures AllInRange(LutCalls(bitDepth, ledColor, 3))
  {
    var lut := LutCalls(bitDepth, ledColor, 3);
    LutLength(bitDepth, ledColor, 3);
    forall i | 0 <= i < 6 ensures InRange(lut[i]) {
      var k := i / 2;
      LutCallsAt(bitDepth, ledColor, 3, k);
      assert i == 2 * k || i == 2 * k + 1;
    }
  }

  /** With at most 128 patterns, a 32-bit period and a 4-bit LED selection,
      every argument `pattern_mode` passes fits its field. */
  lemma PatternModeInRange(inputMode: Arg, inputType: Arg, numPats: int, triggerType: Arg,
                           period: nat, bitDepth: int, ledColor: nat)
    requires ValidBitDepth(bitDepth) && -62 <= numPats <= 128 && period < 0x1_0000_0000 && ledColor < 16
    ensures AllInRange(PatternModeCalls(inputMode, inputType, numPats, triggerType, period, bitDepth, ledColor))
  {
    var setup := SetupCalls(inputMode, inputType, numPats, triggerType, period);
    SetupAt(inputMode, inputType, numPats, triggerType, period);
    assert AllInRange(setup) by {
      forall i | 0 <= i < 7 ensures InRange(setup[i]) {}
    }
    FinishAt();
    assert AllInRange(FinishCalls) by {
      forall i | 0 <= i < 4 ensures InRange(FinishCalls[i]) {}
    }
    LutInRange(bitDepth, ledColor);
    InRangeParts(setup, LutCalls(bitDepth, ledColor, 3), FinishCalls);
  }

  /** Under those bounds `pattern_mode` is sendable, and every command it
      sends goes out as exactly one packet. */
  lemma PatternModeSinglePackets(inputMode: Arg, inputType: Arg, numPats: int, triggerType: Arg,
                                 period: nat, bitDepth: int, ledColor: nat)
    requires ValidBitDepth(bitDepth) && -62 <= numPats <= 128 && period < 0x1_0000_0000 && ledColor < 16
    ensures var calls := PatternModeCalls(inputMode, inputType, numPats, triggerType, period, bitDepth, ledColor);
            AllSendable(calls) &&
            var fs := Emitted(calls);
            |Transmit(fs)| == |fs| &&
            forall i :: 0 <= i < |fs| ==> Transmit(fs)[i] == Packets(fs[i])[0]
  {
    var calls := PatternModeCalls(inputMode, inputType, numPats, triggerType, period, bitDepth, ledColor);
    PatternModeInRange(inputMode, inputType, numPats, triggerType, period, bitDepth, ledColor);
    forall i | 0 <= i < |calls| ensures Sendable(calls[i]) {
      InRangeShort(calls[i]);
    }
    var fs := Emitted(calls);
    EmittedPrefix(calls);
    forall i | 0 <= i < |fs| ensures |fs[i].data| <= FirstPayload {
      InRangeShort(calls[i]);
    }
    TransmitSingle(fs);
  }

  // ---------------------------------------------------------------------------
  // The commands of the calls the helpers make

  /** A write under selector 0x1A/com2. */
  function WriteFrame(com2: int, data: seq<int>): Frame
  {
    Frame(Write, 0x00, 0x1A, com2, data)
  }

  lemma EncodeDisplay(a: Arg, i: int)
    requires ModeIndex(DisplayActions, a) == Some(i) && 0 <= i < 256
    ensures Encode(Call.PatternDisplay(a)) == Some(WriteFrame(0x24, [i]))
  {
  }

  lemma EncodeDisplayMode(a: Arg, i: int)
    requires ModeIndex(DisplayModes, a) == Some(i) && 0 <= i < 256
    ensures Encode(Call.SetDisplayMode(a)) == Some(WriteFrame(0x1B, [i]))
  {
  }

  lemma EncodeInputSource(a: Arg, i: int)
    requires ModeIndex(InputSources, a) == Some(i) && 0 <= i < 256
    ensures Encode(Call.SetPatternInputSource(a)) == Some(WriteFrame(0x22, [i]))
  {
  }

  lemma EncodeTriggerMode(a: Arg, i: int)
    requires ModeIndex(TriggerModes, a) == Some(i) && 0 <= i < 256
    ensures Encode(Call.SetPatternTriggerMode(a)) == Some(WriteFrame(0x23, [i]))
  {
  }

  /** The configuration command is sent exactly when both counts read back,
      and then carries the counts as the device receives them. */
  lemma EncodeConfig(n: int, r: bool, p: int, k: int)
    requires -62 <= n <= 128 && -62 <= p <= 256 && 0 <= k < 64
    ensures Encode(Call.SetPatternConfig(n, r, p, k)).Some? <==> CountReadable(n) && CountReadable(p)
    ensures Encode(Call.SetPatternConfig(n, r, p, k)).Some? ==>
              Encode(Call.SetPatternConfig(n, r, p, k)) == Some(WriteFrame(0x31, [CountField(n), Bit(r), CountField(p), k]))
  {
    PatternConfigCounts(n, r, p, k);
  }

  /** `pattern_mode(num_pats=-31)` configures 32 LUT entries and 32 patterns. */
  lemma NegativePatsConfig()
    ensures Encode(Call.SetPatternConfig(-31, true, -31, 0)) == Some(WriteFrame(0x31, [32, 1, 32, 0]))
  {
    EncodeConfig(-31, true, -31, 0);
  }

  lemma EncodeExposure(e: nat, f: nat)
    requires e < 0x1_0000_0000 && f < 0x1_0000_0000
    ensures Encode(Call.SetExposureFramePeriod(e, f)) == Some(WriteFrame(0x29, LittleEndian(e, 4) + LittleEndian(f, 4)))
  {
  }

  lemma EncodeMailbox(v: nat)
    requires v < 256
    ensures Encode(Call.MailboxSetAddress(v)) == Some(WriteFrame(0x32, [v]))
    ensures Encode(Call.OpenMailbox(v)) == Some(WriteFrame(0x33, [v]))
  {
  }

  lemma EncodeValidate()
    ensures Encode(Call.StartPatternLutValidate) == Some(WriteFrame(0x1A, [0]))
  {
  }

  lemma EncodeLut(t: nat, p: nat, d: nat, l: nat, bytes: seq<int>)
    requires t < 4 && p < 64 && d < 16 && l < 16
    requires bytes == [p * 4 + t, l * 16 + d, 0]
    ensures Encode(Call.SendPatternLut(t, p, d, l, false, false, false, false)) == Some(WriteFrame(0x34, bytes))
  {
  }

  lemma EncodePower(standby: bool)
    ensures Encode(Call.SetPowerMode(standby)) == Some(Frame(Write, 0x00, 0x02, 0x00, [Bit(standby)]))
  {
  }

  /** One more call that encodes, after a run that all encode. */
  lemma EmittedSnoc(done: seq<Call>, c: Call, fs: seq<Frame>, f: Frame)
    requires AllEncode(done) && Emitted(done) == fs && Encode(c) == Some(f)
    ensures AllEncode(done + [c]) && Emitted(done + [c]) == fs + [f]
  {
    EmittedAppend(done, [c]);
    EmittedOne(c);
  }

  // ---------------------------------------------------------------------------
  // The commands of the defaults

  const DefaultSetupFrames: seq<Frame> :=
    [WriteFrame(0x24, [0])] + [WriteFrame(0x1B, [1])] + [WriteFrame(0x22, [0])] + [WriteFrame(0x31, [2, 1, 2, 0])] +
    [WriteFrame(0x23, [0])] + [WriteFrame(0x29, [0x98, 0x11, 0, 0, 0x98, 0x11, 0, 0])] + [WriteFrame(0x33, [2])]

  const DefaultLutFrames: seq<Frame> :=
    [WriteFrame(0x32, [0])] + [WriteFrame(0x34, [0x01, 0x77, 0x00])] +
    [WriteFrame(0x32, [1])] + [WriteFrame(0x34, [0x07, 0x77, 0x00])] +
    [WriteFrame(0x32, [2])] + [WriteFrame(0x34, [0x0B, 0x77, 0x00])]

  const FinishFrames: seq<Frame> :=
    [WriteFrame(0x33, [0])] + [WriteFrame(0x1A, [0])] + [WriteFrame(0x24, [2])] + [WriteFrame(0x24, [2])]

  /** The period of 4504 microseconds as two 32-bit little-endian fields. */
  lemma DefaultExposure()
    ensures LittleEndian(4504, 4) + LittleEndian(4504, 4) == [0x98, 0x11, 0, 0, 0x98, 0x11, 0, 0]
  {
    assert LittleEndian(4504, 4) == [0x98, 0x11, 0, 0];
  }

  lemma DefaultSetup()
    ensures Emitted(SetupCalls(Name("pattern"), Name("video"), 3, Name("vsync"), 4504)) == DefaultSetupFrames
    ensures AllEncode(SetupCalls(Name("pattern"), Name("video"), 3, Name("vsync"), 4504))
  {
    var c0, c1, c2 := Call.PatternDisplay(Name("stop")), Call.SetDisplayMode(Name("pattern")), Call.SetPatternInputSource(Name("video"));
    var c3, c4 := Call.SetPatternConfig(3, true, 3, 0), Call.SetPatternTriggerMode(Name("vsync"));
    var c5, c6 := Call.SetExposureFramePeriod(4504, 4504), Call.OpenMailbox(2);
    ModeNames();
    EncodeDisplay(Name("stop"), 0);
    EncodeDisplayMode(Name("pattern"), 1);
    EncodeInputSource(Name("video"), 0);
    EncodeConfig(3, true, 3, 0);
    EncodeTriggerMode(Name("vsync"), 0);
    EncodeExposure(4504, 4504);
    DefaultExposure();
    EncodeMailbox(2);
    EmittedOne(c0);
    EmittedSnoc([c0], c1, [WriteFrame(0x24, [0])], WriteFrame(0x1B, [1]));
    EmittedSnoc([c0] + [c1], c2, [WriteFrame(0x24, [0])] + [WriteFrame(0x1B, [1])], WriteFrame(0x22, [0]));
    var f3 := [WriteFrame(0x24, [0])] + [WriteFrame(0x1B, [1])] + [WriteFrame(0x22, [0])];
    EmittedSnoc([c0] + [c1] + [c2], c3, f3, WriteFrame(0x31, [2, 1, 2, 0]));
    var f4 := f3 + [WriteFrame(0x31, [2, 1, 2, 0])];
    EmittedSnoc([c0] + [c1] + [c2] + [c3], c4, f4, WriteFrame(0x23, [0]));
    var f5 := f4 + [WriteFrame(0x23, [0])];
    EmittedSnoc([c0] + [c1] + [c2] + [c3] + [c4], c5, f5, WriteFrame(0x29, [0x98, 0x11, 0, 0, 0x98, 0x11, 0, 0]));
    var f6 := f5 + [WriteFrame(0x29, [0x98, 0x11, 0, 0, 0x98, 0x11, 0, 0])];
    EmittedSnoc([c0] + [c1] + [c2] + [c3] + [c4] + [c5], c6, f6, WriteFrame(0x33, [2]));
  }

  lemma DefaultLut()
    ensures Emitted(LutCalls(7, 7, 3)) == DefaultLutFrames
    ensures AllEncode(LutCalls(7, 7, 3))
  {
    var a0, b0 := Call.MailboxSetAddress(0), Call.SendPatternLut(1, 0, 7, 7, false, false, false, false);
    var a1, b1 := Call.MailboxSetAddress(1), Call.SendPatternLut(3, 1, 7, 7, false, false, false, false);
    var a2, b2 := Call.MailboxSetAddress(2), Call.SendPatternLut(3, 2, 7, 7, false, false, false, false);
    var f1 := [WriteFrame(0x32, [0])];
    var f2 := f1 + [WriteFrame(0x34, [0x01, 0x77, 0x00])];
    var f3 := f2 + [WriteFrame(0x32, [1])];
    var f4 := f3 + [WriteFrame(0x34, [0x07, 0x77, 0x00])];
    var f5 := f4 + [WriteFrame(0x32, [2])];
    assert AllEncode([a0]) && Emitted([a0]) == f1 by {
      EncodeMailbox(0);
      EmittedOne(a0);
    }
    assert AllEncode([a0] + [b0]) && Emitted([a0] + [b0]) == f2 by {
      EncodeLut(1, 0, 7, 7, [0x01, 0x77, 0x00]);
      EmittedSnoc([a0], b0, f1, WriteFrame(0x34, [0x01, 0x77, 0x00]));
    }
    assert AllEncode([a0] + [b0] + [a1]) && Emitted([a0] + [b0] + [a1]) == f3 by {
      EncodeMailbox(1);
      EmittedSnoc([a0] + [b0], a1, f2, WriteFrame(0x32, [1]));
    }
    assert AllEncode([a0] + [b0] + [a1] + [b1]) && Emitted([a0] + [b0] + [a1] + [b1]) == f4 by {
      EncodeLut(3, 1, 7, 7, [0x07, 0x77, 0x00]);
      EmittedSnoc([a0] + [b0] + [a1], b1, f3, WriteFrame(0x34, [0x07, 0x77, 0x00]));
    }
    assert AllEncode([a0] + [b0] + [a1] + [b1] + [a2]) && Emitted([a0] + [b0] + [a1] + [b1] + [a2]) == f5 by {
      EncodeMailbox(2);
      EmittedSnoc([a0] + [b0] + [a1] + [b1], a2, f4, WriteFrame(0x32, [2]));
    }
    assert AllEncode([a0] + [b0] + [a1] + [b1] + [a2] + [b2]) &&
           Emitted([a0] + [b0] + [a1] + [b1] + [a2] + [b2]) == DefaultLutFrames by {
      EncodeLut(3, 2, 7, 7, [0x0B, 0x77, 0x00]);
      EmittedSnoc([a0] + [b0] + [a1] + [b1] + [a2], b2, f5, WriteFrame(0x34, [0x0B, 0x77, 0x00]));
    }
    assert LutCalls(7, 7, 3) == [a0] + [b0] + [a1] + [b1] + [a2] + [b2];
  }

  lemma FinishTrace()
    ensures Emitted(FinishCalls) == FinishFrames
  {
    var c0, c1, c2 := Call.OpenMailbox(0), Call.StartPatternLutValidate, Call.PatternDisplay(Name("start"));
    ModeNames();
    EncodeMailbox(0);
    EncodeValidate();
    EncodeDisplay(Name("start"), 2);
    EmittedOne(c0);
    EmittedSnoc([c0], c1, [WriteFrame(0x33, [0])], WriteFrame(0x1A, [0]));
    var f2 := [WriteFrame(0x33, [0])] + [WriteFrame(0x1A, [0])];
    EmittedSnoc([c0] + [c1], c2, f2, WriteFrame(0x24, [2]));
    EmittedSnoc([c0] + [c1] + [c2], c2, f2 + [WriteFrame(0x24, [2])], WriteFrame(0x24, [2]));
  }

  /** `pattern_mode()` with its defaults (pattern input mode, video input,
      3 patterns, vsync trigger, the period of 222 frames per second, bit
      depth 7, all three LEDs) sends these 17 commands, whether the period
      is given or computed from `fps=222`. */
  lemma DefaultPatternMode(period: nat)
    ensures var frames := DefaultSetupFrames + DefaultLutFrames + FinishFrames;
            PatternModeTrace(Name("pattern"), Name("video"), 3, Name("vsync"), FpsToPeriod(222), None, 7, 7) == frames &&
            PatternModeTrace(Name("pattern"), Name("video"), 3, Name("vsync"), period, Some(222), 7, 7) == frames
  {
    DefaultPeriod();
    var setup := SetupCalls(Name("pattern"), Name("video"), 3, Name("vsync"), 4504);
    var lut := LutCalls(7, 7, 3);
    DefaultSetup();
    DefaultLut();
    FinishTrace();
    EmittedAppend(setup, lut);
    EmittedAppend(setup + lut, FinishCalls);
  }

  // ---------------------------------------------------------------------------
  // The short helpers

  /** `video_mode` stops the sequence, then selects video mode 0. */
  lemma VideoModeTrace()
    ensures Emitted(VideoModeCalls) == [WriteFrame(0x24, [0])] + [WriteFrame(0x1B, [0])]
  {
    var c0, c1 := Call.PatternDisplay(Name("stop")), Call.SetDisplayMode(Name("video"));
    ModeNames();
    EncodeDisplay(Name("stop"), 0);
    EncodeDisplayMode(Name("video"), 0);
    EmittedOne(c0);
    EmittedSnoc([c0], c1, [WriteFrame(0x24, [0])], WriteFrame(0x1B, [0]));
  }

  /** `power_down` stops the sequence, then selects standby (power mode 1). */
  lemma PowerDownTrace()
    ensures Emitted(PowerDownCalls) == [WriteFrame(0x24, [0])] + [Frame(Write, 0x00, 0x02, 0x00, [1])]
  {
    var c0, c1 := Call.PatternDisplay(Name("stop")), Call.SetPowerMode(true);
    ModeNames();
    EncodeDisplay(Name("stop"), 0);
    EncodePower(true);
    EmittedOne(c0);
    EmittedSnoc([c0], c1, [WriteFrame(0x24, [0])], Frame(Write, 0x00, 0x02, 0x00, [1]));
  }

  /** `power_up` selects normal operation (power mode 0). */
  lemma PowerUpTrace()
    ensures Emitted(PowerUpCalls) == [Frame(Write, 0x00, 0x02, 0x00, [0])]
  {
    EncodePower(false);
    EmittedOne(Call.SetPowerMode(false));
  }

  /** `set_gamma` writes the gamma flag as bit 7, then reads the main status. */
  lemma SetGammaTrace(value: bool)
    ensures Emitted(SetGammaCalls(value)) ==
            [WriteFrame(0x0E, [if value then 0x80 else 0x00])] + [Frame(Read, 0x00, 0x1A, 0x0C, [])]
  {
    var c0, c1 := Call.SetGammaCorrection(value), Call.GetMainStatus;
    EmittedOne(c0);
    EmittedSnoc([c0], c1, [WriteFrame(0x0E, [if value then 0x80 else 0x00])], Frame(Read, 0x00, 0x1A, 0x0C, []));
  }

  // ---------------------------------------------------------------------------
  // The older module

  /** The operations the older controller class also has: all but the status
      query, DMD park, buffer freeze and gamma correction. */
  predicate InLegacyCatalog(c: Call)
  {
    !(c.GetMainStatus? || c.SetDmdPark? || c.SetBufferFreeze? || c.SetGammaCorrection?)
  }

  predicate AllLegacy(calls: seq<Call>)
  {
    forall i :: 0 <= i < |calls| ==> InLegacyCatalog(calls[i])
  }

  lemma {:induction false} LutLegacy(bitDepth: int, ledColor: nat)
    requires ValidBitDepth(bitDepth)
    ensures AllLegacy(LutCalls(bitDepth, ledColor, 3))
  {
    var lut := LutCalls(bitDepth, ledColor, 3);
    LutLength(bitDepth, ledColor, 3);
    forall i | 0 <= i < 6 ensures InLegacyCatalog(lut[i]) {
      var k := i / 2;
      LutCallsAt(bitDepth, ledColor, 3, k);
      assert i == 2 * k || i == 2 * k + 1;
    }
  }

  /** The four helpers the older module shares use only the operations its
      controller class has, so one model of their traces covers both. */
  lemma LegacyHelpers(inputMode: Arg, inputType: Arg, numPats: int, triggerType: Arg,
                      period: nat, bitDepth: int, ledColor: nat)
    requires ValidBitDepth(bitDepth)
    ensures AllLegacy(PatternModeCalls(inputMode, inputType, numPats, triggerType, period, bitDepth, ledColor))
    ensures AllLegacy(VideoModeCalls) && AllLegacy(PowerDownCalls) && AllLegacy(PowerUpCalls)
  {
    var setup := SetupCalls(inputMode, inputType, numPats, triggerType, period);
    var lut := LutCalls(bitDepth, ledColor, 3);
    var calls := (setup + lut) + FinishCalls;
    SetupAt(inputMode, inputType, numPats, triggerType, period);
    FinishAt();
    LutLegacy(bitDepth, ledColor);
    forall i | 0 <= i < |calls| ensures InLegacyCatalog(calls[i]) {
      ConcatAt(setup, lut, FinishCalls, i);
    }
    assert VideoModeCalls[1] == Call.SetDisplayMode(Name("video"));
    assert PowerDownCalls[1] == Call.SetPowerMode(true);
  }
}
