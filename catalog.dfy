/** The command catalog of the DLPC350: each operation of the controller class
    packs its typed arguments into a payload with the bit-string codec and
    names a fixed selector pair. Here each operation is a `Call` value and
    `Encode` gives the command it sends, or `None` when the library raises
    before anything reaches the device. */
module Catalog {
  import opened Options
  import opened BitCodec
  import opened Wire
  import opened BitText

  // ---------------------------------------------------------------------------
  // Mode names

  /** An argument that may be given by name or directly as its number. */
  datatype Arg = Name(name: string) | Number(value: int)

  const DisplayModes: seq<string> := ["video", "pattern"]
  const InputSources: seq<string> := ["video", "", "", "flash"]
  const TriggerModes: seq<string> := ["vsync"]
  const DisplayActions: seq<string> := ["stop", "pause", "start"]

  /** `names.index(s)`: the position of the first occurrence of s. */
  function IndexOf(names: seq<string>, s: string): (r: nat)
    requires s in names
    ensures r < |names| && names[r] == s
    ensures forall j :: 0 <= j < r ==> names[j] != s
  {
    if names[0] == s then 0 else 1 + IndexOf(names[1..], s)
  }

  /** `if mode in modes: mode = modes.index(mode)`: a listed name becomes its
      first index, a number passes through unchanged; an unlisted name has no
      number, and the write that would carry it fails. */
  function ModeIndex(names: seq<string>, arg: Arg): (r: Option<int>)
    ensures arg.Number? ==> r == Some(arg.value)
    ensures arg.Name? ==> (r.Some? <==> arg.name in names)
    ensures arg.Name? && r.Some? ==>
              0 <= r.value < |names| && names[r.value] == arg.name &&
              forall j :: 0 <= j < r.value ==> names[j] != arg.name
  {
    match arg
    case Number(v) => Some(v)
    case Name(s) => if s in names then Some(IndexOf(names, s)) else None
  }

  /** The fixed name tables. */
  lemma ModeNames()
    ensures ModeIndex(DisplayModes, Name("video")) == Some(0)
    ensures ModeIndex(DisplayModes, Name("pattern")) == Some(1)
    ensures ModeIndex(InputSources, Name("video")) == Some(0)
    ensures ModeIndex(InputSources, Name("")) == Some(1)
    ensures ModeIndex(InputSources, Name("flash")) == Some(3)
    ensures ModeIndex(TriggerModes, Name("vsync")) == Some(0)
    ensures ModeIndex(DisplayActions, Name("stop")) == Some(0)
    ensures ModeIndex(DisplayActions, Name("pause")) == Some(1)
    ensures ModeIndex(DisplayActions, Name("start")) == Some(2)
  {
    assert DisplayModes[0] == "video" && DisplayModes[1] == "pattern";
    assert InputSources[0] == "video" && InputSources[1] == "" && InputSources[3] == "flash";
    assert InputSources[2] == "" && "flash" != "" && "flash" != "video";
    assert TriggerModes[0] == "vsync";
    assert DisplayActions[0] == "stop" && DisplayActions[1] == "pause" && DisplayActions[2] == "start";
  }

  // ---------------------------------------------------------------------------
  // Small facts about the codec used by the payload builders

  lemma SmallPowers()
    ensures Pow2(1) == 2 && Pow2(2) == 4 && Pow2(3) == 8 && Pow2(4) == 16
    ensures Pow2(6) == 64 && Pow2(7) == 128 && Pow2(8) == 256
  {
    assert Pow2(1) == 2;
    assert Pow2(2) == 4;
    assert Pow2(3) == 8;
    assert Pow2(4) == 16;
    assert Pow2(5) == 32;
    assert Pow2(6) == 64;
    assert Pow2(7) == 128;
    assert Pow2(8) == 256;
  }

  lemma Pow2ThirtyTwo()
    ensures Pow2(32) == 0x1_0000_0000
  {
    Pow2Eight();
    Pow2Add(8, 8);
    Pow2Add(16, 16);
  }

  /** A value below 2^l renders as exactly l digits. */
  lemma ConvLenExact(a: nat, l: nat)
    requires l >= 1 && a < Pow2(l)
    ensures |ConvLen(a, l)| == l && Value(ConvLen(a, l)) == a
  {
    ConvLenLength(a, l);
    ConvLenValue(a, l);
  }

  /** Two adjacent fields, each within its width, read as one number. */
  lemma FieldPair(hi: nat, hw: nat, lo: nat, lw: nat)
    requires hw >= 1 && lw >= 1 && hi < Pow2(hw) && lo < Pow2(lw)
    ensures |ConvLen(hi, hw) + ConvLen(lo, lw)| == hw + lw
    ensures Value(ConvLen(hi, hw) + ConvLen(lo, lw)) == hi * Pow2(lw) + lo
  {
    ConvLenExact(hi, hw);
    ConvLenExact(lo, lw);
    ValueAppend(ConvLen(hi, hw), ConvLen(lo, lw));
  }

  // ---------------------------------------------------------------------------
  // Payload builders

  /** `bits_to_bytes(conv_len(v, 8))`, the payload of `mailbox_set_address`,
      `open_mailbox` and (with v = 0) `start_pattern_lut_validate`: one byte
      when v fits in 8 bits, and in every case bytes whose little-endian
      reading is v. */
  function ByteFieldPayload(v: nat): (r: seq<nat>)
    ensures AreBytes(r) && LittleEndianValue(r) == v
    ensures |r| == 1 <==> v < 256
    ensures v < 256 ==> r == [v]
  {
    var bits := ConvLen(v, 8);
    ToBytesShape(bits, true);
    ToBytesValue(bits);
    ConvLenValue(v, 8);
    ConvLenLength(v, 8);
    Pow2Eight();
    if v < 256 then
      ConvLenLittleEndian(v, 1);
      assert LittleEndian(v, 1) == [v % 256] + LittleEndian(v / 256, 0);
      ToBytes(bits, true)
    else
      ToBytes(bits, true)
  }

  /** The payload of `set_gamma_correction`: the single byte 0x80 to apply
      gamma correction, 0x00 not to. */
  function GammaPayload(apply: bool): (r: seq<nat>)
    ensures r == [if apply then 0x80 else 0x00]
  {
    var bits := if apply then [true] + Zeros(7) else Zeros(8);
    ToBytesOne(bits);
    ValueZeros(8);
    if apply then
      ValueAppend([true], Zeros(7));
      ValueZeros(7);
      assert Value([true]) == 2 * Value([]) + 1;
      SmallPowers();
      ToBytes(bits, true)
    else
      ToBytes(bits, true)
  }

  /** The payload of `set_exposure_frame_period`: the frame period's 32
      digits followed by the exposure's, turned into bytes and reversed, so the
      exposure comes first, as 4 little-endian bytes, and the frame period
      follows as 4 more. */
  function ExposureFramePeriodPayload(exposure: nat, frame: nat): (r: seq<nat>)
    ensures AreBytes(r)
    ensures exposure < 0x1_0000_0000 && frame < 0x1_0000_0000 ==>
              r == LittleEndian(exposure, 4) + LittleEndian(frame, 4)
    ensures exposure < 0x1_0000_0000 ==> LittleEndianValue(r) == exposure + frame * 0x1_0000_0000
  {
    var e, f := ConvLen(exposure, 32), ConvLen(frame, 32);
    ToBytesShape(f + e, true);
    ToBytesValue(f + e);
    ValueAppend(f, e);
    ConvLenValue(exposure, 32);
    ConvLenValue(frame, 32);
    ConvLenLength(exposure, 32);
    ConvLenLength(frame, 32);
    Pow2ThirtyTwo();
    if exposure < 0x1_0000_0000 && frame < 0x1_0000_0000 then
      ToBytesConcat(f, e);
      ConvLenLittleEndian(exposure, 4);
      ConvLenLittleEndian(frame, 4);
      ToBytes(f + e, true)
    else
      ToBytes(f + e, true)
  }

  /** The string `set_pattern_config` builds: image count, patterns for
      TRIG_OUT_2 minus one, repeat flag, LUT entries minus one, each meant to
      fill 8 characters. */
  function PatternConfigText(numLutEntries: int, doRepeat: bool, numPatsForTrigOut2: int, numImages: int): string
  {
    var entries := "0" + ConvLenText(numLutEntries - 1, 7);
    var repeat := "0000000" + (if doRepeat then "1" else "0");
    var pats := ConvLenText(numPatsForTrigOut2 - 1, 8);
    var images := "00" + ConvLenText(numImages, 6);
    images + pats + repeat + entries
  }

  /** The payload of `set_pattern_config`, or None where `int(_, 2)` raises. */
  function PatternConfigPayload(numLutEntries: int, doRepeat: bool, numPatsForTrigOut2: int, numImages: int): Option<seq<nat>>
  {
    TextToBytes(PatternConfigText(numLutEntries, doRepeat, numPatsForTrigOut2, numImages), true)
  }

  /** The byte a count field of `set_pattern_config` carries: the count minus
      one, or, for a count from -62 to -31, whose "0b"-prefixed rendering
      `int(_, 2)` accepts, the magnitude of the count minus one. */
  function CountField(c: int): nat
  {
    if c >= 1 then c - 1 else 1 - c
  }

  /** A count field `int(_, 2)` reads (within the widths where each field
      keeps its 8 characters). */
  predicate CountReadable(c: int)
  {
    c >= 1 || c <= -31
  }

  /** A field of w digits, within its width, after z zero digits. */
  lemma PaddedField(z: nat, a: nat, w: nat)
    requires w >= 1 && a < Pow2(w)
    ensures |Zeros(z) + ConvLen(a, w)| == z + w && Value(Zeros(z) + ConvLen(a, w)) == a
  {
    ConvLenExact(a, w);
    ValuePadded(z, ConvLen(a, w));
  }

  lemma FlagByte(b: bool)
    ensures |Zeros(7) + [b]| == 8 && Value(Zeros(7) + [b]) == Bit(b)
  {
    ValuePadded(7, [b]);
    assert Value([b]) == 2 * Value([]) + Bit(b);
  }

  /** A digit field z zeros wide in front of `conv_len(a, w)`, within its width,
      holds 8 characters that read as a. */
  lemma DigitField(z: nat, a: nat, w: nat)
    requires w >= 1 && a < Pow2(w) && z + w == 8
    ensures |ZeroText(z) + ConvLenText(a, w)| == 8
    ensures IntBase2(ZeroText(z) + ConvLenText(a, w)) == Some(a)
  {
    PaddedField(z, a, w);
    ConvLenTextDigits(a, w);
    RenderZeros(z);
    RenderAppend(Zeros(z), ConvLen(a, w));
    DigitGroup(Zeros(z) + ConvLen(a, w));
  }

  /** A negative a above -64 has at most six digits, exactly six from -32 down. */
  lemma NegativeDigits(a: int)
    requires -64 < a <= -1
    ensures 1 <= |Binary(-a)| <= 6
    ensures |Binary(-a)| == 6 <==> a <= -32
  {
    SmallPowers();
    assert Pow2(5) == 32;
    BinaryFits(-a, 6);
    BinaryFits(-a, 5);
  }

  /** `conv_len(a, 8)` for a negative a of at most six digits: '0' padding, the
      'b' of "-0b", then the digits of -a. Padding `conv_len(a, 7)` with one
      '0' gives the same characters. */
  lemma NegativeText(a: int)
    requires -64 < a <= -1
    ensures "0" + ConvLenText(a, 7) == ConvLenText(a, 8)
    ensures |Binary(-a)| <= 6 && |ConvLenText(a, 8)| == 8
    ensures ConvLenText(a, 8) == ZeroText(7 - |Binary(-a)|) + ("b" + Render(Binary(-a)))
  {
    NegativeDigits(a);
    var l := |Binary(-a)|;
    var b := "b" + Render(Binary(-a));
    var z := ZeroText(7 - (l + 1));
    assert BinText(a) == b;
    assert ConvLenText(a, 7) == z + b;
    assert ZeroText(8 - (l + 1)) == "0" + z;
    assert ConvLenText(a, 8) == ("0" + z) + b;
    ConcatAssoc("0", z, b);
  }

  /** From -32 down, the 'b' is the second character, and `int(_, 2)` reads the
      digits after "0b". */
  lemma NegativeReads(a: int)
    requires -64 < a <= -32
    ensures IntBase2(ConvLenText(a, 8)) == Some(-a)
  {
    NegativeSixDigits(a);
    RenderedBinary(-a);
    NegativeGroup(ConvLenText(a, 8), 1, Render(Binary(-a)));
  }

  lemma NegativeSixDigits(a: int)
    requires -64 < a <= -32
    ensures ConvLenText(a, 8) == ZeroText(1) + ("b" + Render(Binary(-a)))
  {
    NegativeDigits(a);
    NegativeText(a);
  }

  /** Above -32, the 'b' comes later and `int(_, 2)` raises. */
  lemma NegativeRaises(a: int)
    requires -32 < a <= -1
    ensures IntBase2(ConvLenText(a, 8)) == None
  {
    NegativeText(a);
    NegativeDigits(a);
    var d := Binary(-a);
    RenderDigits(d);
    NegativeGroup(ConvLenText(a, 8), 7 - |d|, Render(d));
  }

  /** `conv_len(a, 8)` for a negative a of at most six digits is 8 characters
      holding a 'b', which `int(_, 2)` accepts only as the "0b" in front of six
      digits, then reading -a. */
  lemma NegativeField(a: int)
    requires -64 < a <= -1
    ensures "0" + ConvLenText(a, 7) == ConvLenText(a, 8)
    ensures |ConvLenText(a, 8)| == 8
    ensures IntBase2(ConvLenText(a, 8)) == if a <= -32 then Some(-a) else None
    ensures |"0" + ConvLenText(a, 7)| == 8
    ensures IntBase2("0" + ConvLenText(a, 7)) == if a <= -32 then Some(-a) else None
  {
    NegativeText(a);
    if a <= -32 {
      NegativeReads(a);
    } else {
      NegativeRaises(a);
    }
  }

  /** The LUT-entries field: the count minus one in 7 digits after a '0'. */
  lemma EntriesField(numLutEntries: int)
    requires -62 <= numLutEntries <= 128
    ensures |"0" + ConvLenText(numLutEntries - 1, 7)| == 8
    ensures IntBase2("0" + ConvLenText(numLutEntries - 1, 7)) ==
            if CountReadable(numLutEntries) then Some(CountField(numLutEntries)) else None
  {
    if numLutEntries >= 1 {
      EntriesDigits(numLutEntries);
    } else {
      EntriesNegative(numLutEntries);
    }
  }

  lemma EntriesDigits(numLutEntries: int)
    requires 1 <= numLutEntries <= 128
    ensures |"0" + ConvLenText(numLutEntries - 1, 7)| == 8
    ensures IntBase2("0" + ConvLenText(numLutEntries - 1, 7)) ==
            if CountReadable(numLutEntries) then Some(CountField(numLutEntries)) else None
  {
    assert |"0" + ConvLenText(numLutEntries - 1, 7)| == 8 &&
           IntBase2("0" + ConvLenText(numLutEntries - 1, 7)) == Some(numLutEntries - 1) by {
      SmallPowers();
      assert ZeroText(1) == "0";
      DigitField(1, numLutEntries - 1, 7);
    }
  }

  lemma EntriesNegative(numLutEntries: int)
    requires -62 <= numLutEntries <= 0
    ensures |"0" + ConvLenText(numLutEntries - 1, 7)| == 8
    ensures IntBase2("0" + ConvLenText(numLutEntries - 1, 7)) ==
            if CountReadable(numLutEntries) then Some(CountField(numLutEntries)) else None
  {
    var a := numLutEntries - 1;
    assert |"0" + ConvLenText(a, 7)| == 8 &&
           IntBase2("0" + ConvLenText(a, 7)) == (if a <= -32 then Some(-a) else None) by {
      NegativeField(a);
    }
  }

  /** The TRIG_OUT_2 field: the count minus one in 8 digits. */
  lemma PatsField(numPatsForTrigOut2: int)
    requires -62 <= numPatsForTrigOut2 <= 256
    ensures |ConvLenText(numPatsForTrigOut2 - 1, 8)| == 8
    ensures IntBase2(ConvLenText(numPatsForTrigOut2 - 1, 8)) ==
            if CountReadable(numPatsForTrigOut2) then Some(CountField(numPatsForTrigOut2)) else None
  {
    if numPatsForTrigOut2 >= 1 {
      PatsDigits(numPatsForTrigOut2);
    } else {
      PatsNegative(numPatsForTrigOut2);
    }
  }

  lemma PatsDigits(numPatsForTrigOut2: int)
    requires 1 <= numPatsForTrigOut2 <= 256
    ensures |ConvLenText(numPatsForTrigOut2 - 1, 8)| == 8
    ensures IntBase2(ConvLenText(numPatsForTrigOut2 - 1, 8)) ==
            if CountReadable(numPatsForTrigOut2) then Some(CountField(numPatsForTrigOut2)) else None
  {
    assert |ConvLenText(numPatsForTrigOut2 - 1, 8)| == 8 &&
           IntBase2(ConvLenText(numPatsForTrigOut2 - 1, 8)) == Some(numPatsForTrigOut2 - 1) by {
      Pow2Eight();
      assert ZeroText(0) + ConvLenText(numPatsForTrigOut2 - 1, 8) == ConvLenText(numPatsForTrigOut2 - 1, 8);
      DigitField(0, numPatsForTrigOut2 - 1, 8);
    }
  }

  lemma PatsNegative(numPatsForTrigOut2: int)
    requires -62 <= numPatsForTrigOut2 <= 0
    ensures |ConvLenText(numPatsForTrigOut2 - 1, 8)| == 8
    ensures IntBase2(ConvLenText(numPatsForTrigOut2 - 1, 8)) ==
            if CountReadable(numPatsForTrigOut2) then Some(CountField(numPatsForTrigOut2)) else None
  {
    var a := numPatsForTrigOut2 - 1;
    assert |ConvLenText(a, 8)| == 8 &&
           IntBase2(ConvLenText(a, 8)) == (if a <= -32 then Some(-a) else None) by {
      NegativeField(a);
    }
  }

  /** The repeat field: seven '0' and the flag. */
  lemma RepeatField(doRepeat: bool)
    ensures |"0000000" + (if doRepeat then "1" else "0")| == 8
    ensures IntBase2("0000000" + (if doRepeat then "1" else "0")) == Some(Bit(doRepeat))
  {
    FlagByte(doRepeat);
    assert Render(Zeros(7) + [doRepeat]) == "0000000" + (if doRepeat then "1" else "0") by {
      RenderAppend(Zeros(7), [doRepeat]);
      RenderZeros(7);
      assert ZeroText(7) == "0000000";
      assert Render([doRepeat]) == if doRepeat then "1" else "0";
    }
    DigitGroup(Zeros(7) + [doRepeat]);
  }

  /** The image-count field: the count in 6 digits after "00". */
  lemma ImagesField(numImages: int)
    requires 0 <= numImages < 64
    ensures |"00" + ConvLenText(numImages, 6)| == 8
    ensures IntBase2("00" + ConvLenText(numImages, 6)) == Some(numImages)
  {
    SmallPowers();
    assert ZeroText(2) == "00";
    DigitField(2, numImages, 6);
  }

  /** Within the field widths, `set_pattern_config` sends exactly when both
      counts are readable: LUT entries minus one in byte 0, the repeat flag in
      byte 1, patterns for TRIG_OUT_2 minus one in byte 2 and the image count in
      byte 3, where a count from -62 to -31 goes out as the magnitude of the
      count minus one. */
  lemma PatternConfigCounts(numLutEntries: int, doRepeat: bool, numPatsForTrigOut2: int, numImages: int)
    requires -62 <= numLutEntries <= 128 && -62 <= numPatsForTrigOut2 <= 256 && 0 <= numImages < 64
    ensures PatternConfigPayload(numLutEntries, doRepeat, numPatsForTrigOut2, numImages).Some? <==>
            CountReadable(numLutEntries) && CountReadable(numPatsForTrigOut2)
    ensures CountReadable(numLutEntries) && CountReadable(numPatsForTrigOut2) ==>
            PatternConfigPayload(numLutEntries, doRepeat, numPatsForTrigOut2, numImages).value ==
            [CountField(numLutEntries), Bit(doRepeat), CountField(numPatsForTrigOut2), numImages]
  {
    var entries := "0" + ConvLenText(numLutEntries - 1, 7);
    var repeat := "0000000" + (if doRepeat then "1" else "0");
    var pats := ConvLenText(numPatsForTrigOut2 - 1, 8);
    var images := "00" + ConvLenText(numImages, 6);
    EntriesField(numLutEntries);
    RepeatField(doRepeat);
    PatsField(numPatsForTrigOut2);
    ImagesField(numImages);
    assert images + pats + repeat + entries == PatternConfigText(numLutEntries, doRepeat, numPatsForTrigOut2, numImages);
    FourFields(images, pats, repeat, entries);
  }

  /** An entries count from -30 to 0 raises whatever the other arguments: its
      field is the last 8 characters and holds a 'b' that `int(_, 2)` rejects. */
  lemma EntriesRaise(numLutEntries: int, doRepeat: bool, numPatsForTrigOut2: int, numImages: int)
    requires -30 <= numLutEntries <= 0
    ensures PatternConfigPayload(numLutEntries, doRepeat, numPatsForTrigOut2, numImages) == None
  {
    var entries := "0" + ConvLenText(numLutEntries - 1, 7);
    var front := "00" + ConvLenText(numImages, 6) + ConvLenText(numPatsForTrigOut2 - 1, 8)
                 + ("0000000" + (if doRepeat then "1" else "0"));
    EntriesField(numLutEntries);
    PadAppend(front, entries, 1);
    var k := |PadText(front)| / 8;
    assert |PadText(front)| == 8 * k;
    GroupFails(PadText(front), entries, [], k);
    assert PadText(front) + entries + [] == PadText(front + entries);
    assert front + entries == PatternConfigText(numLutEntries, doRepeat, numPatsForTrigOut2, numImages);
  }

  /** The value of the four flag digits `trig_out_prev buf_swap insert_black invert`. */
  lemma FlagDigits(a: bool, b: bool, c: bool, d: bool)
    ensures Value(Zeros(4) + [a, b, c, d]) == Bit(a) * 8 + Bit(b) * 4 + Bit(c) * 2 + Bit(d)
    ensures |Zeros(4) + [a, b, c, d]| == 8
  {
    ValuePadded(4, [a, b, c, d]);
    assert Value([a]) == Bit(a) by { assert [a][..0] == []; }
    assert Value([a, b]) == 2 * Bit(a) + Bit(b) by { assert [a, b][..1] == [a]; }
    assert Value([a, b, c]) == 4 * Bit(a) + 2 * Bit(b) + Bit(c) by { assert [a, b, c][..2] == [a, b]; }
    assert Value([a, b, c, d]) == 8 * Bit(a) + 4 * Bit(b) + 2 * Bit(c) + Bit(d) by {
      assert [a, b, c, d][..3] == [a, b, c];
    }
  }

  /** Three 8-digit groups, most significant first, come out least significant
      first. */
  lemma ThreeBytes(z: Bits, y: Bits, x: Bits, vz: nat, vy: nat, vx: nat)
    requires |x| == 8 && |y| == 8 && |z| == 8
    requires ToBytes(x, true) == [vx] && ToBytes(y, true) == [vy] && ToBytes(z, true) == [vz]
    ensures ToBytes(z + y + x, true) == [vx, vy, vz]
  {
    var zy := z + y;
    assert ToBytes(zy, true) == [vy, vz] by { ToBytesConcat(z, y); }
    assert ToBytes(zy + x, true) == [vx] + [vy, vz] by { ToBytesConcat(zy, x); }
  }

  lemma ByteOf(g: Bits, v: nat)
    requires |g| == 8 && Value(g) == v
    ensures ToBytes(g, true) == [v]
  {
    ToBytesOne(g);
  }

  /** The digit string `send_pattern_lut` builds: flags, then LED selection and
      bit depth, then pattern number and trigger type. */
  function PatternLutBits(trigType: nat, patNum: nat, bitDepth: nat, ledSelect: nat,
                          doInvertPat: bool, doInsertBlack: bool, doBufSwap: bool, doTrigOutPrev: bool): Bits
  {
    var byte0 := ConvLen(patNum, 6) + ConvLen(trigType, 2);
    var byte1 := ConvLen(ledSelect, 4) + ConvLen(bitDepth, 4);
    var byte2 := Zeros(4) + [doTrigOutPrev, doBufSwap, doInsertBlack, doInvertPat];
    byte2 + byte1 + byte0
  }

  lemma LutFieldByte(hi: nat, hw: nat, lo: nat, lw: nat)
    requires hw >= 1 && lw >= 1 && hw + lw == 8 && hi < Pow2(hw) && lo < Pow2(lw)
    ensures |ConvLen(hi, hw) + ConvLen(lo, lw)| == 8
    ensures Value(ConvLen(hi, hw) + ConvLen(lo, lw)) == hi * Pow2(lw) + lo
  {
    FieldPair(hi, hw, lo, lw);
  }

  /** Byte 0 of a LUT entry: the pattern number above the 2-bit trigger type. */
  lemma LutPatternByte(patNum: nat, trigType: nat)
    requires patNum < 64 && trigType < 4
    ensures |ConvLen(patNum, 6) + ConvLen(trigType, 2)| == 8
    ensures ToBytes(ConvLen(patNum, 6) + ConvLen(trigType, 2), true) == [patNum * 4 + trigType]
  {
    SmallPowers();
    LutFieldByte(patNum, 6, trigType, 2);
    ByteOf(ConvLen(patNum, 6) + ConvLen(trigType, 2), patNum * 4 + trigType);
  }

  /** Byte 1 of a LUT entry: the LED selection above the 4-bit bit depth. */
  lemma LutColorByte(ledSelect: nat, bitDepth: nat)
    requires ledSelect < 16 && bitDepth < 16
    ensures |ConvLen(ledSelect, 4) + ConvLen(bitDepth, 4)| == 8
    ensures ToBytes(ConvLen(ledSelect, 4) + ConvLen(bitDepth, 4), true) == [ledSelect * 16 + bitDepth]
  {
    SmallPowers();
    LutFieldByte(ledSelect, 4, bitDepth, 4);
    ByteOf(ConvLen(ledSelect, 4) + ConvLen(bitDepth, 4), ledSelect * 16 + bitDepth);
  }

  /** Byte 2 of a LUT entry: the four flags in its low bits. */
  lemma LutFlagByte(a: bool, b: bool, c: bool, d: bool)
    ensures |Zeros(4) + [a, b, c, d]| == 8
    ensures ToBytes(Zeros(4) + [a, b, c, d], true) == [Bit(a) * 8 + Bit(b) * 4 + Bit(c) * 2 + Bit(d)]
  {
    FlagDigits(a, b, c, d);
    ByteOf(Zeros(4) + [a, b, c, d], Bit(a) * 8 + Bit(b) * 4 + Bit(c) * 2 + Bit(d));
  }

  lemma PatternLutLayout(trigType: nat, patNum: nat, bitDepth: nat, ledSelect: nat,
                         doInvertPat: bool, doInsertBlack: bool, doBufSwap: bool, doTrigOutPrev: bool)
    requires trigType < 4 && patNum < 64 && bitDepth < 16 && ledSelect < 16
    ensures ToBytes(PatternLutBits(trigType, patNum, bitDepth, ledSelect,
                                   doInvertPat, doInsertBlack, doBufSwap, doTrigOutPrev), true) ==
            [patNum * 4 + trigType, ledSelect * 16 + bitDepth,
             Bit(doTrigOutPrev) * 8 + Bit(doBufSwap) * 4 + Bit(doInsertBlack) * 2 + Bit(doInvertPat)]
  {
    var byte0 := ConvLen(patNum, 6) + ConvLen(trigType, 2);
    var byte1 := ConvLen(ledSelect, 4) + ConvLen(bitDepth, 4);
    var byte2 := Zeros(4) + [doTrigOutPrev, doBufSwap, doInsertBlack, doInvertPat];
    LutPatternByte(patNum, trigType);
    LutColorByte(ledSelect, bitDepth);
    LutFlagByte(doTrigOutPrev, doBufSwap, doInsertBlack, doInvertPat);
    ThreeBytes(byte2, byte1, byte0, Bit(doTrigOutPrev) * 8 + Bit(doBufSwap) * 4 + Bit(doInsertBlack) * 2 + Bit(doInvertPat),
               ledSelect * 16 + bitDepth, patNum * 4 + trigType);
  }

  /** The payload of `send_pattern_lut`: byte 0 holds the pattern number above
      the 2-bit trigger type, byte 1 the LED selection above the 4-bit bit
      depth, byte 2 the four flags. */
  function PatternLutPayload(trigType: nat, patNum: nat, bitDepth: nat, ledSelect: nat,
                             doInvertPat: bool, doInsertBlack: bool, doBufSwap: bool, doTrigOutPrev: bool): (r: seq<nat>)
    ensures AreBytes(r)
    ensures trigType < 4 && patNum < 64 && bitDepth < 16 && ledSelect < 16 ==>
              r == [patNum * 4 + trigType, ledSelect * 16 + bitDepth,
                    Bit(doTrigOutPrev) * 8 + Bit(doBufSwap) * 4 + Bit(doInsertBlack) * 2 + Bit(doInvertPat)]
  {
    var bits := PatternLutBits(trigType, patNum, bitDepth, ledSelect, doInvertPat, doInsertBlack, doBufSwap, doTrigOutPrev);
    ToBytesShape(bits, true);
    if trigType < 4 && patNum < 64 && bitDepth < 16 && ledSelect < 16 then
      PatternLutLayout(trigType, patNum, bitDepth, ledSelect, doInvertPat, doInsertBlack, doBufSwap, doTrigOutPrev);
      ToBytes(bits, true)
    else
      ToBytes(bits, true)
  }

  /** The example entry of the programmer's guide: trigger 1, pattern 0,
      depth 7, all three LEDs. */
  lemma PatternLutExample()
    ensures PatternLutPayload(1, 0, 7, 7, false, false, false, false) == [0x01, 0x77, 0x00]
  {
  }

  /** The defaults of `set_pattern_config`. */
  lemma PatternConfigDefaults()
    ensures PatternConfigPayload(3, true, 3, 0) == Some([2, 1, 2, 0])
  {
    PatternConfigCounts(3, true, 3, 0);
  }

  /** A LUT-entry count of -40: its field renders as "0b101001", which reads as
      41, so the call goes through. */
  lemma PatternConfigNegative()
    ensures PatternConfigPayload(-40, true, 3, 0) == Some([41, 1, 2, 0])
  {
    PatternConfigCounts(-40, true, 3, 0);
  }

  // ---------------------------------------------------------------------------
  // The calls and their commands

  datatype Call =
    | GetMainStatus
    | SetPowerMode(doStandby: bool)
    | StartPatternLutValidate
    | SetDmdPark(park: bool)
    | SetBufferFreeze(freeze: bool)
    | SetDisplayMode(mode: Arg)
    | SetPatternInputSource(source: Arg)
    | SetPatternTriggerMode(trigger: Arg)
    | SetGammaCorrection(applyGamma: bool)
    | PatternDisplay(action: Arg)
    | SetExposureFramePeriod(exposurePeriod: nat, framePeriod: nat)
    | SetPatternConfig(numLutEntries: int, doRepeat: bool, numPatsForTrigOut2: int, numImages: int)
    | MailboxSetAddress(address: nat)
    | OpenMailbox(mboxNum: nat)
    | SendPatternLut(trigType: nat, patNum: nat, bitDepth: nat, ledSelect: nat,
                     doInvertPat: bool, doInsertBlack: bool, doBufSwap: bool, doTrigOutPrev: bool)

  /** A write of the single byte a mode or action selects, under selector
      0x1A/com2. A byte list holding a value outside 0..255 cannot be turned
      into a USB buffer, so the write fails before anything is sent. */
  function Selected(index: Option<int>, com2: int): Option<Frame>
  {
    match index
    case None => None
    case Some(i) => if 0 <= i < 256 then Some(Frame(Write, 0x00, 0x1A, com2, [i])) else None
  }

  /** The command a call sends, or None when the library raises first. */
  function Encode(c: Call): Option<Frame>
  {
    match c
    case GetMainStatus => Some(Frame(Read, 0x00, 0x1A, 0x0C, []))
    case SetPowerMode(standby) => Some(Frame(Write, 0x00, 0x02, 0x00, [Bit(standby)]))
    case StartPatternLutValidate => Some(Frame(Write, 0x00, 0x1A, 0x1A, ByteFieldPayload(0)))
    case SetDmdPark(park) => Some(Frame(Write, 0x00, 0x06, 0x09, [Bit(park)]))
    case SetBufferFreeze(freeze) => Some(Frame(Write, 0x00, 0x10, 0x0A, [Bit(freeze)]))
    case SetDisplayMode(mode) => Selected(ModeIndex(DisplayModes, mode), 0x1B)
    case SetPatternInputSource(source) => Selected(ModeIndex(InputSources, source), 0x22)
    case SetPatternTriggerMode(trigger) => Selected(ModeIndex(TriggerModes, trigger), 0x23)
    case SetGammaCorrection(apply) => Some(Frame(Write, 0x00, 0x1A, 0x0E, GammaPayload(apply)))
    case PatternDisplay(action) => Selected(ModeIndex(DisplayActions, action), 0x24)
    case SetExposureFramePeriod(e, f) =>
      Some(Frame(Write, 0x00, 0x1A, 0x29, ExposureFramePeriodPayload(e, f)))
    case SetPatternConfig(n, r, p, k) =>
      var payload := PatternConfigPayload(n, r, p, k);
      if payload.Some? then Some(Frame(Write, 0x00, 0x1A, 0x31, payload.value)) else None
    case MailboxSetAddress(a) => Some(Frame(Write, 0x00, 0x1A, 0x32, ByteFieldPayload(a)))
    case OpenMailbox(m) => Some(Frame(Write, 0x00, 0x1A, 0x33, ByteFieldPayload(m)))
    case SendPatternLut(t, p, d, l, inv, black, swap, prev) =>
      Some(Frame(Write, 0x00, 0x1A, 0x34, PatternLutPayload(t, p, d, l, inv, black, swap, prev)))
  }

  /** The selector pair (com1, com2) of each operation. */
  function Selector(c: Call): (int, int)
  {
    match c
    case GetMainStatus => (0x1A, 0x0C)
    case SetPowerMode(_) => (0x02, 0x00)
    case StartPatternLutValidate => (0x1A, 0x1A)
    case SetDmdPark(_) => (0x06, 0x09)
    case SetBufferFreeze(_) => (0x10, 0x0A)
    case SetDisplayMode(_) => (0x1A, 0x1B)
    case SetPatternInputSource(_) => (0x1A, 0x22)
    case SetPatternTriggerMode(_) => (0x1A, 0x23)
    case SetGammaCorrection(_) => (0x1A, 0x0E)
    case PatternDisplay(_) => (0x1A, 0x24)
    case SetExposureFramePeriod(_, _) => (0x1A, 0x29)
    case SetPatternConfig(_, _, _, _) => (0x1A, 0x31)
    case MailboxSetAddress(_) => (0x1A, 0x32)
    case OpenMailbox(_) => (0x1A, 0x33)
    case SendPatternLut(_, _, _, _, _, _, _, _) => (0x1A, 0x34)
  }

  /** The operation a call is, numbered in declaration order. */
  function Kind(c: Call): nat
  {
    match c
    case GetMainStatus => 0
    case SetPowerMode(_) => 1
    case StartPatternLutValidate => 2
    case SetDmdPark(_) => 3
    case SetBufferFreeze(_) => 4
    case SetDisplayMode(_) => 5
    case SetPatternInputSource(_) => 6
    case SetPatternTriggerMode(_) => 7
    case SetGammaCorrection(_) => 8
    case PatternDisplay(_) => 9
    case SetExposureFramePeriod(_, _) => 10
    case SetPatternConfig(_, _, _, _) => 11
    case MailboxSetAddress(_) => 12
    case OpenMailbox(_) => 13
    case SendPatternLut(_, _, _, _, _, _, _, _) => 14
  }

  /** Every command has sequence byte 0 and its operation's selector pair; only
      the status query reads. The payloads of the fixed-layout commands are
      bytes. */
  lemma EncodeHeader(c: Call)
    requires Encode(c).Some?
    ensures var f := Encode(c).value;
            f.sequenceByte == 0 && (f.com1, f.com2) == Selector(c) &&
            (f.direction == Read <==> c.GetMainStatus?) &&
            AreBytes(f.data)
  {
    if c.SetPatternConfig? {
      TextToBytesAreBytes(PatternConfigText(c.numLutEntries, c.doRepeat, c.numPatsForTrigOut2, c.numImages), true);
    }
  }

  /** No two operations share a selector pair, so the controller tells every
      command apart by com1 and com2 alone. */
  lemma SelectorsDistinct(c: Call, d: Call)
    ensures Selector(c) == Selector(d) <==> Kind(c) == Kind(d)
  {
  }

  /** A call is sendable when the command it encodes, if any, has a payload
      short enough for the 16-bit length field. */
  predicate Sendable(c: Call)
  {
    Encode(c).Some? ==> Framable(Encode(c).value)
  }

  predicate AllSendable(calls: seq<Call>)
  {
    forall i :: 0 <= i < |calls| ==> Sendable(calls[i])
  }

  predicate AllEncode(calls: seq<Call>)
  {
    forall i :: 0 <= i < |calls| ==> Encode(calls[i]).Some?
  }

  /** The commands a sequence of calls sends: each call's command in turn, up to
      the first call that raises, which ends the sequence. */
  function Emitted(calls: seq<Call>): seq<Frame>
  {
    if calls == [] then []
    else
      match Encode(calls[0])
      case None => []
      case Some(f) => [f] + Emitted(calls[1..])
  }

  /** Emitted is the commands of the longest prefix of calls that all encode:
      it is as long as the calls exactly when all of them encode, and
      otherwise stops at a call that does not. */
  lemma {:induction false} EmittedPrefix(calls: seq<Call>)
    ensures |Emitted(calls)| <= |calls|
    ensures forall i :: 0 <= i < |Emitted(calls)| ==> Encode(calls[i]) == Some(Emitted(calls)[i])
    ensures |Emitted(calls)| == |calls| <==> AllEncode(calls)
    ensures |Emitted(calls)| < |calls| ==> Encode(calls[|Emitted(calls)|]).None?
  {
    if calls != [] {
      EmittedPrefix(calls[1..]);
      if Encode(calls[0]).Some? {
        var e := Emitted(calls);
        assert e == [Encode(calls[0]).value] + Emitted(calls[1..]);
        AllEncodeCons(calls);
        EmittedShift(calls, e);
      }
    }
  }

  /** The frames after the first are those of the remaining calls. */
  lemma EmittedShift(calls: seq<Call>, e: seq<Frame>)
    requires calls != [] && Encode(calls[0]).Some? && e == [Encode(calls[0]).value] + Emitted(calls[1..])
    requires |Emitted(calls[1..])| <= |calls[1..]|
    requires forall i :: 0 <= i < |Emitted(calls[1..])| ==> Encode(calls[1..][i]) == Some(Emitted(calls[1..])[i])
    ensures forall i :: 0 <= i < |e| ==> Encode(calls[i]) == Some(e[i])
  {
    forall i | 0 <= i < |e| ensures Encode(calls[i]) == Some(e[i]) {
      if i > 0 { assert calls[i] == calls[1..][i - 1]; }
    }
  }

  lemma AllEncodeCons(s: seq<Call>)
    requires s != []
    ensures AllEncode(s) <==> Encode(s[0]).Some? && AllEncode(s[1..])
  {
    if Encode(s[0]).Some? && AllEncode(s[1..]) {
      forall i | 0 <= i < |s| ensures Encode(s[i]).Some? {
        if i > 0 { assert s[i] == s[1..][i - 1]; }
      }
    }
    if AllEncode(s) {
      forall i | 0 <= i < |s[1..]| ensures Encode(s[1..][i]).Some? {
        assert s[1..][i] == s[i + 1];
      }
    }
  }

  /** Calls made one after another: the second part is only reached when every
      call of the first encodes. */
  lemma {:induction false} EmittedAppend(a: seq<Call>, b: seq<Call>)
    ensures Emitted(a + b) == if AllEncode(a) then Emitted(a) + Emitted(b) else Emitted(a)
    ensures AllEncode(a + b) <==> AllEncode(a) && AllEncode(b)
    decreases |a|
  {
    if a == [] {
      assert a + b == b;
    } else {
      assert (a + b)[0] == a[0];
      assert (a + b)[1..] == a[1..] + b;
      EmittedAppend(a[1..], b);
      AllEncodeCons(a);
      AllEncodeCons(a + b);
    }
  }

  lemma EmittedOne(c: Call)
    ensures Emitted([c]) == if Encode(c).Some? then [Encode(c).value] else []
    ensures AllEncode([c]) <==> Encode(c).Some?
  {
    assert [c][1..] == [];
  }

  // ---------------------------------------------------------------------------
  // The status reply

  /** The four status flags of `get_main_status`. */
  datatype MainStatus = MainStatus(parked: bool, sequencerRunning: bool, bufferFrozen: bool, gammaEnabled: bool)

  /** Digit -1 - i of `format(b, '08b')` is bit i of b. */
  lemma StatusDigit(b: nat, i: nat, p: nat)
    requires i < 8 && p == Pow2(i)
    ensures var s := ConvLen(b, 8); |s| >= 8 && s[|s| - 1 - i] == ((b / p) % 2 == 1)
  {
    ConvLenLength(b, 8);
    ConvLenDigit(b, 8, i);
  }

  /** Digits -1 to -4 of `format(b, '08b')`: bits 0 to 3 of status byte b. */
  function DecodeMainStatus(b: nat): (r: MainStatus)
    ensures r.parked == (b % 2 == 1)
    ensures r.sequencerRunning == ((b / 2) % 2 == 1)
    ensures r.bufferFrozen == ((b / 4) % 2 == 1)
    ensures r.gammaEnabled == ((b / 8) % 2 == 1)
  {
    var s := ConvLen(b, 8);
    SmallPowers();
    StatusDigit(b, 0, 1);
    StatusDigit(b, 1, 2);
    StatusDigit(b, 2, 4);
    StatusDigit(b, 3, 8);
    assert b / 1 == b;
    MainStatus(s[|s| - 1], s[|s| - 2], s[|s| - 3], s[|s| - 4])
  }
}
