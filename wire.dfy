/** The wire format of one DLPC350 command over USB: a 6-byte header
    (flags, sequence byte, 16-bit little-endian length, the two selector
    bytes) followed by the payload, carried in 64-byte packets. */
module Wire {
  import opened BitCodec

  /** `mode == 'r'` or any other mode, which the framer treats as a write. */
  datatype Direction = Read | Write

  /** One call of the framer: direction, sequence byte, the selector bytes
      `com1` and `com2`, and the payload. */
  datatype Frame = Frame(direction: Direction, sequenceByte: int, com1: int, com2: int, data: seq<int>)

  const PacketSize: nat := 64
  const HeaderSize: nat := 6
  /** Payload bytes carried by the first packet of a multi-packet command. */
  const FirstPayload: nat := 58

  /** Header byte 0: 0xC0 for a read, 0x40 otherwise. */
  function Flag(d: Direction): int
  {
    if d == Read then 0xC0 else 0x40
  }

  /** The length field `len(data) + 2` fits in its 16 bits. */
  predicate Framable(f: Frame)
  {
    |f.data| + 2 < 0x1_0000
  }

  /** The 6 header bytes, selector `com2` before `com1`. */
  function Header(f: Frame): seq<int>
  {
    var n := |f.data| + 2;
    [Flag(f.direction), f.sequenceByte, n % 256, (n / 256) % 256, f.com2, f.com1]
  }

  /** n zero bytes; none when n is not positive. */
  function ZeroBytes(n: int): (r: seq<int>)
    ensures |r| == Max(n, 0)
    ensures forall i :: 0 <= i < |r| ==> r[i] == 0
  {
    seq(Max(n, 0), _ => 0)
  }

  /** The packets after the first: the remaining payload in 64-byte slices,
      the last one zero-padded. */
  function Continuations(rest: seq<int>): seq<seq<int>>
    decreases |rest|
  {
    if rest == [] then []
    else if |rest| <= PacketSize then [rest + ZeroBytes(PacketSize - |rest|)]
    else [rest[..PacketSize]] + Continuations(rest[PacketSize..])
  }

  /** The packets the framer writes for f, in order. */
  function Packets(f: Frame): seq<seq<int>>
  {
    if HeaderSize + |f.data| < 65 then
      [Header(f) + f.data + ZeroBytes(PacketSize - HeaderSize - |f.data|)]
    else
      [Header(f) + f.data[..FirstPayload]] + Continuations(f.data[FirstPayload..])
  }

  function Flatten(ps: seq<seq<int>>): seq<int>
  {
    if ps == [] then [] else ps[0] + Flatten(ps[1..])
  }

  /** The packets written for a sequence of commands. */
  function Transmit(fs: seq<Frame>): seq<seq<int>>
  {
    if fs == [] then [] else Packets(fs[0]) + Transmit(fs[1..])
  }

  // ---------------------------------------------------------------------------
  // Properties of the continuation packets

  lemma {:induction false} ContinuationsShape(rest: seq<int>)
    ensures |Continuations(rest)| == (|rest| + PacketSize - 1) / PacketSize
    ensures forall i :: 0 <= i < |Continuations(rest)| ==> |Continuations(rest)[i]| == PacketSize
    ensures var padding := PacketSize * |Continuations(rest)| - |rest|;
            0 <= padding < PacketSize &&
            Flatten(Continuations(rest)) == rest + ZeroBytes(padding)
    decreases |rest|
  {
    if rest == [] {
    } else if |rest| <= PacketSize {
      var p := rest + ZeroBytes(PacketSize - |rest|);
      assert Continuations(rest) == [p];
      assert Flatten([p]) == p + Flatten([]);
    } else {
      var tail := rest[PacketSize..];
      ContinuationsShape(tail);
      var c := Continuations(rest);
      assert c == [rest[..PacketSize]] + Continuations(tail);
      assert c[1..] == Continuations(tail);
      var padding := PacketSize * |Continuations(tail)| - |tail|;
      calc {
        Flatten(c);
        rest[..PacketSize] + Flatten(Continuations(tail));
        rest[..PacketSize] + (tail + ZeroBytes(padding));
        { assert rest[..PacketSize] + tail == rest; }
        rest + ZeroBytes(padding);
      }
    }
  }

  /** A 64-byte slice boundary splits the continuation packets. */
  lemma {:induction false} ContinuationsAppend(a: seq<int>, b: seq<int>)
    requires |a| % PacketSize == 0
    ensures Continuations(a + b) == Continuations(a) + Continuations(b)
    decreases |a|
  {
    if a == [] {
      assert a + b == b;
    } else if |a + b| <= PacketSize {
      assert b == [] && a + b == a;
      assert a + ZeroBytes(0) == a;
    } else {
      assert (a + b)[..PacketSize] == a[..PacketSize];
      assert (a + b)[PacketSize..] == a[PacketSize..] + b;
      ContinuationsAppend(a[PacketSize..], b);
      if |a| == PacketSize {
        assert a + ZeroBytes(0) == a;
        assert a[..PacketSize] == a;
        assert a[PacketSize..] == [];
      }
    }
  }

  lemma ContinuationsBlock(blk: seq<int>)
    requires |blk| == PacketSize
    ensures Continuations(blk) == [blk]
  {
    assert blk + ZeroBytes(0) == blk;
  }

  lemma ContinuationsLast(tail: seq<int>)
    requires 0 < |tail| <= PacketSize
    ensures Continuations(tail) == [tail + ZeroBytes(PacketSize - |tail|)]
  {
  }

  // ---------------------------------------------------------------------------
  // Properties of the packets of one command

  /** Every packet the framer writes is exactly 64 bytes. */
  lemma PacketsFull(f: Frame)
    ensures forall i :: 0 <= i < |Packets(f)| ==> |Packets(f)[i]| == PacketSize
  {
    if HeaderSize + |f.data| >= 65 {
      ContinuationsShape(f.data[FirstPayload..]);
      var ps := Packets(f);
      forall i | 0 <= i < |ps| ensures |ps[i]| == PacketSize {
        if i > 0 {
          assert ps[i] == Continuations(f.data[FirstPayload..])[i - 1];
        }
      }
    }
  }

  /** One packet exactly when the payload is at most 58 bytes, otherwise one
      first packet and ceil((len(data) - 58) / 64) continuation packets. */
  lemma PacketCount(f: Frame)
    ensures |Packets(f)| == if |f.data| <= FirstPayload then 1
                            else 1 + (|f.data| - FirstPayload + PacketSize - 1) / PacketSize
    ensures |Packets(f)| == 1 <==> |f.data| <= FirstPayload
  {
    if |f.data| > FirstPayload {
      ContinuationsShape(f.data[FirstPayload..]);
    }
  }

  /** The first packet starts with the header: the direction flag, the sequence
      byte, `len(data) + 2` low byte then high byte, `com2`, `com1`. A payload
      of at most 58 bytes follows in full and is zero-padded; a longer one
      contributes its first 58 bytes. */
  lemma FirstPacket(f: Frame)
    requires Framable(f)
    ensures Packets(f)[0][..HeaderSize] ==
            [Flag(f.direction), f.sequenceByte, (|f.data| + 2) % 256, (|f.data| + 2) / 256, f.com2, f.com1]
    ensures |f.data| <= FirstPayload ==>
            Packets(f)[0][HeaderSize..] == f.data + ZeroBytes(FirstPayload - |f.data|)
    ensures |f.data| > FirstPayload ==> Packets(f)[0][HeaderSize..] == f.data[..FirstPayload]
  {
  }

  lemma FlattenCons(p: seq<int>, ps: seq<seq<int>>)
    ensures Flatten([p] + ps) == p + Flatten(ps)
  {
    assert ([p] + ps)[1..] == ps;
  }

  lemma PacketsFlatten(f: Frame)
    ensures var padding := PacketSize * |Packets(f)| - HeaderSize - |f.data|;
            0 <= padding < PacketSize &&
            Flatten(Packets(f)) == Header(f) + f.data + ZeroBytes(padding)
  {
    if HeaderSize + |f.data| < 65 {
      var p := Header(f) + f.data + ZeroBytes(PacketSize - HeaderSize - |f.data|);
      FlattenCons(p, []);
      assert p + [] == p;
    } else {
      var rest := f.data[FirstPayload..];
      ContinuationsShape(rest);
      var c := Continuations(rest);
      var padding := PacketSize * |c| - |rest|;
      var first := Header(f) + f.data[..FirstPayload];
      FlattenCons(first, c);
      assert f.data[..FirstPayload] + rest == f.data;
      assert first + (rest + ZeroBytes(padding)) == Header(f) + f.data + ZeroBytes(padding);
    }
  }

  /** Reassembly: the packets laid end to end are the header, then the whole
      payload in order, then fewer than 64 zero bytes of padding. */
  lemma Reassembly(f: Frame)
    ensures var s := Flatten(Packets(f));
            var padding := |s| - HeaderSize - |f.data|;
            |s| == PacketSize * |Packets(f)| &&
            0 <= padding < PacketSize &&
            s[..HeaderSize] == Header(f) &&
            s[HeaderSize..] == f.data + ZeroBytes(padding)
  {
    PacketsFlatten(f);
    var padding := PacketSize * |Packets(f)| - HeaderSize - |f.data|;
    var s := Flatten(Packets(f));
    assert s == Header(f) + (f.data + ZeroBytes(padding));
  }

  /** The boundary of the framing rule: 64 bytes of header and payload still go
      in one packet, 65 need two, and the second starts at payload offset 58. */
  lemma FramingBoundary(f: Frame)
    ensures HeaderSize + |f.data| == 64 ==> |Packets(f)| == 1
    ensures HeaderSize + |f.data| == 65 ==>
            Packets(f) == [Header(f) + f.data[..FirstPayload], [f.data[FirstPayload]] + ZeroBytes(PacketSize - 1)]
  {
    if HeaderSize + |f.data| == 65 {
      assert f.data[FirstPayload..] == [f.data[FirstPayload]];
    }
  }

  // ---------------------------------------------------------------------------
  // Sequences of commands

  lemma {:induction false} TransmitAppend(a: seq<Frame>, b: seq<Frame>)
    ensures Transmit(a + b) == Transmit(a) + Transmit(b)
    decreases |a|
  {
    if a == [] {
      assert a + b == b;
    } else {
      assert (a + b)[1..] == a[1..] + b;
      TransmitAppend(a[1..], b);
    }
  }

  /** Commands whose payloads fit in one packet each take exactly one packet,
      in command order. */
  lemma {:induction false} TransmitSingle(fs: seq<Frame>)
    requires forall i :: 0 <= i < |fs| ==> |fs[i].data| <= FirstPayload
    ensures |Transmit(fs)| == |fs|
    ensures forall i :: 0 <= i < |fs| ==> Transmit(fs)[i] == Packets(fs[i])[0]
    decreases |fs|
  {
    if fs != [] {
      TransmitSingle(fs[1..]);
      PacketCount(fs[0]);
      assert Transmit(fs) == Packets(fs[0]) + Transmit(fs[1..]);
    }
  }

}
